/** The `fix_encrypted_data` management command. For every record of six
    models it reads each encrypted attribute that is set, decrypts it with
    `decrypt_value` (which hands back anything that does not decrypt), and
    writes `encrypt_value` of the result back, then saves the record. With
    `--dry-run` it only counts the records it would fix. The tables are arrays
    of rows; a row holds the instance the command has in memory and what the
    table stores, which only `save()` changes. */
module Repair {
  import opened Wrappers
  import opened Values
  import Fernet
  import Encryption

  /** The attributes of a model instance, by name, as loaded. */
  type Instance = map<string, Value>

  /** One record: the instance in memory, and the attributes the table holds. */
  datatype Row = Row(instance: Instance, stored: Instance)

  datatype Model = Items | ItemList | Order | OrderItem | BookTable | Review
  {
    /** The text attributes a pass re-encrypts, in the order it visits them. */
    function TextFields(): (fs: seq<string>)
      ensures "price" !in fs
      ensures forall i, j :: 0 <= i < j < |fs| ==> fs[i] != fs[j]
    {
      match this
      case Items => ["name", "description"]
      case ItemList => ["Name"]
      case Order => ["customer_name", "customer_email", "customer_phone", "customer_address", "special_instructions"]
      case OrderItem => ["product_name", "extra_demands"]
      case BookTable => ["name", "email", "phone"]
      case Review => ["username", "description"]
    }

    /** Every pass saves the records it fixes, except the `ItemList` pass,
        which only counts them. */
    predicate Saves()
    {
      !ItemList?
    }
  }

  const Price: string := "price"

  /** What the command works with besides the records: the
      `FIELD_ENCRYPTION_KEY` setting, the cipher, and the nonce each
      `encrypt_value` call draws for an attribute of a record. */
  datatype Env = Env(setting: Option<string>, cipher: Fernet.Cipher, draw: (Model, nat, string) -> Fernet.Nonce)

  /** The key `decrypt_value` and `encrypt_value` resolve to. */
  function Key(env: Env): (r: Outcome<Fernet.Key>)
  {
    Encryption.HelperKey(None, env.setting)
  }

  /** What `decrypt_value` makes of a value when the key resolves. */
  function Plaintext(env: Env, v: Value): (r: Value)
    requires Key(env).Ok?
  {
    Encryption.DecryptValue(v, None, env.setting, env.cipher).value
  }

  /** Where a record's repair has got to: the instance so far, whether it
      needs fixing, and the exception that ended the pass, if one did. */
  datatype Step = Step(rec: Instance, needsFix: bool, failure: Option<Error>)

  /** How a pass ends: the count it reports, or the exception it reports. */
  datatype Report = Fixed(count: nat) | Failed(error: Error)

  // ---------------------------------------------------------------------------
  // One attribute

  /** One text attribute that is set: `decrypt_value`, then `encrypt_value` of
      what it returned; when `decrypt_value` raises, `encrypt_value` of the
      attribute itself, which raises in its turn. A dry run only records that
      the record needs fixing. */
  function FixText(env: Env, dry: bool, m: Model, idx: nat, rec: Instance, f: string): (s: Step)
    requires f in rec
    ensures s.needsFix
    ensures s.rec.Keys == rec.Keys
    ensures forall a :: a in rec && a != f ==> s.rec[a] == rec[a]
    ensures dry ==> s == Step(rec, true, None)
    ensures !dry ==> (s.failure.Some? <==> Key(env).Raise?)
    ensures s.failure.Some? ==> s.failure.value == Key(env).error && s.rec == rec
    ensures s.failure.None? && !dry ==> s.rec[f] == Str(Encryption.EncryptValue(Plaintext(env, rec[f]), None, env.setting, env.cipher, env.draw(m, idx, f)).value)
  {
    var n := env.draw(m, idx, f);
    match Encryption.DecryptValue(rec[f], None, env.setting, env.cipher)
    case Ok(d) =>
      if dry then Step(rec, true, None)
      else
        (match Encryption.EncryptValue(d, None, env.setting, env.cipher, n)
         case Ok(e) => Step(rec[f := Str(e)], true, None)
         case Raise(err) => Step(rec, true, Some(err)))
    case Raise(_) =>
      if dry then Step(rec, true, None)
      else
        match Encryption.EncryptValue(rec[f], None, env.setting, env.cipher, n)
        case Ok(e) => Step(rec[f := Str(e)], true, None)
        case Raise(err) => Step(rec, true, Some(err))
  }

  /** The `price` attribute of an `Items` record that is not `None`:
      `int(decrypt_value(str(price)))`, and `int(price)` when that raises;
      when `int(price)` raises too the pass ends. */
  function FixPrice(env: Env, dry: bool, rec: Instance): (s: Step)
    requires Price in rec
    ensures s.needsFix
    ensures s.rec.Keys == rec.Keys
    ensures forall a :: a in rec && a != Price ==> s.rec[a] == rec[a]
    ensures dry ==> s == Step(rec, true, None)
    ensures !dry && Key(env).Ok? && IntOf(Plaintext(env, Str(StrOf(rec[Price])))).Some? ==>
      s == Step(rec[Price := Int(IntOf(Plaintext(env, Str(StrOf(rec[Price])))).value)], true, None)
    ensures !dry && (Key(env).Raise? || IntOf(Plaintext(env, Str(StrOf(rec[Price])))).None?) && IntOf(rec[Price]).Some? ==>
      s == Step(rec[Price := Int(IntOf(rec[Price]).value)], true, None)
    ensures !dry && (Key(env).Raise? || IntOf(Plaintext(env, Str(StrOf(rec[Price])))).None?) && IntOf(rec[Price]).None? ==>
      s == Step(rec, true, Some(NotAnInteger))
  {
    var p := rec[Price];
    var fallback :=
      if dry then Step(rec, true, None)
      else
        match IntOf(p)
        case Some(j) => Step(rec[Price := Int(j)], true, None)
        case None => Step(rec, true, Some(NotAnInteger));
    match Encryption.DecryptValue(Str(StrOf(p)), None, env.setting, env.cipher)
    case Ok(d) =>
      if dry then Step(rec, true, None)
      else if IntOf(d).Some? then Step(rec[Price := Int(IntOf(d).value)], true, None)
      else fallback
    case Raise(_) => fallback
  }

  // ---------------------------------------------------------------------------
  // One record

  /** The text attributes `fs` of a record, in order, stopping at the first
      that raises. */
  function FixFields(env: Env, dry: bool, m: Model, idx: nat, fs: seq<string>, rec: Instance, needs: bool): (s: Step)
    ensures s.rec.Keys == rec.Keys
    ensures forall a :: a in rec && a !in fs ==> s.rec[a] == rec[a]
    ensures forall a :: a in rec && !Truthy(rec[a]) ==> s.rec[a] == rec[a]
    decreases |fs|
  {
    if fs == [] then Step(rec, needs, None)
    else if fs[0] in rec && Truthy(rec[fs[0]]) then
      var s := FixText(env, dry, m, idx, rec, fs[0]);
      if s.failure.Some? then s else FixFields(env, dry, m, idx, fs[1..], s.rec, true)
    else FixFields(env, dry, m, idx, fs[1..], rec, needs)
  }

  /** The repair of one record of model `m` at position `idx`. */
  function FixRecord(env: Env, dry: bool, m: Model, idx: nat, rec: Instance): (s: Step)
    ensures s.rec.Keys == rec.Keys
    ensures forall a :: a in rec && a !in m.TextFields() && (m.Items? ==> a != Price) ==> s.rec[a] == rec[a]
    ensures forall a :: a in rec && !Truthy(rec[a]) && (m.Items? && a == Price ==> rec[a].Null?) ==> s.rec[a] == rec[a]
  {
    var s := FixFields(env, dry, m, idx, m.TextFields(), rec, false);
    if s.failure.None? && m.Items? && Price in s.rec && !s.rec[Price].Null? then FixPrice(env, dry, s.rec)
    else s
  }

  /** One step of `FixFields`, from the `k`-th attribute on. */
  lemma FixFieldsStep(env: Env, dry: bool, m: Model, idx: nat, fs: seq<string>, k: nat, cur: Instance, needs: bool)
    requires k < |fs|
    ensures FixFields(env, dry, m, idx, fs[k..], cur, needs) ==
      if fs[k] in cur && Truthy(cur[fs[k]]) then
        var t := FixText(env, dry, m, idx, cur, fs[k]);
        if t.failure.Some? then t else FixFields(env, dry, m, idx, fs[k + 1..], t.rec, true)
      else FixFields(env, dry, m, idx, fs[k + 1..], cur, needs)
  {
    assert fs[k..][0] == fs[k] && fs[k..][1..] == fs[k + 1..];
  }

  /** The body of the loop over one record's attributes. */
  method RepairRecord(env: Env, dry: bool, m: Model, idx: nat, rec: Instance) returns (s: Step)
    ensures s == FixRecord(env, dry, m, idx, rec)
  {
    var fs := m.TextFields();
    var cur := rec;
    var needs := false;
    var k := 0;
    while k < |fs|
      invariant 0 <= k <= |fs|
      invariant FixFields(env, dry, m, idx, fs[k..], cur, needs) == FixFields(env, dry, m, idx, fs, rec, false)
    {
      var t := RepairAttribute(env, dry, m, idx, fs, k, cur, needs);
      if t.failure.Some? {
        RecordStopped(env, dry, m, idx, rec, t);
        return t;
      }
      cur, needs := t.rec, t.needsFix;
      k := k + 1;
    }
    assert fs[k..] == [];
    RecordFinished(env, dry, m, idx, rec, cur, needs);
    s := Step(cur, needs, None);
    if m.Items? && Price in cur && !cur[Price].Null? {
      s := FixPrice(env, dry, cur);
    }
  }

  /** The body of the loop over a record's attributes, for the `k`-th: the
      step that ends the record's repair, or the instance the rest of the
      attributes start from. */
  method RepairAttribute(env: Env, dry: bool, m: Model, idx: nat, fs: seq<string>, k: nat, cur: Instance, needs: bool)
      returns (t: Step)
    requires k < |fs|
    ensures t.failure.Some? ==> FixFields(env, dry, m, idx, fs[k..], cur, needs) == t
    ensures t.failure.None? ==> FixFields(env, dry, m, idx, fs[k..], cur, needs) == FixFields(env, dry, m, idx, fs[k + 1..], t.rec, t.needsFix)
  {
    FixFieldsStep(env, dry, m, idx, fs, k, cur, needs);
    var f := fs[k];
    if f in cur && Truthy(cur[f]) {
      t := FixText(env, dry, m, idx, cur, f);
    } else {
      t := Step(cur, needs, None);
    }
  }

  /** A record whose text attributes raise is left where they left it. */
  lemma RecordStopped(env: Env, dry: bool, m: Model, idx: nat, rec: Instance, t: Step)
    requires FixFields(env, dry, m, idx, m.TextFields(), rec, false) == t && t.failure.Some?
    ensures FixRecord(env, dry, m, idx, rec) == t
  {
  }

  /** A record whose text attributes all go through goes on to its price. */
  lemma RecordFinished(env: Env, dry: bool, m: Model, idx: nat, rec: Instance, cur: Instance, needs: bool)
    requires FixFields(env, dry, m, idx, m.TextFields(), rec, false) == Step(cur, needs, None)
    ensures FixRecord(env, dry, m, idx, rec) ==
      if m.Items? && Price in cur && !cur[Price].Null? then FixPrice(env, dry, cur) else Step(cur, needs, None)
  {
  }

  // ---------------------------------------------------------------------------
  // One table

  /** The repair of every record of a table, each taken on its own. */
  function Steps(m: Model, env: Env, dry: bool, rows: seq<Row>): (ss: seq<Step>)
    ensures |ss| == |rows|
    decreases |rows|
  {
    if rows == [] then []
    else Steps(m, env, dry, rows[..|rows| - 1]) + [FixRecord(env, dry, m, |rows| - 1, rows[|rows| - 1].instance)]
  }

  lemma {:induction false} StepsAt(m: Model, env: Env, dry: bool, rows: seq<Row>, j: nat)
    requires j < |rows|
    ensures Steps(m, env, dry, rows)[j] == FixRecord(env, dry, m, j, rows[j].instance)
    decreases |rows|
  {
    if j < |rows| - 1 {
      StepsAt(m, env, dry, rows[..|rows| - 1], j);
    }
  }

  /** A row once its record has been repaired: the instance as the repair left
      it, and, when the record needed fixing and the pass saves, that
      instance stored. */
  function Apply(m: Model, dry: bool, row: Row, s: Step): (r: Row)
  {
    if s.failure.None? && s.needsFix && !dry && m.Saves() then Row(s.rec, s.rec) else Row(s.rec, row.stored)
  }

  /** The first position from `i` on whose repair raises; `|ss|` if none. */
  function FirstFailure(ss: seq<Step>, i: nat): (f: nat)
    requires i <= |ss|
    ensures i <= f <= |ss|
    ensures f < |ss| ==> ss[f].failure.Some?
    ensures forall j :: i <= j < f ==> ss[j].failure.None?
    decreases |ss| - i
  {
    if i == |ss| then |ss|
    else if ss[i].failure.Some? then i
    else FirstFailure(ss, i + 1)
  }

  /** How many of the first `n` records need fixing. */
  function Count(ss: seq<Step>, n: nat): (r: nat)
    requires n <= |ss|
  {
    if n == 0 then 0 else Count(ss, n - 1) + (if ss[n - 1].needsFix then 1 else 0)
  }

  /** How many rows a pass whose records repair as `ss` says gets through:
      all of them, or up to and including the first that raises. */
  function Reached(ss: seq<Step>): (n: nat)
    ensures n <= |ss|
  {
    var f := FirstFailure(ss, 0);
    if f < |ss| then f + 1 else |ss|
  }

  /** The table after a pass whose records repair as `ss` says: every row it
      gets through is repaired; the rows after it are left alone. */
  function Replay(m: Model, dry: bool, rows: seq<Row>, ss: seq<Step>): (r: seq<Row>)
    requires |ss| == |rows|
    ensures |r| == |rows|
  {
    Partial(m, dry, rows, ss, Reached(ss))
  }

  /** What a pass whose records repair as `ss` says reports. */
  function Summary(ss: seq<Step>): (r: Report)
  {
    var f := FirstFailure(ss, 0);
    if f < |ss| then Failed(ss[f].failure.value) else Fixed(Count(ss, |ss|))
  }

  /** The table after one `fix_*_data` pass. */
  function PassRows(m: Model, env: Env, dry: bool, rows: seq<Row>): (r: seq<Row>)
    ensures |r| == |rows|
  {
    Replay(m, dry, rows, Steps(m, env, dry, rows))
  }

  /** What one `fix_*_data` pass reports. */
  function PassReport(m: Model, env: Env, dry: bool, rows: seq<Row>): (r: Report)
  {
    Summary(Steps(m, env, dry, rows))
  }

  /** The table while a pass is under way: the first `i` rows repaired, the
      others as they were. */
  function Partial(m: Model, dry: bool, start: seq<Row>, ss: seq<Step>, i: nat): (r: seq<Row>)
    requires |ss| == |start| && i <= |start|
    ensures |r| == |start|
  {
    if i == 0 then start else Partial(m, dry, start, ss, i - 1)[i - 1 := Apply(m, dry, start[i - 1], ss[i - 1])]
  }

  lemma {:induction false} PartialAt(m: Model, dry: bool, start: seq<Row>, ss: seq<Step>, i: nat, j: nat)
    requires |ss| == |start| && i <= |start| && j < |start|
    ensures Partial(m, dry, start, ss, i)[j] == if j < i then Apply(m, dry, start[j], ss[j]) else start[j]
  {
    if i > 0 {
      PartialAt(m, dry, start, ss, i - 1, j);
    }
  }

  /** Row `j` after a pass: repaired when the pass got that far. */
  lemma ReplayAt(m: Model, dry: bool, rows: seq<Row>, ss: seq<Step>, j: nat)
    requires |ss| == |rows| && j < |rows|
    ensures Replay(m, dry, rows, ss)[j] == if j <= FirstFailure(ss, 0) then Apply(m, dry, rows[j], ss[j]) else rows[j]
  {
    PartialAt(m, dry, rows, ss, Reached(ss), j);
  }

  /** The repair of the record at position `i` of a table, written back to
      the table. */
  method RepairRow(m: Model, env: Env, dry: bool, rows: array<Row>, ghost start: seq<Row>, ghost ss: seq<Step>, i: nat)
      returns (s: Step)
    requires ss == Steps(m, env, dry, start)
    requires i < rows.Length == |start| && rows[..] == Partial(m, dry, start, ss, i)
    modifies rows
    ensures s == ss[i]
    ensures rows[..] == Partial(m, dry, start, ss, i + 1)
  {
    PartialAt(m, dry, start, ss, i, i);
    var row := rows[i];
    s := RepairRecord(env, dry, m, i, row.instance);
    StepsAt(m, env, dry, start, i);
    rows[i] := Apply(m, dry, row, s);
  }

  /** One `fix_*_data` pass over a table. */
  method RunPass(m: Model, env: Env, dry: bool, rows: array<Row>) returns (report: Report)
    modifies rows
    ensures rows[..] == PassRows(m, env, dry, old(rows[..]))
    ensures report == PassReport(m, env, dry, old(rows[..]))
  {
    ghost var start := rows[..];
    ghost var ss := Steps(m, env, dry, start);
    ghost var f := FirstFailure(ss, 0);
    var count := 0;
    var i := 0;
    while i < rows.Length
      invariant 0 <= i <= rows.Length
      invariant FirstFailure(ss, i) == f
      invariant count == Count(ss, i)
      invariant rows[..] == Partial(m, dry, start, ss, i)
    {
      var s := RepairRow(m, env, dry, rows, start, ss, i);
      if s.failure.Some? {
        report := Failed(s.failure.value);
        PassStopped(m, env, dry, start, ss, i);
        return;
      }
      if s.needsFix {
        count := count + 1;
      }
      i := i + 1;
    }
    report := Fixed(count);
    PassCompleted(m, env, dry, start, ss);
  }

  /** A pass that ends at the first row whose repair raises has repaired the
      rows up to it and reports that exception. */
  lemma PassStopped(m: Model, env: Env, dry: bool, start: seq<Row>, ss: seq<Step>, i: nat)
    requires ss == Steps(m, env, dry, start)
    requires i < |start| && ss[i].failure.Some? && FirstFailure(ss, i) == FirstFailure(ss, 0)
    ensures PassRows(m, env, dry, start) == Partial(m, dry, start, ss, i + 1)
    ensures PassReport(m, env, dry, start) == Failed(ss[i].failure.value)
  {
  }

  /** A pass that gets through every row reports how many needed fixing. */
  lemma PassCompleted(m: Model, env: Env, dry: bool, start: seq<Row>, ss: seq<Step>)
    requires ss == Steps(m, env, dry, start)
    requires FirstFailure(ss, |start|) == FirstFailure(ss, 0)
    ensures PassRows(m, env, dry, start) == Partial(m, dry, start, ss, |start|)
    ensures PassReport(m, env, dry, start) == Fixed(Count(ss, |start|))
  {
  }

  /** Whether no two of the tables are the same array. */
  predicate Separate(a: array<Row>, b: array<Row>, c: array<Row>, d: array<Row>, e: array<Row>, f: array<Row>)
  {
    && a != b && a != c && a != d && a != e && a != f
    && b != c && b != d && b != e && b != f
    && c != d && c != e && c != f
    && d != e && d != f
    && e != f
  }

  /** `handle`: the six passes in order, each over its own table, each
      reporting on its own whatever the others did. */
  method Handle(dry: bool, env: Env, items: array<Row>, itemLists: array<Row>, orders: array<Row>,
                orderItems: array<Row>, bookTables: array<Row>, reviews: array<Row>) returns (reports: seq<Report>)
    requires Separate(items, itemLists, orders, orderItems, bookTables, reviews)
    modifies items, itemLists, orders, orderItems, bookTables, reviews
    ensures items[..] == PassRows(Items, env, dry, old(items[..]))
    ensures itemLists[..] == PassRows(ItemList, env, dry, old(itemLists[..]))
    ensures orders[..] == PassRows(Order, env, dry, old(orders[..]))
    ensures orderItems[..] == PassRows(OrderItem, env, dry, old(orderItems[..]))
    ensures bookTables[..] == PassRows(BookTable, env, dry, old(bookTables[..]))
    ensures reviews[..] == PassRows(Review, env, dry, old(reviews[..]))
    ensures reports == [PassReport(Items, env, dry, old(items[..])), PassReport(ItemList, env, dry, old(itemLists[..])),
                        PassReport(Order, env, dry, old(orders[..])), PassReport(OrderItem, env, dry, old(orderItems[..])),
                        PassReport(BookTable, env, dry, old(bookTables[..])), PassReport(Review, env, dry, old(reviews[..]))]
  {
    var r1 := RunPass(Items, env, dry, items);
    var r2 := RunPass(ItemList, env, dry, itemLists);
    var r3 := RunPass(Order, env, dry, orders);
    var r4 := RunPass(OrderItem, env, dry, orderItems);
    var r5 := RunPass(BookTable, env, dry, bookTables);
    var r6 := RunPass(Review, env, dry, reviews);
    reports := [r1, r2, r3, r4, r5, r6];
  }

  // ---------------------------------------------------------------------------
  // Properties of one record

  /** Whether one of the attributes `fs` is set. */
  predicate AnySet(rec: Instance, fs: seq<string>)
    decreases |fs|
  {
    fs != [] && ((fs[0] in rec && Truthy(rec[fs[0]])) || AnySet(rec, fs[1..]))
  }

  /** Whether a pass counts a record: one of its text attributes is set, or,
      for `Items`, its price is not `None`. */
  predicate NeedsFix(m: Model, rec: Instance)
  {
    AnySet(rec, m.TextFields()) || (m.Items? && Price in rec && !rec[Price].Null?)
  }

  lemma {:induction false} FixFieldsDry(env: Env, m: Model, idx: nat, fs: seq<string>, rec: Instance, needs: bool)
    ensures FixFields(env, true, m, idx, fs, rec, needs) == Step(rec, needs || AnySet(rec, fs), None)
    decreases |fs|
  {
    if fs != [] {
      if fs[0] in rec && Truthy(rec[fs[0]]) {
        FixFieldsDry(env, m, idx, fs[1..], rec, true);
      } else {
        FixFieldsDry(env, m, idx, fs[1..], rec, needs);
      }
    }
  }

  lemma {:induction false} FixFieldsOutcome(env: Env, m: Model, idx: nat, fs: seq<string>, rec: Instance, needs: bool)
    ensures FixFields(env, false, m, idx, fs, rec, needs).failure.Some? <==> Key(env).Raise? && AnySet(rec, fs)
    ensures FixFields(env, false, m, idx, fs, rec, needs).failure.Some? ==> FixFields(env, false, m, idx, fs, rec, needs).failure.value == Key(env).error
    ensures FixFields(env, false, m, idx, fs, rec, needs).failure.None? ==> FixFields(env, false, m, idx, fs, rec, needs).needsFix == (needs || AnySet(rec, fs))
    decreases |fs|
  {
    if fs != [] {
      if fs[0] in rec && Truthy(rec[fs[0]]) {
        var t := FixText(env, false, m, idx, rec, fs[0]);
        if t.failure.None? {
          FixFieldsOutcome(env, m, idx, fs[1..], t.rec, true);
        }
      } else {
        FixFieldsOutcome(env, m, idx, fs[1..], rec, needs);
      }
    }
  }

  lemma {:induction false} FixFieldsValue(env: Env, m: Model, idx: nat, fs: seq<string>, rec: Instance, needs: bool, f: string)
    requires Key(env).Ok?
    requires forall i, j :: 0 <= i < j < |fs| ==> fs[i] != fs[j]
    requires f in rec && f in fs && Truthy(rec[f])
    ensures FixFields(env, false, m, idx, fs, rec, needs).rec[f]
         == Str(Encryption.EncryptValue(Plaintext(env, rec[f]), None, env.setting, env.cipher, env.draw(m, idx, f)).value)
    decreases |fs|
  {
    if fs[0] == f {
      var t := FixText(env, false, m, idx, rec, f);
      assert f !in fs[1..];
    } else if fs[0] in rec && Truthy(rec[fs[0]]) {
      var t := FixText(env, false, m, idx, rec, fs[0]);
      FixFieldsValue(env, m, idx, fs[1..], t.rec, true, f);
    } else {
      FixFieldsValue(env, m, idx, fs[1..], rec, needs, f);
    }
  }

  /** A dry run changes no record, never raises, and counts exactly the
      records with an attribute set. */
  lemma DryRecord(env: Env, m: Model, idx: nat, rec: Instance)
    ensures FixRecord(env, true, m, idx, rec) == Step(rec, NeedsFix(m, rec), None)
  {
    FixFieldsDry(env, m, idx, m.TextFields(), rec, false);
  }

  /** When a real repair raises: for the text attributes, exactly when the key
      does not resolve and an attribute is set; otherwise only `int(price)`
      of an `Items` record. A repair that does not raise counts the record
      exactly when an attribute is set. */
  lemma RecordOutcome(env: Env, m: Model, idx: nat, rec: Instance)
    ensures !m.Items? ==> (FixRecord(env, false, m, idx, rec).failure.Some? <==> Key(env).Raise? && AnySet(rec, m.TextFields()))
    ensures FixRecord(env, false, m, idx, rec).failure.Some? ==>
      (Key(env).Raise? && FixRecord(env, false, m, idx, rec).failure.value == Key(env).error) ||
      (m.Items? && FixRecord(env, false, m, idx, rec).failure.value == NotAnInteger)
    ensures FixRecord(env, false, m, idx, rec).failure.None? ==> FixRecord(env, false, m, idx, rec).needsFix == NeedsFix(m, rec)
  {
    FixFieldsOutcome(env, m, idx, m.TextFields(), rec, false);
  }

  /** A real repair replaces every set text attribute with a fresh envelope of
      what `decrypt_value` made of it, so decrypting the new value gives the
      text decrypting the old one gave. */
  lemma RecordKeepsPlaintext(env: Env, m: Model, idx: nat, rec: Instance, f: string)
    requires Fernet.Sound(env.cipher)
    requires Key(env).Ok?
    requires FixRecord(env, false, m, idx, rec).failure.None?
    requires f in m.TextFields() && f in rec && Truthy(rec[f])
    ensures FixRecord(env, false, m, idx, rec).rec[f].Str?
    ensures Encryption.DecryptValue(FixRecord(env, false, m, idx, rec).rec[f], None, env.setting, env.cipher)
         == Ok(Str(StrOf(Plaintext(env, rec[f]))))
  {
    FixFieldsValue(env, m, idx, m.TextFields(), rec, false, f);
    Encryption.HelperRoundTrip(Plaintext(env, rec[f]), None, env.setting, env.cipher, env.draw(m, idx, f));
  }

  /** A real repair of an `Items` record that does not raise stores as its
      price `int(decrypt_value(str(price)))`, or `int(price)` when that raises;
      an integer price with fewer than 131 digits is kept as it is. */
  lemma PriceBecomesInteger(env: Env, idx: nat, rec: Instance)
    requires Fernet.Sound(env.cipher)
    requires FixRecord(env, false, Items, idx, rec).failure.None?
    requires Price in rec && !rec[Price].Null?
    ensures FixRecord(env, false, Items, idx, rec).rec[Price].Int?
    ensures Key(env).Ok? && IntOf(Plaintext(env, Str(StrOf(rec[Price])))).Some? ==>
      FixRecord(env, false, Items, idx, rec).rec[Price] == Int(IntOf(Plaintext(env, Str(StrOf(rec[Price])))).value)
    ensures Key(env).Raise? || IntOf(Plaintext(env, Str(StrOf(rec[Price])))).None? ==>
      IntOf(rec[Price]).Some? && FixRecord(env, false, Items, idx, rec).rec[Price] == Int(IntOf(rec[Price]).value)
    ensures rec[Price].Int? && |StrOf(rec[Price])| <= 130 ==> FixRecord(env, false, Items, idx, rec).rec[Price] == rec[Price]
  {
    var p := rec[Price];
    if p.Int? && |StrOf(p)| <= 130 && Key(env).Ok? {
      Encryption.ShortTextNeverOpens(env.cipher, Key(env).value, StrOf(p));
      IntOfStrOfInt(p.i);
    }
  }

  /** When a real repair of an `Items` record raises `NotAnInteger`: exactly
      when the text attributes go through and neither
      `int(decrypt_value(str(price)))` nor `int(price)` succeeds. */
  lemma ItemsPriceFailure(env: Env, idx: nat, rec: Instance)
    ensures FixRecord(env, false, Items, idx, rec).failure == Some(NotAnInteger) <==>
      !(Key(env).Raise? && AnySet(rec, Items.TextFields())) && Price in rec && !rec[Price].Null? &&
      (Key(env).Raise? || IntOf(Plaintext(env, Str(StrOf(rec[Price])))).None?) && IntOf(rec[Price]).None?
  {
    FixFieldsOutcome(env, Items, idx, Items.TextFields(), rec, false);
    KeyErrors(env);
  }

  /** Resolving the key raises `ImproperlyConfigured` or `InvalidKey`, never
      `NotAnInteger`. */
  lemma KeyErrors(env: Env)
    ensures Key(env).Raise? ==> Key(env).error != NotAnInteger
  {
  }

  // ---------------------------------------------------------------------------
  // Properties of a pass

  /** How many of the first `n` rows have an attribute set. */
  function Needing(m: Model, rows: seq<Row>, n: nat): (r: nat)
    requires n <= |rows|
  {
    if n == 0 then 0 else Needing(m, rows, n - 1) + (if NeedsFix(m, rows[n - 1].instance) then 1 else 0)
  }

  lemma {:induction false} NoFailure(ss: seq<Step>, i: nat)
    requires i <= |ss|
    requires forall j :: i <= j < |ss| ==> ss[j].failure.None?
    ensures FirstFailure(ss, i) == |ss|
    decreases |ss| - i
  {
    if i < |ss| {
      NoFailure(ss, i + 1);
    }
  }

  lemma {:induction false} CountNeeding(m: Model, rows: seq<Row>, ss: seq<Step>, n: nat)
    requires |ss| == |rows| && n <= |rows|
    requires forall j :: 0 <= j < n ==> ss[j].needsFix == NeedsFix(m, rows[j].instance)
    ensures Count(ss, n) == Needing(m, rows, n)
  {
    if n > 0 {
      CountNeeding(m, rows, ss, n - 1);
    }
  }

  /** A dry run leaves every table as it was and reports the number of
      records with an attribute set. */
  lemma DryRunChangesNothing(m: Model, env: Env, rows: seq<Row>)
    ensures PassRows(m, env, true, rows) == rows
    ensures PassReport(m, env, true, rows) == Fixed(Needing(m, rows, |rows|))
  {
    var ss := Steps(m, env, true, rows);
    forall j | 0 <= j < |rows|
      ensures ss[j] == Step(rows[j].instance, NeedsFix(m, rows[j].instance), None)
    {
      StepsAt(m, env, true, rows, j);
      DryRecord(env, m, j, rows[j].instance);
    }
    NoFailure(ss, 0);
    CountNeeding(m, rows, ss, |rows|);
    forall j | 0 <= j < |rows|
      ensures PassRows(m, env, true, rows)[j] == rows[j]
    {
      ReplayAt(m, true, rows, ss, j);
    }
  }

  /** A real pass that does not raise reports the count the dry run reports. */
  lemma DryRunPredictsCount(m: Model, env: Env, rows: seq<Row>)
    requires PassReport(m, env, false, rows).Fixed?
    ensures PassReport(m, env, false, rows) == PassReport(m, env, true, rows)
  {
    var ss := Steps(m, env, false, rows);
    forall j | 0 <= j < |rows|
      ensures ss[j].needsFix == NeedsFix(m, rows[j].instance)
    {
      StepsAt(m, env, false, rows, j);
      RecordOutcome(env, m, j, rows[j].instance);
    }
    CountNeeding(m, rows, ss, |rows|);
    DryRunChangesNothing(m, env, rows);
  }

  /** What ends a real pass: the key not resolving, or, in the `Items` pass
      only, a price `int()` refuses. With a key that resolves, every other
      pass completes. */
  lemma PassFailure(m: Model, env: Env, rows: seq<Row>)
    ensures PassReport(m, env, false, rows).Failed? ==>
      (Key(env).Raise? && PassReport(m, env, false, rows).error == Key(env).error) ||
      (m.Items? && PassReport(m, env, false, rows).error == NotAnInteger)
    ensures Key(env).Ok? && !m.Items? ==> PassReport(m, env, false, rows).Fixed?
  {
    var ss := Steps(m, env, false, rows);
    var f := FirstFailure(ss, 0);
    if f < |rows| {
      StepsAt(m, env, false, rows, f);
      RecordOutcome(env, m, f, rows[f].instance);
    }
  }

  /** A pass either leaves a row's stored attributes alone or stores the
      repaired instance; a dry run, and the `ItemList` pass, store nothing. */
  lemma PassStores(m: Model, env: Env, dry: bool, rows: seq<Row>, j: nat)
    requires j < |rows|
    ensures PassRows(m, env, dry, rows)[j].stored == rows[j].stored
         || (!dry && m.Saves() && PassRows(m, env, dry, rows)[j].stored == PassRows(m, env, dry, rows)[j].instance)
    ensures (dry || !m.Saves()) ==> PassRows(m, env, dry, rows)[j].stored == rows[j].stored
  {
    ReplayAt(m, dry, rows, Steps(m, env, dry, rows), j);
  }

  /** After a real pass that does not raise, a saving pass has stored the
      repaired instance of every record with an attribute set, and left every
      other row exactly as it was. */
  lemma PassSavesCounted(m: Model, env: Env, rows: seq<Row>, j: nat)
    requires PassReport(m, env, false, rows).Fixed?
    requires m.Saves()
    requires j < |rows|
    ensures NeedsFix(m, rows[j].instance) ==> PassRows(m, env, false, rows)[j].stored == PassRows(m, env, false, rows)[j].instance
    ensures !NeedsFix(m, rows[j].instance) ==> PassRows(m, env, false, rows)[j] == rows[j]
  {
    var ss := Steps(m, env, false, rows);
    StepsAt(m, env, false, rows, j);
    ReplayAt(m, false, rows, ss, j);
    RecordOutcome(env, m, j, rows[j].instance);
    if !NeedsFix(m, rows[j].instance) {
      UntouchedRecord(env, m, j, rows[j].instance);
    }
  }

  /** A record with no attribute set comes out of a repair as it went in. */
  lemma UntouchedRecord(env: Env, m: Model, idx: nat, rec: Instance)
    requires !NeedsFix(m, rec)
    ensures FixRecord(env, false, m, idx, rec).rec == rec
  {
    forall a | a in rec
      ensures FixRecord(env, false, m, idx, rec).rec[a] == rec[a]
    {
      if a in m.TextFields() {
        NotSetKept(env, m, idx, m.TextFields(), rec, false, a);
      }
    }
  }

  lemma {:induction false} NotSetKept(env: Env, m: Model, idx: nat, fs: seq<string>, rec: Instance, needs: bool, a: string)
    requires !AnySet(rec, fs)
    requires a in rec
    ensures FixFields(env, false, m, idx, fs, rec, needs).rec[a] == rec[a]
    decreases |fs|
  {
    if fs != [] {
      NotSetKept(env, m, idx, fs[1..], rec, needs, a);
    }
  }

  /** After a real pass that does not raise, every set text attribute of a
      saved record is stored as an envelope that decrypts to the text the old
      value decrypted to. */
  lemma PassKeepsPlaintext(m: Model, env: Env, rows: seq<Row>, j: nat, f: string)
    requires Fernet.Sound(env.cipher)
    requires Key(env).Ok?
    requires PassReport(m, env, false, rows).Fixed?
    requires m.Saves()
    requires j < |rows| && f in m.TextFields() && f in rows[j].instance && Truthy(rows[j].instance[f])
    ensures f in PassRows(m, env, false, rows)[j].stored
    ensures Encryption.DecryptValue(PassRows(m, env, false, rows)[j].stored[f], None, env.setting, env.cipher)
         == Ok(Str(StrOf(Plaintext(env, rows[j].instance[f]))))
  {
    var ss := Steps(m, env, false, rows);
    StepsAt(m, env, false, rows, j);
    ReplayAt(m, false, rows, ss, j);
    var rec := rows[j].instance;
    RecordOutcome(env, m, j, rec);
    RecordKeepsPlaintext(env, m, j, rec, f);
    assert NeedsFix(m, rec) by {
      AnySetWitness(rec, m.TextFields(), f);
    }
  }

  lemma {:induction false} AnySetWitness(rec: Instance, fs: seq<string>, f: string)
    requires f in fs && f in rec && Truthy(rec[f])
    ensures AnySet(rec, fs)
    decreases |fs|
  {
    if fs[0] != f {
      AnySetWitness(rec, fs[1..], f);
    }
  }
}
