/** core_runtime/core/audit_event.py: normalised payloads and content-derived audit events. */
module AuditEvents {
  import opened Hashing
  import opened Results
  import opened Ordering
  import opened PyText
  import opened Canonicalization

  // ---- _normalize_value ------------------------------------------------------------

  /** A dictionary key: a string, or another object that str() turns into a text. */
  datatype DictKey = StrKey(text: string) | OtherKey(id: int, text: string)

  /** A Python value before normalisation.  A set lists its items in iteration order. */
  datatype PyVal =
    | PNone
    | PBool(b: bool)
    | PInt(i: int)
    | PFloat(lexeme: string)
    | PStr(s: string)
    | PEnum(value: string)
    | PDict(items: seq<PyItem>)
    | PList(elements: seq<PyVal>)
    | PTuple(elements: seq<PyVal>)
    | PSet(elements: seq<PyVal>)

  datatype PyItem = PyItem(key: DictKey, value: PyVal)

  /** sha256(...).hexdigest() of a text, and quantize_float on reprs. */
  datatype Runtime = Runtime(sha256: string -> string, quantize: string -> string)

  /** Rounding twice is rounding once, and gives a float. */
  ghost predicate Quantizes(rt: Runtime) {
    forall x :: IsFloatLexeme(x) ==> IsFloatLexeme(rt.quantize(x)) && rt.quantize(rt.quantize(x)) == rt.quantize(x)
  }

  /** A dict comprehension over sorted items: of equal keys the last value stays. */
  function LastOfEachKey(members: seq<Member>): seq<Member> {
    if |members| <= 1 then members
    else if members[0].key == members[1].key then LastOfEachKey(members[1..])
    else [members[0]] + LastOfEachKey(members[1..])
  }

  /** sorted(..., key=canonical_json) */
  predicate TextLeq(a: Json, b: Json) { StrLeq(Dumps(a), Dumps(b)) }

  function Normalize(rt: Runtime, v: PyVal): Json {
    match v
    case PNone => Null
    case PBool(b) => Bool(b)
    case PInt(i) => Int(i)
    case PFloat(lexeme) => Float(rt.quantize(lexeme))
    case PStr(s) => Str(s)
    case PEnum(value) => Str(value)
    case PDict(items) =>
      Obj(LastOfEachKey(SortBy(
        seq(|items|, i requires 0 <= i < |items| => Member(items[i].key.text, Normalize(rt, items[i].value))),
        ByKey(StrLeq))))
    case PList(elements) => Arr(seq(|elements|, i requires 0 <= i < |elements| => Normalize(rt, elements[i])))
    case PTuple(elements) => Arr(seq(|elements|, i requires 0 <= i < |elements| => Normalize(rt, elements[i])))
    case PSet(elements) =>
      Arr(SortBy(seq(|elements|, i requires 0 <= i < |elements| => Normalize(rt, elements[i])), TextLeq))
  }

  /** The floats of the value are floats. */
  ghost predicate FloatsOk(v: PyVal) {
    match v
    case PFloat(lexeme) => IsFloatLexeme(lexeme)
    case PDict(items) => forall i :: 0 <= i < |items| ==> FloatsOk(items[i].value)
    case PList(elements) => forall i :: 0 <= i < |elements| ==> FloatsOk(elements[i])
    case PTuple(elements) => forall i :: 0 <= i < |elements| ==> FloatsOk(elements[i])
    case PSet(elements) => forall i :: 0 <= i < |elements| ==> FloatsOk(elements[i])
    case _ => true
  }

  /** Normal values: floats are quantised, and dictionaries list distinct keys in order. */
  ghost predicate Normal(rt: Runtime, j: Json) {
    match j
    case Float(lexeme) => IsFloatLexeme(lexeme) && rt.quantize(lexeme) == lexeme
    case Arr(items) => forall i :: 0 <= i < |items| ==> Normal(rt, items[i])
    case Obj(members) =>
      && Distinct(Keys(members)) && SortedBy(members, ByKey(StrLeq))
      && forall i :: 0 <= i < |members| ==> Normal(rt, members[i].value)
    case _ => true
  }

  /** A normalised value, seen again as a Python value. */
  function Embed(j: Json): PyVal {
    match j
    case Null => PNone
    case Bool(b) => PBool(b)
    case Int(i) => PInt(i)
    case Float(lexeme) => PFloat(lexeme)
    case Str(s) => PStr(s)
    case Arr(items) => PList(seq(|items|, i requires 0 <= i < |items| => Embed(items[i])))
    case Obj(members) =>
      PDict(seq(|members|, i requires 0 <= i < |members| => PyItem(StrKey(members[i].key), Embed(members[i].value))))
  }

  function NormalizeAll(rt: Runtime, elements: seq<PyVal>): seq<Json> {
    seq(|elements|, i requires 0 <= i < |elements| => Normalize(rt, elements[i]))
  }

  function NormalizeItems(rt: Runtime, items: seq<PyItem>): seq<Member> {
    seq(|items|, i requires 0 <= i < |items| => Member(items[i].key.text, Normalize(rt, items[i].value)))
  }

  lemma {:induction false} LastOfEachKeyNormal(members: seq<Member>)
    requires SortedBy(members, ByKey(StrLeq))
    ensures var r := LastOfEachKey(members);
            && SortedBy(r, ByKey(StrLeq)) && Distinct(Keys(r))
            && (members != [] ==> r != [] && r[0].key == members[0].key)
            && (forall m :: m in r ==> m in members)
  {
    if |members| > 1 {
      var tail := members[1..];
      LastOfEachKeyNormal(tail);
      var t, r := LastOfEachKey(tail), LastOfEachKey(members);
      assert ByKey(StrLeq)(members[0], members[1]);
      if members[0].key != members[1].key {
        assert r == [members[0]] + t;
        forall i | 0 <= i < |t| ensures ByKey(StrLeq)(members[0], t[i]) && members[0].key != t[i].key {
          assert t[i] in t && t[i] in tail;
          var k := IndexOf(tail, t[i]);
          assert ByKey(StrLeq)(members[0], members[k + 1]);
          if k > 0 { assert ByKey(StrLeq)(members[1], members[k + 1]); }
          StrOrder(members[0].key, members[1].key);
        }
        forall i, j | 0 <= i < j < |r| ensures ByKey(StrLeq)(r[i], r[j]) && r[i].key != r[j].key {
          if i > 0 {
            assert ByKey(StrLeq)(t[i - 1], t[j - 1]) && Keys(t)[i - 1] != Keys(t)[j - 1];
          }
        }
      }
    }
  }

  /** A dictionary with distinct keys loses nothing. */
  lemma {:induction false} LastOfEachKeyKeeps(members: seq<Member>)
    requires Distinct(Keys(members))
    ensures LastOfEachKey(members) == members
  {
    if |members| > 1 {
      assert Keys(members)[0] != Keys(members)[1];
      assert Keys(members[1..]) == Keys(members)[1..];
      LastOfEachKeyKeeps(members[1..]);
    }
  }

  lemma {:induction false} NormalizeIsNormal(rt: Runtime, v: PyVal)
    requires Quantizes(rt) && FloatsOk(v)
    ensures Normal(rt, Normalize(rt, v))
    decreases v
  {
    match v {
      case PDict(items) =>
        var members := NormalizeItems(rt, items);
        var s := SortBy(members, ByKey(StrLeq));
        StrKeyOrder();
        ByKeyOrder(StrLeq);
        SortSorts(members, ByKey(StrLeq));
        SortMembers(members, ByKey(StrLeq));
        LastOfEachKeyNormal(s);
        var r := LastOfEachKey(s);
        forall i | 0 <= i < |r| ensures Normal(rt, r[i].value) {
          assert r[i] in r && r[i] in members;
          var k := IndexOf(members, r[i]);
          NormalizeIsNormal(rt, items[k].value);
        }
        assert Normalize(rt, v) == Obj(r);
      case PList(elements) =>
        forall i | 0 <= i < |elements| ensures Normal(rt, Normalize(rt, elements[i])) {
          NormalizeIsNormal(rt, elements[i]);
        }
      case PTuple(elements) =>
        forall i | 0 <= i < |elements| ensures Normal(rt, Normalize(rt, elements[i])) {
          NormalizeIsNormal(rt, elements[i]);
        }
      case PSet(elements) =>
        var all := NormalizeAll(rt, elements);
        var r := SortBy(all, TextLeq);
        SortMembers(all, TextLeq);
        forall i | 0 <= i < |r| ensures Normal(rt, r[i]) {
          assert r[i] in r;
          var k := IndexOf(all, r[i]);
          NormalizeIsNormal(rt, elements[k]);
        }
        assert Normalize(rt, v) == Arr(r);
      case _ =>
    }
  }

  /** Normal values are fixed points. */
  lemma {:induction false} NormalIsFixed(rt: Runtime, j: Json)
    requires Normal(rt, j)
    ensures Normalize(rt, Embed(j)) == j
    decreases j
  {
    match j {
      case Arr(items) =>
        var back := Normalize(rt, Embed(j));
        forall i | 0 <= i < |items| ensures back.items[i] == items[i] { NormalIsFixed(rt, items[i]); }
        assert back.items == items;
      case Obj(members) =>
        var items := Embed(j).items;
        forall i | 0 <= i < |members| ensures NormalizeItems(rt, items)[i] == members[i] {
          NormalIsFixed(rt, members[i].value);
        }
        assert NormalizeItems(rt, items) == members;
        SortKeepsSorted(members, ByKey(StrLeq));
        LastOfEachKeyKeeps(members);
        assert Normalize(rt, Embed(j)) == Obj(members);
      case _ =>
    }
  }

  /** Normalising twice is normalising once. */
  lemma {:induction false} NormalizeTwice(rt: Runtime, v: PyVal)
    requires Quantizes(rt) && FloatsOk(v)
    ensures Normalize(rt, Embed(Normalize(rt, v))) == Normalize(rt, v)
  {
    NormalizeIsNormal(rt, v);
    NormalIsFixed(rt, Normalize(rt, v));
  }

  /** Normal values are canonical, so their canonical text tells them apart. */
  lemma {:induction false} NormalIsCanonical(rt: Runtime, j: Json)
    requires Normal(rt, j)
    ensures WellFormed(j) && Canon(j) == j
    decreases j
  {
    match j {
      case Arr(items) =>
        forall i | 0 <= i < |items| ensures WellFormed(items[i]) && Canon(items[i]) == items[i] {
          NormalIsCanonical(rt, items[i]);
        }
        assert Canon(j).items == items;
      case Obj(members) =>
        forall i | 0 <= i < |members|
          ensures WellFormed(members[i].value) && Canon(members[i].value) == members[i].value
        {
          NormalIsCanonical(rt, members[i].value);
        }
        assert CanonMembers(members, StrLeq) == members;
        SortKeepsSorted(members, ByKey(StrLeq));
      case _ =>
    }
  }

  lemma {:induction false} NormalTextsDiffer(rt: Runtime, a: Json, b: Json)
    requires Normal(rt, a) && Normal(rt, b)
    ensures Dumps(a) == Dumps(b) <==> a == b
    ensures Same(a, b) <==> a == b
  {
    NormalIsCanonical(rt, a);
    NormalIsCanonical(rt, b);
    RoundTrip(a);
    RoundTrip(b);
    DumpsInjective(a, b);
  }

  lemma TextOrder()
    ensures TotalPreorder(TextLeq)
  {
    forall a, b ensures TextLeq(a, b) || TextLeq(b, a) { StrOrder(Dumps(a), Dumps(b)); }
    forall a, b, c | TextLeq(a, b) && TextLeq(b, c) ensures TextLeq(a, c) {
      StrTransitive(Dumps(a), Dumps(b), Dumps(c));
    }
  }

  /** The iteration order of a set, which Python does not fix, leaves no trace: the sort key
      is the canonical text, and that text tells normal values apart. */
  lemma {:induction false} SetOrderIsForgotten(rt: Runtime, xs: seq<PyVal>, ys: seq<PyVal>)
    requires Quantizes(rt) && FloatsOk(PSet(xs)) && multiset(xs) == multiset(ys)
    ensures Normalize(rt, PSet(xs)) == Normalize(rt, PSet(ys))
  {
    var a, b := NormalizeAll(rt, xs), NormalizeAll(rt, ys);
    var f := (v: PyVal) => Normalize(rt, v);
    MapPermutes(xs, ys, f);
    assert a == MapSeq(xs, f) && b == MapSeq(ys, f);
    forall i, j | 0 <= i < |a| && 0 <= j < |a| && TextLeq(a[i], a[j]) && TextLeq(a[j], a[i]) ensures a[i] == a[j] {
      StrOrder(Dumps(a[i]), Dumps(a[j]));
      NormalizeIsNormal(rt, xs[i]);
      NormalizeIsNormal(rt, xs[j]);
      NormalTextsDiffer(rt, a[i], a[j]);
    }
    TextOrder();
    SortForgetsOrder(a, b, TextLeq);
  }

  /** Lists and tuples keep their elements in place; sets keep them all, sorted by their canonical texts; and an
      enumeration member is its text. */
  lemma {:induction false} ContainersAre(rt: Runtime, xs: seq<PyVal>, s: string)
    ensures Normalize(rt, PTuple(xs)) == Normalize(rt, PList(xs)) && Normalize(rt, PEnum(s)) == Str(s)
    ensures var r := Normalize(rt, PList(xs));
            r.Arr? && |r.items| == |xs| && forall i :: 0 <= i < |xs| ==> r.items[i] == Normalize(rt, xs[i])
    ensures var r, all := Normalize(rt, PSet(xs)), Normalize(rt, PList(xs));
            && r.Arr? && all.Arr? && multiset(r.items) == multiset(all.items)
            && forall i, j :: 0 <= i < j < |r.items| ==> StrLeq(Dumps(r.items[i]), Dumps(r.items[j]))
  {
    var all := NormalizeAll(rt, xs);
    TextOrder();
    SortPermutes(all, TextLeq);
    SortSorts(all, TextLeq);
    assert Normalize(rt, PSet(xs)) == Arr(SortBy(all, TextLeq));
    forall i, j | 0 <= i < j < |SortBy(all, TextLeq)|
      ensures StrLeq(Dumps(SortBy(all, TextLeq)[i]), Dumps(SortBy(all, TextLeq)[j]))
    {
      assert TextLeq(SortBy(all, TextLeq)[i], SortBy(all, TextLeq)[j]);
    }
  }

  function DictMembers(rt: Runtime, items: seq<PyItem>): seq<Member> {
    LastOfEachKey(SortBy(NormalizeItems(rt, items), ByKey(StrLeq)))
  }

  /** Two items whose keys have one text, with values that differ once normalised. */
  predicate Contend(rt: Runtime, x: PyItem, y: PyItem) {
    x.key.text == y.key.text && Normalize(rt, x.value) != Normalize(rt, y.value)
  }

  /** Nor does the insertion order of a dictionary, if no two items contend for one key text. */
  lemma {:induction false} DictOrderIsForgotten(rt: Runtime, xs: seq<PyItem>, ys: seq<PyItem>)
    requires multiset(xs) == multiset(ys)
    requires forall i, j :: 0 <= i < j < |xs| ==> !Contend(rt, xs[i], xs[j])
    ensures Normalize(rt, PDict(xs)) == Normalize(rt, PDict(ys))
  {
    var a, b := NormalizeItems(rt, xs), NormalizeItems(rt, ys);
    var f := (x: PyItem) => Member(x.key.text, Normalize(rt, x.value));
    MapPermutes(xs, ys, f);
    assert a == MapSeq(xs, f) && b == MapSeq(ys, f);
    forall i, j | 0 <= i < |a| && 0 <= j < |a| && ByKey(StrLeq)(a[i], a[j]) && ByKey(StrLeq)(a[j], a[i])
      ensures a[i] == a[j]
    {
      StrOrder(a[i].key, a[j].key);
      assert i < j ==> !Contend(rt, xs[i], xs[j]);
      assert j < i ==> !Contend(rt, xs[j], xs[i]);
    }
    StrKeyOrder();
    ByKeyOrder(StrLeq);
    SortForgetsOrder(a, b, ByKey(StrLeq));
  }

  /** m stands at p, and no later element has its key. */
  ghost predicate LastOfItsKey(s: seq<Member>, m: Member, p: nat) {
    p < |s| && s[p] == m && forall q :: p < q < |s| ==> s[q].key != m.key
  }

  lemma {:induction false} InsertKeepsLast(x: Member, s: seq<Member>, m: Member, p: nat) returns (q: nat)
    requires LastOfItsKey(s, m, p)
    ensures LastOfItsKey(Insert(x, s, ByKey(StrLeq)), m, q)
  {
    if ByKey(StrLeq)(x, s[0]) {
      q := p + 1;
    } else if p == 0 {
      q := 0;
      StrOrder(x.key, m.key);
      InsertPermutes(x, s[1..], ByKey(StrLeq));
      var t := Insert(x, s[1..], ByKey(StrLeq));
      forall k | 0 <= k < |t| ensures t[k].key != m.key {
        assert t[k] in multiset(t);
        if t[k] != x {
          assert t[k] in multiset(s[1..]);
          var l :| 0 <= l < |s| - 1 && s[1..][l] == t[k];
          assert s[l + 1].key != m.key;
        }
      }
    } else {
      assert s[1..][p - 1] == m;
      forall l | p - 1 < l < |s| - 1 ensures s[1..][l].key != m.key { assert s[1..][l] == s[l + 1]; }
      q := InsertKeepsLast(x, s[1..], m, p - 1);
      q := q + 1;
    }
  }

  /** Sorting keeps the last of equal keys last. */
  lemma {:induction false} SortKeepsLast(ms: seq<Member>, m: Member) returns (p: nat)
    ensures LastOfItsKey(SortBy(ms + [m], ByKey(StrLeq)), m, p)
  {
    if ms == [] {
      p := 0;
      assert ms + [m] == [m];
    } else {
      assert (ms + [m])[1..] == ms[1..] + [m];
      p := SortKeepsLast(ms[1..], m);
      p := InsertKeepsLast(ms[0], SortBy(ms[1..] + [m], ByKey(StrLeq)), m, p);
    }
  }

  lemma {:induction false} LastStays(s: seq<Member>, m: Member, p: nat)
    requires LastOfItsKey(s, m, p)
    ensures m in LastOfEachKey(s)
  {
    if |s| > 1 {
      if p == 0 {
        assert s[1].key != m.key;
        assert LastOfEachKey(s)[0] == m;
      } else {
        forall q | p - 1 < q < |s| - 1 ensures s[1..][q].key != m.key { assert s[1..][q] == s[q + 1]; }
        LastStays(s[1..], m, p - 1);
        if s[0].key != s[1].key { assert LastOfEachKey(s) == [s[0]] + LastOfEachKey(s[1..]); }
      }
    }
  }

  /** The item inserted last is the one that stays. */
  lemma {:induction false} LastInsertedStays(rt: Runtime, items: seq<PyItem>, x: PyItem)
    ensures Member(x.key.text, Normalize(rt, x.value)) in DictMembers(rt, items + [x])
  {
    var m := Member(x.key.text, Normalize(rt, x.value));
    assert NormalizeItems(rt, items + [x]) == NormalizeItems(rt, items) + [m];
    var p := SortKeepsLast(NormalizeItems(rt, items), m);
    LastStays(SortBy(NormalizeItems(rt, items) + [m], ByKey(StrLeq)), m, p);
  }

  lemma {:induction false} InsertsOnly(m: Member, s: seq<Member>) returns (p: nat)
    requires forall k :: 0 <= k < |s| ==> s[k].key != m.key
    ensures LastOfItsKey(Insert(m, s, ByKey(StrLeq)), m, p)
  {
    if s == [] || ByKey(StrLeq)(m, s[0]) {
      p := 0;
    } else {
      p := InsertsOnly(m, s[1..]);
      p := p + 1;
    }
  }

  /** Sorting keeps the last of equal keys last, wherever it stands. */
  lemma {:induction false} SortKeepsLastAt(ms: seq<Member>, i: nat) returns (p: nat)
    requires i < |ms| && forall k :: i < k < |ms| ==> ms[k].key != ms[i].key
    ensures LastOfItsKey(SortBy(ms, ByKey(StrLeq)), ms[i], p)
  {
    var tail := SortBy(ms[1..], ByKey(StrLeq));
    if i == 0 {
      SortMembers(ms[1..], ByKey(StrLeq));
      forall k | 0 <= k < |tail| ensures tail[k].key != ms[0].key {
        assert tail[k] in tail;
        var l := IndexOf(ms[1..], tail[k]);
        assert ms[l + 1] == tail[k];
      }
      p := InsertsOnly(ms[0], tail);
    } else {
      p := SortKeepsLastAt(ms[1..], i - 1);
      p := InsertKeepsLast(ms[0], tail, ms[i], p);
    }
  }

  /** Of the items with one key text the last one stays, and nothing else does. */
  lemma {:induction false} MembersOfDict(rt: Runtime, items: seq<PyItem>)
    ensures forall m :: m in DictMembers(rt, items)
              <==> exists i: nat :: StaysAt(rt, items, m, i)
  {
    var all := NormalizeItems(rt, items);
    forall m, i: nat | StaysAt(rt, items, m, i) ensures m in DictMembers(rt, items) { ItemStays(rt, items, m, i); }
    StrKeyOrder();
    ByKeyOrder(StrLeq);
    SortSorts(all, ByKey(StrLeq));
    SortMembers(all, ByKey(StrLeq));
    LastOfEachKeyNormal(SortBy(all, ByKey(StrLeq)));
    forall m | m in DictMembers(rt, items) ensures exists i: nat :: StaysAt(rt, items, m, i) {
      assert m in all;
      var k := IndexOf(all, m);
      var i := LastWithText(items, m.key, k);
      var n := Member(m.key, Normalize(rt, items[i].value));
      assert StaysAt(rt, items, n, i);
      ItemStays(rt, items, n, i);
      OneStays(rt, items, m, n);
    }
  }

  /** m is what becomes of item i, and no later item has its key text. */
  ghost predicate StaysAt(rt: Runtime, items: seq<PyItem>, m: Member, i: nat) {
    && i < |items| && m == Member(items[i].key.text, Normalize(rt, items[i].value))
    && forall k :: i < k < |items| ==> items[k].key.text != m.key
  }

  lemma {:induction false} ItemStays(rt: Runtime, items: seq<PyItem>, m: Member, i: nat)
    requires StaysAt(rt, items, m, i)
    ensures m in DictMembers(rt, items)
  {
    var p := SortKeepsLastAt(NormalizeItems(rt, items), i);
    LastStays(SortBy(NormalizeItems(rt, items), ByKey(StrLeq)), m, p);
  }

  lemma {:induction false} LastWithText(items: seq<PyItem>, text: string, k: nat) returns (i: nat)
    requires k < |items| && items[k].key.text == text
    ensures i < |items| && items[i].key.text == text && forall j :: i < j < |items| ==> items[j].key.text != text
    decreases |items| - k
  {
    if j :| k < j < |items| && items[j].key.text == text {
      i := LastWithText(items, text, j);
    } else {
      i := k;
    }
  }

  /** One value stays for each key text. */
  lemma OneStays(rt: Runtime, items: seq<PyItem>, m: Member, n: Member)
    requires m in DictMembers(rt, items) && n in DictMembers(rt, items) && m.key == n.key
    ensures m == n
  {
    var sorted, r := SortBy(NormalizeItems(rt, items), ByKey(StrLeq)), DictMembers(rt, items);
    StrKeyOrder();
    ByKeyOrder(StrLeq);
    SortSorts(NormalizeItems(rt, items), ByKey(StrLeq));
    LastOfEachKeyNormal(sorted);
  }

  function MoveLast(xs: seq<PyItem>, i: nat): (r: seq<PyItem>)
    requires i < |xs|
    ensures multiset(r) == multiset(xs)
  {
    assert xs == xs[..i] + [xs[i]] + xs[i + 1..];
    xs[..i] + xs[i + 1..] + [xs[i]]
  }

  ghost predicate Reordered(rt: Runtime, xs: seq<PyItem>, ys: seq<PyItem>) {
    multiset(ys) == multiset(xs) && Normalize(rt, PDict(ys)) != Normalize(rt, PDict(xs))
  }

  lemma ContendersShow(rt: Runtime, xs: seq<PyItem>, i: nat, j: nat)
    requires i < j < |xs| && Contend(rt, xs[i], xs[j])
    ensures exists ys :: Reordered(rt, xs, ys)
  {
    var a, b := MoveLast(xs, i), MoveLast(xs, j);
    LastInsertedStays(rt, xs[..i] + xs[i + 1..], xs[i]);
    LastInsertedStays(rt, xs[..j] + xs[j + 1..], xs[j]);
    var m := Member(xs[i].key.text, Normalize(rt, xs[i].value));
    var n := Member(xs[j].key.text, Normalize(rt, xs[j].value));
    if DictMembers(rt, a) == DictMembers(rt, b) { OneStays(rt, a, m, n); }
    if !Reordered(rt, xs, a) { assert Reordered(rt, xs, b); }
  }

  /** The insertion order of a dictionary shows exactly when two of its items contend for one key text. */
  lemma DictOrderShowsIff(rt: Runtime, xs: seq<PyItem>)
    ensures (exists ys :: Reordered(rt, xs, ys))
            <==> exists i, j :: 0 <= i < j < |xs| && Contend(rt, xs[i], xs[j])
  {
    if exists i, j :: 0 <= i < j < |xs| && Contend(rt, xs[i], xs[j]) {
      var i, j :| 0 <= i < j < |xs| && Contend(rt, xs[i], xs[j]);
      ContendersShow(rt, xs, i, j);
    } else {
      forall ys | multiset(ys) == multiset(xs) ensures !Reordered(rt, xs, ys) { DictOrderIsForgotten(rt, xs, ys); }
    }
  }

  /** It does show for a dictionary with two different keys, 1 and "1", that have one text. */
  lemma {:induction false} DictOrderShows(rt: Runtime)
    ensures var a, b := PyItem(OtherKey(1, "1"), PStr("x")), PyItem(StrKey("1"), PStr("y"));
            a.key != b.key && Normalize(rt, PDict([a, b])) != Normalize(rt, PDict([b, a]))
  {
    var a, b := PyItem(OtherKey(1, "1"), PStr("x")), PyItem(StrKey("1"), PStr("y"));
    LastInsertedStays(rt, [a], b);
    LastInsertedStays(rt, [b], a);
    assert [a] + [b] == [a, b] && [b] + [a] == [b, a];
    if DictMembers(rt, [a, b]) == DictMembers(rt, [b, a]) {
      OneStays(rt, [a, b], Member("1", Str("x")), Member("1", Str("y")));
    }
  }

  // ---- Correlation ids -------------------------------------------------------------

  datatype Error =
    | BadSchemaVersion | NegativeTick | UnknownAuthority
    | EmptyCorrelation | UnknownNamespace | EmptyIdentifier
    | EventIdMismatch | FingerprintMismatch

  const ALLOWED_NAMESPACES :=
    ["proposal", "profile", "pair", "report", "dataset", "graph", "router", "gaia_pipeline"]

  /** s.partition("::")[2] */
  function AfterSeparator(s: string): string {
    if |s| < 2 then "" else if s[0] == ':' && s[1] == ':' then s[2..] else AfterSeparator(s[1..])
  }

  predicate HasNamespace(s: string) {
    exists i :: 0 <= i < |ALLOWED_NAMESPACES| && ALLOWED_NAMESPACES[i] + "::" <= s
  }

  function CheckStripped(s: string): Result<string, Error> {
    if s == "" then Raised(EmptyCorrelation)
    else if !HasNamespace(s) then Raised(UnknownNamespace)
    else if Strip(AfterSeparator(s)) == "" then Raised(EmptyIdentifier)
    else Ok(s)
  }

  /** _validate_correlation_id */
  function ValidateCorrelation(id: string): Result<string, Error> { CheckStripped(Strip(id)) }

  /** An accepted id is accepted again, unchanged: compute_audit_event_id may revalidate it. */
  lemma ValidateTwice(id: string)
    ensures ValidateCorrelation(id).Ok? ==>
              ValidateCorrelation(ValidateCorrelation(id).value) == ValidateCorrelation(id)
  {
    StripTwice(id);
  }

  /** proposal_correlation_id, pair_correlation_id, ... */
  function CorrelationId(namespace: string, id: string): Result<string, Error> {
    ValidateCorrelation(namespace + "::" + Strip(id))
  }

  lemma {:induction false} AfterSeparatorOf(namespace: string, id: string)
    requires forall i :: 0 <= i < |namespace| ==> namespace[i] != ':'
    ensures AfterSeparator(namespace + "::" + id) == id
  {
    var s := namespace + "::" + id;
    if namespace == "" {
      assert s[2..] == id;
    } else {
      assert s[1..] == namespace[1..] + "::" + id;
      AfterSeparatorOf(namespace[1..], id);
    }
  }

  /** Within an allowed namespace only a blank identifier is refused. */
  lemma CorrelationIdOf(k: nat, id: string)
    requires k < |ALLOWED_NAMESPACES|
    ensures var namespace := ALLOWED_NAMESPACES[k];
            CorrelationId(namespace, id)
            == if Strip(id) == "" then Raised(EmptyIdentifier) else Ok(namespace + "::" + Strip(id))
  {
    PlainNamespace(ALLOWED_NAMESPACES[k], id);
  }

  lemma PlainNamespace(namespace: string, id: string)
    requires namespace != "" && !IsSpace(namespace[0]) && forall i :: 0 <= i < |namespace| ==> namespace[i] != ':'
    requires HasNamespace(namespace + "::" + Strip(id))
    ensures CorrelationId(namespace, id)
            == if Strip(id) == "" then Raised(EmptyIdentifier) else Ok(namespace + "::" + Strip(id))
  {
    var t := Strip(id);
    var s := namespace + "::" + t;
    StripTwice(id);
    AfterSeparatorOf(namespace, t);
    assert s[0] == namespace[0];
    assert s[|s| - 1] == if t == "" then ':' else t[|t| - 1];
    assert !IsSpace(s[|s| - 1]);
    StripKeeps(s);
  }

  // ---- AuditEvent ------------------------------------------------------------------

  const AUDIT_SCHEMA_VERSION := "4.9.0"

  datatype Authority = Observation | Derived | Authoritative

  function AuthorityText(a: Authority): string {
    match a
    case Observation => "observation"
    case Derived => "derived"
    case Authoritative => "authoritative"
  }

  /** EventAuthority(text) */
  function ParseAuthority(text: string): Option<Authority> {
    if text == "observation" then Some(Observation)
    else if text == "derived" then Some(Derived)
    else if text == "authoritative" then Some(Authoritative)
    else None
  }

  lemma AuthorityRoundTrip(a: Authority)
    ensures ParseAuthority(AuthorityText(a)) == Some(a)
  {
  }

  datatype AuditEvent = AuditEvent(
    eventId: string,
    eventType: string,
    authority: Authority,
    logicalTick: int,
    correlationId: string,
    payload: Json,
    fingerprint: string,
    schemaVersion: string)

  /** What the constructor is given. */
  datatype Draft = Draft(
    eventId: string,
    eventType: string,
    authority: string,
    logicalTick: int,
    correlationId: string,
    payload: seq<PyItem>,
    fingerprint: string,
    schemaVersion: string)

  const IDENTITY_KEYS := ["correlation_id", "event_type", "logical_tick", "payload_hash"]
  const BODY_KEYS := ["schema_version", "event_id", "event_type", "authority", "logical_tick",
                      "correlation_id", "payload"]
  const EVENT_KEYS := BODY_KEYS + ["fingerprint"]

  function PayloadHash(rt: Runtime, payload: Json): string { rt.sha256(Dumps(payload)) }

  /** What an event id is the hash of. */
  function IdentityText(rt: Runtime, eventType: string, correlationId: string, tick: int, payload: Json): string {
    Dumps(Obj(Zip(IDENTITY_KEYS, [Str(correlationId), Str(eventType), Int(tick), Str(PayloadHash(rt, payload))])))
  }

  /** compute_audit_event_id */
  function EventId(rt: Runtime, eventType: string, correlationId: string, tick: int, payload: Json): string {
    rt.sha256(IdentityText(rt, eventType, correlationId, tick, payload))
  }

  /** _event_body */
  function BodyValues(eventId: string, eventType: string, authority: Authority, tick: int, correlationId: string,
                      payload: Json): seq<Json> {
    [Str(AUDIT_SCHEMA_VERSION), Str(eventId), Str(eventType), Str(AuthorityText(authority)), Int(tick),
     Str(correlationId), payload]
  }

  function BodyText(eventId: string, eventType: string, authority: Authority, tick: int, correlationId: string,
                    payload: Json): string {
    Dumps(Obj(Zip(BODY_KEYS, BodyValues(eventId, eventType, authority, tick, correlationId, payload))))
  }

  /** The event that a draft stands for, whatever id and fingerprint it declares. */
  function Sealed(rt: Runtime, eventType: string, authority: Authority, tick: int, correlationId: string,
                  payload: Json): AuditEvent {
    var id := EventId(rt, eventType, correlationId, tick, payload);
    AuditEvent(id, eventType, authority, tick, correlationId, payload,
               rt.sha256(BodyText(id, eventType, authority, tick, correlationId, payload)), AUDIT_SCHEMA_VERSION)
  }

  /** The event a draft stands for, or why it stands for none. */
  function Interpret(rt: Runtime, d: Draft): Result<AuditEvent, Error> {
    if d.logicalTick < 0 then Raised(NegativeTick)
    else
      var authority := ParseAuthority(d.authority);
      if authority.None? then Raised(UnknownAuthority)
      else
        var correlation := ValidateCorrelation(d.correlationId);
        if correlation.Raised? then Raised(correlation.error)
        else Ok(Sealed(rt, d.eventType, authority.value, d.logicalTick, correlation.value,
                       Normalize(rt, PDict(d.payload))))
  }

  /** AuditEvent(...) with its __post_init__. */
  function Construct(rt: Runtime, d: Draft): Result<AuditEvent, Error> {
    if d.schemaVersion != AUDIT_SCHEMA_VERSION then Raised(BadSchemaVersion)
    else
      var r := Interpret(rt, d);
      if r.Raised? then r
      else if d.eventId != "" && d.eventId != r.value.eventId then Raised(EventIdMismatch)
      else if d.fingerprint != "" && d.fingerprint != r.value.fingerprint then Raised(FingerprintMismatch)
      else r
  }

  /** What the constructor builds. */
  ghost predicate Valid(rt: Runtime, e: AuditEvent) {
    && e.logicalTick >= 0
    && ValidateCorrelation(e.correlationId) == Ok(e.correlationId)
    && Normal(rt, e.payload) && e.payload.Obj?
    && e == Sealed(rt, e.eventType, e.authority, e.logicalTick, e.correlationId, e.payload)
  }

  lemma InterpretedIsValid(rt: Runtime, d: Draft)
    requires Quantizes(rt) && FloatsOk(PDict(d.payload))
    ensures Interpret(rt, d).Ok? ==> Valid(rt, Interpret(rt, d).value)
  {
    NormalizeIsNormal(rt, PDict(d.payload));
    ValidateTwice(d.correlationId);
  }

  // ---- to_dict and from_dict -------------------------------------------------------

  /** A serialised event; None: the key is absent. */
  datatype Record = Record(
    schemaVersion: Option<string>,
    eventId: Option<string>,
    eventType: Option<string>,
    authority: Option<string>,
    logicalTick: Option<int>,
    correlationId: Option<string>,
    payload: Option<seq<PyItem>>,
    fingerprint: Option<string>)

  function Or<T>(x: Option<T>, default: T): T { if x.Some? then x.value else default }

  function EmbedItems(members: seq<Member>): seq<PyItem> {
    seq(|members|, i requires 0 <= i < |members| => PyItem(StrKey(members[i].key), Embed(members[i].value)))
  }

  function ItemsOf(payload: Json): seq<PyItem> {
    if payload.Obj? then EmbedItems(payload.members) else []
  }

  function ToDict(rt: Runtime, e: AuditEvent): Record {
    Record(Some(e.schemaVersion), Some(e.eventId), Some(e.eventType), Some(AuthorityText(e.authority)),
           Some(e.logicalTick), Some(e.correlationId), Some(ItemsOf(Normalize(rt, Embed(e.payload)))),
           Some(e.fingerprint))
  }

  /** The authority is converted before the constructor checks anything. */
  function FromDict(rt: Runtime, r: Record): Result<AuditEvent, Error> {
    var authority := Or(r.authority, "derived");
    if ParseAuthority(authority).None? then Raised(UnknownAuthority)
    else Construct(rt, Draft(Or(r.eventId, ""), Or(r.eventType, ""), authority, Or(r.logicalTick, 0),
                             Or(r.correlationId, ""), Or(r.payload, []), Or(r.fingerprint, ""),
                             Or(r.schemaVersion, AUDIT_SCHEMA_VERSION)))
  }

  /** Serialising an event and reading it back always succeeds, with the same event. */
  lemma DictRoundTrip(rt: Runtime, d: Draft)
    requires Quantizes(rt) && FloatsOk(PDict(d.payload))
    requires Construct(rt, d).Ok?
    ensures FromDict(rt, ToDict(rt, Construct(rt, d).value)) == Construct(rt, d)
  {
    var e := Construct(rt, d).value;
    InterpretedIsValid(rt, d);
    NormalIsFixed(rt, e.payload);
    assert PDict(EmbedItems(e.payload.members)) == Embed(e.payload);
    AuthorityRoundTrip(e.authority);
  }

  // ---- What ids and fingerprints pin down ------------------------------------------

  lemma KeysDistinct()
    ensures Distinct(IDENTITY_KEYS) && Distinct(BODY_KEYS) && Distinct(EVENT_KEYS)
  {
    assert IDENTITY_KEYS[0][0] == 'c' && IDENTITY_KEYS[1][0] == 'e' && IDENTITY_KEYS[2][0] == 'l'
      && IDENTITY_KEYS[3][0] == 'p';
    assert BODY_KEYS[0][0] == 's' && BODY_KEYS[1][6] == 'i' && BODY_KEYS[2][6] == 't' && BODY_KEYS[1][0] == 'e'
      && BODY_KEYS[2][0] == 'e';
    assert BODY_KEYS[3][0] == 'a' && BODY_KEYS[4][0] == 'l' && BODY_KEYS[5][0] == 'c' && BODY_KEYS[6][0] == 'p';
    assert EVENT_KEYS[7][0] == 'f';
    assert forall i :: 0 <= i < 7 ==> EVENT_KEYS[i] == BODY_KEYS[i];
  }

  /** Identity texts of two events coincide exactly when type, correlation, tick and payload
      hash do. */
  lemma IdentityTextsDiffer(rt: Runtime, e: AuditEvent, f: AuditEvent)
    ensures IdentityText(rt, e.eventType, e.correlationId, e.logicalTick, e.payload)
            == IdentityText(rt, f.eventType, f.correlationId, f.logicalTick, f.payload)
            <==> e.eventType == f.eventType && e.correlationId == f.correlationId && e.logicalTick == f.logicalTick
                 && PayloadHash(rt, e.payload) == PayloadHash(rt, f.payload)
  {
    KeysDistinct();
    var a := [Str(e.correlationId), Str(e.eventType), Int(e.logicalTick), Str(PayloadHash(rt, e.payload))];
    var b := [Str(f.correlationId), Str(f.eventType), Int(f.logicalTick), Str(PayloadHash(rt, f.payload))];
    SameFields(IDENTITY_KEYS, a, b);
    assert Same(a[0], b[0]) <==> a[0] == b[0];
    assert Same(a[1], b[1]) <==> a[1] == b[1];
    assert Same(a[2], b[2]) <==> a[2] == b[2];
    assert Same(a[3], b[3]) <==> a[3] == b[3];
  }

  function IdentityOf(rt: Runtime, e: AuditEvent): string {
    IdentityText(rt, e.eventType, e.correlationId, e.logicalTick, e.payload)
  }

  /** Unless hashes collide, two events share an id exactly when they share type, correlation,
      tick and payload; the authority is not part of the identity. */
  lemma SameIdIff(rt: Runtime, e: AuditEvent, f: AuditEvent)
    requires Valid(rt, e) && Valid(rt, f)
    requires NoCollision(rt.sha256, IdentityOf(rt, e), IdentityOf(rt, f))
    requires NoCollision(rt.sha256, Dumps(e.payload), Dumps(f.payload))
    ensures e.eventId == f.eventId
            <==> e.eventType == f.eventType && e.correlationId == f.correlationId && e.logicalTick == f.logicalTick
                 && e.payload == f.payload
  {
    IdentityTextsDiffer(rt, e, f);
    NormalTextsDiffer(rt, e.payload, f.payload);
  }

  function BodyFields(e: AuditEvent): seq<Json> {
    BodyValues(e.eventId, e.eventType, e.authority, e.logicalTick, e.correlationId, e.payload)
  }

  lemma SameBodyFields(rt: Runtime, e: AuditEvent, f: AuditEvent)
    requires Same(e.payload, f.payload) <==> e.payload == f.payload
    ensures (forall i :: 0 <= i < 7 ==> Same(BodyFields(e)[i], BodyFields(f)[i]))
            <==> e.eventId == f.eventId && e.eventType == f.eventType && e.authority == f.authority
                 && e.logicalTick == f.logicalTick && e.correlationId == f.correlationId && e.payload == f.payload
  {
    AuthorityRoundTrip(e.authority);
    AuthorityRoundTrip(f.authority);
    var a, b := BodyFields(e), BodyFields(f);
    assert (forall i :: 0 <= i < 7 ==> Same(a[i], b[i]))
      <==> Same(a[0], b[0]) && Same(a[1], b[1]) && Same(a[2], b[2]) && Same(a[3], b[3]) && Same(a[4], b[4])
           && Same(a[5], b[5]) && Same(a[6], b[6]);
  }

  /** Bodies have equal texts exactly when all their fields are equal. */
  lemma {:induction false} BodyTextsDiffer(rt: Runtime, e: AuditEvent, f: AuditEvent)
    requires Normal(rt, e.payload) && Normal(rt, f.payload)
    ensures BodyOf(e) == BodyOf(f)
            <==> e.eventId == f.eventId && e.eventType == f.eventType && e.authority == f.authority
                 && e.logicalTick == f.logicalTick && e.correlationId == f.correlationId && e.payload == f.payload
  {
    KeysDistinct();
    NormalIsCanonical(rt, e.payload);
    NormalIsCanonical(rt, f.payload);
    NormalTextsDiffer(rt, e.payload, f.payload);
    SameFields(BODY_KEYS, BodyFields(e), BodyFields(f));
    SameBodyFields(rt, e, f);
  }

  function BodyOf(e: AuditEvent): string {
    BodyText(e.eventId, e.eventType, e.authority, e.logicalTick, e.correlationId, e.payload)
  }

  /** Unless hashes collide, a stored fingerprint pins the whole event: two valid events with
      the same fingerprint are the same event. */
  lemma FingerprintPinsEvent(rt: Runtime, e: AuditEvent, f: AuditEvent)
    requires Valid(rt, e) && Valid(rt, f) && e.fingerprint == f.fingerprint
    requires NoCollision(rt.sha256, BodyOf(e), BodyOf(f))
    ensures e == f
  {
    BodyTextsDiffer(rt, e, f);
  }

  /** What a draft says, once normalised. */
  ghost predicate Says(rt: Runtime, d: Draft, e: AuditEvent) {
    && d.eventType == e.eventType
    && ParseAuthority(d.authority) == Some(e.authority)
    && d.logicalTick == e.logicalTick
    && ValidateCorrelation(d.correlationId) == Ok(e.correlationId)
    && Normalize(rt, PDict(d.payload)) == e.payload
  }

  lemma SaidIsInterpreted(rt: Runtime, d: Draft, e: AuditEvent)
    requires Valid(rt, e) && Says(rt, d, e)
    ensures Interpret(rt, d) == Ok(e)
  {
  }

  /** Tampering: a draft that keeps an event's fingerprint is accepted, as that event, exactly when it
      still says what the event says and declares no other id.  So any change of type, tick,
      correlation, authority or normalised payload is rejected, whether or not what it is changed to
      could stand in an event. */
  lemma TamperingIsRejected(rt: Runtime, e: AuditEvent, d: Draft)
    requires Quantizes(rt) && FloatsOk(PDict(d.payload)) && Valid(rt, e)
    requires d.fingerprint == e.fingerprint != ""
    requires Interpret(rt, d).Ok? ==> NoCollision(rt.sha256, BodyOf(e), BodyOf(Interpret(rt, d).value))
    ensures Construct(rt, d).Ok? <==>
              Says(rt, d, e) && d.schemaVersion == AUDIT_SCHEMA_VERSION && (d.eventId == "" || d.eventId == e.eventId)
    ensures Construct(rt, d).Ok? ==> Construct(rt, d) == Ok(e)
  {
    InterpretedIsValid(rt, d);
    if Construct(rt, d).Ok? {
      FingerprintPinsEvent(rt, e, Construct(rt, d).value);
    }
    if Says(rt, d, e) {
      SaidIsInterpreted(rt, d, e);
    }
  }

  // ---- Construction, read off the draft --------------------------------------------

  /** c is the stripped id: an allowed namespace, two colons, and something that is not blank. */
  ghost predicate IsCorrelation(id: string, c: string) {
    && c == Strip(id)
    && exists namespace, rest ::
         && namespace in ["proposal", "profile", "pair", "report", "dataset", "graph", "router", "gaia_pipeline"]
         && c == namespace + "::" + rest && Strip(rest) != ""
  }

  predicate IsAuthority(text: string, a: Authority) {
    || (text == "observation" && a == Observation) || (text == "derived" && a == Derived)
    || (text == "authoritative" && a == Authoritative)
  }

  /** The id is the hash of what identifies the event. */
  ghost predicate HasId(rt: Runtime, e: AuditEvent) {
    e.eventId == rt.sha256(Dumps(Obj([
      Member("correlation_id", Str(e.correlationId)), Member("event_type", Str(e.eventType)),
      Member("logical_tick", Int(e.logicalTick)), Member("payload_hash", Str(rt.sha256(Dumps(e.payload))))])))
  }

  /** The fingerprint is the hash of everything else. */
  ghost predicate HasFingerprint(rt: Runtime, e: AuditEvent, authority: string) {
    e.fingerprint == rt.sha256(Dumps(Obj([
      Member("schema_version", Str("4.9.0")), Member("event_id", Str(e.eventId)),
      Member("event_type", Str(e.eventType)), Member("authority", Str(authority)),
      Member("logical_tick", Int(e.logicalTick)), Member("correlation_id", Str(e.correlationId)),
      Member("payload", e.payload)])))
  }

  /** e is the event that the draft stands for. */
  ghost predicate EventFor(rt: Runtime, d: Draft, e: AuditEvent) {
    && d.logicalTick >= 0 && IsAuthority(d.authority, e.authority) && IsCorrelation(d.correlationId, e.correlationId)
    && e.eventType == d.eventType && e.logicalTick == d.logicalTick && e.payload == Normalize(rt, PDict(d.payload))
    && HasId(rt, e) && HasFingerprint(rt, e, d.authority) && e.schemaVersion == "4.9.0"
  }

  lemma NamespaceIff(c: string)
    ensures HasNamespace(c)
            <==> exists namespace, rest ::
                   && namespace in ["proposal", "profile", "pair", "report", "dataset", "graph", "router",
                                    "gaia_pipeline"]
                   && c == namespace + "::" + rest
  {
    if HasNamespace(c) {
      var i :| 0 <= i < |ALLOWED_NAMESPACES| && ALLOWED_NAMESPACES[i] + "::" <= c;
      var namespace := ALLOWED_NAMESPACES[i];
      assert namespace in ALLOWED_NAMESPACES;
      assert c == namespace + "::" + c[|namespace| + 2..];
    }
    if namespace, rest :| namespace in ALLOWED_NAMESPACES && c == namespace + "::" + rest {
      var i := IndexOf(ALLOWED_NAMESPACES, namespace);
      assert ALLOWED_NAMESPACES[i] + "::" <= c;
    }
  }

  /** Behind an allowed namespace the rest is what stands behind the first two colons. */
  lemma {:induction false} RestOf(namespace: string, rest: string)
    requires namespace in ["proposal", "profile", "pair", "report", "dataset", "graph", "router", "gaia_pipeline"]
    ensures AfterSeparator(namespace + "::" + rest) == rest
  {
    forall i | 0 <= i < |namespace| ensures namespace[i] != ':' {}
    AfterSeparatorOf(namespace, rest);
  }

  lemma CorrelationIff(id: string, c: string)
    ensures ValidateCorrelation(id) == Ok(c) <==> IsCorrelation(id, c)
  {
    NamespaceIff(Strip(id));
    forall namespace, rest |
      && namespace in ["proposal", "profile", "pair", "report", "dataset", "graph", "router", "gaia_pipeline"]
      && Strip(id) == namespace + "::" + rest
      ensures AfterSeparator(Strip(id)) == rest
    {
      RestOf(namespace, rest);
    }
  }

  lemma SealedIs(rt: Runtime, e: AuditEvent)
    ensures e == Sealed(rt, e.eventType, e.authority, e.logicalTick, e.correlationId, e.payload)
            <==> HasId(rt, e) && HasFingerprint(rt, e, AuthorityText(e.authority)) && e.schemaVersion == "4.9.0"
  {
    assert Zip(IDENTITY_KEYS, [Str(e.correlationId), Str(e.eventType), Int(e.logicalTick),
                               Str(PayloadHash(rt, e.payload))])
           == [Member("correlation_id", Str(e.correlationId)), Member("event_type", Str(e.eventType)),
               Member("logical_tick", Int(e.logicalTick)), Member("payload_hash", Str(rt.sha256(Dumps(e.payload))))];
    assert Zip(BODY_KEYS, BodyValues(e.eventId, e.eventType, e.authority, e.logicalTick, e.correlationId, e.payload))
           == [Member("schema_version", Str("4.9.0")), Member("event_id", Str(e.eventId)),
               Member("event_type", Str(e.eventType)), Member("authority", Str(AuthorityText(e.authority))),
               Member("logical_tick", Int(e.logicalTick)), Member("correlation_id", Str(e.correlationId)),
               Member("payload", e.payload)];
  }

  /** Which event a draft stands for. */
  lemma InterpretIff(rt: Runtime, d: Draft, e: AuditEvent)
    ensures Interpret(rt, d) == Ok(e) <==> EventFor(rt, d, e)
  {
    CorrelationIff(d.correlationId, e.correlationId);
    SealedIs(rt, e);
    AuthorityIff(d.authority, e.authority);
  }

  lemma AuthorityIff(text: string, a: Authority)
    ensures ParseAuthority(text) == Some(a) <==> IsAuthority(text, a)
    ensures IsAuthority(text, a) <==> text == AuthorityText(a)
  {
    assert "observation"[0] == 'o' && "derived"[0] == 'd' && "authoritative"[0] == 'a';
  }

  /** Construction makes the event that the draft stands for, and refuses exactly the drafts of another schema,
      those that stand for none, and those that declare another id or fingerprint. */
  lemma ConstructIff(rt: Runtime, d: Draft, e: AuditEvent)
    ensures Construct(rt, d) == Ok(e)
            <==> d.schemaVersion == "4.9.0" && EventFor(rt, d, e)
                 && d.eventId in ["", e.eventId] && d.fingerprint in ["", e.fingerprint]
  {
    InterpretIff(rt, d, e);
  }
}
