/** core_runtime/core/canonicalization.py: the canonical JSON text of a value, as
    json.dumps(payload, sort_keys=True, separators=(",", ":"), ensure_ascii=False) writes it. */
module Canonicalization {
  import opened Hashing
  import opened Results
  import opened Ordering
  import opened PyText

  /** A Python value that JSON can carry.  A dictionary lists its items in insertion order;
      a float is represented by its repr. */
  datatype Json =
    | Null
    | Bool(b: bool)
    | Int(i: int)
    | Float(lexeme: string)
    | Str(s: string)
    | Arr(items: seq<Json>)
    | Obj(members: seq<Member>)

  datatype Member = Member(key: string, value: Json)

  function Keys(members: seq<Member>): (r: seq<string>)
    ensures |r| == |members| && forall i :: 0 <= i < |members| ==> r[i] == members[i].key
  {
    seq(|members|, i requires 0 <= i < |members| => members[i].key)
  }

  /** Dictionary keys are distinct and floats look like floats, at every level. */
  ghost predicate WellFormed(v: Json) {
    match v
    case Float(lexeme) => IsFloatLexeme(lexeme)
    case Arr(items) => forall i :: 0 <= i < |items| ==> WellFormed(items[i])
    case Obj(members) =>
      Distinct(Keys(members)) && forall i :: 0 <= i < |members| ==> WellFormed(members[i].value)
    case _ => true
  }

  // ---- Serialisation ---------------------------------------------------------------

  function HexChar(n: nat): char
    requires n < 16
  {
    if n < 10 then DigitChar(n) else ('a' as int + n - 10) as char
  }

  function IntText(i: int): string {
    if i < 0 then "-" + Decimal(-i) else Decimal(i)
  }

  /** The escapes of section 7 of RFC 8259 that Python uses without ensure_ascii. */
  function EscapeChar(c: char): string {
    if c == '\\' then "\\\\"
    else if c == '\"' then "\\\""
    else if c == '\n' then "\\n"
    else if c == '\r' then "\\r"
    else if c == '\t' then "\\t"
    else if c as int == 8 then "\\b"
    else if c as int == 12 then "\\f"
    else if c as int < 0x20 then "\\u00" + [HexChar(c as int / 16), HexChar(c as int % 16)]
    else [c]
  }

  function Escape(s: string): string {
    if s == "" then "" else EscapeChar(s[0]) + Escape(s[1..])
  }

  function Quote(s: string): string {
    "\"" + Escape(s) + "\""
  }

  /** The text of a value, with dictionary items in the order they are listed. */
  function Text(v: Json): string
    decreases v, 0
  {
    match v
    case Null => "null"
    case Bool(b) => if b then "true" else "false"
    case Int(i) => IntText(i)
    case Float(lexeme) => lexeme
    case Str(s) => Quote(s)
    case Arr(items) => if items == [] then "[]" else "[" + ItemsText(items) + "]"
    case Obj(members) => if members == [] then "{}" else "{" + MembersText(members) + "}"
  }

  function ItemsText(items: seq<Json>): string
    requires items != []
    decreases items, 1
  {
    Text(items[0]) + if |items| == 1 then "" else "," + ItemsText(items[1..])
  }

  function MembersText(members: seq<Member>): string
    requires members != []
    decreases members, 1
  {
    Quote(members[0].key) + ":" + Text(members[0].value)
    + if |members| == 1 then "" else "," + MembersText(members[1..])
  }

  /** The value with the items of every dictionary sorted by key. */
  function CanonBy(v: Json, leq: (string, string) -> bool): Json {
    match v
    case Arr(items) => Arr(seq(|items|, i requires 0 <= i < |items| => CanonBy(items[i], leq)))
    case Obj(members) =>
      Obj(SortBy(seq(|members|,
                     i requires 0 <= i < |members| => Member(members[i].key, CanonBy(members[i].value, leq))),
                 ByKey(leq)))
    case _ => v
  }

  /** sort_keys: Python orders the keys by code point. */
  function Canon(v: Json): Json { CanonBy(v, StrLeq) }

  /** canonical_json_dumps */
  function Dumps(v: Json): string { Text(Canon(v)) }

  /** canonical_json_hash */
  function CanonicalHash(sha256: string -> string, v: Json): string { "sha256:" + sha256(Dumps(v)) }

  // ---- A reader --------------------------------------------------------------------

  predicate IntChar(c: char) { IsDigit(c) || c == '-' }

  predicate NumberChar(c: char) {
    IntChar(c) || c == '+' || c == '.' || c == 'e' || c == 'E'
    || c == 'I' || c == 'n' || c == 'f' || c == 'i' || c == 't' || c == 'y' || c == 'N' || c == 'a'
  }

  predicate NumberStart(c: char) { IntChar(c) || c == 'I' || c == 'N' }

  predicate AllNumberChars(s: string) { forall i :: 0 <= i < |s| ==> NumberChar(s[i]) }

  /** repr of a float: never a plain integer, possibly NaN, Infinity or -Infinity. */
  predicate IsFloatLexeme(s: string) {
    s != "" && NumberStart(s[0]) && AllNumberChars(s) && exists i :: 0 <= i < |s| && !IntChar(s[i])
  }

  datatype Read<T> = Read(value: T, rest: string)

  function DecimalValue(s: string): nat
    requires AllDigits(s)
  {
    if s == "" then 0
    else 10 * DecimalValue(s[..|s| - 1]) + (s[|s| - 1] as int - '0' as int)
  }

  function NumberOf(run: string): Option<Json> {
    if run != "" && AllDigits(run) then Some(Int(DecimalValue(run)))
    else if |run| > 1 && run[0] == '-' && AllDigits(run[1..]) then Some(Int(0 - DecimalValue(run[1..])))
    else if IsFloatLexeme(run) then Some(Float(run))
    else None
  }

  function RunLength(s: string): (n: nat)
    ensures n <= |s|
  {
    if s != "" && NumberChar(s[0]) then 1 + RunLength(s[1..]) else 0
  }

  function HexValue(c: char): Option<nat> {
    if IsDigit(c) then Some(c as int - '0' as int)
    else if 'a' <= c <= 'f' then Some(c as int - 'a' as int + 10)
    else None
  }

  /** The characters up to the closing quote. */
  function ReadChars(s: string): (r: Option<Read<string>>)
    ensures r.Some? ==> |r.value.rest| < |s|
  {
    if s == "" then None
    else if s[0] == '\"' then Some(Read("", s[1..]))
    else if s[0] != '\\' then Prepend(s[0], ReadChars(s[1..]))
    else if |s| < 2 then None
    else
      match s[1]
      case '\\' => Prepend('\\', ReadChars(s[2..]))
      case '\"' => Prepend('\"', ReadChars(s[2..]))
      case 'n' => Prepend('\n', ReadChars(s[2..]))
      case 'r' => Prepend('\r', ReadChars(s[2..]))
      case 't' => Prepend('\t', ReadChars(s[2..]))
      case 'b' => Prepend(8 as char, ReadChars(s[2..]))
      case 'f' => Prepend(12 as char, ReadChars(s[2..]))
      case 'u' =>
        if |s| < 6 || s[2] != '0' || s[3] != '0' then None
        else
          var high, low := HexValue(s[4]), HexValue(s[5]);
          if high.Some? && low.Some? && high.value < 2
          then Prepend((16 * high.value + low.value) as char, ReadChars(s[6..]))
          else None
      case _ => None
  }

  function Prepend(c: char, r: Option<Read<string>>): Option<Read<string>> {
    if r.None? then None else Some(Read([c] + r.value.value, r.value.rest))
  }

  function ReadWord(s: string, word: string, v: Json): (r: Option<Read<Json>>)
    requires word != ""
    ensures r.Some? ==> |r.value.rest| < |s|
  {
    if word <= s then Some(Read(v, s[|word|..])) else None
  }

  function ReadValue(s: string): (r: Option<Read<Json>>)
    ensures r.Some? ==> |r.value.rest| < |s|
    decreases |s|, 0
  {
    if s == "" then None
    else if s[0] == 'n' then ReadWord(s, "null", Null)
    else if s[0] == 't' then ReadWord(s, "true", Bool(true))
    else if s[0] == 'f' then ReadWord(s, "false", Bool(false))
    else if s[0] == '\"' then
      var chars := ReadChars(s[1..]);
      if chars.None? then None else Some(Read(Str(chars.value.value), chars.value.rest))
    else if s[0] == '[' then
      if |s| > 1 && s[1] == ']' then Some(Read(Arr([]), s[2..])) else
      var items := ReadItems(s[1..]);
      if items.None? then None else Some(Read(Arr(items.value.value), items.value.rest))
    else if s[0] == '{' then
      if |s| > 1 && s[1] == '}' then Some(Read(Obj([]), s[2..])) else
      var members := ReadMembers(s[1..]);
      if members.None? then None else Some(Read(Obj(members.value.value), members.value.rest))
    else ReadNumber(s)
  }

  function ReadNumber(s: string): (r: Option<Read<Json>>)
    ensures r.Some? ==> |r.value.rest| < |s|
  {
    var n := RunLength(s);
    var number := NumberOf(s[..n]);
    if n == 0 || number.None? then None else Some(Read(number.value, s[n..]))
  }

  function ReadItems(s: string): (r: Option<Read<seq<Json>>>)
    ensures r.Some? ==> |r.value.rest| < |s|
    decreases |s|, 1
  {
    var first := ReadValue(s);
    if first.None? then None else MoreItems(first.value.value, first.value.rest)
  }

  function MoreItems(first: Json, s: string): (r: Option<Read<seq<Json>>>)
    ensures r.Some? ==> |r.value.rest| < |s|
    decreases |s|, 2
  {
    if s == "" then None
    else if s[0] == ']' then Some(Read([first], s[1..]))
    else if s[0] != ',' then None
    else
      var others := ReadItems(s[1..]);
      if others.None? then None else Some(Read([first] + others.value.value, others.value.rest))
  }

  function ReadKey(s: string): (r: Option<Read<string>>)
    ensures r.Some? ==> |r.value.rest| < |s|
  {
    if s == "" || s[0] != '\"' then None
    else
      var key := ReadChars(s[1..]);
      if key.None? || key.value.rest == "" || key.value.rest[0] != ':' then None
      else Some(Read(key.value.value, key.value.rest[1..]))
  }

  function ReadMembers(s: string): (r: Option<Read<seq<Member>>>)
    ensures r.Some? ==> |r.value.rest| < |s|
    decreases |s|, 1
  {
    var key := ReadKey(s);
    if key.None? then None
    else
      var value := ReadValue(key.value.rest);
      if value.None? then None else MoreMembers(Member(key.value.value, value.value.value), value.value.rest)
  }

  function MoreMembers(first: Member, s: string): (r: Option<Read<seq<Member>>>)
    ensures r.Some? ==> |r.value.rest| < |s|
    decreases |s|, 2
  {
    if s == "" then None
    else if s[0] == '}' then Some(Read([first], s[1..]))
    else if s[0] != ',' then None
    else
      var others := ReadMembers(s[1..]);
      if others.None? then None else Some(Read([first] + others.value.value, others.value.rest))
  }

  function Loads(s: string): Option<Json> {
    var r := ReadValue(s);
    if r.Some? && r.value.rest == "" then Some(r.value.value) else None
  }

  // ---- The reader inverts the writer -----------------------------------------------

  lemma {:induction false} DecimalRoundTrip(n: nat)
    ensures DecimalValue(Decimal(n)) == n
  {
    if n >= 10 {
      DecimalRoundTrip(n / 10);
      var d := Decimal(n);
      assert d[..|d| - 1] == Decimal(n / 10);
    }
  }

  lemma {:induction false} EscapedChar(c: char, tail: string)
    ensures ReadChars(EscapeChar(c) + tail) == Prepend(c, ReadChars(tail))
  {
    var s := EscapeChar(c) + tail;
    if |EscapeChar(c)| == 1 {
      assert s[1..] == tail;
    } else if |EscapeChar(c)| == 2 {
      assert s[2..] == tail;
      assert s[0] == '\\' && s[1] == EscapeChar(c)[1];
    } else {
    }
  }

  lemma {:induction false} ReadEscaped(s: string, rest: string)
    ensures ReadChars(Escape(s) + "\"" + rest) == Some(Read(s, rest))
  {
    if s == "" {
      assert Escape(s) + "\"" + rest == "\"" + rest;
      assert ("\"" + rest)[1..] == rest;
    } else {
      var tail := Escape(s[1..]) + "\"" + rest;
      assert Escape(s) + "\"" + rest == EscapeChar(s[0]) + tail;
      EscapedChar(s[0], tail);
      ReadEscaped(s[1..], rest);
      assert [s[0]] + s[1..] == s;
    }
  }

  /** The text after a value must not continue a number. */
  predicate Ends(rest: string) { rest == "" || !NumberChar(rest[0]) }

  lemma {:induction false} RunOf(t: string, rest: string)
    requires Ends(rest) && AllNumberChars(t)
    ensures RunLength(t + rest) == |t|
  {
    if t == "" {
      assert t + rest == rest;
    } else {
      assert (t + rest)[1..] == t[1..] + rest;
      RunOf(t[1..], rest);
    }
  }

  lemma IntTextReads(i: int)
    ensures IntText(i) != "" && NumberStart(IntText(i)[0]) && AllNumberChars(IntText(i))
    ensures NumberOf(IntText(i)) == Some(Int(i))
  {
    var n: nat := if i < 0 then -i else i;
    DecimalRoundTrip(n);
    if i < 0 {
      assert IntText(i)[1..] == Decimal(n);
      assert !IsDigit(IntText(i)[0]);
    }
  }

  lemma FloatReads(lexeme: string)
    requires IsFloatLexeme(lexeme)
    ensures NumberOf(lexeme) == Some(Float(lexeme))
  {
    var i :| 0 <= i < |lexeme| && !IntChar(lexeme[i]);
    assert !IsDigit(lexeme[i]);
    if i > 0 { assert !IsDigit(lexeme[1..][i - 1]); }
  }

  lemma {:induction false} NumberReads(t: string, v: Json, rest: string)
    requires t != "" && NumberStart(t[0]) && Ends(rest) && AllNumberChars(t)
    requires NumberOf(t) == Some(v)
    ensures ReadValue(t + rest) == Some(Read(v, rest))
  {
    RunOf(t, rest);
    var s := t + rest;
    assert s[..|t|] == t && s[|t|..] == rest;
    assert s[0] == t[0];
    assert ReadNumber(s) == Some(Read(v, rest));
  }

  lemma WordReads(word: string, v: Json, rest: string)
    requires word != ""
    ensures ReadWord(word + rest, word, v) == Some(Read(v, rest))
  {
    assert (word + rest)[|word|..] == rest;
  }

  lemma {:induction false} StringReads(s: string, rest: string)
    ensures ReadValue(Quote(s) + rest) == Some(Read(Str(s), rest))
  {
    var t := Quote(s) + rest;
    assert t[0] == '\"' && t[1..] == Escape(s) + "\"" + rest;
    ReadEscaped(s, rest);
  }

  lemma KeyReads(s: string, rest: string)
    ensures ReadKey(Quote(s) + ":" + rest) == Some(Read(s, rest))
  {
    var t := Quote(s) + ":" + rest;
    assert t[0] == '\"' && t[1..] == Escape(s) + "\"" + (":" + rest);
    ReadEscaped(s, ":" + rest);
    assert (":" + rest)[1..] == rest;
  }

  lemma {:induction false} ReadText(v: Json, rest: string)
    requires WellFormed(v) && Ends(rest)
    ensures ReadValue(Text(v) + rest) == Some(Read(v, rest))
    decreases v, 0
  {
    match v {
      case Null => WordReads("null", v, rest);
      case Bool(b) => WordReads(Text(v), v, rest);
      case Int(i) => IntTextReads(i); NumberReads(Text(v), v, rest);
      case Float(lexeme) => FloatReads(lexeme); NumberReads(lexeme, v, rest);
      case Str(s) => StringReads(s, rest);
      case Arr(items) => ReadArray(items, rest);
      case Obj(members) => ReadObject(members, rest);
    }
  }

  lemma {:induction false} OpensArray(body: string)
    requires body != "" && body[0] != ']'
    ensures var items := ReadItems(body);
            ReadValue("[" + body) == if items.None? then None else Some(Read(Arr(items.value.value), items.value.rest))
  {
    assert ("[" + body)[1..] == body;
  }

  lemma {:induction false} OpensObject(body: string)
    requires body != "" && body[0] != '}'
    ensures var members := ReadMembers(body);
            ReadValue("{" + body)
            == if members.None? then None else Some(Read(Obj(members.value.value), members.value.rest))
  {
    assert ("{" + body)[1..] == body;
  }

  lemma {:induction false} ReadArray(items: seq<Json>, rest: string)
    requires WellFormed(Arr(items))
    ensures ReadValue(Text(Arr(items)) + rest) == Some(Read(Arr(items), rest))
    decreases items, 2
  {
    if items == [] {
      assert ("[]" + rest)[2..] == rest;
    } else {
      var body := ItemsText(items) + ("]" + rest);
      assert Text(Arr(items)) + rest == "[" + body;
      assert body[0] == Text(items[0])[0];
      OpensArray(body);
      ReadItemsText(items, rest);
    }
  }

  lemma {:induction false} ReadObject(members: seq<Member>, rest: string)
    requires WellFormed(Obj(members))
    ensures ReadValue(Text(Obj(members)) + rest) == Some(Read(Obj(members), rest))
    decreases members, 2
  {
    if members == [] {
      assert ("{}" + rest)[2..] == rest;
    } else {
      var body := MembersText(members) + ("}" + rest);
      assert Text(Obj(members)) + rest == "{" + body;
      assert body[0] == '\"';
      OpensObject(body);
      ReadMembersText(members, rest);
    }
  }

  lemma {:induction false} ReadItemsText(items: seq<Json>, rest: string)
    requires items != [] && forall i :: 0 <= i < |items| ==> WellFormed(items[i])
    ensures ReadItems(ItemsText(items) + ("]" + rest)) == Some(Read(items, rest))
    decreases items, 1
  {
    if |items| == 1 {
      var tail := "]" + rest;
      assert ItemsText(items) + tail == Text(items[0]) + tail;
      ReadText(items[0], tail);
      assert tail[1..] == rest;
      assert items == [items[0]];
    } else {
      var others := ItemsText(items[1..]) + ("]" + rest);
      var tail := "," + others;
      Regrouped(Text(items[0]), "," + ItemsText(items[1..]), "]" + rest);
      Regrouped(",", ItemsText(items[1..]), "]" + rest);
      ReadText(items[0], tail);
      assert tail[1..] == others;
      ReadItemsText(items[1..], rest);
      assert items == [items[0]] + items[1..];
    }
  }

  lemma {:induction false} ReadMembersText(members: seq<Member>, rest: string)
    requires members != [] && forall i :: 0 <= i < |members| ==> WellFormed(members[i].value)
    ensures ReadMembers(MembersText(members) + ("}" + rest)) == Some(Read(members, rest))
    decreases members, 1
  {
    var m, tail := members[0], MembersTail(members, "}" + rest);
    FirstMemberReads(members, "}" + rest);
    if |members| == 1 {
      assert tail[1..] == rest;
      assert members == [m];
    } else {
      var others := MembersText(members[1..]) + ("}" + rest);
      assert tail == "," + others;
      assert tail[1..] == others;
      ReadMembersText(members[1..], rest);
      assert members == [m] + members[1..];
    }
  }

  function MembersTail(members: seq<Member>, close: string): string
    requires members != []
  {
    if |members| == 1 then close else "," + (MembersText(members[1..]) + close)
  }

  lemma {:induction false} FirstMemberReads(members: seq<Member>, close: string)
    requires members != [] && WellFormed(members[0].value) && close != "" && !NumberChar(close[0])
    ensures ReadMembers(MembersText(members) + close) == MoreMembers(members[0], MembersTail(members, close))
    decreases members, 0
  {
    var q, t, tail := Quote(members[0].key), Text(members[0].value), MembersTail(members, close);
    var more := if |members| == 1 then "" else "," + MembersText(members[1..]);
    assert MembersText(members) == q + ":" + t + more;
    Regrouped(q + ":" + t, more, close);
    Regrouped(q + ":", t, more + close);
    assert more + close == tail;
    KeyReads(members[0].key, t + tail);
    ReadText(members[0].value, tail);
  }

  /** The text determines the value: reading it back gives the value with sorted items. */
  lemma {:induction false} RoundTrip(v: Json)
    requires WellFormed(v)
    ensures Loads(Dumps(v)) == Some(Canon(v))
  {
    StrKeyOrder();
    CanonWellFormed(v, StrLeq);
    ReadText(Canon(v), "");
    assert Dumps(v) + "" == Dumps(v);
  }

  // ---- Canonical values ------------------------------------------------------------

  ghost predicate KeyOrder(leq: (string, string) -> bool) {
    TotalPreorder(leq) && forall a, b :: leq(a, b) && leq(b, a) ==> a == b
  }

  function ByKey(leq: (string, string) -> bool): (Member, Member) -> bool {
    (a: Member, b: Member) => leq(a.key, b.key)
  }

  function CanonMembers(members: seq<Member>, leq: (string, string) -> bool): seq<Member> {
    seq(|members|, i requires 0 <= i < |members| => Member(members[i].key, CanonBy(members[i].value, leq)))
  }

  lemma ByKeyOrder(leq: (string, string) -> bool)
    requires KeyOrder(leq)
    ensures TotalPreorder(ByKey(leq))
  {
    var f := ByKey(leq);
    forall a, b ensures f(a, b) || f(b, a) { assert leq(a.key, b.key) || leq(b.key, a.key); }
    forall a, b, c | f(a, b) && f(b, c) ensures f(a, c) { assert leq(a.key, b.key) && leq(b.key, c.key); }
  }

  /** Sorting the items of a dictionary keeps its items, and its keys distinct. */
  lemma {:induction false} SortedItems(items: seq<Member>, leq: (string, string) -> bool)
    requires KeyOrder(leq) && Distinct(Keys(items))
    ensures var r := SortBy(items, ByKey(leq));
            && |r| == |items| && Distinct(Keys(r)) && Distinct(r) && SortedBy(r, ByKey(leq))
            && (forall m :: m in r <==> m in items)
            && Separates(ByKey(leq), r)
  {
    var r := SortBy(items, ByKey(leq));
    ByKeyOrder(leq);
    SortPermutes(items, ByKey(leq));
    SortMembers(items, ByKey(leq));
    SortSorts(items, ByKey(leq));
    assert forall i, j :: 0 <= i < j < |items| ==> Keys(items)[i] != Keys(items)[j];
    SortKeepsDistinct(items, ByKey(leq));
    forall i, j | 0 <= i < |r| && 0 <= j < |r| && i != j ensures r[i].key != r[j].key {
      assert r[i] in r && r[j] in r;
      var k := IndexOf(items, r[i]);
      var l := IndexOf(items, r[j]);
      assert r[i] != r[j];
      assert Keys(items)[k] != Keys(items)[l];
    }
  }

  lemma {:induction false} CanonWellFormed(v: Json, leq: (string, string) -> bool)
    requires KeyOrder(leq) && WellFormed(v)
    ensures WellFormed(CanonBy(v, leq))
    decreases v
  {
    match v {
      case Arr(items) =>
        forall i | 0 <= i < |items| ensures WellFormed(CanonBy(items[i], leq)) { CanonWellFormed(items[i], leq); }
      case Obj(members) =>
        var c := CanonMembers(members, leq);
        assert Keys(c) == Keys(members);
        SortedItems(c, leq);
        var r := SortBy(c, ByKey(leq));
        forall i | 0 <= i < |r| ensures WellFormed(r[i].value) {
          assert r[i] in r;
          var k := IndexOf(c, r[i]);
          CanonWellFormed(members[k].value, leq);
        }
        assert CanonBy(v, leq) == Obj(r);
      case _ =>
    }
  }

  lemma StrKeyOrder()
    ensures KeyOrder(StrLeq)
  {
    StrTotal();
  }

  // ---- Equal texts are equal dictionaries ------------------------------------------

  /** Equality of Python values of the same kinds: a dictionary is its set of items. */
  ghost predicate Same(a: Json, b: Json)
    decreases a
  {
    match (a, b)
    case (Arr(xs), Arr(ys)) => |xs| == |ys| && forall i :: 0 <= i < |xs| ==> Same(xs[i], ys[i])
    case (Obj(xs), Obj(ys)) =>
      && |xs| == |ys|
      && forall i :: 0 <= i < |xs| ==> HasItem(ys, xs[i])
    case _ => a == b
  }

  ghost predicate HasItem(ys: seq<Member>, x: Member)
    decreases x
  {
    exists j :: 0 <= j < |ys| && x.key == ys[j].key && Same(x.value, ys[j].value)
  }

  /** Dictionaries with the same items in the same order are equal. */
  lemma SameItemByItem(xs: seq<Member>, ys: seq<Member>)
    requires |xs| == |ys|
    requires forall i :: 0 <= i < |xs| ==> xs[i].key == ys[i].key && Same(xs[i].value, ys[i].value)
    ensures Same(Obj(xs), Obj(ys))
  {
    forall i | 0 <= i < |xs| ensures HasItem(ys, xs[i]) {
      assert xs[i].key == ys[i].key && Same(xs[i].value, ys[i].value);
    }
  }

  /** Sorting the items decides equality. */
  lemma {:induction false} CanonIffSame(a: Json, b: Json, leq: (string, string) -> bool)
    requires KeyOrder(leq) && WellFormed(a) && WellFormed(b)
    ensures CanonBy(a, leq) == CanonBy(b, leq) <==> Same(a, b)
    decreases a
  {
    match (a, b) {
      case (Arr(xs), Arr(ys)) =>
        var cx, cy := CanonBy(a, leq), CanonBy(b, leq);
        forall i | 0 <= i < |xs| && 0 <= i < |ys|
          ensures cx.items[i] == cy.items[i] <==> Same(xs[i], ys[i])
        {
          CanonIffSame(xs[i], ys[i], leq);
        }
      case (Obj(xs), Obj(ys)) => ObjectIffSame(xs, ys, leq);
      case _ =>
    }
  }

  lemma {:induction false} ObjectIffSame(xs: seq<Member>, ys: seq<Member>, leq: (string, string) -> bool)
    requires KeyOrder(leq) && WellFormed(Obj(xs)) && WellFormed(Obj(ys))
    ensures CanonBy(Obj(xs), leq) == CanonBy(Obj(ys), leq) <==> Same(Obj(xs), Obj(ys))
    decreases Obj(xs), 0
  {
    var cx, cy := CanonMembers(xs, leq), CanonMembers(ys, leq);
    var sx, sy := SortBy(cx, ByKey(leq)), SortBy(cy, ByKey(leq));
    assert Keys(cx) == Keys(xs) && Keys(cy) == Keys(ys);
    SortedItems(cx, leq);
    SortedItems(cy, leq);
    assert CanonBy(Obj(xs), leq) == Obj(sx) && CanonBy(Obj(ys), leq) == Obj(sy);
    forall i, j | 0 <= i < |xs| && 0 <= j < |ys|
      ensures cx[i] == cy[j] <==> xs[i].key == ys[j].key && Same(xs[i].value, ys[j].value)
    {
      CanonIffSame(xs[i].value, ys[j].value, leq);
    }
    if sx == sy {
      forall i | 0 <= i < |xs|
        ensures HasItem(ys, xs[i])
      {
        assert cx[i] in sx && cx[i] in cy;
        var j := IndexOf(cy, cx[i]);
        assert cx[i] == cy[j];
      }
    }
    if Same(Obj(xs), Obj(ys)) {
      forall m | m in cx ensures m in cy {
        var i := IndexOf(cx, m);
        assert HasItem(ys, xs[i]);
        var j :| 0 <= j < |ys| && xs[i].key == ys[j].key && Same(xs[i].value, ys[j].value);
        assert cx[i] == cy[j];
      }
      SameSizeSameElements(sx, sy);
      ByKeyOrder(leq);
      SortedSetUnique(sx, sy, ByKey(leq));
    }
  }

  lemma SameSizeSameElements<T(!new)>(a: seq<T>, b: seq<T>)
    requires Distinct(a) && Distinct(b) && |a| == |b|
    requires forall x :: x in a ==> x in b
    ensures forall x :: x in b ==> x in a
  {
    DistinctSize(a);
    DistinctSize(b);
    assert Elements(a) <= Elements(b);
    SubsetSize(Elements(a), Elements(b));
    forall x | x in b ensures x in a { assert x in Elements(b); }
  }

  /** The canonical text is injective up to, and blind to, the order of dictionary items. */
  lemma {:induction false} DumpsInjective(a: Json, b: Json)
    requires WellFormed(a) && WellFormed(b)
    ensures Dumps(a) == Dumps(b) <==> Same(a, b)
  {
    RoundTrip(a);
    RoundTrip(b);
    StrKeyOrder();
    CanonIffSame(a, b, StrLeq);
  }

  /** The canonical hash compares values as dictionaries, unless the two texts collide. */
  lemma {:induction false} HashComparesValues(sha256: string -> string, a: Json, b: Json)
    requires WellFormed(a) && WellFormed(b)
    requires NoCollision(sha256, Dumps(a), Dumps(b))
    ensures CanonicalHash(sha256, a) == CanonicalHash(sha256, b) <==> Same(a, b)
  {
    DumpsInjective(a, b);
    assert CanonicalHash(sha256, a)[|"sha256:"|..] == sha256(Dumps(a));
    assert CanonicalHash(sha256, b)[|"sha256:"|..] == sha256(Dumps(b));
  }

  // ---- Records: dictionaries with known keys ---------------------------------------

  function Zip(keys: seq<string>, values: seq<Json>): (r: seq<Member>)
    requires |keys| == |values|
    ensures |r| == |keys| && Keys(r) == keys
    ensures forall i :: 0 <= i < |keys| ==> r[i] == Member(keys[i], values[i])
  {
    var r := seq(|keys|, i requires 0 <= i < |keys| => Member(keys[i], values[i]));
    assert Keys(r) == keys;
    r
  }

  lemma SameItemsByKey(xs: seq<Member>, ys: seq<Member>)
    requires Same(Obj(xs), Obj(ys)) && Keys(xs) == Keys(ys) && Distinct(Keys(ys))
    ensures |xs| == |ys| && forall i :: 0 <= i < |xs| ==> Same(xs[i].value, ys[i].value)
  {
    forall i | 0 <= i < |xs| ensures Same(xs[i].value, ys[i].value) {
      assert HasItem(ys, xs[i]);
      var j :| 0 <= j < |ys| && xs[i].key == ys[j].key && Same(xs[i].value, ys[j].value);
      assert Keys(ys)[i] == Keys(ys)[j];
    }
  }

  /** Equal texts of records with the same keys mean equal fields. */
  /** Objects with the same members are equal, in whatever order these are listed. */
  lemma {:induction false} SameMembersSame(xs: seq<Member>, ys: seq<Member>)
    requires WellFormed(Obj(xs)) && Distinct(Keys(ys)) && forall m :: m in xs <==> m in ys
    ensures WellFormed(Obj(ys)) && Same(Obj(xs), Obj(ys))
  {
    StrKeyOrder();
    DistinctMembers(xs);
    DistinctMembers(ys);
    DistinctSize(xs);
    DistinctSize(ys);
    assert Elements(xs) == Elements(ys);
    forall i | 0 <= i < |xs| ensures HasItem(ys, xs[i]) {
      assert xs[i] in ys;
      var j := IndexOf(ys, xs[i]);
      CanonIffSame(xs[i].value, xs[i].value, StrLeq);
    }
    forall i | 0 <= i < |ys| ensures WellFormed(ys[i].value) {
      assert ys[i] in xs;
      var j := IndexOf(xs, ys[i]);
    }
  }

  lemma DistinctMembers(xs: seq<Member>)
    requires Distinct(Keys(xs))
    ensures Distinct(xs)
  {
    forall i, j | 0 <= i < j < |xs| ensures xs[i] != xs[j] { assert Keys(xs)[i] != Keys(xs)[j]; }
  }

  lemma SameFields(keys: seq<string>, a: seq<Json>, b: seq<Json>)
    requires Distinct(keys) && |keys| == |a| == |b|
    requires forall i :: 0 <= i < |a| ==> WellFormed(a[i]) && WellFormed(b[i])
    ensures Dumps(Obj(Zip(keys, a))) == Dumps(Obj(Zip(keys, b)))
            <==> forall i :: 0 <= i < |keys| ==> Same(a[i], b[i])
  {
    var x, y := Zip(keys, a), Zip(keys, b);
    DumpsInjective(Obj(x), Obj(y));
    if Same(Obj(x), Obj(y)) {
      SameItemsByKey(x, y);
      forall i | 0 <= i < |keys| ensures Same(a[i], b[i]) { assert Same(x[i].value, y[i].value); }
    }
    if forall i :: 0 <= i < |keys| ==> Same(a[i], b[i]) { SameItemByItem(x, y); }
  }

  // ---- The format, without the serialiser ------------------------------------------

  /** Quotes, backslashes and controls are escaped, and nothing else is. */
  predicate WritesChar(c: char, t: string) {
    var n := c as int;
    if c == '\"' || c == '\\' then t == ['\\', c]
    else if n >= 0x20 then t == [c]
    else if n in [8, 9, 10, 12, 13] then t == ['\\', "btn?fr"[n - 8]]
    else t == "\\u00" + ["0123456789abcdef"[n / 16], "0123456789abcdef"[n % 16]]
  }

  function Concat(parts: seq<string>): string {
    if parts == [] then "" else parts[0] + Concat(parts[1..])
  }

  function Separated(parts: seq<string>): string {
    if |parts| <= 1 then Concat(parts) else parts[0] + "," + Separated(parts[1..])
  }

  ghost predicate WritesString(s: string, t: string) {
    exists parts :: |parts| == |s| && t == "\"" + Concat(parts) + "\""
                    && forall i :: 0 <= i < |s| ==> WritesChar(s[i], parts[i])
  }

  /** Digits without leading zeros. */
  predicate IsNumeral(t: string, n: nat) {
    t != "" && AllDigits(t) && DecimalValue(t) == n && (|t| > 1 ==> t[0] != '0')
  }

  predicate WritesInt(i: int, t: string) {
    if i >= 0 then IsNumeral(t, i) else |t| > 1 && t[0] == '-' && IsNumeral(t[1..], -i)
  }

  /** t is the JSON text of the value, with sorted keys and without white space. */
  ghost predicate Writes(v: Json, t: string)
    decreases v, 0
  {
    match v
    case Null => t == "null"
    case Bool(b) => t == if b then "true" else "false"
    case Int(i) => WritesInt(i, t)
    case Float(lexeme) => t == lexeme
    case Str(s) => WritesString(s, t)
    case Arr(items) =>
      exists parts: seq<string> :: |parts| == |items| && t == "[" + Separated(parts) + "]"
                                   && forall i :: 0 <= i < |items| ==> Writes(items[i], parts[i])
    case Obj(members) => exists at, parts :: WritesMembers(members, t, at, parts)
  }

  /** The members are written in the order `at`, which is that of their keys. */
  ghost predicate WritesMembers(members: seq<Member>, t: string, at: seq<nat>, parts: seq<string>)
    decreases members, 1
  {
    && |parts| == |at| == |members| && t == "{" + Separated(parts) + "}"
    && (forall i :: 0 <= i < |at| ==> at[i] < |members|)
    && (forall i, j :: 0 <= i < j < |at| ==>
          StrLeq(members[at[i]].key, members[at[j]].key) && members[at[i]].key != members[at[j]].key)
    && forall i :: 0 <= i < |at| ==> WritesMember(members, at[i], parts[i])
  }

  ghost predicate WritesMember(members: seq<Member>, k: nat, t: string)
    decreases members, 0
  {
    k < |members|
    && exists name, value :: t == name + ":" + value && WritesString(members[k].key, name)
                             && Writes(members[k].value, value)
  }

  lemma CharWritten(c: char)
    ensures WritesChar(c, EscapeChar(c))
  {
    var n := c as int;
    if n < 0x20 {
      HexDigitIs(n / 16);
      HexDigitIs(n % 16);
    }
  }

  lemma HexDigitIs(n: nat)
    requires n < 16
    ensures HexChar(n) == "0123456789abcdef"[n]
  {
  }

  lemma {:induction false} StringWritten(s: string)
    ensures WritesString(s, Quote(s))
  {
    var parts := seq(|s|, i requires 0 <= i < |s| => EscapeChar(s[i]));
    forall i | 0 <= i < |s| ensures WritesChar(s[i], parts[i]) { CharWritten(s[i]); }
    EscapeConcats(s, parts);
  }

  lemma {:induction false} EscapeConcats(s: string, parts: seq<string>)
    requires |parts| == |s| && forall i :: 0 <= i < |s| ==> parts[i] == EscapeChar(s[i])
    ensures Escape(s) == Concat(parts)
  {
    if s != "" { EscapeConcats(s[1..], parts[1..]); }
  }

  lemma {:induction false} NumeralWritten(n: nat)
    ensures IsNumeral(Decimal(n), n) && (n > 0 ==> Decimal(n)[0] != '0')
  {
    DecimalRoundTrip(n);
    if n >= 10 {
      NumeralWritten(n / 10);
      assert Decimal(n)[0] == Decimal(n / 10)[0];
    }
  }

  lemma {:induction false} ItemsWritten(items: seq<Json>, parts: seq<string>)
    requires items != [] && |parts| == |items| && forall i :: 0 <= i < |items| ==> parts[i] == Text(items[i])
    ensures ItemsText(items) == Separated(parts)
  {
    if |items| > 1 {
      ItemsWritten(items[1..], parts[1..]);
      assert parts[0] + "," + Separated(parts[1..]) == parts[0] + ("," + Separated(parts[1..]));
    } else {
      assert Concat(parts) == parts[0] + Concat(parts[1..]) && parts[1..] == [];
    }
  }

  lemma {:induction false} MembersWritten(members: seq<Member>, parts: seq<string>)
    requires members != [] && |parts| == |members|
    requires forall i :: 0 <= i < |members| ==> parts[i] == Quote(members[i].key) + ":" + Text(members[i].value)
    ensures MembersText(members) == Separated(parts)
  {
    if |members| > 1 {
      MembersWritten(members[1..], parts[1..]);
      assert parts[0] + "," + Separated(parts[1..]) == parts[0] + ("," + Separated(parts[1..]));
    } else {
      assert Concat(parts) == parts[0] + Concat(parts[1..]) && parts[1..] == [];
    }
  }

  lemma {:induction false} ArrayWritten(items: seq<Json>)
    requires forall i :: 0 <= i < |items| ==> Writes(items[i], Dumps(items[i]))
    ensures Writes(Arr(items), Dumps(Arr(items)))
  {
    var parts := seq(|items|, i requires 0 <= i < |items| => Dumps(items[i]));
    var canon := Canon(Arr(items)).items;
    if items != [] { ItemsWritten(canon, parts); }
    assert Dumps(Arr(items)) == "[" + Separated(parts) + "]";
  }

  /** The canonical text is the text of the value, as the format has it. */
  lemma {:induction false} DumpsWrites(v: Json)
    requires WellFormed(v)
    ensures Writes(v, Dumps(v))
    decreases v
  {
    match v {
      case Int(i) => NumeralWritten(if i < 0 then -i else i);
      case Str(s) => StringWritten(s);
      case Arr(items) =>
        forall i | 0 <= i < |items| ensures Writes(items[i], Dumps(items[i])) { DumpsWrites(items[i]); }
        ArrayWritten(items);
      case Obj(members) =>
        forall i | 0 <= i < |members| ensures WritesMember(members, i, MemberText(members[i])) {
          DumpsWrites(members[i].value);
          MemberWritten(members, i);
        }
        ObjectWritten(members, (i: nat) => i < |members|);
      case _ =>
    }
  }

  function MemberText(m: Member): string { Quote(m.key) + ":" + Dumps(m.value) }

  lemma {:induction false} MemberWritten(members: seq<Member>, k: nat)
    requires k < |members| && Writes(members[k].value, Dumps(members[k].value))
    ensures WritesMember(members, k, MemberText(members[k]))
  {
    StringWritten(members[k].key);
  }

  lemma {:induction false} SortedMembersAt(members: seq<Member>) returns (at: seq<nat>, r: seq<Member>)
    requires Distinct(Keys(members))
    ensures Canon(Obj(members)) == Obj(r) && |at| == |r| == |members|
    ensures forall i :: 0 <= i < |at| ==>
              at[i] < |members| && r[i] == Member(members[at[i]].key, Canon(members[at[i]].value))
    ensures forall i, j :: 0 <= i < j < |r| ==> StrLeq(r[i].key, r[j].key) && r[i].key != r[j].key
  {
    var c := CanonMembers(members, StrLeq);
    r := SortBy(c, ByKey(StrLeq));
    StrKeyOrder();
    assert Keys(c) == Keys(members);
    SortedItems(c, StrLeq);
    at := Positions(c, r);
    forall i, j | 0 <= i < j < |r| ensures StrLeq(r[i].key, r[j].key) && r[i].key != r[j].key {
      assert ByKey(StrLeq)(r[i], r[j]) && Keys(r)[i] != Keys(r)[j];
    }
  }

  /** The text of the sorted members, each as it is written. */
  lemma {:induction false} MembersTextAt(members: seq<Member>, at: seq<nat>, r: seq<Member>, parts: seq<string>)
    requires |at| == |r| == |parts|
    requires forall i :: 0 <= i < |at| ==>
               at[i] < |members| && r[i] == Member(members[at[i]].key, Canon(members[at[i]].value))
               && parts[i] == MemberText(members[at[i]])
    ensures Text(Obj(r)) == "{" + Separated(parts) + "}"
  {
    if r != [] { MembersWritten(r, parts); }
  }

  lemma {:induction false} ObjectWritten(members: seq<Member>, written: nat -> bool)
    requires Distinct(Keys(members))
    requires forall i: nat :: written(i) ==> i < |members| && WritesMember(members, i, MemberText(members[i]))
    requires forall i: nat :: i < |members| ==> written(i)
    ensures Writes(Obj(members), Dumps(Obj(members)))
  {
    var at, r := SortedMembersAt(members);
    var parts := seq(|at|, i requires 0 <= i < |at| => MemberText(members[at[i]]));
    MembersTextAt(members, at, r, parts);
    forall i | 0 <= i < |at| ensures WritesMember(members, at[i], parts[i]) { assert written(at[i]); }
    forall i, j | 0 <= i < j < |at|
      ensures StrLeq(members[at[i]].key, members[at[j]].key) && members[at[i]].key != members[at[j]].key
    {
      assert StrLeq(r[i].key, r[j].key) && r[i].key != r[j].key;
    }
    WritesObject(members, Dumps(Obj(members)), at, parts);
  }

  lemma {:induction false} WritesObject(members: seq<Member>, t: string, at: seq<nat>, parts: seq<string>)
    requires WritesMembers(members, t, at, parts)
    ensures Writes(Obj(members), t)
  {
  }

  /** Where the elements of r stand in c. */
  lemma {:induction false} Positions(c: seq<Member>, r: seq<Member>) returns (at: seq<nat>)
    requires forall m :: m in r ==> m in c
    ensures |at| == |r| && forall i :: 0 <= i < |r| ==> at[i] < |c| && c[at[i]] == r[i]
  {
    at := [];
    for n := 0 to |r|
      invariant |at| == n && forall i :: 0 <= i < n ==> at[i] < |c| && c[at[i]] == r[i]
    {
      var k := IndexOf(c, r[n]);
      at := at + [k];
    }
  }

  // ---- Python's key order and that of RFC 8785 -------------------------------------

  /** The UTF-16 code units of a character. */
  function Units(c: char): seq<int> {
    var n := c as int;
    if n < 0x10000 then [n] else [0xD800 + (n - 0x10000) / 0x400, 0xDC00 + (n - 0x10000) % 0x400]
  }

  /** The definition of UTF-16 in section 2.1 of RFC 2781. */
  predicate IsUtf16(n: int, u: seq<int>) {
    || (|u| == 1 && 0 <= n < 0x10000 && u[0] == n)
    || (|u| == 2 && 0xD800 <= u[0] < 0xDC00 && 0xDC00 <= u[1] < 0xE000
        && n == 0x10000 + (u[0] - 0xD800) * 0x400 + (u[1] - 0xDC00))
  }

  lemma UnitsIff(c: char, u: seq<int>)
    ensures u == Units(c) <==> IsUtf16(c as int, u)
  {
    if IsUtf16(c as int, u) && |u| == 2 {
      var m := c as int - 0x10000;
      assert m / 0x400 == u[0] - 0xD800 && m % 0x400 == u[1] - 0xDC00;
    }
  }

  function Utf16(s: string): seq<int> {
    if s == "" then [] else Units(s[0]) + Utf16(s[1..])
  }

  /** Section 3.2.3 of RFC 8785 compares property names as arrays of UTF-16 code units. */
  predicate Utf16Leq(a: string, b: string) { LexLeq(Utf16(a), Utf16(b)) }

  /** One character needs a surrogate pair and the other lies above the surrogates. */
  predicate ClashingChars(c: char, d: char) {
    (0xE000 <= c as int < 0x10000 <= d as int) || (0xE000 <= d as int < 0x10000 <= c as int)
  }

  /** The first difference of two strings is between such characters. */
  predicate Clash(a: string, b: string) {
    a != "" && b != "" && if a[0] == b[0] then Clash(a[1..], b[1..]) else ClashingChars(a[0], b[0])
  }

  lemma {:induction false} LexCommonPrefix(p: seq<int>, a: seq<int>, b: seq<int>)
    ensures LexLeq(p + a, p + b) == LexLeq(a, b)
  {
    if p == [] {
      assert p + a == a && p + b == b;
    } else {
      assert (p + a)[1..] == p[1..] + a && (p + b)[1..] == p[1..] + b;
      LexCommonPrefix(p[1..], a, b);
    }
  }

  lemma {:induction false} UnitsDecide(c: char, d: char, a: seq<int>, b: seq<int>)
    requires c != d
    ensures LexLeq(Units(c) + a, Units(d) + b) == if ClashingChars(c, d) then d < c else c < d
  {
    var x, y := Units(c) + a, Units(d) + b;
    var m, n := c as int - 0x10000, d as int - 0x10000;
    assert x[0] == Units(c)[0] && y[0] == Units(d)[0];
    if m >= 0 && n >= 0 {
      assert x[1] == Units(c)[1] && y[1] == Units(d)[1];
      if m / 0x400 == n / 0x400 {
        assert m % 0x400 != n % 0x400;
        assert x[1..][0] == x[1] && y[1..][0] == y[1];
      }
    }
  }

  /** The two orders disagree on exactly the clashing pairs. */
  lemma {:induction false} OrdersAgreeUnlessClash(a: string, b: string)
    ensures (StrLeq(a, b) <==> Utf16Leq(a, b)) <==> !Clash(a, b)
    ensures Clash(a, b) <==> Clash(b, a)
  {
    if a != "" && b != "" {
      assert Points(a)[1..] == Points(a[1..]) && Points(b)[1..] == Points(b[1..]);
      if a[0] == b[0] {
        OrdersAgreeUnlessClash(a[1..], b[1..]);
        LexCommonPrefix(Units(a[0]), Utf16(a[1..]), Utf16(b[1..]));
      } else {
        UnitsDecide(a[0], b[0], Utf16(a[1..]), Utf16(b[1..]));
      }
    }
  }

  lemma Utf16KeyOrder()
    ensures KeyOrder(Utf16Leq)
  {
    forall a, b
      ensures Utf16Leq(a, b) || Utf16Leq(b, a)
      ensures Utf16Leq(a, b) && Utf16Leq(b, a) ==> a == b
    {
      LexTotal(Utf16(a), Utf16(b));
      OrdersAgreeUnlessClash(a, b);
      OrdersAgreeUnlessClash(b, a);
      StrOrder(a, b);
    }
    forall a, b, c | Utf16Leq(a, b) && Utf16Leq(b, c) ensures Utf16Leq(a, c) {
      LexTransitive(Utf16(a), Utf16(b), Utf16(c));
    }
  }

  ghost predicate ClashFree(keys: seq<string>) {
    forall i, j :: 0 <= i < |keys| && 0 <= j < |keys| ==> !Clash(keys[i], keys[j])
  }

  /** Both orders sort the items of a dictionary alike exactly when no two keys clash. */
  lemma {:induction false} ItemsSortAlike(items: seq<Member>)
    requires Distinct(Keys(items))
    ensures SortBy(items, ByKey(StrLeq)) == SortBy(items, ByKey(Utf16Leq)) <==> ClashFree(Keys(items))
  {
    StrKeyOrder();
    Utf16KeyOrder();
    SortedItems(items, StrLeq);
    SortedItems(items, Utf16Leq);
    var r, q := SortBy(items, ByKey(StrLeq)), SortBy(items, ByKey(Utf16Leq));
    if ClashFree(Keys(items)) {
      forall i, j | 0 <= i < j < |r| ensures ByKey(Utf16Leq)(r[i], r[j]) {
        assert r[i] in r && r[j] in r;
        var k := IndexOf(items, r[i]);
        var l := IndexOf(items, r[j]);
        assert !Clash(Keys(items)[k], Keys(items)[l]);
        assert ByKey(StrLeq)(r[i], r[j]);
        OrdersAgreeUnlessClash(r[i].key, r[j].key);
      }
      ByKeyOrder(Utf16Leq);
      SortedSetUnique(q, r, ByKey(Utf16Leq));
    }
    if r == q {
      forall k, l | 0 <= k < |items| && 0 <= l < |items| ensures !Clash(Keys(items)[k], Keys(items)[l]) {
        assert items[k] in items && items[l] in items;
        var i := IndexOf(r, items[k]);
        var j := IndexOf(r, items[l]);
        SortedBothWays(r, i, j);
      }
    }
  }

  lemma SortedBothWays(r: seq<Member>, i: nat, j: nat)
    requires i < |r| && j < |r| && SortedBy(r, ByKey(StrLeq)) && SortedBy(r, ByKey(Utf16Leq))
    ensures !Clash(r[i].key, r[j].key)
  {
    var a, b := r[if i < j then i else j].key, r[if i < j then j else i].key;
    if i != j {
      assert ByKey(StrLeq)(r[if i < j then i else j], r[if i < j then j else i]);
      assert ByKey(Utf16Leq)(r[if i < j then i else j], r[if i < j then j else i]);
    } else {
      StrOrder(a, a);
      LexTotal(Utf16(a), Utf16(a));
    }
    OrdersAgreeUnlessClash(a, b);
  }

  /** No dictionary anywhere in the value has two clashing keys. */
  ghost predicate NoClash(v: Json) {
    match v
    case Arr(items) => forall i :: 0 <= i < |items| ==> NoClash(items[i])
    case Obj(members) => ClashFree(Keys(members)) && forall i :: 0 <= i < |members| ==> NoClash(members[i].value)
    case _ => true
  }

  lemma {:induction false} CanonsAgreeIff(v: Json)
    requires WellFormed(v)
    ensures CanonBy(v, StrLeq) == CanonBy(v, Utf16Leq) <==> NoClash(v)
    decreases v
  {
    match v {
      case Arr(items) =>
        var a, b := CanonBy(v, StrLeq), CanonBy(v, Utf16Leq);
        forall i | 0 <= i < |items| ensures a.items[i] == b.items[i] <==> NoClash(items[i]) {
          CanonsAgreeIff(items[i]);
        }
      case Obj(members) =>
        forall i | 0 <= i < |members|
          ensures CanonBy(members[i].value, StrLeq) == CanonBy(members[i].value, Utf16Leq)
                  <==> NoClash(members[i].value)
        {
          CanonsAgreeIff(members[i].value);
        }
        ObjectsAgreeIff(members);
      case _ =>
    }
  }

  lemma ObjectsAgreeIff(members: seq<Member>)
    requires Distinct(Keys(members))
    ensures CanonBy(Obj(members), StrLeq) == CanonBy(Obj(members), Utf16Leq)
            <==> ClashFree(Keys(members)) && forall i :: 0 <= i < |members| ==>
                   CanonBy(members[i].value, StrLeq) == CanonBy(members[i].value, Utf16Leq)
  {
    var a, b := CanonMembers(members, StrLeq), CanonMembers(members, Utf16Leq);
    var r, q := SortBy(a, ByKey(StrLeq)), SortBy(b, ByKey(Utf16Leq));
    assert Keys(a) == Keys(members) && Keys(b) == Keys(members);
    assert CanonBy(Obj(members), StrLeq) == Obj(r) && CanonBy(Obj(members), Utf16Leq) == Obj(q);
    StrKeyOrder();
    Utf16KeyOrder();
    SortedItems(a, StrLeq);
    SortedItems(b, Utf16Leq);
    if r == q {
      forall i | 0 <= i < |members| ensures a[i] == b[i] {
        assert a[i] in a && a[i] in b;
        var j := IndexOf(b, a[i]);
        assert Keys(b)[j] == Keys(b)[i];
      }
    }
    if a == b { ItemsSortAlike(a); }
    if forall i :: 0 <= i < |members| ==> CanonBy(members[i].value, StrLeq) == CanonBy(members[i].value, Utf16Leq) {
      assert a == b;
    }
  }

  /** The canonical text has the key order of RFC 8785 exactly when no two keys of a
      dictionary first differ between a character above U+FFFF and one in U+E000..U+FFFF. */
  lemma {:induction false} Rfc8785OrderIff(v: Json)
    requires WellFormed(v)
    ensures Dumps(v) == Text(CanonBy(v, Utf16Leq)) <==> NoClash(v)
  {
    StrKeyOrder();
    Utf16KeyOrder();
    var j := CanonBy(v, Utf16Leq);
    CanonWellFormed(v, StrLeq);
    CanonWellFormed(v, Utf16Leq);
    ReadText(Canon(v), "");
    ReadText(j, "");
    assert Text(j) + "" == Text(j) && Dumps(v) + "" == Dumps(v);
    CanonsAgreeIff(v);
  }

  /** In particular when no key contains a character in U+E000..U+FFFF. */
  lemma {:induction false} PlainKeysDoNotClash(a: string, b: string)
    requires forall i :: 0 <= i < |a| ==> !(0xE000 <= a[i] as int < 0x10000)
    requires forall i :: 0 <= i < |b| ==> !(0xE000 <= b[i] as int < 0x10000)
    ensures !Clash(a, b)
  {
    if a != "" && b != "" && a[0] == b[0] { PlainKeysDoNotClash(a[1..], b[1..]); }
  }

  /** The docstring claims RFC 8785 for every payload; this one is ordered otherwise. */
  lemma NotAlwaysRfc8785()
    ensures var v := Obj([Member("\U{E000}", Null), Member("\U{10000}", Null)]);
            WellFormed(v) && Dumps(v) != Text(CanonBy(v, Utf16Leq))
  {
    var v := Obj([Member("\U{E000}", Null), Member("\U{10000}", Null)]);
    assert Keys(v.members)[0] == "\U{E000}" && Keys(v.members)[1] == "\U{10000}";
    assert ClashingChars(Keys(v.members)[0][0], Keys(v.members)[1][0]);
    assert Clash(Keys(v.members)[0], Keys(v.members)[1]);
    Rfc8785OrderIff(v);
  }
}
