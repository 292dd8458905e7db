/** UTF-8, as far as cutting encoded text short goes. */
module Utf8 {
  import opened Ordering

  function Encode(c: char): (r: seq<int>)
    ensures 1 <= |r| <= 4 && (|r| == 1 <==> c as int < 0x80)
  {
    var n := c as int;
    if n < 0x80 then [n]
    else if n < 0x800 then [0xC0 + n / 64, 0x80 + n % 64]
    else if n < 0x10000 then [0xE0 + n / 4096, 0x80 + n / 64 % 64, 0x80 + n % 64]
    else [0xF0 + n / 262144, 0x80 + n / 4096 % 64, 0x80 + n / 64 % 64, 0x80 + n % 64]
  }

  predicate IsTail(b: int) { 0x80 <= b < 0xC0 }

  /** The table of section 3 of RFC 3629: these bytes, and no shorter ones, stand for the character. */
  predicate IsUtf8(n: int, b: seq<int>) {
    || (|b| == 1 && 0 <= n < 0x80 && b[0] == n)
    || (|b| == 2 && 0x80 <= n < 0x800 && 0xC0 <= b[0] < 0xE0 && IsTail(b[1]) && n == (b[0] - 0xC0) * 64 + b[1] - 0x80)
    || (|b| == 3 && 0x800 <= n < 0x10000 && 0xE0 <= b[0] < 0xF0 && IsTail(b[1]) && IsTail(b[2])
        && n == (b[0] - 0xE0) * 4096 + (b[1] - 0x80) * 64 + b[2] - 0x80)
    || (|b| == 4 && 0x10000 <= n < 0x110000 && 0xF0 <= b[0] < 0xF8 && IsTail(b[1]) && IsTail(b[2]) && IsTail(b[3])
        && n == (b[0] - 0xF0) * 262144 + (b[1] - 0x80) * 4096 + (b[2] - 0x80) * 64 + b[3] - 0x80)
  }

  /** s.encode("utf-8") */
  function EncodeAll(s: string): seq<int> {
    if s == "" then [] else Encode(s[0]) + EncodeAll(s[1..])
  }

  /** The length of the sequence that a lead byte announces; 0 for a continuation byte. */
  function Width(lead: int): nat {
    if lead < 0x80 then 1 else if lead < 0xC0 then 0 else if lead < 0xE0 then 2 else if lead < 0xF0 then 3 else 4
  }

  function CodePoint(b: seq<int>): int
    requires 1 <= |b| <= 4
  {
    if |b| == 1 then b[0]
    else if |b| == 2 then (b[0] - 0xC0) * 64 + (b[1] - 0x80)
    else if |b| == 3 then (b[0] - 0xE0) * 4096 + (b[1] - 0x80) * 64 + (b[2] - 0x80)
    else (b[0] - 0xF0) * 262144 + (b[1] - 0x80) * 4096 + (b[2] - 0x80) * 64 + (b[3] - 0x80)
  }

  const REPLACEMENT: char := '\U{FFFD}'

  predicate IsScalar(n: int) { 0 <= n < 0xD800 || 0xE000 <= n < 0x110000 }

  /** bytes.decode("utf-8", errors="replace") of text that was cut short: an incomplete
      sequence at the end becomes one U+FFFD. */
  function DecodeReplace(b: seq<int>): string {
    if b == [] then ""
    else
      var w := Width(b[0]);
      if w == 0 then [REPLACEMENT] + DecodeReplace(b[1..])
      else if |b| < w then [REPLACEMENT]
      else
        var n := CodePoint(b[..w]);
        [if IsScalar(n) then n as char else REPLACEMENT] + DecodeReplace(b[w..])
  }

  /** How many whole characters of s fit into m bytes. */
  function WholeChars(s: string, m: nat): (k: nat)
    ensures k <= |s|
  {
    if s == "" || |Encode(s[0])| > m then 0 else 1 + WholeChars(s[1..], m - |Encode(s[0])|)
  }

  /** The bytes of the character that does not fit, as far as they fall into m bytes. */
  function Leftover(s: string, m: nat): nat {
    if s == "" then 0
    else if |Encode(s[0])| > m then m
    else Leftover(s[1..], m - |Encode(s[0])|)
  }

  lemma Quotients(n: nat, q: nat)
    requires q == n / 64
    ensures n == q * 64 + n % 64 && q / 64 == n / 4096 && q / 4096 == n / 262144
  {
  }

  lemma EncodedChar(c: char)
    ensures Width(Encode(c)[0]) == |Encode(c)| && CodePoint(Encode(c)) == c as int
  {
    var n := c as int;
    Quotients(n, n / 64);
    Quotients(n / 64, n / 4096);
    if n < 0x80 {
    } else if n < 0x800 {
      assert Encode(c) == [0xC0 + n / 64, 0x80 + n % 64];
    } else if n < 0x10000 {
      assert Encode(c) == [0xE0 + n / 4096, 0x80 + n / 64 % 64, 0x80 + n % 64];
    } else {
      assert Encode(c) == [0xF0 + n / 262144, 0x80 + n / 4096 % 64, 0x80 + n / 64 % 64, 0x80 + n % 64];
    }
  }

  lemma BytesPinned(n: int, b: seq<int>, d: seq<int>)
    requires IsUtf8(n, b) && IsUtf8(n, d)
    ensures b == d
  {
    assert |b| == |d|;
    if |b| == 4 {
      assert b[3] == d[3] && b[2] == d[2] && b[1] == d[1] && b[0] == d[0];
    } else if |b| == 3 {
      assert b[2] == d[2] && b[1] == d[1] && b[0] == d[0];
    } else if |b| == 2 {
      assert b[1] == d[1] && b[0] == d[0];
    }
  }

  /** A character is encoded as the table says. */
  lemma EncodeIff(c: char, b: seq<int>)
    ensures b == Encode(c) <==> IsUtf8(c as int, b)
  {
    var n := c as int;
    Quotients(n, n / 64);
    Quotients(n / 64, n / 4096);
    EncodedChar(c);
    assert IsUtf8(n, Encode(c));
    if IsUtf8(n, b) { BytesPinned(n, b, Encode(c)); }
  }

  lemma {:induction false} EncodeAppends(s: string, t: string)
    ensures EncodeAll(s + t) == EncodeAll(s) + EncodeAll(t)
  {
    if s == "" {
      assert s + t == t;
    } else {
      assert (s + t)[1..] == s[1..] + t;
      EncodeAppends(s[1..], t);
    }
  }

  /** A whole encoded character at the front decodes to itself. */
  lemma {:induction false} DecodeWhole(c: char, rest: seq<int>)
    ensures DecodeReplace(Encode(c) + rest) == [c] + DecodeReplace(rest)
  {
    var e := Encode(c);
    var b := e + rest;
    EncodedChar(c);
    assert b[0] == e[0] && b[..|e|] == e && b[|e|..] == rest;
    assert IsScalar(c as int);
  }

  lemma {:induction false} DecodeText(s: string, rest: seq<int>)
    ensures DecodeReplace(EncodeAll(s) + rest) == s + DecodeReplace(rest)
  {
    if s == "" {
      assert EncodeAll(s) + rest == rest && s + DecodeReplace(rest) == DecodeReplace(rest);
    } else {
      DecodeText(s[1..], rest);
      DecodeWhole(s[0], EncodeAll(s[1..]) + rest);
      Regrouped(Encode(s[0]), EncodeAll(s[1..]), rest);
      Regrouped([s[0]], s[1..], DecodeReplace(rest));
      assert [s[0]] + s[1..] == s;
    }
  }

  lemma TakePast<T>(a: seq<T>, b: seq<T>, m: nat)
    requires |a| <= m <= |a| + |b|
    ensures (a + b)[..m] == a + b[..m - |a|]
  {
  }

  /** The first m bytes of a text are the whole characters that fit and a part of the next one. */
  lemma {:induction false} CutBytes(s: string, m: nat)
    requires m < |EncodeAll(s)|
    ensures var k, part := WholeChars(s, m), Leftover(s, m);
            && k < |s| && part < |Encode(s[k])|
            && |EncodeAll(s[..k])| + part == m
            && EncodeAll(s)[..m] == EncodeAll(s[..k]) + Encode(s[k])[..part]
  {
    var e, rest := Encode(s[0]), EncodeAll(s[1..]);
    if |e| > m {
      assert s[..0] == "" && (e + rest)[..m] == e[..m];
    } else {
      CutBytes(s[1..], m - |e|);
      var k, part := WholeChars(s[1..], m - |e|), Leftover(s[1..], m - |e|);
      var t := s[..k + 1];
      assert t[0] == s[0] && t[1..] == s[1..][..k];
      TakePast(e, rest, m);
      Regrouped(e, EncodeAll(s[1..][..k]), Encode(s[k + 1])[..part]);
    }
  }

  /** Cutting the encoding after m bytes leaves the whole characters that fit, and a
      replacement character if the cut goes through one. */
  lemma {:induction false} DecodeCut(s: string, m: nat)
    requires m < |EncodeAll(s)|
    ensures var k := WholeChars(s, m);
            DecodeReplace(EncodeAll(s)[..m]) == s[..k] + if Leftover(s, m) == 0 then "" else [REPLACEMENT]
  {
    CutBytes(s, m);
    var k, part := WholeChars(s, m), Leftover(s, m);
    DecodeText(s[..k], Encode(s[k])[..part]);
  }

  /** Decoding undoes encoding. */
  lemma {:induction false} DecodeEncode(s: string)
    ensures DecodeReplace(EncodeAll(s)) == s
  {
    DecodeText(s, []);
    assert EncodeAll(s) + [] == EncodeAll(s);
  }

  /** A text has at least as many bytes as characters, and exactly as many when it is ASCII. */
  lemma {:induction false} AsciiBytes(s: string)
    ensures |EncodeAll(s)| >= |s|
    ensures |EncodeAll(s)| == |s| <==> IsAscii(s)
  {
    if s != "" {
      AsciiBytes(s[1..]);
      assert s == [s[0]] + s[1..];
      if IsAscii(s) { assert forall i :: 0 <= i < |s| - 1 ==> s[1..][i] == s[i + 1]; }
      if IsAscii(s[1..]) && s[0] as int < 0x80 {
        forall i | 0 <= i < |s| ensures s[i] as int < 0x80 { if i > 0 { assert s[i] == s[1..][i - 1]; } }
      }
    }
  }

  predicate IsAscii(s: string) { forall i :: 0 <= i < |s| ==> s[i] as int < 0x80 }
}
