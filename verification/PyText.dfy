/** The string methods of Python that the program relies on. */
module PyText {

  /** The characters that str.strip() removes. */
  predicate IsSpace(c: char) {
    var n := c as int;
    || 0x09 <= n <= 0x0D || 0x1C <= n <= 0x20 || n == 0x85 || n == 0xA0 || n == 0x1680
    || 0x2000 <= n <= 0x200A || n == 0x2028 || n == 0x2029 || n == 0x202F || n == 0x205F || n == 0x3000
  }

  function StripLeft(s: string, drop: char -> bool): string {
    if s != "" && drop(s[0]) then StripLeft(s[1..], drop) else s
  }

  function StripRight(s: string, drop: char -> bool): string {
    if s != "" && drop(s[|s| - 1]) then StripRight(s[..|s| - 1], drop) else s
  }

  /** s.strip() */
  function Strip(s: string): string {
    StripRight(StripLeft(s, IsSpace), IsSpace)
  }

  lemma {:induction false} StripLeftStops(s: string, drop: char -> bool)
    ensures var r := StripLeft(s, drop); r != "" ==> !drop(r[0])
  {
    if s != "" && drop(s[0]) { StripLeftStops(s[1..], drop); }
  }

  /** Stripping on the right removes exactly the longest tail of dropped characters. */
  lemma {:induction false} StripRightCuts(s: string, drop: char -> bool)
    ensures var r := StripRight(s, drop);
            && r <= s && (r != "" ==> !drop(r[|r| - 1]))
            && forall i :: |r| <= i < |s| ==> drop(s[i])
  {
    if s != "" && drop(s[|s| - 1]) { StripRightCuts(s[..|s| - 1], drop); }
  }

  lemma {:induction false} StripLeftCuts(s: string, drop: char -> bool) returns (i: nat)
    ensures i <= |s| && StripLeft(s, drop) == s[i..] && forall k :: 0 <= k < i ==> drop(s[k])
  {
    if s != "" && drop(s[0]) {
      i := StripLeftCuts(s[1..], drop);
      i := i + 1;
    } else {
      i := 0;
    }
  }

  /** Stripping leaves the middle of the text, between the first and the last character that is no space. */
  lemma StripIsMiddle(s: string) returns (i: nat, j: nat)
    ensures i <= j <= |s| && Strip(s) == s[i..j]
    ensures forall k :: 0 <= k < i || j <= k < |s| ==> IsSpace(s[k])
    ensures i < j ==> !IsSpace(s[i]) && !IsSpace(s[j - 1])
  {
    i := StripLeftCuts(s, IsSpace);
    StripLeftStops(s, IsSpace);
    StripRightCuts(s[i..], IsSpace);
    j := i + |Strip(s)|;
    forall k | j <= k < |s| ensures IsSpace(s[k]) { assert s[k] == s[i..][k - i]; }
  }

  /** What is left begins and ends with other characters, so stripping again changes nothing. */
  lemma StripTwice(s: string)
    ensures Strip(Strip(s)) == Strip(s)
    ensures Strip(s) != "" ==> !IsSpace(Strip(s)[0]) && !IsSpace(Strip(s)[|Strip(s)| - 1])
  {
    var l := StripLeft(s, IsSpace);
    StripLeftStops(s, IsSpace);
    StripRightCuts(l, IsSpace);
    var r := StripRight(l, IsSpace);
    if r != "" {
      assert r[0] == l[0];
      StripKeeps(r);
    }
  }

  /** Text that begins and ends with other characters survives stripping. */
  lemma StripKeeps(s: string)
    requires s != "" && !IsSpace(s[0]) && !IsSpace(s[|s| - 1])
    ensures Strip(s) == s
  {
  }

  // ---- Finding text ----------------------------------------------------------------

  predicate OccursAt(text: string, pat: string, i: int) {
    0 <= i <= |text| - |pat| && text[i..i + |pat|] == pat
  }

  // ---- str() of a number -----------------------------------------------------------

  predicate IsDigit(c: char) { '0' <= c <= '9' }

  predicate AllDigits(s: string) { forall i :: 0 <= i < |s| ==> IsDigit(s[i]) }

  function DigitChar(n: nat): char
    requires n < 10
  {
    ('0' as int + n) as char
  }

  function Decimal(n: nat): (r: string)
    ensures r != "" && AllDigits(r)
  {
    if n < 10 then [DigitChar(n)] else Decimal(n / 10) + [DigitChar(n % 10)]
  }
}
