/**
 * Fixed-width digit strings in a base between 2 and 16, as produced by
 * `Guid.ToString("N")` (32 lower-case hexadecimal digits) and by the
 * `yyyy` and `MM` date format specifiers (zero-padded decimal), together
 * with the parser that inverts them.
 */
module Text {

  function Pow(b: nat, w: nat): (r: nat)
    ensures b >= 1 ==> r >= 1
  {
    if w == 0 then 1 else b * Pow(b, w - 1)
  }

  /** The character of digit `d`: '0'..'9', then 'a'..'f'. */
  function DigitChar(d: nat): (c: char)
    requires d < 16
    ensures DigitValue(c) == d
  {
    if d < 10 then ('0' as int + d) as char else ('a' as int + d - 10) as char
  }

  function DigitValue(c: char): nat {
    if '0' <= c <= '9' then c as int - '0' as int
    else if 'a' <= c <= 'f' then c as int - 'a' as int + 10
    else 0
  }

  predicate IsDigit(c: char, b: nat) {
    ('0' <= c <= '9' || 'a' <= c <= 'f') && DigitValue(c) < b
  }

  /** The last `w` digits of `n` in base `b`, most significant first, zero-padded. */
  function Pad(n: nat, b: nat, w: nat): (s: string)
    requires 2 <= b <= 16
    ensures |s| == w
    ensures forall i :: 0 <= i < |s| ==> IsDigit(s[i], b)
    decreases w
  {
    if w == 0 then "" else Pad(n / b, b, w - 1) + [DigitChar(n % b)]
  }

  /** The value of a digit string in base `b`. */
  function Parse(s: string, b: nat): nat {
    if s == [] then 0 else Parse(s[..|s| - 1], b) * b + DigitValue(s[|s| - 1])
  }

  /** Padding loses nothing when the number fits in `w` digits. */
  lemma {:induction false} ParsePad(n: nat, b: nat, w: nat)
    requires 2 <= b <= 16 && n < Pow(b, w)
    ensures Parse(Pad(n, b, w), b) == n
    decreases w
  {
    if w > 0 {
      var q, d := n / b, n % b;
      var prefix := Pad(q, b, w - 1);
      assert q < Pow(b, w - 1) by {
        DivBound(n, b, Pow(b, w - 1));
      }
      ParsePad(q, b, w - 1);
      ParseSnoc(prefix, DigitChar(d), b);
      DivMod(n, b);
    }
  }

  lemma ParseSnoc(s: string, c: char, b: nat)
    ensures Parse(s + [c], b) == Parse(s, b) * b + DigitValue(c)
  {
    assert (s + [c])[..|s + [c]| - 1] == s;
  }

  lemma DivMod(n: nat, b: nat)
    requires b >= 1
    ensures (n / b) * b + n % b == n
  {
  }

  lemma DivBound(n: nat, b: nat, p: nat)
    requires b >= 1 && n < b * p
    ensures n / b < p
  {
  }

  /** Distinct numbers that fit in `w` digits have distinct padded forms. */
  lemma PadInjective(m: nat, n: nat, b: nat, w: nat)
    requires 2 <= b <= 16 && m < Pow(b, w) && n < Pow(b, w)
    requires Pad(m, b, w) == Pad(n, b, w)
    ensures m == n
  {
    ParsePad(m, b, w);
    ParsePad(n, b, w);
  }
}
