/** Hexadecimal digit strings: the `parseInt(token, 16)` that turns a `Cid:`
    token into a process id, and the `toString(16)` rendering of a number that
    the script uses to name an address on a command line. */
module Hex {

  predicate IsHexDigit(c: char) {
    ('0' <= c <= '9') || ('a' <= c <= 'f') || ('A' <= c <= 'F')
  }

  predicate AllHexDigits(s: string) {
    forall i | 0 <= i < |s| :: IsHexDigit(s[i])
  }

  /** What the pattern `[0-9a-fA-F]+` captures: a non-empty run of hex digits */
  predicate IsHexToken(s: string) {
    |s| > 0 && AllHexDigits(s)
  }

  type HexToken = s: string | IsHexToken(s) witness "0"

  function Pow16(n: nat): (p: nat)
    ensures p > 0
  {
    if n == 0 then 1 else 16 * Pow16(n - 1)
  }

  function DigitValue(c: char): (v: nat)
    requires IsHexDigit(c)
    ensures v < 16
  {
    if '0' <= c <= '9' then c as int - '0' as int
    else if 'a' <= c <= 'f' then c as int - 'a' as int + 10
    else c as int - 'A' as int + 10
  }

  /** `parseInt(s, 16)` for a string of hex digits, computed exactly */
  function Value(s: string): (v: nat)
    requires AllHexDigits(s)
    ensures v < Pow16(|s|)
  {
    if |s| == 0 then 0
    else 16 * Value(s[..|s| - 1]) + DigitValue(s[|s| - 1])
  }

  /** The lower-case digit `toString(16)` writes for `d` */
  function DigitChar(d: nat): (c: char)
    requires d < 16
    ensures IsHexDigit(c) && DigitValue(c) == d
    ensures !('A' <= c <= 'F')
  {
    if d < 10 then ('0' as int + d) as char else ('a' as int + d - 10) as char
  }

  /** `n.toString(16)`: lower-case digits, no leading zero except for 0 itself */
  function ToHex(n: nat): (s: string)
    ensures IsHexToken(s)
    ensures |s| > 1 ==> s[0] != '0'
    ensures n > 0 ==> s[0] != '0'
    ensures forall i | 0 <= i < |s| :: !('A' <= s[i] <= 'F')
    decreases n
  {
    if n < 16 then [DigitChar(n)] else ToHex(n / 16) + [DigitChar(n % 16)]
  }

  /** Parsing the rendering of a number gives the number back */
  lemma {:induction false} ValueOfToHex(n: nat)
    ensures Value(ToHex(n)) == n
    decreases n
  {
    if n >= 16 {
      var s := ToHex(n);
      assert s[..|s| - 1] == ToHex(n / 16);
      ValueOfToHex(n / 16);
    }
  }

  /** A token parses to 0 exactly when every digit is '0' (so `Cid: 0000` is no process id) */
  lemma {:induction false} ValueZeroIff(s: string)
    requires AllHexDigits(s)
    ensures Value(s) == 0 <==> forall i | 0 <= i < |s| :: s[i] == '0'
  {
    if |s| > 0 {
      var p := s[..|s| - 1];
      ValueZeroIff(p);
      assert forall i | 0 <= i < |p| :: p[i] == s[i];
    }
  }

  /** The lower-case form of an ASCII letter; every other character is unchanged */
  function Lower(c: char): char {
    if 'A' <= c <= 'Z' then (c as int + 32) as char else c
  }

  /** A digit and its lower-case form have the same value */
  lemma DigitValueLower(c: char)
    requires IsHexDigit(c)
    ensures IsHexDigit(Lower(c)) && DigitValue(Lower(c)) == DigitValue(c)
  {
  }

  /** Upper- and lower-case digits parse alike: `parseInt` is case-blind */
  lemma {:induction false} ValueIgnoresCase(s: string, t: string)
    requires AllHexDigits(s) && AllHexDigits(t) && |s| == |t|
    requires forall i | 0 <= i < |s| :: Lower(s[i]) == Lower(t[i])
    ensures Value(s) == Value(t)
  {
    if |s| > 0 {
      var n := |s| - 1;
      DigitValueLower(s[n]);
      DigitValueLower(t[n]);
      ValueIgnoresCase(s[..n], t[..n]);
    }
  }

  /** Leading zeros of a `Cid:` token do not change its value: `004d` is 77 */
  lemma CidExample()
    ensures Value("004d") == 77
  {
    assert "004d"[..3] == "004" && "004"[..2] == "00" && "00"[..1] == "0" && "0"[..0] == "";
  }
}
