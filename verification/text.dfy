/** String handling the resolver relies on: `String.prototype.trim` applied to
    the `Image:` capture, and the decoding of the fixed-width `ImageFileName`
    byte buffer one `String.fromCharCode` at a time up to the first NUL. */
module Text {

  /** The characters `trim` removes: ECMAScript WhiteSpace and LineTerminator */
  predicate IsSpace(c: char) {
    var u := c as int;
    u == 0x09 || u == 0x0A || u == 0x0B || u == 0x0C || u == 0x0D || u == 0x20
    || u == 0xA0 || u == 0x1680 || (0x2000 <= u <= 0x200A) || u == 0x2028 || u == 0x2029
    || u == 0x202F || u == 0x205F || u == 0x3000 || u == 0xFEFF
  }

  predicate AllSpace(s: string) {
    forall i | 0 <= i < |s| :: IsSpace(s[i])
  }

  /** Number of leading white-space characters of `s` */
  function LeadingSpace(s: string): (n: nat)
    ensures n <= |s|
    ensures AllSpace(s[..n])
    ensures n < |s| ==> !IsSpace(s[n])
  {
    if |s| == 0 || !IsSpace(s[0]) then 0 else 1 + LeadingSpace(s[1..])
  }

  /** Number of trailing white-space characters of `s` */
  function TrailingSpace(s: string): (n: nat)
    ensures n <= |s|
    ensures AllSpace(s[|s| - n..])
    ensures n < |s| ==> !IsSpace(s[|s| - n - 1])
  {
    if |s| == 0 || !IsSpace(s[|s| - 1]) then 0 else 1 + TrailingSpace(s[..|s| - 1])
  }

  /** `s.trim()`: `s` is the result framed by white space only, and the result
      neither starts nor ends with white space */
  function Trim(s: string): (r: string)
    ensures |r| <= |s|
    ensures exists i, j :: 0 <= i <= j <= |s| && AllSpace(s[..i]) && AllSpace(s[j..]) && r == s[i..j]
    ensures |r| > 0 ==> !IsSpace(r[0]) && !IsSpace(r[|r| - 1])
  {
    var i := LeadingSpace(s);
    var rest := s[i..];
    var j := |rest| - TrailingSpace(rest);
    var r := rest[..j];
    assert r == s[i..i + j] && s[i + j..] == rest[j..];
    assert |r| > 0 ==> r[0] == s[i] && r[|r| - 1] == rest[j - 1];
    r
  }

  /** Text with no white space at either end is left as it is */
  lemma TrimUnspaced(s: string)
    requires |s| > 0 ==> !IsSpace(s[0]) && !IsSpace(s[|s| - 1])
    ensures Trim(s) == s
  {
    if |s| > 0 {
      assert LeadingSpace(s) == 0;
      assert s[0..] == s;
      assert TrailingSpace(s) == 0;
    }
  }

  /** Trimming twice is trimming once */
  lemma TrimIdempotent(s: string)
    ensures Trim(Trim(s)) == Trim(s)
  {
    var r := Trim(s);
    if |r| > 0 {
      assert LeadingSpace(r) == 0;
      assert TrailingSpace(r) == 0;
    }
  }

  /** The characters `fromCharCode` produces from bytes before the first 0 byte:
      the loop of lines 264-268 */
  function DecodeName(bytes: seq<int>): (name: string)
    requires forall i | 0 <= i < |bytes| :: 0 <= bytes[i] < 256
    ensures |name| <= |bytes|
    ensures forall i | 0 <= i < |name| :: bytes[i] != 0 && name[i] as int == bytes[i]
    ensures |name| < |bytes| ==> bytes[|name|] == 0
  {
    if |bytes| == 0 || bytes[0] == 0 then "" else [bytes[0] as char] + DecodeName(bytes[1..])
  }

  /** A name that fits in `width` bytes, has no NUL and only single-byte characters */
  predicate IsBufferName(name: string, width: nat) {
    |name| <= width && forall i | 0 <= i < |name| :: 0 < name[i] as int < 256
  }

  /** The inverse direction: a name stored in a `width`-byte buffer, padded with 0 bytes */
  function EncodeName(name: string, width: nat): (bytes: seq<int>)
    requires IsBufferName(name, width)
    ensures |bytes| == width
    ensures forall i | 0 <= i < width :: 0 <= bytes[i] < 256
  {
    seq(width, i requires 0 <= i < width => if i < |name| then name[i] as int else 0)
  }

  /** Decoding a stored name gives the name back */
  lemma NameRoundTrip(name: string, width: nat)
    requires IsBufferName(name, width)
    ensures DecodeName(EncodeName(name, width)) == name
  {
    var bytes := EncodeName(name, width);
    var d := DecodeName(bytes);
    if |name| < width {
      assert bytes[|name|] == 0;
    }
    assert |d| == |name|;
  }

  /** Decoding never runs past the buffer's first NUL and never yields a NUL */
  lemma DecodeStopsAtFirstNul(bytes: seq<int>, k: nat)
    requires forall i | 0 <= i < |bytes| :: 0 <= bytes[i] < 256
    requires k < |bytes| && bytes[k] == 0
    ensures |DecodeName(bytes)| <= k
    ensures IsBufferName(DecodeName(bytes), |bytes|)
  {
  }
}
