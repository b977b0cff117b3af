/**
 * Bytes and UTF-8 text as Rust sees them: a `String` or `&str` is a byte
 * sequence that is well-formed UTF-8, and slicing it with `get` is by byte
 * index and fails off a character boundary.
 */
module Text {
  import opened Wrappers

  type Byte = b: int | 0 <= b < 256

  predicate IsContinuation(b: Byte) {
    0x80 <= b < 0xC0
  }

  /**
   * Length of the well-formed UTF-8 sequence at the start of `s` (Unicode,
   * table 3-7: no overlong forms, no surrogates, nothing above U+10FFFF),
   * or 0 when `s` does not start with one.
   */
  function LeadingCharWidth(s: seq<Byte>): (n: nat)
    ensures n <= |s| && n <= 4
    ensures |s| > 0 && s[0] < 0x80 ==> n == 1
  {
    if |s| == 0 then 0
    else
      var b0 := s[0];
      if b0 < 0x80 then 1
      else if 0xC2 <= b0 <= 0xDF then
        if |s| >= 2 && IsContinuation(s[1]) then 2 else 0
      else if 0xE0 <= b0 <= 0xEF then
        var lo := if b0 == 0xE0 then 0xA0 else 0x80;
        var hi := if b0 == 0xED then 0x9F else 0xBF;
        if |s| >= 3 && lo <= s[1] <= hi && IsContinuation(s[2]) then 3 else 0
      else if 0xF0 <= b0 <= 0xF4 then
        var lo := if b0 == 0xF0 then 0x90 else 0x80;
        var hi := if b0 == 0xF4 then 0x8F else 0xBF;
        if |s| >= 4 && lo <= s[1] <= hi && IsContinuation(s[2]) && IsContinuation(s[3]) then 4 else 0
      else 0
  }

  /**
   * `std::str::from_utf8(s).is_ok()`. Well-formed text never starts with a
   * continuation byte.
   */
  predicate ValidUtf8(s: seq<Byte>)
    ensures ValidUtf8(s) && s != [] ==> !IsContinuation(s[0])
    decreases |s|
  {
    s == [] || (LeadingCharWidth(s) > 0 && ValidUtf8(s[LeadingCharWidth(s)..]))
  }

  /** The bytes of a Rust `String`. */
  type Utf8 = s: seq<Byte> | ValidUtf8(s) witness []

  predicate IsAscii(s: seq<Byte>) {
    forall k | 0 <= k < |s| :: s[k] < 0x80
  }

  lemma {:induction false} AsciiIsUtf8(s: seq<Byte>)
    requires IsAscii(s)
    ensures ValidUtf8(s)
    decreases |s|
  {
    if s != [] {
      assert LeadingCharWidth(s) == 1;
      AsciiIsUtf8(s[1..]);
    }
  }

  /**
   * `str::is_char_boundary`: the start, the end, or the first byte of a
   * character; every ASCII byte starts one, and nothing past the end is one.
   */
  predicate IsCharBoundary(s: seq<Byte>, i: nat)
    ensures i < |s| && s[i] < 0x80 ==> IsCharBoundary(s, i)
    ensures IsCharBoundary(s, i) ==> i <= |s|
  {
    i == 0 || i == |s| || (i < |s| && !IsContinuation(s[i]))
  }

  /**
   * `s.get(lo..hi)`: the bytes between two character boundaries, or None.
   * A range past the end or reversed fails; a range between ASCII bytes or
   * the ends always succeeds.
   */
  function Get(s: seq<Byte>, lo: nat, hi: nat): (r: Option<seq<Byte>>)
    ensures r.Some? ==> lo <= hi <= |s| && r.value == s[lo..hi]
    ensures lo <= hi <= |s| && (lo == |s| || s[lo] < 0x80) && (hi == |s| || s[hi] < 0x80) ==> r == Some(s[lo..hi])
    ensures 0 < lo < |s| && IsContinuation(s[lo]) ==> r.None?
  {
    if lo <= hi <= |s| && IsCharBoundary(s, lo) && IsCharBoundary(s, hi) then Some(s[lo..hi])
    else None
  }
}
