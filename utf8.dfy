/**
 * Well-formed UTF-8, as Python's strict `bytes.decode()` accepts it: the byte
 * patterns of table 3-7 in chapter 3 of the Unicode Standard (no overlong
 * forms, no surrogates, nothing above U+10FFFF).
 */
module Utf8 {
  import opened Common

  predicate IsContinuation(b: Byte)
  {
    0x80 <= b <= 0xBF
  }

  /** Length of the well-formed character at the front of `s`, or 0 if there is none. */
  function LeadWidth(s: Bytes): (w: nat)
    requires |s| > 0
    ensures w <= 4 && w <= |s|
    ensures w == 1 <==> s[0] < 0x80
  {
    var b0 := s[0];
    if b0 < 0x80 then 1
    else if 0xC2 <= b0 <= 0xDF then
      if |s| >= 2 && IsContinuation(s[1]) then 2 else 0
    else if 0xE0 <= b0 <= 0xEF then
      var lo := if b0 == 0xE0 then 0xA0 else 0x80;
      var hi := if b0 == 0xED then 0x9F else 0xBF;
      if |s| >= 3 && lo <= s[1] <= hi && IsContinuation(s[2]) then 3 else 0
    else if 0xF0 <= b0 <= 0xF4 then
      var lo := if b0 == 0xF0 then 0x90 else 0x80;
      var hi := if b0 == 0xF4 then 0x8F else 0xBF;
      if |s| >= 4 && lo <= s[1] <= hi && IsContinuation(s[2]) && IsContinuation(s[3]) then 4 else 0
    else 0
  }

  /** `s.decode()` succeeds. */
  predicate IsWellFormed(s: Bytes)
    decreases |s|
  {
    s == [] || (LeadWidth(s) > 0 && IsWellFormed(s[LeadWidth(s)..]))
  }

  predicate IsAscii(s: Bytes)
  {
    forall i :: 0 <= i < |s| ==> s[i] < 0x80
  }

  /** Every ASCII byte string decodes. */
  lemma {:induction false} AsciiIsWellFormed(s: Bytes)
    requires IsAscii(s)
    ensures IsWellFormed(s)
    decreases |s|
  {
    if s != [] {
      assert LeadWidth(s) == 1;
      AsciiIsWellFormed(s[1..]);
    }
  }

  /** Behind a well-formed prefix, decoding succeeds exactly when it succeeds on the rest. */
  lemma {:induction false} AppendWellFormed(a: Bytes, b: Bytes)
    requires IsWellFormed(a)
    ensures IsWellFormed(a + b) <==> IsWellFormed(b)
    decreases |a|
  {
    if a != [] {
      var w := LeadWidth(a);
      assert (a + b)[..w] == a[..w];
      assert LeadWidth(a + b) == w;
      assert (a + b)[w..] == a[w..] + b;
      AppendWellFormed(a[w..], b);
    } else {
      assert a + b == b;
    }
  }
}
