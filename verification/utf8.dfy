/** UTF-8 well-formedness as Rust's `str::from_utf8` and `CStr::to_str`
    decide it (the well-formed byte sequences of table 3-7 in chapter 3 of
    the Unicode Standard). */
module Utf8 {
  import opened Base

  predicate InRange(b: Byte, lo: int, hi: int) {
    lo <= b as int <= hi
  }

  /** The length of the well-formed sequence that starts `s`, or 0 when
      `s` does not start with one. */
  function LeadLength(s: Bytes): (n: nat)
    ensures n <= 4 && n <= |s|
    ensures n == 1 <==> |s| > 0 && s[0] as int < 0x80
  {
    if |s| == 0 then 0
    else
      var b0 := s[0] as int;
      if b0 < 0x80 then 1
      else if |s| < 2 then 0
      else if 0xC2 <= b0 <= 0xDF then
        (if InRange(s[1], 0x80, 0xBF) then 2 else 0)
      else if |s| < 3 then 0
      else if 0xE0 <= b0 <= 0xEF then
        var lo1 := if b0 == 0xE0 then 0xA0 else 0x80;
        var hi1 := if b0 == 0xED then 0x9F else 0xBF;
        (if InRange(s[1], lo1, hi1) && InRange(s[2], 0x80, 0xBF) then 3 else 0)
      else if |s| < 4 then 0
      else if 0xF0 <= b0 <= 0xF4 then
        var lo1 := if b0 == 0xF0 then 0x90 else 0x80;
        var hi1 := if b0 == 0xF4 then 0x8F else 0xBF;
        (if InRange(s[1], lo1, hi1) && InRange(s[2], 0x80, 0xBF) && InRange(s[3], 0x80, 0xBF)
         then 4 else 0)
      else 0
  }

  /** `s` is a concatenation of well-formed UTF-8 sequences. */
  predicate ValidUtf8(s: Bytes)
    decreases |s|
  {
    |s| == 0 || (LeadLength(s) > 0 && ValidUtf8(s[LeadLength(s)..]))
  }

  /** Every byte of a multi-byte sequence is at least 0x80, so a sequence
      that starts `s` never contains a NUL unless it is that NUL alone. */
  lemma LeadLengthHasNoNul(s: Bytes, k: nat)
    requires k < LeadLength(s)
    requires s[k] == NUL
    ensures k == 0 && LeadLength(s) == 1
  {
  }

  /** The lead sequence depends only on the bytes it covers. */
  lemma LeadLengthOfPrefix(s: Bytes, t: Bytes)
    requires 0 < LeadLength(s) <= |t|
    requires t[..LeadLength(s)] == s[..LeadLength(s)]
    ensures LeadLength(t) == LeadLength(s)
  {
    var n := LeadLength(s);
    assert t[0] == s[0];
    if n >= 2 { assert t[1] == s[1]; }
    if n >= 3 { assert t[2] == s[2]; }
    if n >= 4 { assert t[3] == s[3]; }
  }

  /** Cutting valid UTF-8 just before a NUL leaves valid UTF-8: the text a C
      string reader sees of a valid buffer is itself valid. */
  lemma {:induction false} ValidBeforeNul(s: Bytes, i: nat)
    requires ValidUtf8(s)
    requires i < |s| && s[i] == NUL
    ensures ValidUtf8(s[..i])
    decreases |s|
  {
    if i == 0 {
      assert s[..0] == [];
    } else {
      var n := LeadLength(s);
      if i < n {
        LeadLengthHasNoNul(s, i);
      }
      assert n <= i;
      var rest := s[n..];
      ValidBeforeNul(rest, i - n);
      var p := s[..i];
      assert p[n..] == rest[..i - n];
      LeadLengthOfPrefix(s, p);
    }
  }

  /** ASCII text is valid UTF-8. */
  lemma {:induction false} AsciiIsValid(s: Bytes)
    requires forall k :: 0 <= k < |s| ==> s[k] as int < 0x80
    ensures ValidUtf8(s)
    decreases |s|
  {
    if |s| > 0 {
      AsciiIsValid(s[1..]);
    }
  }
}
