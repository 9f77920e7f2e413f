/** The crate-wide helpers of src/lib.rs: reading a C string and the
    clock-tick rate. */
module Lib {
  import opened Base

  /** `to_str`: the bytes a NUL-terminated C string holds, read from the
      memory that starts at its address. The bytes are not checked to be
      UTF-8 (`from_utf8_unchecked`). The source relies on a NUL being
      reachable, which is this function's precondition. */
  function ToStr(mem: Bytes): (r: Bytes)
    requires NUL in mem
    ensures |r| < |mem| && r == mem[..|r|]
    ensures mem[|r|] == NUL
    ensures NUL !in r
  {
    if mem[0] == NUL then []
    else [mem[0]] + ToStr(mem[1..])
  }

  /** The three facts above pin the result down: a NUL-free prefix that is
      followed by a NUL is exactly what `ToStr` returns. */
  lemma {:induction false} ToStrIsFirstNulPrefix(mem: Bytes, p: Bytes)
    requires |p| < |mem| && p == mem[..|p|] && mem[|p|] == NUL && NUL !in p
    ensures ToStr(mem) == p
  {
    if mem[0] != NUL {
      assert p[0] == mem[0];
      assert p[1..] == mem[1..][..|p| - 1];
      ToStrIsFirstNulPrefix(mem[1..], p[1..]);
    }
  }

  /** Only the bytes up to the first NUL are read: whatever follows a
      terminated buffer does not matter. */
  lemma ToStrIgnoresTail(mem: Bytes, tail: Bytes)
    requires NUL in mem
    ensures ToStr(mem + tail) == ToStr(mem)
  {
    var r := ToStr(mem);
    assert (mem + tail)[..|r|] == r;
    ToStrIsFirstNulPrefix(mem + tail, r);
  }

  /** `str::trim_matches('\0')`: drop NULs from both ends. */
  function TrimNul(s: Bytes): (r: Bytes)
    ensures |r| <= |s|
    ensures |r| > 0 ==> r[0] != NUL && r[|r| - 1] != NUL
    decreases |s|
  {
    if |s| > 0 && s[0] == NUL then TrimNul(s[1..])
    else if |s| > 0 && s[|s| - 1] == NUL then TrimNul(s[..|s| - 1])
    else s
  }

  /** The number of NULs `s` starts with. */
  function LeadingNuls(s: Bytes): (n: nat)
    ensures n <= |s|
  {
    if |s| > 0 && s[0] == NUL then 1 + LeadingNuls(s[1..]) else 0
  }

  /** `r` is `s` without its first `i` bytes and some last bytes, and
      every byte cut off is NUL. */
  predicate CutsOnlyNul(s: Bytes, r: Bytes, i: nat) {
    && i + |r| <= |s| && r == s[i..i + |r|]
    && (forall k :: 0 <= k < i ==> s[k] == NUL)
    && (forall k :: i + |r| <= k < |s| ==> s[k] == NUL)
  }

  /** `TrimNul` keeps a contiguous part of its input, starting after the
      leading NULs, and cuts off only NULs on either side. */
  lemma {:induction false} TrimNulCutsOnlyNul(s: Bytes)
    ensures CutsOnlyNul(s, TrimNul(s), LeadingNuls(s))
    decreases |s|
  {
    if |s| > 0 && s[0] == NUL {
      TrimNulCutsOnlyNul(s[1..]);
      CutFront(s, TrimNul(s), LeadingNuls(s[1..]));
    } else if |s| > 0 && s[|s| - 1] == NUL {
      var t := s[..|s| - 1];
      TrimNulCutsOnlyNul(t);
      assert t[0] == s[0];
      CutBack(s, TrimNul(s));
    } else {
      assert s == s[0..|s|];
    }
  }

  lemma CutFront(s: Bytes, r: Bytes, i: nat)
    requires |s| > 0 && s[0] == NUL && CutsOnlyNul(s[1..], r, i)
    ensures CutsOnlyNul(s, r, i + 1)
  {
    var t := s[1..];
    assert r == t[i..i + |r|] == s[i + 1..i + 1 + |r|];
    assert forall k :: 1 <= k < |s| ==> s[k] == t[k - 1];
  }

  lemma CutBack(s: Bytes, r: Bytes)
    requires |s| > 0 && s[|s| - 1] == NUL && CutsOnlyNul(s[..|s| - 1], r, 0)
    ensures CutsOnlyNul(s, r, 0)
  {
    var t := s[..|s| - 1];
    assert r == t[0..|r|] == s[0..|r|];
    assert forall k :: 0 <= k < |t| ==> s[k] == t[k];
  }

  /** A string without NULs is left alone by `TrimNul`. */
  lemma TrimNulNoNul(s: Bytes)
    requires NUL !in s
    ensures TrimNul(s) == s
  {
    if |s| > 0 {
      assert s[0] in s;
      assert s[|s| - 1] in s;
    }
  }

  /** The result of `sysconf(_SC_CLK_TCK)` and the `errno` it leaves. */
  datatype Sysconf = Sysconf(value: i64, errno: int)

  /** `clock_ticks`: the tick rate, accepted only when it is positive. */
  function ClockTicks(sc: Sysconf): (r: Result<u64>)
    ensures r.Ok? <==> sc.value > 0
    ensures r.Ok? ==> r.value == sc.value
    ensures r.Err? ==> r.error == Os(sc.errno)
  {
    if sc.value > 0 then Ok(sc.value as u64) else Err(Os(sc.errno))
  }

  const CLOCK_TICKS_EXPECT: string := "Unable to determine CPU number of ticks per second"

  /** Initialising `CLOCK_TICKS`: the tick rate, or a panic when
      `clock_ticks` fails. */
  function ClockTicksInit(sc: Sysconf): (r: Run<u64>)
    ensures r.Panicked? <==> sc.value <= 0
    ensures r.Returned? ==> r.result == Ok(sc.value as u64)
  {
    match ClockTicks(sc)
    case Ok(v) => Returned(Ok(v))
    case Err(_) => Panicked(CLOCK_TICKS_EXPECT)
  }
}
