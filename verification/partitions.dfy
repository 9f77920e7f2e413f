/** macOS `get_partitions_physical` (src/disks/sys/macos/partitions.rs):
    enumerate mounts with `getfsstat64`, keep those whose filesystem type
    is on the physical allowlist, and measure each with `disk_usage`. */
module Partitions {
  import opened Base
  import opened Lib
  import opened Utf8
  import opened Disk
  import opened Models

  /** One `statfs` record: the three fixed-size C string fields read. */
  datatype StatFs = StatFs(fstypename: Bytes, mntonname: Bytes, mntfromname: Bytes)

  /** Every C string field holds its terminating NUL. */
  predicate Terminated(m: StatFs) {
    NUL in m.fstypename && NUL in m.mntonname && NUL in m.mntfromname
  }

  /** The two `getfsstat64` calls: the first (no buffer) returns the
      number of mounts `expected`; the second returns `status` and fills
      the front of `buffer`, leaving `errno` when it fails. */
  datatype FsStat = FsStat(expected: int, status: int, errno: int, buffer: seq<StatFs>)

  predicate WellFormed(fs: FsStat) {
    fs.status >= 0 ==> fs.status <= |fs.buffer| &&
                       forall i :: 0 <= i < fs.status ==> Terminated(fs.buffer[i])
  }

  /** The divisor applied to both byte counts. */
  const SCALE: nat := 100000

  const CAPACITY_OVERFLOW: string := "capacity overflow"

  /** `size_of::<statfs>()` on macOS (64-bit inodes), and the bound of the
      `c_int` it is multiplied in. */
  const STATFS_SIZE: nat := 2168
  const I32_LIMIT: int := 0x8000_0000

  /** Whether the buffer size `size_of::<statfs>() as c_int * expected_len`
      panics: only with overflow checks on, once the product leaves `i32`.
      When wrapping, the wrapped size goes to the second call, whose reply
      is a parameter of the model. */
  predicate BufferSizeOverflows(profile: Profile, expected: int) {
    profile == Checked && STATFS_SIZE * expected >= I32_LIMIT
  }
  const INTO_STRING_UNWRAP: string := "called `Result::unwrap()` on an `Err` value"

  /** What one mount contributes: `Ok(None)` when its type is filtered out,
      `Ok(Some(d))` for an entry, and otherwise the error or panic that
      ends the whole call. */
  function MountEntry(profile: Profile, m: StatFs, statvfs: StatvfsCall): (r: Run<Option<Disks>>)
    requires Terminated(m)
    ensures r == Returned(Ok(None)) <==> !IsPhysicalFilesys(ToStr(m.fstypename))
    ensures r.IsErr() ==> r.result.error == Os(statvfs(ToStr(m.mntonname)).errno)
    ensures r.IsOk() && r.result.value.Some? ==>
              var d := r.result.value.value;
              var st := statvfs(ToStr(m.mntonname));
              && IsPhysicalFilesys(ToStr(m.fstypename))
              && d.name == ToStr(m.mntfromname)
              && d.mountPoint == ToStr(m.mntonname)
              && d.totalSpace == (st.blocks * st.frsize) % U64_LIMIT / SCALE
              && d.availSpace == (st.bavail * st.frsize) % U64_LIMIT / SCALE
    ensures IsPhysicalFilesys(ToStr(m.fstypename)) && statvfs(ToStr(m.mntonname)).status == -1 ==>
              r == Returned(Err(Os(statvfs(ToStr(m.mntonname)).errno)))
    ensures IsPhysicalFilesys(ToStr(m.fstypename)) && DiskUsage(profile, ToStr(m.mntonname), statvfs).IsOk() ==>
              (r.IsOk() && r.result.value.Some? <==> ValidUtf8(ToStr(m.mntonname)))
    ensures (IsPhysicalFilesys(ToStr(m.fstypename)) && DiskUsage(profile, ToStr(m.mntonname), statvfs).IsOk() &&
             !ValidUtf8(ToStr(m.mntonname))) ==> r == Panicked(INTO_STRING_UNWRAP)
    ensures r.Panicked? ==>
              && IsPhysicalFilesys(ToStr(m.fstypename))
              && (DiskUsage(profile, ToStr(m.mntonname), statvfs).Panicked? || !ValidUtf8(ToStr(m.mntonname)))
  {
    if !IsPhysicalFilesys(ToStr(m.fstypename)) then Returned(Ok(None))
    else
      var mountPoint := ToStr(m.mntonname);
      match DiskUsage(profile, mountPoint, statvfs)
      case Panicked(msg) => Panicked(msg)
      case Returned(Err(e)) => Returned(Err(e))
      case Returned(Ok(usage)) =>
        var name := ToStr(m.mntfromname);
        if !ValidUtf8(mountPoint) then Panicked(INTO_STRING_UNWRAP)
        else Returned(Ok(Some(Disks(name, mountPoint, usage.0 / SCALE, usage.1 / SCALE))))
  }

  /** An entry outcome as a list of zero or one entries. */
  function AsList(e: Run<Option<Disks>>): (r: Run<seq<Disks>>)
    ensures r.IsOk() <==> e.IsOk()
    ensures e.IsOk() ==> |r.result.value| <= 1
    ensures e.IsOk() ==> (r.result.value == [] <==> e.result.value.None?)
    ensures e.IsOk() && e.result.value.Some? ==> r.result.value[0] == e.result.value.value
    ensures e.Panicked? ==> r == Panicked(e.message)
    ensures e.IsErr() ==> r.IsErr() && r.result.error == e.result.error
  {
    match e
    case Panicked(msg) => Panicked(msg)
    case Returned(Err(err)) => Returned(Err(err))
    case Returned(Ok(None)) => Returned(Ok([]))
    case Returned(Ok(Some(d))) => Returned(Ok([d]))
  }

  /** Sequencing of two stages that each produce a list: a failing first
      stage ends everything, otherwise the lists are concatenated. */
  function Then(x: Run<seq<Disks>>, y: Run<seq<Disks>>): (r: Run<seq<Disks>>)
    ensures r.IsOk() <==> x.IsOk() && y.IsOk()
    ensures !x.IsOk() ==> r == x
    ensures x.IsOk() && !y.IsOk() ==> r == y
    ensures r.IsOk() ==> |r.result.value| == |x.result.value| + |y.result.value|
  {
    if !x.IsOk() then x
    else if !y.IsOk() then y
    else Returned(Ok(x.result.value + y.result.value))
  }

  lemma ThenAssociative(x: Run<seq<Disks>>, y: Run<seq<Disks>>, z: Run<seq<Disks>>)
    ensures Then(Then(x, y), z) == Then(x, Then(y, z))
  {
    if x.IsOk() && y.IsOk() && z.IsOk() {
      assert (x.result.value + y.result.value) + z.result.value == x.result.value + (y.result.value + z.result.value);
    }
  }

  /** The loop over the mounts the second call returned, in order: the
      first mount that errors or panics ends the call, and no partial list
      is returned. */
  function Collect(profile: Profile, mounts: seq<StatFs>, statvfs: StatvfsCall): (r: Run<seq<Disks>>)
    requires forall i :: 0 <= i < |mounts| ==> Terminated(mounts[i])
    ensures r.IsOk() ==> |r.result.value| <= |mounts|
  {
    if |mounts| == 0 then Returned(Ok([]))
    else Then(AsList(MountEntry(profile, mounts[0], statvfs)), Collect(profile, mounts[1..], statvfs))
  }

  /** `get_partitions_physical`. A negative mount count from the first
      call makes `Vec::with_capacity` panic; the buffer size of the second
      call may then overflow; a negative status from the second call is
      the OS error; otherwise the first `status` records are processed. */
  function GetPartitionsPhysical(profile: Profile, fs: FsStat, statvfs: StatvfsCall): (r: Run<seq<Disks>>)
    requires WellFormed(fs)
    ensures fs.expected < 0 ==> r == Panicked(CAPACITY_OVERFLOW)
    ensures fs.expected >= 0 && BufferSizeOverflows(profile, fs.expected) ==> r == Panicked(OVERFLOW_MUL)
    ensures fs.expected >= 0 && !BufferSizeOverflows(profile, fs.expected) && fs.status < 0 ==>
              r == Returned(Err(Os(fs.errno)))
    ensures fs.expected >= 0 && !BufferSizeOverflows(profile, fs.expected) && fs.status >= 0 ==>
              r == Collect(profile, fs.buffer[..fs.status], statvfs)
  {
    if fs.expected < 0 then Panicked(CAPACITY_OVERFLOW)
    else if BufferSizeOverflows(profile, fs.expected) then Panicked(OVERFLOW_MUL)
    else if fs.status < 0 then Returned(Err(Os(fs.errno)))
    else Collect(profile, fs.buffer[..fs.status], statvfs)
  }

  /** With overflow checks on, the buffer size fits `i32` for up to
      990536 mounts and panics from 990537 on, whatever the second call
      would have replied; when wrapping, any mount count reaches the second
      call, whose failure is then reported. */
  lemma BufferSizeLimit(fs: FsStat, statvfs: StatvfsCall)
    requires WellFormed(fs)
    ensures !BufferSizeOverflows(Checked, 990536) && BufferSizeOverflows(Checked, 990537)
    ensures fs.expected >= 990537 ==> GetPartitionsPhysical(Checked, fs, statvfs) == Panicked(OVERFLOW_MUL)
    ensures fs.expected >= 0 && fs.status < 0 ==> GetPartitionsPhysical(Wrapping, fs, statvfs) == Returned(Err(Os(fs.errno)))
  {
  }

  /** `Collect` over two runs of mounts is the first run followed by the
      second: when the first run fails the second does not matter, and
      otherwise the entries of the second follow those of the first.
      Together with `OneMount` this fixes the output: the entries of the
      kept mounts, in mount order, or the first failure. */
  lemma {:induction false} CollectAppend(profile: Profile, a: seq<StatFs>, b: seq<StatFs>, statvfs: StatvfsCall)
    requires forall i :: 0 <= i < |a| ==> Terminated(a[i])
    requires forall i :: 0 <= i < |b| ==> Terminated(b[i])
    requires forall i :: 0 <= i < |a + b| ==> Terminated((a + b)[i])
    ensures Collect(profile, a + b, statvfs) == Then(Collect(profile, a, statvfs), Collect(profile, b, statvfs))
  {
    if |a| > 0 {
      assert (a + b)[0] == a[0];
      assert (a + b)[1..] == a[1..] + b;
      CollectAppend(profile, a[1..], b, statvfs);
      ThenAssociative(AsList(MountEntry(profile, a[0], statvfs)), Collect(profile, a[1..], statvfs), Collect(profile, b, statvfs));
    } else {
      assert a + b == b;
      var cb := Collect(profile, b, statvfs);
      if cb.IsOk() {
        assert [] + cb.result.value == cb.result.value;
      }
    }
  }

  /** A single mount yields its entry, nothing, or its failure. */
  lemma OneMount(profile: Profile, m: StatFs, statvfs: StatvfsCall)
    requires Terminated(m)
    ensures Collect(profile, [m], statvfs) == AsList(MountEntry(profile, m, statvfs))
  {
    assert [m][1..] == [];
    var e := AsList(MountEntry(profile, m, statvfs));
    if e.IsOk() {
      assert e.result.value + [] == e.result.value;
    }
  }

  /** The mount point handed to `disk_usage` comes from a C string, so it
      never holds a NUL, and the `InvalidInput` error of `disk_usage` never
      reaches the caller. */
  lemma NoInvalidInputFromMounts(profile: Profile, m: StatFs, statvfs: StatvfsCall)
    requires Terminated(m)
    ensures MountEntry(profile, m, statvfs) != Returned(Err(Custom(InvalidInput, NUL_IN_PATH)))
  {
  }

  /** Scaled sizes keep their order: when the filesystem reports no more
      available than total blocks and overflow checks are on, an entry's
      `avail_space` is at most its `total_space`. */
  lemma EntryAvailAtMostTotal(m: StatFs, statvfs: StatvfsCall)
    requires Terminated(m)
    requires MountEntry(Checked, m, statvfs).IsOk() && MountEntry(Checked, m, statvfs).result.value.Some?
    requires statvfs(ToStr(m.mntonname)).bavail <= statvfs(ToStr(m.mntonname)).blocks
    ensures var d := MountEntry(Checked, m, statvfs).result.value.value; d.availSpace <= d.totalSpace
  {
    var mp := ToStr(m.mntonname);
    FreeAtMostTotal(Checked, mp, statvfs);
    var usage := DiskUsage(Checked, mp, statvfs).result.value;
    ScaleMonotone(usage.1, usage.0);
  }

  lemma ScaleMonotone(a: nat, b: nat)
    requires a <= b
    ensures a / SCALE <= b / SCALE
  {
  }
}
