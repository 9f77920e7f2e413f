/** src/disks/mod.rs: disk usage from `statvfs` and the allowlist of
    filesystem types that count as physical drives. */
module Disk {
  import opened Base

  /** The reply of `statvfs`: its return status, the `errno` it leaves,
      and the block counts and fragment size of the filesystem. */
  datatype Statvfs = Statvfs(status: int, errno: int, blocks: u64, bavail: u64, frsize: u64)

  /** `statvfs` as a function of the path it is given. */
  type StatvfsCall = Bytes -> Statvfs

  /** The message of the `io::Error` a `CString::new` failure converts to. */
  const NUL_IN_PATH: string := "data provided contains a nul byte"

  /** `disk_usage`: (total, free) bytes of the filesystem holding `path`,
      as `f_blocks * f_frsize` and `f_bavail * f_frsize` in `u64`. A path
      with an interior NUL fails before `statvfs` is called. */
  function DiskUsage(profile: Profile, path: Bytes, statvfs: StatvfsCall): (r: Run<(u64, u64)>)
    ensures NUL in path ==> r == Returned(Err(Custom(InvalidInput, NUL_IN_PATH)))
    ensures NUL !in path && statvfs(path).status == -1 ==> r == Returned(Err(Os(statvfs(path).errno)))
    ensures r.IsErr() ==> NUL in path || statvfs(path).status == -1
    ensures r.IsOk() ==> r.result.value.0 == (statvfs(path).blocks * statvfs(path).frsize) % U64_LIMIT
    ensures r.IsOk() ==> r.result.value.1 == (statvfs(path).bavail * statvfs(path).frsize) % U64_LIMIT
    ensures r.Panicked? <==>
              && profile == Checked && NUL !in path && statvfs(path).status != -1
              && (statvfs(path).blocks * statvfs(path).frsize >= U64_LIMIT ||
                  statvfs(path).bavail * statvfs(path).frsize >= U64_LIMIT)
    ensures profile == Checked && r.IsOk() ==>
              r.result.value.0 == statvfs(path).blocks * statvfs(path).frsize &&
              r.result.value.1 == statvfs(path).bavail * statvfs(path).frsize
  {
    if NUL in path then Returned(Err(Custom(InvalidInput, NUL_IN_PATH)))
    else
      var st := statvfs(path);
      if st.status == -1 then Returned(Err(Os(st.errno)))
      else
        match MulU64(profile, st.blocks, st.frsize)
        case Panicked(m) => Panicked(m)
        case Returned(total) =>
          match MulU64(profile, st.bavail, st.frsize)
          case Panicked(m) => Panicked(m)
          case Returned(free) => Returned(Ok((total.value, free.value)))
  }

  /** A path with a NUL never reaches `statvfs`: the result is the same
      whatever `statvfs` would have answered. */
  lemma NulPathSkipsStatvfs(profile: Profile, path: Bytes, s1: StatvfsCall, s2: StatvfsCall)
    requires NUL in path
    ensures DiskUsage(profile, path, s1) == DiskUsage(profile, path, s2)
  {
  }

  /** Free space is at most total space when the filesystem reports no
      more available blocks than blocks, provided the total product fits
      in 64 bits (with overflow checks on, any returned result fits). */
  lemma FreeAtMostTotal(profile: Profile, path: Bytes, statvfs: StatvfsCall)
    requires DiskUsage(profile, path, statvfs).IsOk()
    requires statvfs(path).bavail <= statvfs(path).blocks
    requires profile == Checked || statvfs(path).blocks * statvfs(path).frsize < U64_LIMIT
    ensures DiskUsage(profile, path, statvfs).result.value.1 <= DiskUsage(profile, path, statvfs).result.value.0
  {
    var st := statvfs(path);
    assert st.bavail * st.frsize <= st.blocks * st.frsize by {
      MulMonotone(st.bavail, st.blocks, st.frsize);
    }
  }

  lemma MulMonotone(a: nat, b: nat, c: nat)
    requires a <= b
    ensures a * c <= b * c
  {
  }

  /** With wrap-around arithmetic the property can fail: 2^62 blocks of 4
      bytes wrap to a total of 0 while 1 available block gives 4 free. */
  lemma WrappingTotalCanBeBelowFree()
    ensures
      var statvfs: StatvfsCall := _ => Statvfs(0, 0, 0x4000_0000_0000_0000, 1, 4);
      DiskUsage(Wrapping, "/", statvfs) == Returned(Ok((0, 4)))
  {
    var statvfs: StatvfsCall := _ => Statvfs(0, 0, 0x4000_0000_0000_0000, 1, 4);
    assert NUL !in "/";
  }

  /** The filesystem types `is_physical_filesys` accepts, in source order. */
  const PHYSICAL_FILESYSTEMS: seq<Bytes> := [
    "ext2", "ext3", "ext4", "vfat", "ntfs", "zfs", "hfs", "reiserfs", "reiser4",
    "exfat", "f2fs", "hfsplus", "jfs", "btrfs", "minix", "nilfs", "xfs", "apfs",
    "fuseblk"]

  /** `is_physical_filesys`: an exact, case-sensitive match against each
      listed name in turn. It accepts exactly the listed names, none of
      which holds a NUL, so each can be what a C string decodes to. */
  function IsPhysicalFilesys(fs: Bytes): (b: bool)
    ensures b <==> fs in PHYSICAL_FILESYSTEMS
  {
    fs == "ext2" || fs == "ext3" || fs == "ext4" || fs == "vfat" || fs == "ntfs" ||
    fs == "zfs" || fs == "hfs" || fs == "reiserfs" || fs == "reiser4" ||
    fs == "exfat" || fs == "f2fs" || fs == "hfsplus" || fs == "jfs" ||
    fs == "btrfs" || fs == "minix" || fs == "nilfs" || fs == "xfs" ||
    fs == "apfs" || fs == "fuseblk"
  }

  /** The predicate accepts exactly the listed names, and the list holds
      19 different names. */
  lemma PhysicalFilesysIsAllowlist(fs: Bytes)
    ensures IsPhysicalFilesys(fs) <==> fs in PHYSICAL_FILESYSTEMS
    ensures |PHYSICAL_FILESYSTEMS| == 19
    ensures forall i, j :: 0 <= i < j < |PHYSICAL_FILESYSTEMS| ==> PHYSICAL_FILESYSTEMS[i] != PHYSICAL_FILESYSTEMS[j]
  {
  }
}
