/** macOS `get_memory` (src/memory/sys/macos/memory.rs): three kernel
    queries, each of which ends the call on failure, normalised to bytes. */
module MacMemory {
  import opened Base
  import opened Models

  /** The reply of `host_statistics64(HOST_VM_INFO64)`: its status, the
      `errno` it leaves, and the two page counts of `vm_statistics64` that
      are read (`natural_t`, 32 bits). */
  datatype HostStatistics = HostStatistics(status: int, errno: int, freeCount: u32, activeCount: u32)

  /** `struct xsw_usage` as far as it is read. */
  datatype XswUsage = XswUsage(total: u64, avail: u64)

  /** Whether the page arithmetic panics: only with overflow checks on,
      when the 32-bit page sum or the 64-bit product overflows. */
  predicate Overflows(profile: Profile, stats: HostStatistics, pageSize: u64) {
    profile == Checked &&
    (stats.activeCount + stats.freeCount >= U32_LIMIT || (stats.activeCount + stats.freeCount) * pageSize >= U64_LIMIT)
  }

  /** `get_memory`, given the replies of `host_statistics64`, of `sysctl`
      on hw.memsize ([6, 24]) and on vm.swapusage ([2, 5]), and the page
      size. The page counts are added in 32 bits before the product with
      the page size is taken in 64 bits; that arithmetic happens right after
      the first query, before the two `sysctl` calls. */
  function GetMemory(profile: Profile, stats: HostStatistics, memsize: Sysctl<u64>, swapusage: Sysctl<XswUsage>, pageSize: u64): (r: Run<Memory>)
    ensures stats.status != 0 ==> r == Returned(Err(Os(stats.errno)))
    ensures r.IsErr() ==> r.result.error in {Os(stats.errno), Os(memsize.errno), Os(swapusage.errno)}
    ensures r.IsOk() ==> stats.status == 0 && memsize.status == 0 && swapusage.status == 0
    ensures r.IsOk() ==>
              && r.result.value.totalVirt == memsize.value
              && r.result.value.totalSwap == swapusage.value.total
              && r.result.value.availSwap == swapusage.value.avail
              && r.result.value.availVirt == ((stats.activeCount + stats.freeCount) % U32_LIMIT * pageSize) % U64_LIMIT
    ensures r.IsOk() && profile == Checked ==>
              r.result.value.availVirt == (stats.activeCount + stats.freeCount) * pageSize
    ensures r.Panicked? <==> stats.status == 0 && Overflows(profile, stats, pageSize)
    ensures stats.status == 0 && !Overflows(profile, stats, pageSize) && memsize.status != 0 ==>
              r == Returned(Err(Os(memsize.errno)))
    ensures stats.status == 0 && !Overflows(profile, stats, pageSize) && memsize.status == 0 && swapusage.status != 0 ==>
              r == Returned(Err(Os(swapusage.errno)))
    ensures stats.status == 0 && memsize.status == 0 && swapusage.status == 0 && !Overflows(profile, stats, pageSize) ==>
              r.IsOk()
  {
    if stats.status != 0 then Returned(Err(Os(stats.errno)))
    else
      match AddU32(profile, stats.activeCount, stats.freeCount)
      case Panicked(msg) => Panicked(msg)
      case Returned(pages) =>
        match MulU64(profile, pages.value, pageSize)
        case Panicked(msg) => Panicked(msg)
        case Returned(availVirt) =>
          if memsize.status != 0 then Returned(Err(Os(memsize.errno)))
          else if swapusage.status != 0 then Returned(Err(Os(swapusage.errno)))
          else Returned(Ok(Memory(memsize.value, availVirt.value, swapusage.value.total, swapusage.value.avail)))
  }

  /** A failed `host_statistics64` returns before either `sysctl` is
      issued: the replies of those do not affect the result. */
  lemma HostStatisticsFailsFirst(profile: Profile, stats: HostStatistics, pageSize: u64,
                                 m1: Sysctl<u64>, s1: Sysctl<XswUsage>, m2: Sysctl<u64>, s2: Sysctl<XswUsage>)
    requires stats.status != 0
    ensures GetMemory(profile, stats, m1, s1, pageSize) == GetMemory(profile, stats, m2, s2, pageSize)
  {
  }

  /** A failed hw.memsize query returns its OS error before vm.swapusage
      is asked, unless the first query failed or the page arithmetic
      panicked before it. */
  lemma MemsizeFailsBeforeSwap(profile: Profile, stats: HostStatistics, pageSize: u64,
                               memsize: Sysctl<u64>, s1: Sysctl<XswUsage>, s2: Sysctl<XswUsage>)
    requires memsize.status != 0
    ensures GetMemory(profile, stats, memsize, s1, pageSize) == GetMemory(profile, stats, memsize, s2, pageSize)
    ensures stats.status == 0 && !Overflows(profile, stats, pageSize) ==>
              GetMemory(profile, stats, memsize, s1, pageSize) == Returned(Err(Os(memsize.errno)))
    ensures GetMemory(profile, stats, memsize, s1, pageSize).IsErr() || GetMemory(profile, stats, memsize, s1, pageSize).Panicked?
  {
  }

  /** The swap query is reached, and its failure reported with its OS
      error, exactly when both earlier queries succeeded and the page
      arithmetic did not panic; with wrap-around arithmetic that is
      whenever both earlier queries succeeded. */
  lemma SwapFailureReported(profile: Profile, stats: HostStatistics, memsize: Sysctl<u64>, swapusage: Sysctl<XswUsage>, pageSize: u64)
    requires swapusage.status != 0
    ensures stats.status == 0 && memsize.status == 0 && !Overflows(profile, stats, pageSize) ==>
              GetMemory(profile, stats, memsize, swapusage, pageSize) == Returned(Err(Os(swapusage.errno)))
    ensures swapusage.errno != stats.errno && swapusage.errno != memsize.errno &&
            GetMemory(profile, stats, memsize, swapusage, pageSize) == Returned(Err(Os(swapusage.errno))) ==>
              stats.status == 0 && memsize.status == 0 && !Overflows(profile, stats, pageSize)
    ensures profile == Wrapping && stats.status == 0 && memsize.status == 0 ==>
              GetMemory(profile, stats, memsize, swapusage, pageSize) == Returned(Err(Os(swapusage.errno)))
  {
  }

  /** With wrap-around arithmetic the 32-bit page sum can wrap before it is
      widened: 2^31 active plus 2^31 free pages count as none available. */
  lemma PageSumWrapsIn32Bits(pageSize: u64)
    ensures
      var stats := HostStatistics(0, 0, 0x8000_0000, 0x8000_0000);
      var r := GetMemory(Wrapping, stats, Sysctl(0, 0, 0), Sysctl(0, 0, XswUsage(0, 0)), pageSize);
      r.IsOk() && r.result.value.availVirt == 0
  {
  }
}
