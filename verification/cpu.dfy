/** The CPU accessors of src/cpu.rs other than the Linux cpuinfo scanner:
    the macOS frequency query, the load average, and the logical core
    count on both systems. */
module Cpu {
  import opened Base
  import opened Models

  /** A sysctl MIB, e.g. [6, 25] for hw.logicalcpu. */
  type Mib = seq<int>

  const MIB_CPU_FREQ: Mib := [6, 15]
  const MIB_LOGICAL_CPU: Mib := [6, 25]
  const MIB_NCPU: Mib := [6, 3]

  /** `sysctl` on a MIB whose value is a `c_uint`. */
  type SysctlU32 = Mib -> Sysctl<u32>

  /** macOS `get_cpufreq`: the hw.cpufrequency value converted to `f64`,
      or the OS error when `sysctl` reports a negative status. */
  function GetCpufreqMac(sysctl: SysctlU32): (r: Result<real>)
    ensures r.Err? <==> sysctl(MIB_CPU_FREQ).status < 0
    ensures r.Err? ==> r.error == Os(sysctl(MIB_CPU_FREQ).errno)
    ensures r.Ok? ==> r.value == sysctl(MIB_CPU_FREQ).value as real
  {
    var reply := sysctl(MIB_CPU_FREQ);
    if reply.status < 0 then Err(Os(reply.errno)) else Ok(reply.value as real)
  }

  /** The reply of `getloadavg(data, 3)`: its return value, the `errno` it
      leaves, and the samples it stored at the front of `data`. */
  datatype Getloadavg = Getloadavg(status: int, errno: int, written: seq<real>)

  /** Slot `k` of `data` after the call: a stored sample, or the 0.0 the
      array was initialised with. */
  function Slot(written: seq<real>, k: nat): real {
    if k < |written| then written[k] else 0.0
  }

  /** `get_loadavg`: only the sentinel -1 is an error; any other return
      value reads the three slots in order. */
  function GetLoadavg(g: Getloadavg): (r: Result<LoadAvg>)
    requires |g.written| <= 3
    ensures r.Err? <==> g.status == -1
    ensures r.Err? ==> r.error == Os(g.errno)
    ensures r.Ok? && |g.written| == 3 ==> r.value == LoadAvg(g.written[0], g.written[1], g.written[2])
    ensures r.Ok? && |g.written| < 3 ==> r.value.fifteen == 0.0
    ensures r.Ok? ==> r.value.one == (if |g.written| > 0 then g.written[0] else 0.0)
    ensures r.Ok? ==> r.value.five == (if |g.written| > 1 then g.written[1] else 0.0)
    ensures r.Ok? ==> r.value.fifteen == (if |g.written| > 2 then g.written[2] else 0.0)
  {
    if g.status == -1 then Err(Os(g.errno))
    else Ok(LoadAvg(Slot(g.written, 0), Slot(g.written, 1), Slot(g.written, 2)))
  }

  /** `CPU_SETSIZE`: the number of CPUs a `cpu_set_t` can describe. */
  const CPU_SETSIZE: nat := 1024

  /** The reply of `sched_getaffinity`: a failure with its `errno`, or the
      affinity mask, one flag per CPU index. */
  datatype Affinity = AffinityFailed(errno: int) | AffinityMask(mask: seq<bool>)

  /** Linux `get_cpu_logical_count`. A non-negative `sysconf` result is
      returned unchanged, 0 included, without consulting the affinity mask;
      otherwise the count of set bits in the mask, or the OS error when
      `sched_getaffinity` fails too. */
  method GetCpuLogicalCountLinux(cpus: i64, affinity: Affinity) returns (r: Result<i64>)
    requires affinity.AffinityMask? ==> |affinity.mask| == CPU_SETSIZE
    ensures cpus >= 0 ==> r == Ok(cpus)
    ensures cpus < 0 && affinity.AffinityMask? ==> r == Ok(multiset(affinity.mask)[true])
    ensures cpus < 0 && r.Ok? ==> 0 <= r.value <= CPU_SETSIZE
    ensures r.Err? <==> cpus < 0 && affinity.AffinityFailed?
    ensures r.Err? ==> r.error == Os(affinity.errno)
  {
    if cpus >= 0 {
      return Ok(cpus);
    }
    match affinity
    case AffinityFailed(errno) =>
      return Err(Os(errno));
    case AffinityMask(mask) =>
      var count: u32 := 0;
      var i := 0;
      while i < CPU_SETSIZE
        invariant 0 <= i <= CPU_SETSIZE
        invariant count == multiset(mask[..i])[true]
        invariant count <= i
      {
        assert mask[..i + 1] == mask[..i] + [mask[i]];
        if mask[i] {
          count := count + 1;
        }
        i := i + 1;
      }
      assert mask[..CPU_SETSIZE] == mask;
      return Ok(count);
  }

  /** macOS `get_cpu_logical_count`: hw.logicalcpu, falling back to
      hw.ncpu when that query fails; an error only when both fail. */
  function GetCpuLogicalCountMac(sysctl: SysctlU32): (r: Result<i64>)
    ensures sysctl(MIB_LOGICAL_CPU).status >= 0 ==> r == Ok(sysctl(MIB_LOGICAL_CPU).value)
    ensures sysctl(MIB_LOGICAL_CPU).status < 0 && sysctl(MIB_NCPU).status >= 0 ==> r == Ok(sysctl(MIB_NCPU).value)
    ensures r.Err? <==> sysctl(MIB_LOGICAL_CPU).status < 0 && sysctl(MIB_NCPU).status < 0
    ensures r.Err? ==> r.error == Os(sysctl(MIB_NCPU).errno)
  {
    var first := sysctl(MIB_LOGICAL_CPU);
    if first.status >= 0 then Ok(first.value)
    else
      var second := sysctl(MIB_NCPU);
      if second.status < 0 then Err(Os(second.errno)) else Ok(second.value)
  }
}
