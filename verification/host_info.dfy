/** macOS `get_host_info` and `get_uptime`
    (src/host/sys/macos/host_info.rs). */
module MacHost {
  import opened Base
  import opened Models

  /** kern.boottime. */
  const MIB_BOOTTIME: seq<int> := [1, 21]

  /** `struct timeval` as far as it is read. */
  datatype Timeval = Timeval(sec: i64, usec: int)

  /** `get_uptime`, given the reply of `sysctl` on kern.boottime: a
      negative status is the OS error; otherwise the whole seconds of the
      stored `timeval`, cast from `i64` to `u64`. Those seconds are the
      moment of boot since the epoch, not the time elapsed since it. */
  function GetUptime(boottime: Sysctl<Timeval>): (r: Result<u64>)
    ensures r.Err? <==> boottime.status < 0
    ensures r.Err? ==> r.error == Os(boottime.errno)
    ensures r.Ok? && boottime.value.sec >= 0 ==> r.value == boottime.value.sec
    ensures r.Ok? && boottime.value.sec < 0 ==> r.value == boottime.value.sec + U64_LIMIT
  {
    if boottime.status < 0 then Err(Os(boottime.errno))
    else Ok(I64AsU64(boottime.value.sec))
  }

  /** The uptime the field is documented to hold: the seconds from boot to
      `now` (both since the epoch), given a clock that reads no earlier
      than the boot time. */
  function UptimeSinceBoot(boottime: Sysctl<Timeval>, now: i64): (r: Result<u64>)
    requires boottime.status >= 0 ==> boottime.value.sec <= now
    ensures r.Err? <==> boottime.status < 0
    ensures r.Err? ==> r.error == GetUptime(boottime).error
    ensures r.Ok? ==> boottime.value.sec + r.value == now
  {
    if boottime.status < 0 then Err(Os(boottime.errno))
    else Ok(now - boottime.value.sec)
  }

  /** A machine booted at 1700000000 s and asked 100 s later reports an
      uptime of 1700000000 s; the corrected reading is 100 s. */
  lemma UptimeReportsBootTime()
    ensures
      var boot := Sysctl(0, 0, Timeval(1_700_000_000, 0));
      && GetUptime(boot) == Ok(1_700_000_000)
      && UptimeSinceBoot(boot, 1_700_000_100) == Ok(100)
  {
  }

  /** The fields of `utsname`; the two derivations from it live outside
      this model and are parameters. */
  datatype Uname = Uname(sysname: Bytes, nodename: Bytes, release: Bytes, version: Bytes, machine: Bytes)

  /** `get_host_info`, given the outcomes of the calls it makes, in source
      order: `get_uname` (`?`), `get_loadavg` (unwrapped), `get_memory`
      (`?`, and its own panics pass through), `get_uptime` (unwrapped). */
  function GetHostInfo(uname: Result<Uname>, loadavg: Result<LoadAvg>, memory: Run<Memory>,
                       uptime: Result<u64>, osVersionOf: Uname -> Bytes, hostnameOf: Uname -> Bytes): (r: Run<HostInfo>)
    ensures uname.Err? ==> r == Returned(Err(uname.error))
    ensures uname.Ok? && loadavg.Err? ==> r == Panicked(UNWRAP_ERR)
    ensures uname.Ok? && loadavg.Ok? && memory.IsErr() ==> r == Returned(Err(memory.result.error))
    ensures uname.Ok? && loadavg.Ok? && memory.Panicked? ==> r == Panicked(memory.message)
    ensures uname.Ok? && loadavg.Ok? && memory.IsOk() && uptime.Err? ==> r == Panicked(UNWRAP_ERR)
    ensures r.IsOk() <==> uname.Ok? && loadavg.Ok? && memory.IsOk() && uptime.Ok?
    ensures r.IsOk() ==>
              r.result.value == HostInfo(loadavg.value, memory.result.value,
                                         osVersionOf(uname.value), hostnameOf(uname.value), uptime.value)
  {
    match uname
    case Err(e) => Returned(Err(e))
    case Ok(x) =>
      match loadavg
      case Err(_) => Panicked(UNWRAP_ERR)
      case Ok(l) =>
        match memory
        case Panicked(msg) => Panicked(msg)
        case Returned(Err(e)) => Returned(Err(e))
        case Returned(Ok(m)) =>
          match uptime
          case Err(_) => Panicked(UNWRAP_ERR)
          case Ok(u) => Returned(Ok(HostInfo(l, m, osVersionOf(x), hostnameOf(x), u)))
  }

  /** Errors are returned only from `get_uname` and `get_memory`: a failed
      load average or uptime panics instead of being returned. */
  lemma OnlyUnameAndMemoryErrorsReturned(uname: Result<Uname>, loadavg: Result<LoadAvg>, memory: Run<Memory>,
                                         uptime: Result<u64>, osVersionOf: Uname -> Bytes, hostnameOf: Uname -> Bytes)
    ensures var r := GetHostInfo(uname, loadavg, memory, uptime, osVersionOf, hostnameOf);
            r.IsErr() ==> (uname.Err? && r.result.error == uname.error) ||
                          (memory.IsErr() && r.result.error == memory.result.error)
    ensures uname.Ok? && loadavg.Ok? && memory.IsOk() && uptime.Err? ==>
              GetHostInfo(uname, loadavg, memory, uptime, osVersionOf, hostnameOf) == Panicked(UNWRAP_ERR)
  {
  }

  /** The calls run in source order and the first failure decides: what
      comes after it does not matter. */
  lemma FirstFailureDecides(uname: Result<Uname>, loadavg: Result<LoadAvg>, memory: Run<Memory>, uptime: Result<u64>,
                            loadavg2: Result<LoadAvg>, memory2: Run<Memory>, uptime2: Result<u64>,
                            osVersionOf: Uname -> Bytes, hostnameOf: Uname -> Bytes)
    ensures uname.Err? ==>
              GetHostInfo(uname, loadavg, memory, uptime, osVersionOf, hostnameOf) ==
              GetHostInfo(uname, loadavg2, memory2, uptime2, osVersionOf, hostnameOf)
    ensures loadavg.Err? ==>
              GetHostInfo(uname, loadavg, memory, uptime, osVersionOf, hostnameOf) ==
              GetHostInfo(uname, loadavg, memory2, uptime2, osVersionOf, hostnameOf)
    ensures !memory.IsOk() ==>
              GetHostInfo(uname, loadavg, memory, uptime, osVersionOf, hostnameOf) ==
              GetHostInfo(uname, loadavg, memory, uptime2, osVersionOf, hostnameOf)
  {
  }
}
