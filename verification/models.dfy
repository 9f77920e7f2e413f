/** The plain records the accessors return (src/models.rs,
    src/disks/mod.rs, src/network/mod.rs). They carry no behaviour. */
module Models {
  import opened Base

  /** Load average over 1, 5 and 15 minutes; `f64` values passed through. */
  datatype LoadAvg = LoadAvg(one: real, five: real, fifteen: real)

  /** Virtual and swap memory, in bytes. */
  datatype Memory = Memory(totalVirt: u64, availVirt: u64, totalSwap: u64, availSwap: u64)

  datatype HostInfo = HostInfo(
    loadavg: LoadAvg,
    memory: Memory,
    osVersion: Bytes,
    hostname: Bytes,
    uptime: u64)

  /** A mounted partition. The sizes are whatever the accessor stores; the
      macOS accessor stores bytes divided by 100000. */
  datatype Disks = Disks(name: Bytes, mountPoint: Bytes, totalSpace: u64, availSpace: u64)

  /** Bytes read and written by one disk, as signed 64-bit counters. */
  datatype IoStats = IoStats(deviceName: Bytes, bytesRead: i64, bytesWrtn: i64)

  /** The disk I/O record of src/disks/mod.rs. */
  datatype IoBlock = IoBlock(
    deviceName: Bytes,
    readCount: u64,
    readBytes: u64,
    writeCount: u64,
    writeBytes: u64,
    busyTime: u64)

  /** Per-interface network counters of src/network/mod.rs. */
  datatype IoCounters = IoCounters(
    interface: Bytes,
    rxBytes: u64, rxPackets: u64, rxErrs: u64, rxDrop: u64,
    txBytes: u64, txPackets: u64, txErrs: u64, txDrop: u64)
}
