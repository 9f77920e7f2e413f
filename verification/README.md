# sys_metrics: the decision layer, modelled in Dafny

sys_metrics is a Rust crate that reads system metrics: CPU frequency, load
average, logical core count, memory and swap, disk usage, disk I/O
counters, logged-in users and host information. Most of the crate is FFI
glue. Around the operating-system calls sits a thin layer of pure
decisions: which lines of `/proc/cpuinfo` count, which status codes are
errors, which failures are returned and which panic, how sizes are
computed and rescaled, and which handles an IOKit registry walk releases
on each exit path. This project models that layer.

Every OS call is a parameter of the model. A call is represented by the
reply it gives:

- a status, the `errno` it leaves behind, and the values it wrote (`Sysctl`, `Statvfs`, `HostStatistics`);
- or a sequence of lines, `utmp` records or mounts.

A call that may panic returns a `Run<T>`: `Returned(Result<T>)` or
`Panicked(message)`. Rust integer overflow is a `Profile` parameter:

- `Checked`: debug builds, where overflow panics;
- `Wrapping`: release builds, where arithmetic wraps.

Casts such as `as u64` always wrap.

The modules follow the crate's files:

| module | file | what it holds |
|---|---|---|
| `Base` | — | bytes, fixed-width integers, `io::Error`, `Result`, `Run`, checked/wrapping arithmetic |
| `Lib` | src/lib.rs | `to_str`, `trim_matches('\0')`, `clock_ticks`, `CLOCK_TICKS` |
| `Utf8` | — | UTF-8 well-formedness as `CStr::to_str` decides it |
| `Models` | src/models.rs | the returned records |
| `Cpu` | src/cpu.rs | macOS frequency, load average, logical core count (Linux and macOS) |
| `CpuFreq` | src/cpu/sys/linux/cpu_freq.rs, src/cpu.rs | the two `/proc/cpuinfo` scanners |
| `Disk` | src/disks/mod.rs | `disk_usage`, `is_physical_filesys` |
| `Partitions` | src/disks/sys/macos/partitions.rs | `get_partitions_physical` |
| `Users` | src/host/sys/linux/users.rs | `get_users` over `utmp` records |
| `MacMemory` | src/memory/sys/macos/memory.rs | `get_memory` |
| `MacHost` | src/host/sys/macos/host_info.rs | `get_host_info`, `get_uptime` |
| `IoKitStats` | src/disks/sys/macos/iostats.rs | `get_iostats` as a registry walk with a trace of handle events |

In the IOKit walk, every handle obtained from IOKit or CoreFoundation and
every handle released is an `Acquire` or `Release` event. From that trace:

- `Live` is what was acquired and not released;
- `Unowned` is what was released without being acquired.

The walk takes a `Discipline` parameter:

- `AsWritten` is the source's release pattern;
- `Scoped` is the corrected pattern, where every exit releases exactly what it owns.

The result of the walk never depends on the discipline. Only its handle
events do.

### Where the code and the crate's stated behaviour differ

The model follows the code in each case below.

- Linux `get_cpu_logical_count` returns a `sysconf` result of 0 unchanged. Nothing ensures a count of at least 1.
- macOS `get_partitions_physical` stores `bytes / 100000` in `total_space` and `avail_space`. That is neither bytes nor megabytes.
- `get_host_info` does not return a `get_loadavg` failure: it unwraps it and panics. A failed uptime query panics too. Only `get_uname` and `get_memory` errors are returned.
- On macOS, `uptime` is kern.boottime's `tv_sec`, the moment of boot. It is not the time elapsed since boot.
- When no cpuinfo line yields a value, the "not found" error has kind `Other`: "Couldn't get the cpufreq", or "Couldn't get the avg_cpu_freq" in the older copy.

## Model

| member | source | states |
|---|---|---|
| Base.MulU64 | src/disks/mod.rs:47-48 | a `u64` product is exact when it fits, panics with overflow checks on, and otherwise wraps modulo 2^64; a returned value is never an error |
| Base.AddU32 | src/memory/sys/macos/memory.rs:55 | a `natural_t` sum is exact when it fits, panics with overflow checks on, and otherwise wraps modulo 2^32 |
| Base.I64AsU64 | src/host/sys/macos/host_info.rs:69 | `as u64` on an `i64` keeps non-negative values and adds 2^64 to negative ones |
| Lib.ToStr | src/lib.rs:76-80 | `to_str` returns a prefix of the buffer that has no NUL and is followed by a NUL; the bytes are not UTF-8 checked |
| Lib.ToStrIsFirstNulPrefix | src/lib.rs:76-80 | that prefix is unique: any NUL-free prefix followed by a NUL is exactly what `to_str` returns |
| Lib.ToStrIgnoresTail | src/lib.rs:78 | bytes after the first NUL never affect `to_str` |
| Lib.TrimNul | src/host/sys/linux/users.rs:62 | `trim_matches('\0')` never lengthens its input, and a non-empty result neither starts nor ends with NUL |
| Lib.TrimNulCutsOnlyNul | src/host/sys/linux/users.rs:62 | the trimmed string is a contiguous slice of the input, and every byte cut off on either side is a NUL |
| Lib.TrimNulNoNul | src/host/sys/linux/users.rs:62 | a string with no NUL is left unchanged by the trim |
| Lib.ClockTicks | src/lib.rs:52-60 | `Ok(v)` exactly when `sysconf(_SC_CLK_TCK)` is positive, with `v` that value; otherwise, 0 included, the OS error |
| Lib.ClockTicksInit | src/lib.rs:62-65 | initialising `CLOCK_TICKS` panics exactly when the tick rate is not positive, and otherwise holds it |
| Utf8.ValidBeforeNul | src/disks/sys/macos/iostats.rs:178-181 | a valid UTF-8 buffer cut at a NUL is still valid UTF-8, so `CStr::to_str` accepts what a valid name buffer holds |
| Cpu.GetCpufreqMac | src/cpu.rs:57-77 | an error exactly when `sysctl` on hw.cpufrequency returns a negative status, carrying its `errno`; otherwise the `c_uint` value as a float |
| Cpu.GetLoadavg | src/cpu.rs:99-112 | an error, with `errno`, exactly when `getloadavg` returns -1, any other return value being a success; then `one`, `five` and `fifteen` are each the sample stored in slot 0, 1 or 2, or 0.0 when fewer samples were stored |
| Cpu.GetCpuLogicalCountLinux | src/cpu.rs:119-140 | a non-negative `sysconf` result, 0 included, is returned unchanged; otherwise the count of set bits among the 1024 mask indices, between 0 and 1024; an error exactly when both queries fail |
| Cpu.GetCpuLogicalCountMac | src/cpu.rs:142-175 | hw.logicalcpu when that query succeeds, else hw.ncpu; an error, with the second `errno`, exactly when both fail |
| CpuFreq.Seen | src/cpu.rs:40-42 | the `read_line` scanner sees each line whole, terminator included; `lines()` keeps a line that does not end in "\n", drops the "\n" of one that does, and also drops a "\r" just before it; the result is always a prefix at most two bytes shorter |
| CpuFreq.StepLine | src/cpu/sys/linux/cpu_freq.rs:15-26 | a read error stops the scan, returned only by the `read_line` scanner; a line is skipped exactly when it is outside the length window, or starts with 7 whole bytes other than "cpu MHz", or is a candidate whose sliceable value does not parse; a returned value is the parse of the candidate's value text; a panic comes only from a line inside the window whose key or value slice fails |
| CpuFreq.Scan | src/cpu/sys/linux/cpu_freq.rs:15-29 | when every read is skipped, the result is the "not found" error; otherwise it is the outcome of the first read that stops the scan, every earlier read having been skipped |
| CpuFreq.GetCpufreq | src/cpu/sys/linux/cpu_freq.rs:10-30 | an error opening /proc/cpuinfo is returned unchanged; otherwise the lines are scanned |
| CpuFreq.FirstParsedValueWins | src/cpu/sys/linux/cpu_freq.rs:17-19 | the first candidate whose value text parses to `v`, after only skipped reads, makes the call return `v` |
| CpuFreq.LaterLinesIgnored | src/cpu/sys/linux/cpu_freq.rs:19 | no read after the one that stops the scan affects the result |
| CpuFreq.SkippedLineIsNeutral | src/cpu/sys/linux/cpu_freq.rs:20-26 | removing a skipped read (a non-candidate, or a candidate whose value does not parse) from anywhere in the input does not change the result |
| CpuFreq.SkipCases | src/cpu/sys/linux/cpu_freq.rs:17-23 | lines outside the length window or without the "cpu MHz" key are skipped, and so are candidates whose value fails to parse; a line in the window whose byte 7 is inside a character makes `&line[..7]` panic |
| CpuFreq.ShortCandidatePanics | src/cpu/sys/linux/cpu_freq.rs:17-18 | a candidate of 8 to 11 bytes makes the slice `[11..len-1]` panic: out of bounds below 11 bytes, an end before the start at 11 |
| CpuFreq.ReadErrorStops | src/cpu/sys/linux/cpu_freq.rs:15 | a read error is returned by the `read_line` scanner and makes the `lines()` scanner panic through `unwrap` |
| CpuFreq.NoCandidateNotFound | src/cpu/sys/linux/cpu_freq.rs:29 | a file whose lines are all outside the window or without the key gives the `Other` error of the scanner: "Couldn't get the cpufreq" or "Couldn't get the avg_cpu_freq" |
| CpuFreq.StrippedSliceDropsLastByte | src/cpu.rs:43-44 | on a newline-terminated line the `read_line` scanner's value is all text after byte 11; the `lines()` scanner's value loses the last byte of that text |
| CpuFreq.CpuinfoExample | src/cpu.rs:43-44 | for "cpu MHz\t\t: 2400.123\n", one scanner parses "2400.123" and the other "2400.12" |
| CpuFreq.MultibyteLastCharPanicsLines | src/cpu.rs:43-44 | a candidate whose value ends in the two-byte "µ" makes the `lines()` scanner's slice end inside that character and panic; the `read_line` scanner and the corrected slice take the value text whole |
| CpuFreq.FixedLinesAgreesWithReadLine | src/cpu.rs:43-44 | the `lines()` scanner with the slice ending at the end of the stripped line acts exactly like the `read_line` scanner on every "\n"-terminated candidate of 12 to 47 bytes with no "\r" before the newline |
| CpuFreq.BareKeyLineDiffers | src/cpu.rs:40-44 | at the short end of the window the two part ways: "cpu MHz\n" panics in the `read_line` scanner and is passed over by the corrected one |
| CpuFreq.FullWidthCandidateDiffers | src/cpu.rs:40-44 | at the long end they part ways too: a 47-byte candidate plus "\n" is passed over by the `read_line` scanner and its value returned by the corrected one |
| Disk.DiskUsage | src/disks/mod.rs:34-51 | a path with a NUL is an `InvalidInput` error; a `statvfs` status of -1 is the OS error; otherwise total = `f_blocks`·`f_frsize` and free = `f_bavail`·`f_frsize` in `u64`, exact with overflow checks on; it panics exactly when overflow checks are on and one of the two products does not fit in 64 bits |
| Disk.NulPathSkipsStatvfs | src/disks/mod.rs:40 | for a path with a NUL, the result is the same whatever `statvfs` would answer, so it is never called |
| Disk.FreeAtMostTotal | src/disks/mod.rs:47-48 | when `f_bavail` ≤ `f_blocks` and the total fits in 64 bits, free ≤ total |
| Disk.WrappingTotalCanBeBelowFree | src/disks/mod.rs:47-48 | with wrapping arithmetic that order can fail: 2^62 blocks of 4 bytes give total 0 and free 4 |
| Disk.IsPhysicalFilesys | src/disks/mod.rs:57-80 | a filesystem type is physical exactly when it is one of the listed names |
| Disk.PhysicalFilesysIsAllowlist | src/disks/mod.rs:57-80 | `is_physical_filesys` holds exactly for the 19 distinct listed names, matched exactly and case-sensitively |
| Partitions.MountEntry | src/disks/sys/macos/partitions.rs:59-73 | a mount gives nothing exactly when its type is not physical; for a physical type, a `statvfs` status of -1 is returned as that `errno`, and once `disk_usage` succeeds there is an entry exactly when the mount point is UTF-8, otherwise the `into_string().unwrap()` panic; every error carries `statvfs`'s `errno`; a panic comes only from `disk_usage` or that unwrap; an entry has `name` from `f_mntfromname`, `mount_point` from `f_mntonname`, and sizes equal to usage / 100000 |
| Partitions.AsList | src/disks/sys/macos/partitions.rs:60-73 | what one mount adds to `vdisks`: nothing for a skipped mount, its one entry otherwise; an error or panic passes through unchanged |
| Partitions.Then | src/disks/sys/macos/partitions.rs:59-76 | the loop continues past a mount only when it succeeded: the result succeeds exactly when both parts do, a failed first part is the result whatever follows, and the lists' lengths add up |
| Partitions.Collect | src/disks/sys/macos/partitions.rs:58-76 | a successful loop returns no more entries than mounts |
| Partitions.GetPartitionsPhysical | src/disks/sys/macos/partitions.rs:38-56 | a negative mount count panics in `with_capacity`; with overflow checks on, a buffer size `2168 * expected_len` outside `i32` panics; then a negative second status is the OS error; otherwise exactly the first `status` mounts are processed |
| Partitions.BufferSizeLimit | src/disks/sys/macos/partitions.rs:43-47 | with overflow checks on, 990536 mounts still fit the `i32` buffer size and 990537 panic; when wrapping, the second call is reached and its failure reported |
| Partitions.CollectAppend | src/disks/sys/macos/partitions.rs:59-74 | the loop over two runs of mounts is the first run followed by the second: entries keep mount order, and the first failure ends everything with no partial list |
| Partitions.OneMount | src/disks/sys/macos/partitions.rs:59-73 | one mount contributes its entry, nothing, or its failure |
| Partitions.NoInvalidInputFromMounts | src/disks/sys/macos/partitions.rs:63-67 | a mount point read as a C string has no NUL, so `disk_usage`'s `InvalidInput` error never occurs |
| Partitions.EntryAvailAtMostTotal | src/disks/sys/macos/partitions.rs:71-72 | with overflow checks on and `f_bavail` ≤ `f_blocks`, an entry's `avail_space` ≤ `total_space` after the rescale |
| Users.Logins | src/host/sys/linux/users.rs:57-65 | the names collected are no more than the records read |
| Users.CStringAt | src/lib.rs:76-80 | what `to_str` reads from `ut_user` on: a prefix of the record that holds no NUL and stops at the first NUL |
| Users.UserName | src/host/sys/linux/users.rs:62 | a pushed name never holds a NUL, and `trim_matches('\0')` never changes what `to_str` returned |
| Users.GetUsers | src/host/sys/linux/users.rs:51-68 | an error opening utmp is returned unchanged; otherwise the read loop returns exactly the login names of the records, in order |
| Users.LoginsAppend | src/host/sys/linux/users.rs:57-65 | the names of a file are the names of its first part followed by those of its second part, so order is kept |
| Users.OneRecord | src/host/sys/linux/users.rs:61-63 | a record contributes its name exactly when `ut_type` is 7 and the first byte of `ut_user` is not NUL, and nothing otherwise |
| Users.RepeatedLoginsRepeated | src/host/sys/linux/users.rs:57-65 | there is no deduplication: the same login twice gives its name twice |
| Users.NamesNonEmptyWithoutNul | src/host/sys/linux/users.rs:61-62 | every name returned is non-empty and holds no NUL |
| Users.NameNonEmptyWithoutNul | src/host/sys/linux/users.rs:61-62 | the name of one login is non-empty and holds no NUL |
| Users.CStringRunsOn | src/host/sys/linux/users.rs:62 | `to_str` on a `ut_user` field without NUL reads on into the following bytes, up to their first NUL |
| Users.DecodingsAgreeWhenTerminated | src/host/sys/linux/users.rs:62 | when `ut_user` holds a NUL, the source's decoding equals the decoding bounded by the field |
| Users.FullWidthNameReadsHost | src/host/sys/linux/users.rs:59-62 | a 32-byte name logged in from host "pc" is reported as the name followed by "pc" |
| MacMemory.GetMemory | src/memory/sys/macos/memory.rs:35-100 | a failed `host_statistics64` is returned first; then the page arithmetic panics exactly when overflow checks are on and the 32-bit sum or the 64-bit product overflows; otherwise a failed hw.memsize is returned with its `errno`, then a failed vm.swapusage with its `errno`, and when all three succeed the call succeeds; `total_virt`, `total_swap` and `avail_swap` pass through, and `avail_virt` is (active + free, in 32 bits) × page size, in 64 bits |
| MacMemory.HostStatisticsFailsFirst | src/memory/sys/macos/memory.rs:41-43 | a failed `host_statistics64` decides the result whatever the two `sysctl` calls would answer |
| MacMemory.MemsizeFailsBeforeSwap | src/memory/sys/macos/memory.rs:58-73 | a failed hw.memsize query decides the result, as an error or an earlier panic, whatever vm.swapusage would answer; after a successful first query and no overflow panic it is its own `errno` |
| MacMemory.SwapFailureReported | src/memory/sys/macos/memory.rs:76-91 | in either profile, once the first two queries succeed and the page arithmetic does not panic (always so when wrapping), a failed vm.swapusage query is returned with its `errno`; conversely that error, when its `errno` is distinct, is returned only then |
| MacMemory.PageSumWrapsIn32Bits | src/memory/sys/macos/memory.rs:55 | with wrapping arithmetic, 2^31 active plus 2^31 free pages count as 0 bytes available |
| MacHost.GetUptime | src/host/sys/macos/host_info.rs:50-70 | an error exactly when `sysctl` on kern.boottime returns a negative status; otherwise `tv_sec` reinterpreted as `u64`, with `tv_usec` dropped |
| MacHost.UptimeSinceBoot | src/host/sys/macos/host_info.rs:44 | the corrected uptime: the same error cases, and boot time plus uptime equals the current time |
| MacHost.UptimeReportsBootTime | src/host/sys/macos/host_info.rs:69 | a machine booted at 1700000000 s and asked 100 s later reports 1700000000 s; the corrected reading is 100 s |
| MacHost.GetHostInfo | src/host/sys/macos/host_info.rs:38-48 | a `get_uname` error is returned; after it, a `get_loadavg` error panics; then a `get_memory` error is returned and a `get_memory` panic is passed on; then a failed uptime panics; success exactly when all four calls succeed; os_version and hostname both come from the one uname result |
| MacHost.OnlyUnameAndMemoryErrorsReturned | src/host/sys/macos/host_info.rs:42-44 | a returned error is the uname error or the memory error; a failed uptime, after everything else succeeded, panics |
| MacHost.FirstFailureDecides | src/host/sys/macos/host_info.rs:39-44 | the calls run in order uname, loadavg, memory, uptime, and nothing after the first failure affects the result |
| IoKitStats.DeviceName | src/disks/sys/macos/iostats.rs:178-181 | the device name is the BSD name up to its first NUL when that is UTF-8, and "?" otherwise |
| IoKitStats.DeviceNameOfValid | src/disks/sys/macos/iostats.rs:178-181 | "?" stands only for invalid names: a valid BSD name is kept up to its first NUL, and whole when it has none |
| IoKitStats.Lookup | src/disks/sys/macos/iostats.rs:95-187 | once both dictionaries exist, a record is produced exactly when the BSD name fits the 64-byte buffer and both counters are present; `bytes_read` comes from "Bytes (Read)" and `bytes_wrtn` from "Bytes (Write)"; each missing value is an `Other` error |
| IoKitStats.VisitOutcome | src/disks/sys/macos/iostats.rs:59-93 | a missing parent, or a failed dictionary creation for a conforming device, is the OS error; a non-conforming parent is skipped; otherwise the lookups decide |
| IoKitStats.VisitTrace | src/disks/sys/macos/iostats.rs:52-62 | every pass of the loop body starts with the disk entry the iterator returned |
| IoKitStats.VisitOrder | src/disks/sys/macos/iostats.rs:59-193 | a pass obtains the disk entry and then the parent entry; every exit that releases the entries releases them last, disk then parent, after the dictionaries; a missing parent releases only the disk; as written, a non-conforming parent releases nothing |
| IoKitStats.VisitAccounting | src/disks/sys/macos/iostats.rs:59-193 | for one device: acquired plus released-unowned equals released plus leaked |
| IoKitStats.EarlyFailureAccounting | src/disks/sys/macos/iostats.rs:59-79 | when the parent lookup or the disk's properties fail, the visit releases exactly what it acquired |
| IoKitStats.SkipAccounting | src/disks/sys/macos/iostats.rs:66-67 | a non-conforming device acquires its disk and parent entries and, as written, releases neither |
| IoKitStats.PropsFailureAccounting | src/disks/sys/macos/iostats.rs:81-93 | when the parent's properties fail, the visit releases the disk dictionary, disk and parent and, as written, the null dictionary as well |
| IoKitStats.BothDictionariesReleased | src/disks/sys/macos/iostats.rs:95-192 | once both dictionaries exist, every exit (the record and the five lookup failures) releases both dictionaries, disk and parent exactly once and nothing else |
| IoKitStats.Walk | src/disks/sys/macos/iostats.rs:52-195 | the loop succeeds exactly when no device fails, and then returns one record per conforming device |
| IoKitStats.WalkResult | src/disks/sys/macos/iostats.rs:52-195 | a successful walk returns, in iterator order, one record per conforming device, its name and counters read from its two dictionaries; a failed walk returns the error of the first failing device, whatever follows it |
| IoKitStats.OneConformingDevice | src/disks/sys/macos/iostats.rs:142-187 | a single conforming device whose lookups succeed yields exactly its record |
| IoKitStats.GetIostats | src/disks/sys/macos/iostats.rs:30-201 | a failed matching call is the OS error, with no handle touched; otherwise the result is the walk's and the iterator is the first handle acquired |
| IoKitStats.WalkAccounting | src/disks/sys/macos/iostats.rs:52-195 | over the whole loop, acquired plus released-unowned equals released plus leaked |
| IoKitStats.NoFailureNoStray | src/disks/sys/macos/iostats.rs:81-93 | when no device fails, no handle is released unowned |
| IoKitStats.WalkNeverTouchesIterator | src/disks/sys/macos/iostats.rs:52-195 | the loop body never acquires or releases the iterator |
| IoKitStats.AsWrittenLeaksSkippedDevices | src/disks/sys/macos/iostats.rs:193-197 | as written, a call that reaches the end leaves exactly the disk and parent entries of the skipped devices live, and releases nothing unowned |
| IoKitStats.AsWrittenEarlyReturnLeaksIterator | src/disks/sys/macos/iostats.rs:63 | as written, every early return leaves the iterator live |
| IoKitStats.ScopedReleasesEverything | src/disks/sys/macos/iostats.rs:189-197 | with scoped releases, every exit leaves nothing live and releases nothing unowned |
| IoKitStats.DisciplinesAgree | src/disks/sys/macos/iostats.rs:30-201 | the release discipline never changes the returned result |
| IoKitStats.PropsFailureReleasesNull | src/disks/sys/macos/iostats.rs:88-89 | a device whose parent properties cannot be created makes the call release the null dictionary as written, before the error return, but not with scoped releases |
| IoKitStats.NonConformingDeviceLeaks | src/disks/sys/macos/iostats.rs:67 | one non-conforming device gives `Ok([])` and leaves its disk and parent entries live |
| IoKitStats.OneDiskRecord | src/disks/sys/macos/iostats.rs:142-187 | "disk0" with 4096 bytes read and 512 written gives exactly that record, despite the swapped local names |

## Left out

- The OS and FFI calls themselves: `sysctl`, `getloadavg`, `sysconf`, `sched_getaffinity`, `statvfs`, `getfsstat64`, `host_statistics64`, `read`, IOKit and CoreFoundation. The model takes their replies as parameters.
- Parsing `f64` from the cpuinfo value text. It is an uninterpreted parser parameter.
- Floating-point values: load averages and the frequency are `real`, passed through.
- `lines()` UTF-8 errors: a non-UTF-8 line arrives as a read error. The char-boundary test of the two slices assumes the line bytes are UTF-8, as a Rust `String` is.
- Partial reads of `/var/run/utmp`, and a `read` returning -1: the records are the whole records read before `read` returned 0.
- The wrapped `i32` buffer size in `get_partitions_physical`: when wrapping, the size handed to the second `getfsstat64` call is not formed, because that call's reply is a parameter of the model. The overflow panic with checks on is modelled, and `size_of::<statfs>()` is taken as 2168, its macOS size with 64-bit inodes.
- Users.CStringAt: when a `utmp` record holds no NUL at all, `to_str` reads past the record. The model stops at the record's end.
- IoKitStats.PropsFailureReleasesNull: `CFRelease(NULL)` is modelled as a release of the null reference after which the call goes on to return its error. CoreFoundation treats a NULL argument as a fatal error, so on a real system that path crashes the process instead of returning.
- The `errno` of IOKit calls: a failed call's `Error::last_os_error()` is the device's `errno` parameter.
- CoreFoundation values that are not of the expected type: the dictionaries are typed maps.
- The encoding passed to `CFStringGetCString`: the BSD name is given as bytes.
- `get_uname`, `get_os_version_from_uname` and `get_hostname_from_uname`: they are not part of this model. Their results are parameters of `get_host_info`.
- `read_and_trim` (src/lib.rs): a Linux file read with no decision in it.
- `PAGE_SIZE` and the `lazy_static` initialisation of it and of `CLOCK_TICKS`: the page size is a parameter, and thread safety is not modelled.
- src/cpu/sys/macos/cpu_stats.rs: it depends on a binding and a conversion that are not part of this model.
- src/cpu/sys/macos/physical_count.rs, benches and module wiring: no decision logic.
- The Linux paths of memory, host info and partitions: not part of the modelled files.
- serde serialisation of the records.

## Findings

| source | as written | input that shows it | evidently intended | confidence | as-written member | corrected member |
|---|---|---|---|---|---|---|
| src/cpu.rs:44 | the value slice `[11..len-1]` is taken from a line that `lines()` has already stripped of its newline | "cpu MHz\t\t: 2400.123\n" hands "2400.12" to the parser | slice to the end of the stripped line, as the `read_line` copy effectively does | high, not executed | CpuFreq.CpuinfoExample | CpuFreq.FixedLinesAgreesWithReadLine |
| src/host/sys/linux/users.rs:62 | `to_str` on `ut_user`, which has no NUL when the name fills all 32 bytes | a 32-byte name logged in from host "pc" is reported as the name followed by "pc" | decode at most the 32 bytes of the field | high, not executed | Users.FullWidthNameReadsHost | Users.DecodingsAgreeWhenTerminated |
| src/disks/sys/macos/iostats.rs:89 | `CFRelease(props_dict)` while `props_dict` is still null, which CoreFoundation treats as a fatal error | a conforming device whose parent's properties cannot be created | release only the dictionaries that were created | high, not executed | IoKitStats.PropsFailureReleasesNull | IoKitStats.ScopedReleasesEverything |
| src/disks/sys/macos/iostats.rs:67 | a device whose parent does not conform is never released | one disk whose parent is not an IOBlockStorageDriver: its disk and parent entries stay live | release disk and parent on every path | high, not executed | IoKitStats.NonConformingDeviceLeaks | IoKitStats.ScopedReleasesEverything |
| src/disks/sys/macos/iostats.rs:63 | the early returns skip `IOObjectRelease(disk_list)` | any device that fails, e.g. one with no parent entry | release the iterator on every exit | high, not executed | IoKitStats.AsWrittenEarlyReturnLeaksIterator | IoKitStats.ScopedReleasesEverything |
| src/host/sys/macos/host_info.rs:69 | `uptime` is kern.boottime's `tv_sec` | booted at 1700000000 s, asked 100 s later: uptime 1700000000 s | the seconds elapsed since boot | high, not executed | MacHost.UptimeReportsBootTime | MacHost.UptimeSinceBoot |
