/** macOS `get_iostats` (src/disks/sys/macos/iostats.rs): a walk over the
    IOKit registry entries matching "IOMedia". Every handle the walk obtains
    from IOKit or CoreFoundation and every handle it hands back is recorded
    as an event, so that the exit paths can be compared by what they leave
    live and by what they release without owning. */
module IoKitStats {
  import opened Base
  import opened Lib
  import opened Utf8
  import opened Models

  /** The handles of one walk. Device `i` (in iterator order) owns a
      registry entry for the disk and for its parent, the property
      dictionary of the disk (`parent_dict` in the source) and that of the
      parent (`props_dict`). `NullRef` is the null dictionary reference. */
  datatype Handle =
    | Iterator
    | DiskEntry(i: nat)
    | ParentEntry(i: nat)
    | ParentDict(i: nat)
    | PropsDict(i: nat)
    | NullRef

  /** Obtaining a handle that must be released, or releasing one
      (`IOObjectRelease`, `CFRelease`). */
  datatype Event = Acquire(h: Handle) | Release(h: Handle)

  /** The handles acquired (`acquires`) or released (`!acquires`) in a
      trace, with multiplicity. */
  function Tally(events: seq<Event>, acquires: bool): multiset<Handle> {
    if |events| == 0 then multiset{}
    else
      (if events[0].Acquire? == acquires then multiset{events[0].h} else multiset{})
      + Tally(events[1..], acquires)
  }

  function Acquired(events: seq<Event>): multiset<Handle> { Tally(events, true) }
  function Released(events: seq<Event>): multiset<Handle> { Tally(events, false) }

  /** The tally of a trace that starts with `e`. */
  lemma TallyCons(e: Event, rest: seq<Event>, acquires: bool)
    ensures Tally([e] + rest, acquires) ==
              (if e.Acquire? == acquires then multiset{e.h} else multiset{}) + Tally(rest, acquires)
  {
    assert ([e] + rest)[0] == e;
    assert ([e] + rest)[1..] == rest;
  }

  /** The tally of a trace is the sum of the tallies of its parts. */
  lemma {:induction false} TallyAppend(a: seq<Event>, b: seq<Event>, acquires: bool)
    ensures Tally(a + b, acquires) == Tally(a, acquires) + Tally(b, acquires)
  {
    if |a| == 0 {
      assert a + b == b;
    } else {
      assert a == [a[0]] + a[1..];
      assert a + b == [a[0]] + (a[1..] + b);
      TallyCons(a[0], a[1..] + b, acquires);
      TallyCons(a[0], a[1..], acquires);
      TallyAppend(a[1..], b, acquires);
    }
  }

  /** Acquiring each of `hs` in order. */
  function Acquires(hs: seq<Handle>): (events: seq<Event>)
    ensures |events| == |hs|
  {
    if |hs| == 0 then [] else [Acquire(hs[0])] + Acquires(hs[1..])
  }

  /** Releasing each of `hs` in order. */
  function Releases(hs: seq<Handle>): (events: seq<Event>)
    ensures |events| == |hs|
  {
    if |hs| == 0 then [] else [Release(hs[0])] + Releases(hs[1..])
  }

  /** A visit's trace: the handles obtained, then the handles released. */
  function Trace(acquired: seq<Handle>, released: seq<Handle>): seq<Event> {
    Acquires(acquired) + Releases(released)
  }

  lemma {:induction false} TallyAcquires(hs: seq<Handle>)
    ensures Acquired(Acquires(hs)) == multiset(hs)
    ensures Released(Acquires(hs)) == multiset{}
  {
    if |hs| > 0 {
      var rest := Acquires(hs[1..]);
      assert Acquires(hs) == [Acquire(hs[0])] + rest;
      TallyCons(Acquire(hs[0]), rest, true);
      TallyCons(Acquire(hs[0]), rest, false);
      TallyAcquires(hs[1..]);
      assert multiset(hs) == multiset{hs[0]} + multiset(hs[1..]) by {
        assert hs == [hs[0]] + hs[1..];
      }
      assert Acquired(Acquires(hs)) == multiset{hs[0]} + Acquired(rest);
      assert Released(Acquires(hs)) == Released(rest);
    }
  }

  lemma {:induction false} TallyReleases(hs: seq<Handle>)
    ensures Acquired(Releases(hs)) == multiset{}
    ensures Released(Releases(hs)) == multiset(hs)
  {
    if |hs| > 0 {
      var rest := Releases(hs[1..]);
      assert Releases(hs) == [Release(hs[0])] + rest;
      TallyCons(Release(hs[0]), rest, false);
      TallyCons(Release(hs[0]), rest, true);
      TallyReleases(hs[1..]);
      assert multiset(hs) == multiset{hs[0]} + multiset(hs[1..]) by {
        assert hs == [hs[0]] + hs[1..];
      }
      assert Released(Releases(hs)) == multiset{hs[0]} + Released(rest);
      assert Acquired(Releases(hs)) == Acquired(rest);
    }
  }

  /** What a trace acquires and releases, as multisets. */
  lemma TallyTrace(acquired: seq<Handle>, released: seq<Handle>)
    ensures Acquired(Trace(acquired, released)) == multiset(acquired)
    ensures Released(Trace(acquired, released)) == multiset(released)
  {
    TallyAppend(Acquires(acquired), Releases(released), true);
    TallyAppend(Acquires(acquired), Releases(released), false);
    TallyAcquires(acquired);
    TallyReleases(released);
  }

  /** Who releases what. `AsWritten` is the source. `Scoped` releases the
      disk and parent of a skipped device, releases the iterator on every
      exit, and never releases the null dictionary. */
  datatype Discipline = AsWritten | Scoped

  /** The keys looked up and the size of the device-name buffer. */
  const BSD_NAME: string := "BSD Name"
  const STATISTICS: string := "Statistics"
  const BYTES_READ: string := "Bytes (Read)"
  const BYTES_WRITE: string := "Bytes (Write)"
  const NAME_BUFFER: nat := 64

  const MSG_NO_BSD_NAME: string := "CFDictionaryGetValueIfPresent: BSD Name not found in the parent_dict"
  const MSG_NAME_BUFFER: string := "Cannot get the buffer filled"
  const MSG_NO_STATISTICS: string := "CFDictionaryGetValueIfPresent: Statistics not found in the props_dict"
  const MSG_NO_BYTES_READ: string := "CFDictionaryGetValueIfPresent: Bytes Read not found in the stats_dict"
  const MSG_NO_BYTES_WRITE: string := "CFDictionaryGetValueIfPresent: Bytes Write not found in the stats_dict"

  /** What IOKit answers about one disk the iterator yields: whether its
      parent is found and conforms to "IOBlockStorageDriver", the property
      dictionaries of disk and parent (`None` when their creation fails;
      the BSD name as its UTF-8 bytes, the statistics as 64-bit numbers),
      and the `errno` a failing call leaves. */
  datatype Device = Device(
    parentFound: bool,
    conforms: bool,
    diskProps: Option<map<string, Bytes>>,
    parentProps: Option<map<string, map<string, i64>>>,
    errno: int)

  /** The name pushed for a BSD name that fit the buffer: the bytes before
      the first NUL if they are UTF-8, otherwise "?". */
  function DeviceName(bsd: Bytes): (name: Bytes)
    ensures name == "?" || (name == ToStr(bsd + [NUL]) && ValidUtf8(name))
    ensures ValidUtf8(ToStr(bsd + [NUL])) ==> name == ToStr(bsd + [NUL])
  {
    var s := ToStr(bsd + [NUL]);
    if ValidUtf8(s) then s else "?"
  }

  /** "?" stands only for a name that is not UTF-8: a valid name is pushed
      up to its first NUL, and a valid name without NUL is pushed whole. */
  lemma DeviceNameOfValid(bsd: Bytes)
    requires ValidUtf8(bsd)
    ensures DeviceName(bsd) == ToStr(bsd + [NUL])
    ensures NUL !in bsd ==> DeviceName(bsd) == bsd
  {
    if NUL !in bsd {
      assert (bsd + [NUL])[..|bsd|] == bsd;
      ToStrIsFirstNulPrefix(bsd + [NUL], bsd);
    } else {
      var k := FirstNul(bsd);
      assert (bsd + [NUL])[..k] == bsd[..k];
      ToStrIsFirstNulPrefix(bsd + [NUL], bsd[..k]);
      ValidBeforeNul(bsd, k);
    }
  }

  /** The index of the first NUL. */
  function FirstNul(s: Bytes): (k: nat)
    requires NUL in s
    ensures k < |s| && s[k] == NUL && NUL !in s[..k]
  {
    if s[0] == NUL then 0 else 1 + FirstNul(s[1..])
  }

  /** What visiting one device amounts to. */
  datatype Outcome = Skipped | Record(stats: IoStats) | Failed(error: IoError)

  /** The lookups in the two dictionaries, once both exist, in source
      order; the first missing value ends the walk with its message. */
  function Lookup(diskProps: map<string, Bytes>, parentProps: map<string, map<string, i64>>): (o: Outcome)
    ensures o.Skipped? == false
    ensures o.Record? <==> Complete(diskProps, parentProps)
    ensures o.Record? ==>
              && o.stats.deviceName == DeviceName(diskProps[BSD_NAME])
              && o.stats.bytesRead == parentProps[STATISTICS][BYTES_READ]
              && o.stats.bytesWrtn == parentProps[STATISTICS][BYTES_WRITE]
    ensures o.Failed? ==> o.error.Custom? && o.error.kind == Other
  {
    if BSD_NAME !in diskProps then Failed(Custom(Other, MSG_NO_BSD_NAME))
    else if |diskProps[BSD_NAME]| >= NAME_BUFFER then Failed(Custom(Other, MSG_NAME_BUFFER))
    else if STATISTICS !in parentProps then Failed(Custom(Other, MSG_NO_STATISTICS))
    else
      var stats := parentProps[STATISTICS];
      if BYTES_READ !in stats then Failed(Custom(Other, MSG_NO_BYTES_READ))
      else
        var readBytes := stats[BYTES_READ];
        if BYTES_WRITE !in stats then Failed(Custom(Other, MSG_NO_BYTES_WRITE))
        else
          var writeBytes := stats[BYTES_WRITE];
          Record(IoStats(DeviceName(diskProps[BSD_NAME]), readBytes, writeBytes))
  }

  /** Everything a record needs is present: a BSD name whose bytes and
      terminating NUL fit the 64-byte buffer, and both byte counters under
      "Statistics". */
  predicate Complete(diskProps: map<string, Bytes>, parentProps: map<string, map<string, i64>>) {
    && BSD_NAME in diskProps && |diskProps[BSD_NAME]| + 1 <= NAME_BUFFER
    && STATISTICS in parentProps
    && BYTES_READ in parentProps[STATISTICS] && BYTES_WRITE in parentProps[STATISTICS]
  }

  /** A device that ends the walk with an error. */
  predicate Fails(d: Device) {
    || !d.parentFound
    || (d.conforms && (d.diskProps.None? || d.parentProps.None? ||
                       !Complete(d.diskProps.value, d.parentProps.value)))
  }

  /** Handles of device `i` left live after its visit. */
  function Leak(disc: Discipline, d: Device, i: nat): multiset<Handle> {
    if disc == AsWritten && d.parentFound && !d.conforms then multiset{DiskEntry(i), ParentEntry(i)}
    else multiset{}
  }

  /** Handles released without having been acquired during the visit. */
  function Stray(disc: Discipline, d: Device): multiset<Handle> {
    if disc == AsWritten && d.parentFound && d.conforms && d.diskProps.Some? && d.parentProps.None?
    then multiset{NullRef}
    else multiset{}
  }

  /** What one pass of the loop body decides for a device. */
  function VisitOutcome(d: Device): (o: Outcome)
    ensures o.Failed? <==> Fails(d)
    ensures o.Skipped? <==> d.parentFound && !d.conforms
    ensures !d.parentFound || (d.conforms && (d.diskProps.None? || d.parentProps.None?)) ==>
              o == Failed(Os(d.errno))
    ensures d.parentFound && d.conforms && d.diskProps.Some? && d.parentProps.Some? ==>
              o == Lookup(d.diskProps.value, d.parentProps.value)
  {
    if !d.parentFound then Failed(Os(d.errno))
    else if !d.conforms then Skipped
    else if d.diskProps.None? || d.parentProps.None? then Failed(Os(d.errno))
    else Lookup(d.diskProps.value, d.parentProps.value)
  }

  /** The handle events of one pass of the loop body for device `i`, whose
      disk entry the iterator just returned. Once both dictionaries exist
      every exit releases the same four handles in the same order. The
      disk entry is the first handle obtained. */
  function VisitTrace(disc: Discipline, d: Device, i: nat): (events: seq<Event>)
    ensures |events| >= 2 && events[0] == Acquire(DiskEntry(i))
  {
    var disk := DiskEntry(i);
    var parent := ParentEntry(i);
    if !d.parentFound then
      Trace([disk], [disk])
    else if !d.conforms then
      Trace([disk, parent], if disc == Scoped then [disk, parent] else [])
    else if d.diskProps.None? then
      Trace([disk, parent], [disk, parent])
    else if d.parentProps.None? then
      var nullRelease := if disc == AsWritten then [NullRef] else [];
      Trace([disk, parent, ParentDict(i)], [ParentDict(i)] + nullRelease + [disk, parent])
    else
      Trace([disk, parent, ParentDict(i), PropsDict(i)], [ParentDict(i), PropsDict(i), disk, parent])
  }

  /** The `k`-th event of a run of acquisitions or releases. */
  lemma {:induction false} AcquiresAt(hs: seq<Handle>, k: nat)
    requires k < |hs|
    ensures Acquires(hs)[k] == Acquire(hs[k])
  {
    if k > 0 {
      AcquiresAt(hs[1..], k - 1);
    }
  }

  lemma {:induction false} ReleasesAt(hs: seq<Handle>, k: nat)
    requires k < |hs|
    ensures Releases(hs)[k] == Release(hs[k])
  {
    if k > 0 {
      ReleasesAt(hs[1..], k - 1);
    }
  }

  /** The shape of a trace: its first two events acquire the first two
      handles, and its last two release the last two. */
  lemma TraceShape(acquired: seq<Handle>, released: seq<Handle>)
    requires |acquired| >= 2
    ensures var t := Trace(acquired, released);
            && t[0] == Acquire(acquired[0]) && t[1] == Acquire(acquired[1])
            && (|released| >= 2 ==>
                  && t[|t| - 2] == Release(released[|released| - 2])
                  && t[|t| - 1] == Release(released[|released| - 1]))
  {
    var m := |released|;
    AcquiresAt(acquired, 0);
    AcquiresAt(acquired, 1);
    if m >= 2 {
      ReleasesAt(released, m - 2);
      ReleasesAt(released, m - 1);
    }
  }

  /** The order of one visit: the disk entry is obtained first and the
      parent entry next; every exit that releases the entries releases
      them last, after the dictionaries, the disk before the parent; only
      the as-written skip of a non-conforming parent releases nothing. */
  lemma VisitOrder(disc: Discipline, d: Device, i: nat)
    ensures var events := VisitTrace(disc, d, i);
            && (!d.parentFound ==> events == [Acquire(DiskEntry(i)), Release(DiskEntry(i))])
            && (d.parentFound ==> |events| >= 2 && events[1] == Acquire(ParentEntry(i)))
            && (disc == AsWritten && d.parentFound && !d.conforms ==>
                  events == [Acquire(DiskEntry(i)), Acquire(ParentEntry(i))])
            && (d.parentFound && !(disc == AsWritten && !d.conforms) ==>
                  && |events| >= 4
                  && events[|events| - 2] == Release(DiskEntry(i))
                  && events[|events| - 1] == Release(ParentEntry(i)))
  {
    var disk, parent := DiskEntry(i), ParentEntry(i);
    if !d.parentFound {
      assert Acquires([disk]) == [Acquire(disk)] + Acquires([]);
      assert Releases([disk]) == [Release(disk)] + Releases([]);
    } else if disc == AsWritten && !d.conforms {
      AcquiresAt([disk, parent], 0);
      AcquiresAt([disk, parent], 1);
      assert VisitTrace(disc, d, i) == Acquires([disk, parent]) + [];
    } else {
      VisitOrderReleasing(disc, d, i);
    }
  }

  /** `VisitOrder` on the exits that release the entries. */
  lemma VisitOrderReleasing(disc: Discipline, d: Device, i: nat)
    requires d.parentFound && !(disc == AsWritten && !d.conforms)
    ensures var events := VisitTrace(disc, d, i);
            && |events| >= 4 && events[1] == Acquire(ParentEntry(i))
            && events[|events| - 2] == Release(DiskEntry(i))
            && events[|events| - 1] == Release(ParentEntry(i))
  {
    var disk, parent := DiskEntry(i), ParentEntry(i);
    var acquired := if !d.conforms || d.diskProps.None? then [disk, parent]
                    else if d.parentProps.None? then [disk, parent, ParentDict(i)]
                    else [disk, parent, ParentDict(i), PropsDict(i)];
    var released := if !d.conforms || d.diskProps.None? then [disk, parent]
                    else if d.parentProps.None? then [ParentDict(i)] + (if disc == AsWritten then [NullRef] else []) + [disk, parent]
                    else [ParentDict(i), PropsDict(i), disk, parent];
    assert VisitTrace(disc, d, i) == Trace(acquired, released);
    assert released[|released| - 2] == disk && released[|released| - 1] == parent;
    TraceShape(acquired, released);
  }

  /** The handles of one visit: what is acquired is released, except the
      leaked entries of a skipped device; what is released was acquired,
      except the null dictionary. */
  lemma VisitAccounting(disc: Discipline, d: Device, i: nat)
    ensures var events := VisitTrace(disc, d, i);
            Acquired(events) + Stray(disc, d) == Released(events) + Leak(disc, d, i)
  {
    if !d.parentFound || (d.conforms && d.diskProps.None?) {
      EarlyFailureAccounting(disc, d, i);
    } else if !d.conforms {
      SkipAccounting(disc, d, i);
    } else if d.parentProps.None? {
      PropsFailureAccounting(disc, d, i);
    } else {
      BothDictionariesReleased(disc, d, i);
    }
  }

  lemma EarlyFailureAccounting(disc: Discipline, d: Device, i: nat)
    requires !d.parentFound || (d.conforms && d.diskProps.None?)
    ensures Acquired(VisitTrace(disc, d, i)) == Released(VisitTrace(disc, d, i))
    ensures Acquired(VisitTrace(disc, d, i)) ==
              if d.parentFound then multiset{DiskEntry(i), ParentEntry(i)} else multiset{DiskEntry(i)}
  {
    var held := if d.parentFound then [DiskEntry(i), ParentEntry(i)] else [DiskEntry(i)];
    assert VisitTrace(disc, d, i) == Trace(held, held);
    TallyTrace(held, held);
  }

  lemma SkipAccounting(disc: Discipline, d: Device, i: nat)
    requires d.parentFound && !d.conforms
    ensures Acquired(VisitTrace(disc, d, i)) == multiset{DiskEntry(i), ParentEntry(i)}
    ensures Released(VisitTrace(disc, d, i)) == if disc == Scoped then multiset{DiskEntry(i), ParentEntry(i)} else multiset{}
  {
    var released := if disc == Scoped then [DiskEntry(i), ParentEntry(i)] else [];
    assert VisitTrace(disc, d, i) == Trace([DiskEntry(i), ParentEntry(i)], released);
    TallyTrace([DiskEntry(i), ParentEntry(i)], released);
  }

  lemma PropsFailureAccounting(disc: Discipline, d: Device, i: nat)
    requires d.parentFound && d.conforms && d.diskProps.Some? && d.parentProps.None?
    ensures Acquired(VisitTrace(disc, d, i)) == multiset{DiskEntry(i), ParentEntry(i), ParentDict(i)}
    ensures Released(VisitTrace(disc, d, i)) ==
              multiset{DiskEntry(i), ParentEntry(i), ParentDict(i)} + (if disc == AsWritten then multiset{NullRef} else multiset{})
  {
    var nullRelease := if disc == AsWritten then [NullRef] else [];
    var released := [ParentDict(i)] + nullRelease + [DiskEntry(i), ParentEntry(i)];
    assert VisitTrace(disc, d, i) == Trace([DiskEntry(i), ParentEntry(i), ParentDict(i)], released);
    TallyTrace([DiskEntry(i), ParentEntry(i), ParentDict(i)], released);
  }

  /** Once both dictionaries exist, every exit, the record and each of the
      five lookup failures, releases the two dictionaries, the disk and the
      parent exactly once and nothing else. */
  lemma BothDictionariesReleased(disc: Discipline, d: Device, i: nat)
    requires d.parentFound && d.conforms && d.diskProps.Some? && d.parentProps.Some?
    ensures var events := VisitTrace(disc, d, i);
            && Released(events) == multiset{ParentDict(i), PropsDict(i), DiskEntry(i), ParentEntry(i)}
            && Acquired(events) == Released(events)
  {
    TallyTrace([DiskEntry(i), ParentEntry(i), ParentDict(i), PropsDict(i)],
               [ParentDict(i), PropsDict(i), DiskEntry(i), ParentEntry(i)]);
  }

  /** The outcome of a walk: the trace of handle events and the result. */
  datatype Walked = Walked(events: seq<Event>, result: Result<seq<IoStats>>)

  /** Handles leaked by the devices visited from `from` on: every device
      up to and including the first that fails. */
  function LeakFrom(disc: Discipline, devices: seq<Device>, from: nat): multiset<Handle>
    requires from <= |devices|
    decreases |devices| - from
  {
    if from == |devices| then multiset{}
    else Leak(disc, devices[from], from) + (if Fails(devices[from]) then multiset{} else LeakFrom(disc, devices, from + 1))
  }

  /** Handles released unowned by the devices visited from `from` on. */
  function StrayFrom(disc: Discipline, devices: seq<Device>, from: nat): multiset<Handle>
    requires from <= |devices|
    decreases |devices| - from
  {
    if from == |devices| then multiset{}
    else Stray(disc, devices[from]) + (if Fails(devices[from]) then multiset{} else StrayFrom(disc, devices, from + 1))
  }

  /** No device from `from` on ends the walk with an error. */
  predicate NoneFails(devices: seq<Device>, from: nat)
    requires from <= |devices|
  {
    forall k :: from <= k < |devices| ==> !Fails(devices[k])
  }

  /** The number of devices from `from` on whose parent conforms. */
  function ConformingCount(devices: seq<Device>, from: nat): (n: nat)
    requires from <= |devices|
    ensures n <= |devices| - from
    decreases |devices| - from
  {
    if from == |devices| then 0
    else (if devices[from].parentFound && devices[from].conforms then 1 else 0) + ConformingCount(devices, from + 1)
  }

  /** The record of a device with both dictionaries complete: its BSD name
      as pushed, and its two byte counters. */
  function RecordOf(diskProps: map<string, Bytes>, parentProps: map<string, map<string, i64>>): IoStats
    requires Complete(diskProps, parentProps)
  {
    IoStats(DeviceName(diskProps[BSD_NAME]), parentProps[STATISTICS][BYTES_READ], parentProps[STATISTICS][BYTES_WRITE])
  }

  /** The records of a walk that no device ends: one per device whose
      parent conforms, in iterator order. */
  function Records(devices: seq<Device>, from: nat): seq<IoStats>
    requires from <= |devices| && NoneFails(devices, from)
    decreases |devices| - from
  {
    if from == |devices| then []
    else
      var d := devices[from];
      (if d.conforms then [RecordOf(d.diskProps.value, d.parentProps.value)] else []) + Records(devices, from + 1)
  }

  /** The first device from `from` on that ends the walk. */
  function FirstFailure(devices: seq<Device>, from: nat): (k: nat)
    requires from <= |devices| && !NoneFails(devices, from)
    ensures from <= k < |devices| && Fails(devices[k])
    ensures forall j :: from <= j < k ==> !Fails(devices[j])
    decreases |devices| - from
  {
    if Fails(devices[from]) then from else FirstFailure(devices, from + 1)
  }

  /** The `while disk != 0` loop over the devices from index `from` on.
      Records are collected in iterator order; the first failing device
      ends the walk and the records collected so far are dropped. */
  function Walk(disc: Discipline, devices: seq<Device>, from: nat): (w: Walked)
    requires from <= |devices|
    ensures w.result.Ok? <==> NoneFails(devices, from)
    ensures w.result.Ok? ==> |w.result.value| == ConformingCount(devices, from)
    decreases |devices| - from
  {
    if from == |devices| then Walked([], Ok([]))
    else
      var events := VisitTrace(disc, devices[from], from);
      match VisitOutcome(devices[from])
      case Failed(e) => Walked(events, Err(e))
      case Skipped =>
        var rest := Walk(disc, devices, from + 1);
        Walked(events + rest.events, rest.result)
      case Record(s) =>
        var rest := Walk(disc, devices, from + 1);
        Walked(events + rest.events, if rest.result.Ok? then Ok([s] + rest.result.value) else rest.result)
  }

  /** What a walk returns: when no device fails, the records of the
      conforming devices in iterator order; otherwise the error of the
      first failing device, whatever follows it. */
  lemma {:induction false} WalkResult(disc: Discipline, devices: seq<Device>, from: nat)
    requires from <= |devices|
    ensures Walk(disc, devices, from).result.Ok? ==> Walk(disc, devices, from).result.value == Records(devices, from)
    ensures Walk(disc, devices, from).result.Err? ==>
              Walk(disc, devices, from).result.error == VisitOutcome(devices[FirstFailure(devices, from)]).error
    decreases |devices| - from
  {
    if from < |devices| && !Fails(devices[from]) {
      WalkResult(disc, devices, from + 1);
    }
  }

  /** The reply of `IOServiceGetMatchingServices`. */
  datatype Matching = Matched | NotMatched(errno: int)

  /** `get_iostats`. The iterator is released after a walk that reaches
      the end; as written, an early return leaves it live. */
  function GetIostats(disc: Discipline, matching: Matching, devices: seq<Device>): (w: Walked)
    ensures matching.NotMatched? ==> w == Walked([], Err(Os(matching.errno)))
    ensures matching.Matched? ==> w.result == Walk(disc, devices, 0).result
    ensures matching.Matched? ==> |w.events| >= 1 && w.events[0] == Acquire(Iterator)
  {
    match matching
    case NotMatched(errno) => Walked([], Err(Os(errno)))
    case Matched =>
      var walk := Walk(disc, devices, 0);
      var close := if walk.result.Ok? || disc == Scoped then [Release(Iterator)] else [];
      Walked([Acquire(Iterator)] + walk.events + close, walk.result)
  }

  /** What remains acquired and not released, and what was released
      without being acquired. */
  function Live(events: seq<Event>): multiset<Handle> { Acquired(events) - Released(events) }
  function Unowned(events: seq<Event>): multiset<Handle> { Released(events) - Acquired(events) }

  /** Nothing is released unowned when no device fails. */
  lemma {:induction false} NoFailureNoStray(disc: Discipline, devices: seq<Device>, from: nat)
    requires from <= |devices|
    requires NoneFails(devices, from)
    ensures StrayFrom(disc, devices, from) == multiset{}
    decreases |devices| - from
  {
    if from < |devices| {
      assert !Fails(devices[from]);
      NoFailureNoStray(disc, devices, from + 1);
    }
  }

  /** Under `Scoped` nothing leaks and nothing is released unowned. */
  lemma {:induction false} ScopedSumsEmpty(devices: seq<Device>, from: nat)
    requires from <= |devices|
    ensures LeakFrom(Scoped, devices, from) == multiset{} && StrayFrom(Scoped, devices, from) == multiset{}
    decreases |devices| - from
  {
    if from < |devices| {
      ScopedSumsEmpty(devices, from + 1);
    }
  }

  /** The accounting identity of a walk: what it acquires, plus what it
      releases unowned, is what it releases plus what it leaks. */
  lemma {:induction false} WalkAccounting(disc: Discipline, devices: seq<Device>, from: nat)
    requires from <= |devices|
    ensures var w := Walk(disc, devices, from);
            Acquired(w.events) + StrayFrom(disc, devices, from) == Released(w.events) + LeakFrom(disc, devices, from)
    decreases |devices| - from
  {
    if from < |devices| {
      var d := devices[from];
      var events := VisitTrace(disc, d, from);
      var w := Walk(disc, devices, from);
      VisitAccounting(disc, d, from);
      if Fails(d) {
        assert w.events == events;
        assert LeakFrom(disc, devices, from) == Leak(disc, d, from);
        assert StrayFrom(disc, devices, from) == Stray(disc, d);
      } else {
        var rest := Walk(disc, devices, from + 1);
        assert w.events == events + rest.events;
        WalkAccounting(disc, devices, from + 1);
        TallyAppend(events, rest.events, true);
        TallyAppend(events, rest.events, false);
        assert LeakFrom(disc, devices, from) == Leak(disc, d, from) + LeakFrom(disc, devices, from + 1);
        assert StrayFrom(disc, devices, from) == Stray(disc, d) + StrayFrom(disc, devices, from + 1);
        AddBalances(Acquired(events), Stray(disc, d), Released(events), Leak(disc, d, from),
                    Acquired(rest.events), StrayFrom(disc, devices, from + 1),
                    Released(rest.events), LeakFrom(disc, devices, from + 1));
      }
    }
  }

  /** Two balanced accounts add up to a balanced account. */
  lemma AddBalances(a1: multiset<Handle>, s1: multiset<Handle>, r1: multiset<Handle>, l1: multiset<Handle>,
                    a2: multiset<Handle>, s2: multiset<Handle>, r2: multiset<Handle>, l2: multiset<Handle>)
    requires a1 + s1 == r1 + l1 && a2 + s2 == r2 + l2
    ensures (a1 + a2) + (s1 + s2) == (r1 + r2) + (l1 + l2)
  {
    forall h ensures ((a1 + a2) + (s1 + s2))[h] == ((r1 + r2) + (l1 + l2))[h] {
      assert (a1 + s1)[h] == (r1 + l1)[h];
      assert (a2 + s2)[h] == (r2 + l2)[h];
    }
  }

  /** A walk neither acquires nor releases the iterator. */
  lemma {:induction false} WalkNeverTouchesIterator(disc: Discipline, devices: seq<Device>, from: nat)
    requires from <= |devices|
    ensures Acquired(Walk(disc, devices, from).events)[Iterator] == 0
    ensures Released(Walk(disc, devices, from).events)[Iterator] == 0
    decreases |devices| - from
  {
    if from < |devices| {
      var d := devices[from];
      var events := VisitTrace(disc, d, from);
      VisitTouchesOnlyDevice(disc, d, from);
      if !Fails(d) {
        var rest := Walk(disc, devices, from + 1);
        WalkNeverTouchesIterator(disc, devices, from + 1);
        TallyAppend(events, rest.events, true);
        TallyAppend(events, rest.events, false);
      }
    }
  }

  /** A visit neither acquires nor releases the iterator. */
  lemma VisitTouchesOnlyDevice(disc: Discipline, d: Device, i: nat)
    ensures Acquired(VisitTrace(disc, d, i))[Iterator] == 0
    ensures Released(VisitTrace(disc, d, i))[Iterator] == 0
  {
    if !d.parentFound || (d.conforms && d.diskProps.None?) {
      EarlyFailureAccounting(disc, d, i);
    } else if !d.conforms {
      SkipAccounting(disc, d, i);
    } else if d.parentProps.None? {
      PropsFailureAccounting(disc, d, i);
    } else {
      BothDictionariesReleased(disc, d, i);
    }
  }

  /** The whole call, as written, when the walk reaches the end: exactly
      the disk and parent entries of the skipped devices stay live, and
      nothing is released unowned. */
  lemma AsWrittenLeaksSkippedDevices(matching: Matching, devices: seq<Device>)
    requires matching.Matched? && GetIostats(AsWritten, matching, devices).result.Ok?
    ensures var w := GetIostats(AsWritten, matching, devices);
            Live(w.events) == LeakFrom(AsWritten, devices, 0) && Unowned(w.events) == multiset{}
  {
    var walk := Walk(AsWritten, devices, 0);
    var events := GetIostats(AsWritten, matching, devices).events;
    var leak := LeakFrom(AsWritten, devices, 0);
    assert events == [Acquire(Iterator)] + walk.events + [Release(Iterator)];
    TallyAroundWalk(walk.events, true);
    WalkAccounting(AsWritten, devices, 0);
    NoFailureNoStray(AsWritten, devices, 0);
    assert Acquired(walk.events) + multiset{} == Released(walk.events) + leak;
    BalanceAroundIterator(Acquired(walk.events), Released(walk.events), leak);
    LiveOfBalance(Acquired(events), Released(events), leak);
  }

  /** The tally of the call's trace: the iterator, the walk, and the
      iterator's release when it happens. */
  lemma TallyAroundWalk(walkEvents: seq<Event>, closed: bool)
    ensures var events := [Acquire(Iterator)] + walkEvents + (if closed then [Release(Iterator)] else []);
            && Acquired(events) == multiset{Iterator} + Acquired(walkEvents)
            && Released(events) == Released(walkEvents) + (if closed then multiset{Iterator} else multiset{})
  {
    var close: seq<Event> := if closed then [Release(Iterator)] else [];
    assert [Acquire(Iterator)] + walkEvents + close == [Acquire(Iterator)] + (walkEvents + close);
    TallyCons(Acquire(Iterator), walkEvents + close, true);
    TallyCons(Acquire(Iterator), walkEvents + close, false);
    TallyAppend(walkEvents, close, true);
    TallyAppend(walkEvents, close, false);
    if closed {
      assert close == [Release(Iterator)] + [];
      TallyCons(Release(Iterator), [], true);
      TallyCons(Release(Iterator), [], false);
    } else {
      assert close == [];
    }
  }

  /** Wrapping a balanced walk in the acquisition and release of the
      iterator keeps it balanced. */
  lemma BalanceAroundIterator(a: multiset<Handle>, r: multiset<Handle>, l: multiset<Handle>)
    requires a == r + l
    ensures multiset{Iterator} + a == (r + multiset{Iterator}) + l
  {
    forall h ensures (multiset{Iterator} + a)[h] == ((r + multiset{Iterator}) + l)[h] {
      assert a[h] == r[h] + l[h];
    }
  }

  /** When everything acquired is what was released plus `l`, exactly
      `l` is live and nothing is released unowned. */
  lemma LiveOfBalance(a: multiset<Handle>, r: multiset<Handle>, l: multiset<Handle>)
    requires a == r + l
    ensures a - r == l && r - a == multiset{}
  {
    forall h ensures (a - r)[h] == l[h] {
      assert a[h] == r[h] + l[h];
    }
    forall h ensures (r - a)[h] == 0 {
      assert a[h] == r[h] + l[h];
    }
  }

  /** The whole call, as written, after an early return: the iterator
      stays live. */
  lemma AsWrittenEarlyReturnLeaksIterator(matching: Matching, devices: seq<Device>)
    requires matching.Matched? && GetIostats(AsWritten, matching, devices).result.Err?
    ensures Iterator in Live(GetIostats(AsWritten, matching, devices).events)
  {
    var walk := Walk(AsWritten, devices, 0);
    var events := GetIostats(AsWritten, matching, devices).events;
    assert events == [Acquire(Iterator)] + walk.events + [];
    TallyAroundWalk(walk.events, false);
    WalkNeverTouchesIterator(AsWritten, devices, 0);
    assert Acquired(events)[Iterator] == 1 && Released(events)[Iterator] == 0;
  }

  /** With scoped releases every exit of the call balances: everything
      acquired is released once and nothing else is released. */
  lemma ScopedReleasesEverything(matching: Matching, devices: seq<Device>)
    ensures var w := GetIostats(Scoped, matching, devices);
            Live(w.events) == multiset{} && Unowned(w.events) == multiset{}
  {
    var events := GetIostats(Scoped, matching, devices).events;
    if matching.Matched? {
      var walk := Walk(Scoped, devices, 0);
      assert events == [Acquire(Iterator)] + walk.events + [Release(Iterator)];
      TallyAroundWalk(walk.events, true);
      WalkAccounting(Scoped, devices, 0);
      ScopedSumsEmpty(devices, 0);
      assert Acquired(walk.events) + multiset{} == Released(walk.events) + multiset{};
      BalanceAroundIterator(Acquired(walk.events), Released(walk.events), multiset{});
      LiveOfBalance(Acquired(events), Released(events), multiset{});
    } else {
      assert events == [];
    }
  }

  /** The release discipline changes the handles, never the result. */
  lemma DisciplinesAgree(matching: Matching, devices: seq<Device>)
    ensures GetIostats(AsWritten, matching, devices).result == GetIostats(Scoped, matching, devices).result
  {
    if matching.Matched? {
      WalkResultIgnoresDiscipline(devices, 0);
    }
  }

  /** Both disciplines visit the same devices and decide the same
      outcomes, so their walks return the same result. */
  lemma WalkResultIgnoresDiscipline(devices: seq<Device>, from: nat)
    requires from <= |devices|
    ensures Walk(AsWritten, devices, from).result == Walk(Scoped, devices, from).result
  {
    WalkResult(AsWritten, devices, from);
    WalkResult(Scoped, devices, from);
  }

  /** A conforming device whose parent's properties cannot be created:
      as written, the null `props_dict` is released although it was never
      acquired; scoped releases do not release it. */
  lemma PropsFailureReleasesNull()
    ensures
      var d := Device(true, true, Some(map[BSD_NAME := "disk0"]), None, 5);
      var w := GetIostats(AsWritten, Matched, [d]);
      && w.result == Err(Os(5))
      && NullRef in Unowned(w.events)
      && NullRef !in Unowned(GetIostats(Scoped, Matched, [d]).events)
  {
    var d := Device(true, true, Some(map[BSD_NAME := "disk0"]), None, 5);
    var walk := Walk(AsWritten, [d], 0);
    var events := GetIostats(AsWritten, Matched, [d]).events;
    assert walk.events == VisitTrace(AsWritten, d, 0);
    assert events == [Acquire(Iterator)] + walk.events + [];
    TallyAroundWalk(walk.events, false);
    PropsFailureAccounting(AsWritten, d, 0);
    assert Acquired(events)[NullRef] == 0 && Released(events)[NullRef] == 1;
    ScopedReleasesEverything(Matched, [d]);
  }

  /** A disk whose parent is not a block storage driver yields no record,
      and as written its disk and parent entries stay live. */
  lemma NonConformingDeviceLeaks()
    ensures
      var d := Device(true, false, None, None, 0);
      var w := GetIostats(AsWritten, Matched, [d]);
      && w.result == Ok([])
      && Live(w.events) == multiset{DiskEntry(0), ParentEntry(0)}
  {
    var d := Device(true, false, None, None, 0);
    AsWrittenLeaksSkippedDevices(Matched, [d]);
  }

  /** A walk over one conforming device that does not fail yields its
      record. */
  lemma OneConformingDevice(disc: Discipline, d: Device)
    requires d.conforms && !Fails(d)
    ensures GetIostats(disc, Matched, [d]).result == Ok([RecordOf(d.diskProps.value, d.parentProps.value)])
  {
    assert NoneFails([d], 0);
    assert Records([d], 1) == [];
    assert Records([d], 0) == [RecordOf(d.diskProps.value, d.parentProps.value)] + Records([d], 1);
    var rec := RecordOf(d.diskProps.value, d.parentProps.value);
    assert [rec] + [] == [rec];
    WalkResult(disc, [d], 0);
    var w := Walk(disc, [d], 0);
    assert w.result.Ok? && w.result.value == Records([d], 0);
  }

  /** The properties of a disk "disk0" that has read 4096 bytes and
      written 512. */
  function DiskZero(): Device {
    Device(true, true, Some(map[BSD_NAME := "disk0"]),
           Some(map[STATISTICS := map[BYTES_READ := 4096, BYTES_WRITE := 512]]), 0)
  }

  lemma DiskZeroComplete()
    ensures DiskZero().conforms && !Fails(DiskZero())
    ensures RecordOf(DiskZero().diskProps.value, DiskZero().parentProps.value) == IoStats("disk0", 4096, 512)
  {
    var name: Bytes := "disk0";
    AsciiIsValid(name);
    DeviceNameOfValid(name);
  }

  /** One conforming disk with complete properties gives one record: the
      read counter from "Bytes (Read)", the written one from
      "Bytes (Write)", whatever the order of the lookups' locals. */
  lemma OneDiskRecord()
    ensures GetIostats(AsWritten, Matched, [DiskZero()]).result == Ok([IoStats("disk0", 4096, 512)])
  {
    DiskZeroComplete();
    OneConformingDevice(AsWritten, DiskZero());
  }
}
