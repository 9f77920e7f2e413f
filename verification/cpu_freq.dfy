/** The Linux `/proc/cpuinfo` scanners behind `get_cpufreq`.

    Two copies exist. src/cpu/sys/linux/cpu_freq.rs reads with
    `BufRead::read_line`, which keeps each line's trailing newline, and
    propagates read errors with `?`. The older copy in src/cpu.rs iterates
    `BufRead::lines()`, which strips the line terminator, and `unwrap`s
    every read. Both apply the same length window, key test and value slice
    `[11..len - 1]`, so the slice means something different in each. */
module CpuFreq {
  import opened Base

  /** What one read from the file produced: a line (its bytes as the reader
      returns them, terminator included) or an I/O error. A line that is
      not UTF-8 arrives as an error, as `read_line` reports it. */
  datatype LineRead = Line(text: Bytes) | ReadFailed(error: IoError)

  /** The reading style, i.e. which copy of the scanner. `FixedLines` is
      the src/cpu.rs scanner with its value slice corrected to end at the
      end of the (already stripped) line. */
  datatype Reader = ReadLineLoop | LinesIter | FixedLines

  /** Parsing the value text as an `f64`, left uninterpreted. */
  type Parser = Bytes -> Option<real>

  const KEY: Bytes := "cpu MHz"
  const KEY_LEN: nat := 7
  const MAX_LEN: nat := 48
  const VALUE_START: nat := 11

  const MSG_CPU_FREQ_RS: string := "Couldn't get the cpufreq"
  const MSG_CPU_RS: string := "Couldn't get the avg_cpu_freq"

  /** The panics of `str` slicing, in the order Rust tests for them: an
      index past the end of the text, a range that ends before it starts,
      and an index inside a multi-byte character. Rust's messages go on to
      quote the indices and the line. */
  const OUT_OF_BOUNDS_PANIC: string := "byte index is out of bounds"
  const SLICE_PANIC: string := "begin <= end when slicing"
  const CHAR_BOUNDARY_PANIC: string := "byte index is not a char boundary"

  /** The line as the loop body sees it. `lines()` removes a final "\n"
      and then, only if there was one, a final "\r". */
  function Seen(reader: Reader, line: Bytes): (s: Bytes)
    ensures reader == ReadLineLoop ==> s == line
    ensures |s| <= |line| && s == line[..|s|]
    ensures |line| - 2 <= |s|
    ensures reader != ReadLineLoop && (|line| == 0 || line[|line| - 1] != NEWLINE) ==> s == line
    ensures (reader != ReadLineLoop && |line| > 0 && line[|line| - 1] == NEWLINE &&
             (|line| < 2 || line[|line| - 2] != CR)) ==> s == line[..|line| - 1]
    ensures (reader != ReadLineLoop && |line| >= 2 && line[|line| - 1] == NEWLINE &&
             line[|line| - 2] == CR) ==> s == line[..|line| - 2]
  {
    if reader == ReadLineLoop || |line| == 0 || line[|line| - 1] != NEWLINE then line
    else
      var t := line[..|line| - 1];
      if |t| > 0 && t[|t| - 1] == CR then t[..|t| - 1] else t
  }

  /** Whether byte index `i` of the UTF-8 text `s` starts a character (or
      is its end): the byte there is not a continuation byte 0x80..0xBF. */
  predicate OnCharBoundary(s: Bytes, i: nat) {
    i >= |s| || !(0x80 <= s[i] as int < 0xC0)
  }

  /** The length window of the `if`. */
  predicate InWindow(s: Bytes) {
    KEY_LEN < |s| < MAX_LEN
  }

  /** The length window and the key test of the `if`; the key slice
      `[..7]` must end on a character boundary. */
  predicate IsCandidate(s: Bytes) {
    InWindow(s) && OnCharBoundary(s, KEY_LEN) && s[..KEY_LEN] == KEY
  }

  /** A line the `if` passes over without panicking: outside the window,
      or with a whole-character prefix of 7 bytes other than the key. */
  predicate IsIgnored(s: Bytes) {
    !InWindow(s) || (OnCharBoundary(s, KEY_LEN) && s[..KEY_LEN] != KEY)
  }

  /** The end of the value slice: one byte before the end of the line in
      both copies of the source, the end of the line when corrected. */
  function ValueEnd(reader: Reader, s: Bytes): nat
    requires |s| > 0
  {
    if reader == FixedLines then |s| else |s| - 1
  }

  /** Whether the slice `s[11..end]` is in range; when it is not, Rust
      panics. */
  predicate SliceInRange(reader: Reader, s: Bytes) {
    |s| > 0 && VALUE_START <= ValueEnd(reader, s)
  }

  /** Whether the slice `s[11..end]` is taken without a panic: in range,
      and both ends on character boundaries. */
  predicate ValueSliceable(reader: Reader, s: Bytes) {
    SliceInRange(reader, s) && OnCharBoundary(s, VALUE_START) && OnCharBoundary(s, ValueEnd(reader, s))
  }

  function ValueText(reader: Reader, s: Bytes): Bytes
    requires SliceInRange(reader, s)
  {
    s[VALUE_START..ValueEnd(reader, s)]
  }

  /** What a single read does to the scan: nothing (`Skip`), or it ends the
      call with an outcome. */
  datatype Step = Skip | Stop(outcome: Run<real>)

  /** One pass of the loop body. A read error ends the call (returned by
      the read_line copy, a panic in the `lines()` copies); a line is
      skipped when it is not a candidate or its value does not parse; a
      candidate whose value parses ends the call with that value; every
      failed slice panics. */
  function StepLine(reader: Reader, l: LineRead, parse: Parser): (r: Step)
    ensures l.ReadFailed? ==> r.Stop? && !r.outcome.IsOk()
    ensures l.ReadFailed? ==> (r.outcome.IsErr() <==> reader == ReadLineLoop)
    ensures r == Skip <==>
              l.Line? &&
              (IsIgnored(Seen(reader, l.text)) ||
               (IsCandidate(Seen(reader, l.text)) && ValueSliceable(reader, Seen(reader, l.text)) &&
                parse(ValueText(reader, Seen(reader, l.text))).None?))
    ensures r.Stop? && r.outcome.IsOk() ==>
              && l.Line? && IsCandidate(Seen(reader, l.text)) && ValueSliceable(reader, Seen(reader, l.text))
              && parse(ValueText(reader, Seen(reader, l.text))) == Some(r.outcome.result.value)
    ensures l.Line? && r.Stop? && r.outcome.Panicked? ==>
              InWindow(Seen(reader, l.text)) && !(IsCandidate(Seen(reader, l.text)) && ValueSliceable(reader, Seen(reader, l.text)))
  {
    match l
    case ReadFailed(e) =>
      if reader == ReadLineLoop then Stop(Returned(Err(e))) else Stop(Panicked(UNWRAP_ERR))
    case Line(text) =>
      var s := Seen(reader, text);
      if !InWindow(s) then Skip
      else if !OnCharBoundary(s, KEY_LEN) then Stop(Panicked(CHAR_BOUNDARY_PANIC))
      else if s[..KEY_LEN] != KEY then Skip
      else if |s| < VALUE_START then Stop(Panicked(OUT_OF_BOUNDS_PANIC))
      else if !SliceInRange(reader, s) then Stop(Panicked(SLICE_PANIC))
      else if !OnCharBoundary(s, VALUE_START) || !OnCharBoundary(s, ValueEnd(reader, s)) then Stop(Panicked(CHAR_BOUNDARY_PANIC))
      else
        match parse(ValueText(reader, s))
        case Some(v) => Stop(Returned(Ok(v)))
        case None => Skip
  }

  /** The error when the input ends without a parsed value. */
  function NoMatch(reader: Reader): Run<real> {
    Returned(Err(Custom(Other, if reader == ReadLineLoop then MSG_CPU_FREQ_RS else MSG_CPU_RS)))
  }

  /** The scanning loop over the lines that follow a successful open. Its
      outcome is that of the first line that stops the scan; when no line
      does, it is the "not found" error. */
  function Scan(reader: Reader, lines: seq<LineRead>, parse: Parser): (r: Run<real>)
    ensures (forall j :: 0 <= j < |lines| ==> StepLine(reader, lines[j], parse) == Skip) ==> r == NoMatch(reader)
    ensures (exists j :: 0 <= j < |lines| && StepLine(reader, lines[j], parse).Stop?) ==>
            exists k :: 0 <= k < |lines| && StepLine(reader, lines[k], parse) == Stop(r) &&
                        forall j :: 0 <= j < k ==> StepLine(reader, lines[j], parse) == Skip
  {
    if |lines| == 0 then NoMatch(reader)
    else
      match StepLine(reader, lines[0], parse)
      case Stop(o) => o
      case Skip =>
        var r := Scan(reader, lines[1..], parse);
        ScanShift(reader, lines, parse, r);
        r
  }

  /** The step of `Scan`'s proof: a skipped first line moves the first
      stopping line of the rest one place to the right. */
  lemma ScanShift(reader: Reader, lines: seq<LineRead>, parse: Parser, r: Run<real>)
    requires |lines| > 0 && StepLine(reader, lines[0], parse) == Skip
    requires (forall j :: 0 <= j < |lines[1..]| ==> StepLine(reader, lines[1..][j], parse) == Skip) ==> r == NoMatch(reader)
    requires (exists j :: 0 <= j < |lines[1..]| && StepLine(reader, lines[1..][j], parse).Stop?) ==>
             exists k :: 0 <= k < |lines[1..]| && StepLine(reader, lines[1..][k], parse) == Stop(r) &&
                         forall j :: 0 <= j < k ==> StepLine(reader, lines[1..][j], parse) == Skip
    ensures (forall j :: 0 <= j < |lines| ==> StepLine(reader, lines[j], parse) == Skip) ==> r == NoMatch(reader)
    ensures (exists j :: 0 <= j < |lines| && StepLine(reader, lines[j], parse).Stop?) ==>
            exists k :: 0 <= k < |lines| && StepLine(reader, lines[k], parse) == Stop(r) &&
                        forall j :: 0 <= j < k ==> StepLine(reader, lines[j], parse) == Skip
  {
    var tail := lines[1..];
    assert forall j :: 0 <= j < |tail| ==> tail[j] == lines[j + 1];
    if exists j :: 0 <= j < |lines| && StepLine(reader, lines[j], parse).Stop? {
      var j :| 0 <= j < |lines| && StepLine(reader, lines[j], parse).Stop?;
      assert StepLine(reader, tail[j - 1], parse).Stop?;
      var k :| 0 <= k < |tail| && StepLine(reader, tail[k], parse) == Stop(r) &&
               forall i :: 0 <= i < k ==> StepLine(reader, tail[i], parse) == Skip;
      assert StepLine(reader, lines[k + 1], parse) == Stop(r);
      assert forall i :: 0 <= i < k + 1 ==> StepLine(reader, lines[i], parse) == Skip by {
        forall i | 0 <= i < k + 1 ensures StepLine(reader, lines[i], parse) == Skip {
          if i > 0 { assert lines[i] == tail[i - 1]; }
        }
      }
    }
  }

  /** `get_cpufreq`: an error opening the file is returned as is; otherwise
      the lines are scanned. */
  function GetCpufreq(reader: Reader, openError: Option<IoError>, lines: seq<LineRead>, parse: Parser): (r: Run<real>)
    ensures openError.Some? ==> r == Returned(Err(openError.value))
    ensures openError.None? ==> r == Scan(reader, lines, parse)
  {
    if openError.Some? then Returned(Err(openError.value)) else Scan(reader, lines, parse)
  }

  /** The first candidate whose value text parses decides the result, given
      that every earlier read was skipped. */
  lemma {:induction false} FirstParsedValueWins(reader: Reader, lines: seq<LineRead>, parse: Parser, k: nat, v: real)
    requires k < |lines| && lines[k].Line?
    requires forall j :: 0 <= j < k ==> StepLine(reader, lines[j], parse) == Skip
    requires IsCandidate(Seen(reader, lines[k].text)) && ValueSliceable(reader, Seen(reader, lines[k].text))
    requires parse(ValueText(reader, Seen(reader, lines[k].text))) == Some(v)
    ensures Scan(reader, lines, parse) == Returned(Ok(v))
  {
    if k > 0 {
      assert StepLine(reader, lines[0], parse) == Skip;
      FirstParsedValueWins(reader, lines[1..], parse, k - 1, v);
    }
  }

  /** No line after the one that stops the scan affects the result. */
  lemma {:induction false} LaterLinesIgnored(reader: Reader, lines: seq<LineRead>, rest: seq<LineRead>, parse: Parser, k: nat)
    requires k < |lines| && StepLine(reader, lines[k], parse).Stop?
    requires forall j :: 0 <= j < k ==> StepLine(reader, lines[j], parse) == Skip
    ensures Scan(reader, lines[..k + 1] + rest, parse) == Scan(reader, lines, parse)
    ensures Scan(reader, lines, parse) == StepLine(reader, lines[k], parse).outcome
  {
    if k > 0 {
      assert StepLine(reader, lines[0], parse) == Skip;
      assert (lines[..k + 1] + rest)[1..] == lines[1..][..k] + rest;
      LaterLinesIgnored(reader, lines[1..], rest, parse, k - 1);
    }
  }

  /** A read that is skipped can be removed without changing the outcome:
      neither a line that is not a candidate nor a candidate whose value
      does not parse affects the result. */
  lemma {:induction false} SkippedLineIsNeutral(reader: Reader, before: seq<LineRead>, l: LineRead, after: seq<LineRead>, parse: Parser)
    requires StepLine(reader, l, parse) == Skip
    ensures Scan(reader, before + [l] + after, parse) == Scan(reader, before + after, parse)
  {
    if |before| == 0 {
      assert (before + [l] + after)[1..] == before + after;
    } else {
      assert (before + [l] + after)[0] == (before + after)[0] == before[0];
      assert (before + [l] + after)[1..] == before[1..] + [l] + after;
      assert (before + after)[1..] == before[1..] + after;
      SkippedLineIsNeutral(reader, before[1..], l, after, parse);
    }
  }

  /** Which lines are skipped: every line outside the window or without
      the key, and every candidate whose value text fails to parse; a line
      in the window whose eighth byte continues a character panics. */
  lemma SkipCases(reader: Reader, text: Bytes, parse: Parser)
    ensures IsIgnored(Seen(reader, text)) ==> StepLine(reader, Line(text), parse) == Skip
    ensures (IsCandidate(Seen(reader, text)) && ValueSliceable(reader, Seen(reader, text)) &&
             parse(ValueText(reader, Seen(reader, text))) == None) ==> StepLine(reader, Line(text), parse) == Skip
    ensures InWindow(Seen(reader, text)) && !OnCharBoundary(Seen(reader, text), KEY_LEN) ==>
              StepLine(reader, Line(text), parse) == Stop(Panicked(CHAR_BOUNDARY_PANIC))
  {
  }

  /** A candidate too short for the slice makes the call panic. With the
      newline kept, that is a candidate of length 8 to 11: below 11 bytes
      the start index lies past the end, at 11 bytes the range ends before
      it starts. */
  lemma ShortCandidatePanics(text: Bytes, parse: Parser)
    requires IsCandidate(text) && |text| < 12
    ensures |text| < VALUE_START ==> StepLine(ReadLineLoop, Line(text), parse) == Stop(Panicked(OUT_OF_BOUNDS_PANIC))
    ensures |text| == VALUE_START ==> StepLine(ReadLineLoop, Line(text), parse) == Stop(Panicked(SLICE_PANIC))
  {
  }

  /** A read error stops the scan: `?` returns it from src/cpu/sys/linux/cpu_freq.rs,
      `unwrap` panics in src/cpu.rs. */
  lemma ReadErrorStops(e: IoError, parse: Parser)
    ensures StepLine(ReadLineLoop, ReadFailed(e), parse) == Stop(Returned(Err(e)))
    ensures StepLine(LinesIter, ReadFailed(e), parse) == Stop(Panicked(UNWRAP_ERR))
  {
  }

  /** A file with no usable line yields the "not found" error of each copy. */
  lemma NoCandidateNotFound(reader: Reader, lines: seq<LineRead>, parse: Parser)
    requires forall j :: 0 <= j < |lines| ==> lines[j].Line? && IsIgnored(Seen(reader, lines[j].text))
    ensures reader == ReadLineLoop ==> Scan(reader, lines, parse) == Returned(Err(Custom(Other, MSG_CPU_FREQ_RS)))
    ensures reader != ReadLineLoop ==> Scan(reader, lines, parse) == Returned(Err(Custom(Other, MSG_CPU_RS)))
  {
    forall j | 0 <= j < |lines|
      ensures StepLine(reader, lines[j], parse) == Skip
    {
      SkipCases(reader, lines[j].text, parse);
    }
  }

  /** For a newline-terminated line, the read_line scanner's value is the
      text between the key's separator and the newline, whereas the
      `lines()` scanner's value loses the last byte of that text. */
  lemma StrippedSliceDropsLastByte(t: Bytes)
    requires |t| >= 13 && t[|t| - 1] != CR
    ensures ValueText(ReadLineLoop, Seen(ReadLineLoop, t + [NEWLINE])) == t[VALUE_START..]
    ensures ValueText(LinesIter, Seen(LinesIter, t + [NEWLINE])) == t[VALUE_START..|t| - 1]
    ensures ValueText(FixedLines, Seen(FixedLines, t + [NEWLINE])) == t[VALUE_START..]
  {
    assert (t + [NEWLINE])[..|t|] == t;
  }

  /** A typical /proc/cpuinfo line: src/cpu/sys/linux/cpu_freq.rs hands
      "2400.123" to the parser, src/cpu.rs hands "2400.12". */
  lemma CpuinfoExample()
    ensures ValueText(ReadLineLoop, Seen(ReadLineLoop, "cpu MHz\t\t: 2400.123\n")) == "2400.123"
    ensures ValueText(LinesIter, Seen(LinesIter, "cpu MHz\t\t: 2400.123\n")) == "2400.12"
    ensures ValueText(FixedLines, Seen(FixedLines, "cpu MHz\t\t: 2400.123\n")) == "2400.123"
  {
    var line: Bytes := "cpu MHz\t\t: 2400.123\n";
    var t: Bytes := "cpu MHz\t\t: 2400.123";
    assert line == t + [NEWLINE];
    assert |t| == 19 && t[18] == '3';
    StrippedSliceDropsLastByte(t);
    assert t[VALUE_START..] == "2400.123";
    assert t[VALUE_START..|t| - 1] == "2400.12";
  }

  /** A value ending in a two-byte character ("2400µ", µ being 0xC2 0xB5):
      the `lines()` scanner's slice ends inside that character and panics,
      while the read_line scanner and the corrected one hand the text to
      the parser. */
  lemma MultibyteLastCharPanicsLines(parse: Parser)
    ensures
      var line: Bytes := "cpu MHz\t\t: 2400" + ['\U{C2}', '\U{B5}'] + "\n";
      && StepLine(LinesIter, Line(line), parse) == Stop(Panicked(CHAR_BOUNDARY_PANIC))
      && ValueSliceable(ReadLineLoop, Seen(ReadLineLoop, line))
      && ValueSliceable(FixedLines, Seen(FixedLines, line))
  {
    var t: Bytes := "cpu MHz\t\t: 2400" + ['\U{C2}', '\U{B5}'];
    var line: Bytes := "cpu MHz\t\t: 2400" + ['\U{C2}', '\U{B5}'] + "\n";
    assert line == t + [NEWLINE] && |t| == 17;
    assert line[..|line| - 1] == t;
    assert Seen(LinesIter, line) == t;
    assert t[..KEY_LEN] == KEY;
    assert !OnCharBoundary(t, ValueEnd(LinesIter, t));
  }

  /** The corrected `lines()` scanner acts like the read_line scanner on
      every "\n"-terminated candidate of 12 to 47 bytes with no "\r"
      before the newline. At the two ends of the window they part ways:
      see `BareKeyLineDiffers` and `FullWidthCandidateDiffers`. */
  lemma FixedLinesAgreesWithReadLine(t: Bytes, parse: Parser)
    requires NEWLINE !in t && (|t| == 0 || t[|t| - 1] != CR)
    requires IsCandidate(t + [NEWLINE]) && |t| >= VALUE_START
    ensures IsCandidate(Seen(FixedLines, t + [NEWLINE]))
    ensures StepLine(FixedLines, Line(t + [NEWLINE]), parse) == StepLine(ReadLineLoop, Line(t + [NEWLINE]), parse)
  {
    var line := t + [NEWLINE];
    assert line[..|t|] == t;
    assert Seen(FixedLines, line) == t;
    assert t[..KEY_LEN] == line[..KEY_LEN];
    assert line[VALUE_START..|t|] == t[VALUE_START..];
    assert ValueText(FixedLines, t) == ValueText(ReadLineLoop, line);
  }

  /** The bare key line "cpu MHz\n" is a candidate for the read_line
      scanner, whose value slice then starts past the end and panics; the
      corrected scanner measures 7 bytes, outside the window, and passes
      over it. */
  lemma BareKeyLineDiffers(parse: Parser)
    ensures StepLine(ReadLineLoop, Line(KEY + [NEWLINE]), parse) == Stop(Panicked(OUT_OF_BOUNDS_PANIC))
    ensures StepLine(FixedLines, Line(KEY + [NEWLINE]), parse) == Skip
  {
    var line := KEY + [NEWLINE];
    assert line[..KEY_LEN] == KEY;
    assert line[..|line| - 1] == KEY;
  }

  /** A 47-byte candidate followed by "\n" is 48 bytes long to the
      read_line scanner, outside the window, and is passed over; the
      corrected scanner sees the 47 bytes and returns their value. */
  lemma FullWidthCandidateDiffers(t: Bytes, parse: Parser, v: real)
    requires |t| == MAX_LEN - 1 && t[..KEY_LEN] == KEY && t[|t| - 1] != CR
    requires OnCharBoundary(t, KEY_LEN) && OnCharBoundary(t, VALUE_START)
    requires parse(t[VALUE_START..]) == Some(v)
    ensures StepLine(ReadLineLoop, Line(t + [NEWLINE]), parse) == Skip
    ensures StepLine(FixedLines, Line(t + [NEWLINE]), parse) == Stop(Returned(Ok(v)))
  {
    var line := t + [NEWLINE];
    assert line[..|line| - 1] == t;
    assert Seen(FixedLines, line) == t;
    assert ValueText(FixedLines, t) == t[VALUE_START..];
  }
}
