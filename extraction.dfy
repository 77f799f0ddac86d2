/** The extraction loop of the entry point (Program.cs lines 134-289): entries
    in ascending offset order, each translated to a part and an offset in it,
    the one open part switched when the part changes, a name resolved or
    synthesised, the selection, the locale prefix and the filter applied, a
    manifest record written, and the payload copied unless the destination
    exists and overwriting is off. The file system is a map from path to
    contents; copy failures come from `faults`, keyed by the loop counter. */
module Extraction {
  import opened Types
  import Hex
  import DotNetPath
  import CommandLine
  import BlockLayout
  import Naming
  import Manifest
  import EntryOrder

  /** One row of the archive's entry table. */
  datatype Entry = Entry(nameHash: uint32, locale: uint32, size: uint32, offset: uint32)

  function Offsets(es: seq<Entry>): seq<int> {
    seq(|es|, i requires 0 <= i < |es| => es[i].offset as int)
  }

  /** Line 142: the entries by ascending offset, ties in table order; every
      entry is visited exactly once. */
  function VisitingOrder(es: seq<Entry>): (r: seq<Entry>)
    ensures |r| == |es| && multiset(r) == multiset(es)
    ensures forall i, j :: 0 <= i < j < |r| ==> r[i].offset <= r[j].offset
    ensures r == EntryOrder.Arrange(es, EntryOrder.StableOrder(Offsets(es)))
  {
    var keys := Offsets(es);
    var order := EntryOrder.StableOrder(keys);
    EntryOrder.SortArrange(keys, es, |es|);
    assert es[..|es|] == es;
    var r := EntryOrder.Arrange(es, order);
    assert forall a, b :: 0 <= a < b < |r| ==> EntryOrder.Precedes(keys, order[a], order[b]);
    r
  }

  /** Any arrangement of the table that lists every position once, by
      offset and with equal offsets in table order, is the visiting order. */
  lemma VisitingOrderIsStableSort(es: seq<Entry>, order: seq<nat>)
    requires EntryOrder.InOrder(Offsets(es), order)
    requires forall x :: x in order <==> 0 <= x < |es|
    ensures VisitingOrder(es) == EntryOrder.Arrange(es, order)
  {
    var keys := Offsets(es);
    EntryOrder.InOrderUnique(keys, order, EntryOrder.StableOrder(keys));
  }

  /** How the write of one destination fails: `File.Create` throws, or the
      copy throws after `written` bytes reached the file. */
  datatype CopyFault = CreateFails | FailsAfter(written: nat)

  /** What the loop reads and never changes. `filter` is the compiled
      pattern, `None` when no pattern was given; `detect` stands for
      `FileExtensions.Detect`; `parts` holds the part files that exist. */
  datatype Context = Context(
    inputPath: string,
    outputPath: string,
    selection: CommandLine.UnknownSelection,
    overwrite: bool,
    filter: Option<string -> bool>,
    alignment: uint32,
    names: map<uint32, string>,
    detect: seq<byte> -> string,
    parts: map<string, seq<byte>>,
    faults: map<nat, CopyFault>)

  /** The stream `data`: no part, or one open part and its contents. */
  datatype PartStream = NoPart | OpenPart(part: nat, bytes: seq<byte>)

  datatype PartEvent = Opened(part: nat) | Closed(part: nat)

  /** `DivideByZero` and `MissingPart` are the exceptions that end the run. */
  datatype Status = NoError | DivideByZero | MissingPart(path: string)

  datatype LoopState = LoopState(
    data: PartStream,
    currentBigFile: Option<nat>,
    lastLocale: Option<uint32>,
    manifest: seq<Manifest.Item>,
    disk: map<string, seq<byte>>,
    events: seq<PartEvent>,
    failures: seq<string>)

  datatype Run = Run(status: Status, state: LoopState)

  function Initial(disk: map<string, seq<byte>>): LoopState {
    LoopState(NoPart, None, None, [], disk, [], [])
  }

  /** `Seek(offset)` then `Read` of up to `n` bytes, which stops at the end. */
  function ReadAt(bytes: seq<byte>, offset: nat, n: nat): (r: seq<byte>)
    ensures |r| <= n
    ensures offset + n <= |bytes| ==> r == bytes[offset..offset + n]
    ensures |r| == n <==> offset + n <= |bytes| || n == 0
    ensures offset <= |bytes| ==> r == bytes[offset..Min(offset + n, |bytes|)]
    ensures offset > |bytes| ==> r == []
  {
    var lo := Min(offset, |bytes|);
    bytes[lo..Min(offset + n, |bytes|)]
  }

  function CurrentBytes(data: PartStream): seq<byte> {
    match data
    case OpenPart(_, b) => b
    case NoPart => []
  }

  /** Lines 183-194: the bytes handed to the type detector. */
  function Sniff(bytes: seq<byte>, byteOffset: nat, size: uint32): (r: seq<byte>)
    ensures |r| <= 64 && |r| <= size
    ensures size > 0 && byteOffset <= |bytes| ==> r == bytes[byteOffset..Min(byteOffset + Min(size, 64), |bytes|)]
    ensures size == 0 || byteOffset > |bytes| ==> r == []
  {
    if size > 0 then ReadAt(bytes, byteOffset, Min(size, 64)) else []
  }

  predicate PassesFilter(filter: Option<string -> bool>, name: string) {
    filter.None? || filter.value(name)
  }

  /** Lines 171-232: the composed name of an entry whose payload starts at
      `byteOffset` in `bytes`, or `None` when the selection or the filter
      skips it. */
  function EntryName(ctx: Context, e: Entry, bytes: seq<byte>, byteOffset: nat): Option<string> {
    match Resolved(ctx, e, bytes, byteOffset)
    case None => None
    case Some(name) => if PassesFilter(ctx.filter, name) then Some(name) else None
  }

  /** Lines 171-226: the name before the filter. */
  function Resolved(ctx: Context, e: Entry, bytes: seq<byte>, byteOffset: nat): Option<string> {
    var known := if e.nameHash in ctx.names then Some(ctx.names[e.nameHash]) else None;
    var sniffed := if known.None? then ctx.detect(Sniff(bytes, byteOffset, e.size)) else "";
    Naming.SelectedName(known, ctx.selection, e.nameHash, e.locale, sniffed)
  }

  /** Lines 146-169: close the open part and open the entry's part when it
      differs from the current one. */
  function SwitchPart(ctx: Context, st: LoopState, part: nat): Run {
    if st.currentBigFile == Some(part) then Run(NoError, st)
    else
      var closed := match st.data
        case OpenPart(p, _) => st.(data := NoPart, events := st.events + [Closed(p)])
        case NoPart => st;
      var path := BlockLayout.PartPath(ctx.inputPath, part);
      var st1 := closed.(currentBigFile := Some(part));
      if path !in ctx.parts then Run(MissingPart(path), st1)
      else Run(NoError, st1.(data := OpenPart(part, ctx.parts[path]), events := st1.events + [Opened(part)]))
  }

  /** Lines 237-250: a comment when the locale differs from the last
      record's, then the record. */
  function Emit(st: LoopState, e: Entry, name: string): (r: LoopState)
    ensures r.(manifest := st.manifest, lastLocale := st.lastLocale) == st
  {
    var st1 :=
      if st.lastLocale != Some(e.locale) then
        st.(manifest := st.manifest + [Manifest.LocaleComment(Hex.X8(e.locale))], lastLocale := Some(e.locale))
      else st;
    st1.(manifest := st1.manifest + [Manifest.RecordOf(Manifest.Planned(e.nameHash, e.locale, name))])
  }

  /** The bytes a complete copy writes: the entry's `size` bytes, or what
      is left of the part when it ends first. */
  function Payload(bytes: seq<byte>, byteOffset: nat, size: uint32): (r: seq<byte>)
    ensures |r| <= size
    ensures byteOffset + size <= |bytes| ==> r == bytes[byteOffset..byteOffset + size]
    ensures |r| == size <==> size == 0 || byteOffset + size <= |bytes|
    ensures size > 0 && byteOffset <= |bytes| ==> r == bytes[byteOffset..Min(byteOffset + size, |bytes|)]
    ensures size == 0 || byteOffset > |bytes| ==> r == []
  {
    if size > 0 then ReadAt(bytes, byteOffset, size) else []
  }

  /** The output disk and the destinations reported as failed so far. */
  datatype Files = Files(disk: map<string, seq<byte>>, failures: seq<string>)

  function FilesOf(st: LoopState): Files {
    Files(st.disk, st.failures)
  }

  /** Lines 266-282 on the files alone: the `current`-th entry creates `path`
      and copies `payload`, which should be `size` bytes long; a failure is
      recorded and the loop goes on. */
  function Copy(faults: map<nat, CopyFault>, f: Files, current: nat, path: string,
                payload: seq<byte>, size: nat): Files
  {
    if current in faults then
      match faults[current]
      case CreateFails => f.(failures := f.failures + [path])
      case FailsAfter(w) => Files(f.disk[path := payload[..Min(w, |payload|)]], f.failures + [path])
    else if |payload| == size then f.(disk := f.disk[path := payload])
    else Files(f.disk[path := payload], f.failures + [path])
  }

  /** The copy of lines 266-282 in the loop's state. */
  function Store(ctx: Context, st: LoopState, current: nat, path: string,
                 bytes: seq<byte>, byteOffset: nat, size: uint32): (r: LoopState)
    ensures r.(disk := st.disk, failures := st.failures) == st
  {
    var f := Copy(ctx.faults, FilesOf(st), current, path, Payload(bytes, byteOffset, size), size);
    st.(disk := f.disk, failures := f.failures)
  }

  /** One iteration of the loop for the `current`-th entry `e`. */
  function Step(ctx: Context, st: LoopState, current: nat, e: Entry): Run {
    match BlockLayout.Translate(e.offset, ctx.alignment)
    case None => Run(DivideByZero, st)
    case Some(addr) =>
      var sw := SwitchPart(ctx, st, addr.part);
      if sw.status != NoError then sw
      else
        var bytes := CurrentBytes(sw.state.data);
        match EntryName(ctx, e, bytes, addr.byteOffset)
        case None => sw
        case Some(name) =>
          var path := DotNetPath.Combine(ctx.outputPath, name);
          var st2 := Emit(sw.state, e, name);
          if !ctx.overwrite && path in st2.disk then Run(NoError, st2)
          else Run(NoError, Store(ctx, st2, current, path, bytes, addr.byteOffset, e.size))
  }

  /** The loop over `es`, stopping at the first exception. */
  function RunPrefix(ctx: Context, es: seq<Entry>, disk: map<string, seq<byte>>): Run {
    if es == [] then Run(NoError, Initial(disk))
    else
      var prev := RunPrefix(ctx, es[..|es| - 1], disk);
      if prev.status != NoError then prev else Step(ctx, prev.state, |es|, es[|es| - 1])
  }

  /** Lines 286-289: after a complete loop the open part is closed. */
  function CloseAtEnd(st: LoopState): LoopState {
    match st.data
    case OpenPart(p, _) => st.(data := NoPart, events := st.events + [Closed(p)])
    case NoPart => st
  }

  /** The whole extraction of the entries `es`, in the order given. */
  function Extract(ctx: Context, es: seq<Entry>, disk: map<string, seq<byte>>): Run {
    var r := RunPrefix(ctx, es, disk);
    if r.status == NoError then Run(NoError, CloseAtEnd(r.state)) else r
  }

  /** Once an exception is raised, later entries change nothing. */
  lemma {:induction false} AbortPersists(ctx: Context, es: seq<Entry>, k: nat, disk: map<string, seq<byte>>)
    requires k <= |es| && RunPrefix(ctx, es[..k], disk).status != NoError
    ensures RunPrefix(ctx, es, disk) == RunPrefix(ctx, es[..k], disk)
    decreases |es| - k
  {
    if k < |es| {
      assert es[..k + 1][..k] == es[..k];
      AbortPersists(ctx, es, k + 1, disk);
    } else {
      assert es[..k] == es;
    }
  }

  /** `Step` of an entry whose part is open and that the selection or the
      filter skips. */
  lemma StepSkipped(ctx: Context, st: LoopState, current: nat, e: Entry, addr: BlockLayout.Address)
    requires BlockLayout.Translate(e.offset, ctx.alignment) == Some(addr)
    requires SwitchPart(ctx, st, addr.part).status == NoError
    requires EntryName(ctx, e, CurrentBytes(SwitchPart(ctx, st, addr.part).state.data), addr.byteOffset).None?
    ensures Step(ctx, st, current, e) == SwitchPart(ctx, st, addr.part)
  {
  }

  /** `Step` of a named entry whose destination is kept. */
  lemma StepKept(ctx: Context, st: LoopState, current: nat, e: Entry, addr: BlockLayout.Address, name: string)
    requires BlockLayout.Translate(e.offset, ctx.alignment) == Some(addr)
    requires SwitchPart(ctx, st, addr.part).status == NoError
    requires EntryName(ctx, e, CurrentBytes(SwitchPart(ctx, st, addr.part).state.data), addr.byteOffset) == Some(name)
    requires !ctx.overwrite && DotNetPath.Combine(ctx.outputPath, name) in st.disk
    ensures Step(ctx, st, current, e) == Run(NoError, Emit(SwitchPart(ctx, st, addr.part).state, e, name))
  {
  }

  /** `Step` of a named entry whose payload is copied. */
  lemma StepStored(ctx: Context, st: LoopState, current: nat, e: Entry, addr: BlockLayout.Address, name: string)
    requires BlockLayout.Translate(e.offset, ctx.alignment) == Some(addr)
    requires SwitchPart(ctx, st, addr.part).status == NoError
    requires EntryName(ctx, e, CurrentBytes(SwitchPart(ctx, st, addr.part).state.data), addr.byteOffset) == Some(name)
    requires ctx.overwrite || DotNetPath.Combine(ctx.outputPath, name) !in st.disk
    ensures
      var sw := SwitchPart(ctx, st, addr.part).state;
      Step(ctx, st, current, e) ==
        Run(NoError, Store(ctx, Emit(sw, e, name), current, DotNetPath.Combine(ctx.outputPath, name),
                           CurrentBytes(sw.data), addr.byteOffset, e.size))
  {
  }

  /** The filter decides once the name is resolved. */
  lemma EntryNameFiltered(ctx: Context, e: Entry, bytes: seq<byte>, byteOffset: nat, name: string)
    requires Resolved(ctx, e, bytes, byteOffset) == Some(name)
    ensures EntryName(ctx, e, bytes, byteOffset) == if PassesFilter(ctx.filter, name) then Some(name) else None
  {
  }

  /** Lines 171-226 as the program runs them. */
  method ResolveName(ctx: Context, entry: Entry, bytes: seq<byte>, entryOffset: nat) returns (r: Option<string>)
    ensures r == Resolved(ctx, entry, bytes, entryOffset)
  {
    var name: string;
    if entry.nameHash !in ctx.names {
      if ctx.selection == CommandLine.KnownOnly {
        return None;
      }
      var extension := ctx.detect(Sniff(bytes, entryOffset, entry.size));
      name := Naming.UnknownName(entry.nameHash, extension);
    } else {
      if ctx.selection == CommandLine.UnknownOnly {
        return None;
      }
      name := Naming.NormalizeKnownName(ctx.names[entry.nameHash]);
    }
    r := Some(Naming.WithLocale(entry.locale, name));
  }

  /** Lines 266-282 as the program runs them. */
  method CopyEntry(ctx: Context, st: LoopState, current: nat, entryPath: string,
                   bytes: seq<byte>, entryOffset: nat, size: uint32) returns (r: LoopState)
    ensures r == Store(ctx, st, current, entryPath, bytes, entryOffset, size)
  {
    var disk, failures := st.disk, st.failures;
    var payload := Payload(bytes, entryOffset, size);
    if current in ctx.faults {
      match ctx.faults[current] {
        case CreateFails =>
          failures := failures + [entryPath];
        case FailsAfter(w) =>
          disk := disk[entryPath := payload[..Min(w, |payload|)]];
          failures := failures + [entryPath];
      }
    } else {
      disk := disk[entryPath := payload];
      if |payload| != size {
        failures := failures + [entryPath];
      }
    }
    r := st.(disk := disk, failures := failures);
  }

  /** Lines 149-169 as the program runs them. */
  method OpenPartFor(ctx: Context, st: LoopState, entryBigFile: nat) returns (r: Run)
    ensures r == SwitchPart(ctx, st, entryBigFile)
  {
    var data, currentBigFile, events := st.data, st.currentBigFile, st.events;
    if currentBigFile != Some(entryBigFile) {
      if data.OpenPart? {
        events := events + [Closed(data.part)];
        data := NoPart;
      }
      ghost var closed := st.(data := data, events := events);
      assert closed == match st.data
        case OpenPart(p, _) => st.(data := NoPart, events := st.events + [Closed(p)])
        case NoPart => st;
      currentBigFile := Some(entryBigFile);
      var bigPath := BlockLayout.PartPath(ctx.inputPath, entryBigFile);
      if bigPath !in ctx.parts {
        return Run(MissingPart(bigPath), st.(data := data, currentBigFile := currentBigFile, events := events));
      }
      data := OpenPart(entryBigFile, ctx.parts[bigPath]);
      events := events + [Opened(entryBigFile)];
    }
    r := Run(NoError, st.(data := data, currentBigFile := currentBigFile, events := events));
  }

  /** Lines 237-250 as the program runs them. */
  method WriteRecord(st: LoopState, entry: Entry, name: string) returns (r: LoopState)
    ensures r == Emit(st, entry, name)
  {
    var manifest, lastLocale := st.manifest, st.lastLocale;
    if lastLocale != Some(entry.locale) {
      manifest := manifest + [Manifest.LocaleComment(Hex.X8(entry.locale))];
      lastLocale := Some(entry.locale);
    }
    manifest := manifest + [Manifest.RecordOf(Manifest.Planned(entry.nameHash, entry.locale, name))];
    r := st.(manifest := manifest, lastLocale := lastLocale);
  }

  /** One pass of the loop body as the program runs it: `current` is
      already incremented. */
  method VisitEntry(ctx: Context, maxBlocksPerFile: nat, st: LoopState, current: nat, entry: Entry) returns (r: Run)
    requires maxBlocksPerFile == ctx.alignment / 2048
    ensures r == Step(ctx, st, current, entry)
  {
    if maxBlocksPerFile == 0 {
      return Run(DivideByZero, st);
    }
    var entryBigFile := entry.offset / maxBlocksPerFile;
    var entryOffset := (entry.offset % maxBlocksPerFile) * 2048;
    var addr := BlockLayout.Address(entryBigFile, entryOffset);
    assert BlockLayout.Translate(entry.offset, ctx.alignment) == Some(addr);
    var switched := OpenPartFor(ctx, st, entryBigFile);
    if switched.status != NoError {
      return switched;
    }
    var bytes := CurrentBytes(switched.state.data);
    var resolved := ResolveName(ctx, entry, bytes, entryOffset);
    if resolved.None? {
      StepSkipped(ctx, st, current, entry, addr);
      return switched;
    }
    var name := resolved.value;
    EntryNameFiltered(ctx, entry, bytes, entryOffset, name);
    if ctx.filter.Some? && !ctx.filter.value(name) {
      StepSkipped(ctx, st, current, entry, addr);
      return switched;
    }
    var entryPath := DotNetPath.Combine(ctx.outputPath, name);
    var emitted := WriteRecord(switched.state, entry, name);
    if !ctx.overwrite && entryPath in emitted.disk {
      StepKept(ctx, st, current, entry, addr, name);
      return Run(NoError, emitted);
    }
    StepStored(ctx, st, current, entry, addr, name);
    var stored := CopyEntry(ctx, emitted, current, entryPath, bytes, entryOffset, entry.size);
    r := Run(NoError, stored);
  }

  /** The loop as the program runs it. */
  method ExtractEntries(ctx: Context, entries: seq<Entry>, disk0: map<string, seq<byte>>) returns (r: Run)
    ensures r == Extract(ctx, entries, disk0)
  {
    var st := Initial(disk0);
    var maxBlocksPerFile := ctx.alignment / 2048;
    var current := 0;
    while current < |entries|
      invariant 0 <= current <= |entries|
      invariant RunPrefix(ctx, entries[..current], disk0) == Run(NoError, st)
    {
      var entry := entries[current];
      current := current + 1;
      assert entries[..current][..current - 1] == entries[..current - 1];
      var step := VisitEntry(ctx, maxBlocksPerFile, st, current, entry);
      if step.status != NoError {
        AbortPersists(ctx, entries, current, disk0);
        return step;
      }
      st := step.state;
    }
    assert entries[..current] == entries;
    if st.data.OpenPart? {
      st := st.(data := NoPart, events := st.events + [Closed(st.data.part)]);
    }
    r := Run(NoError, st);
  }
}
