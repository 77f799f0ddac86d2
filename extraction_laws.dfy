/** What the extraction loop guarantees, stated over the archive and the
    options rather than over the loop's variables: which parts are opened and
    in what order, which manifest is written, which files change, which
    exceptions end the run, and that copy failures change nothing but files. */
module ExtractionLaws {
  import opened Types
  import opened Extraction
  import BlockLayout
  import DotNetPath
  import CommandLine
  import Naming
  import Manifest
  import Hex

  /** The contents of part file `part`, empty when it does not exist. */
  function PartBytes(ctx: Context, part: nat): seq<byte> {
    var path := BlockLayout.PartPath(ctx.inputPath, part);
    if path in ctx.parts then ctx.parts[path] else []
  }

  /** The entry's part exists. */
  predicate PartPresent(ctx: Context, e: Entry) {
    match BlockLayout.Translate(e.offset, ctx.alignment)
    case None => false
    case Some(a) => BlockLayout.PartPath(ctx.inputPath, a.part) in ctx.parts
  }

  /** The name under which an entry is extracted, or `None` when it is
      skipped, read off the archive alone. */
  function Decide(ctx: Context, e: Entry): Option<string> {
    match BlockLayout.Translate(e.offset, ctx.alignment)
    case None => None
    case Some(a) => EntryName(ctx, e, PartBytes(ctx, a.part), a.byteOffset)
  }

  /** The manifest entry for `e` when the decision `d` extracts it. */
  function PlannedEntry(e: Entry, d: Option<string>): seq<Manifest.Planned> {
    match d
    case None => []
    case Some(name) => [Manifest.Planned(e.nameHash, e.locale, name)]
  }

  /** The entries of `es` that are extracted, with their names, in order. */
  function PlannedOf(ctx: Context, es: seq<Entry>): seq<Manifest.Planned> {
    if es == [] then []
    else PlannedOf(ctx, es[..|es| - 1]) + PlannedEntry(es[|es| - 1], Decide(ctx, es[|es| - 1]))
  }

  function LastLocale(ps: seq<Manifest.Planned>): Option<uint32> {
    if ps == [] then None else Some(ps[|ps| - 1].locale)
  }

  /** The parts of `es`, in order. */
  function PartsOf(ctx: Context, es: seq<Entry>): seq<nat> {
    if es == [] then []
    else
      PartsOf(ctx, es[..|es| - 1]) +
      match BlockLayout.Translate(es[|es| - 1].offset, ctx.alignment)
      case None => []
      case Some(a) => [a.part]
  }

  /** `ps` with each run of equal neighbours collapsed to one element. */
  function Collapse(ps: seq<nat>): (r: seq<nat>)
    ensures r == [] <==> ps == []
    ensures ps != [] ==> r[|r| - 1] == ps[|ps| - 1]
  {
    if ps == [] then []
    else
      var c := Collapse(ps[..|ps| - 1]);
      if c != [] && c[|c| - 1] == ps[|ps| - 1] then c else c + [ps[|ps| - 1]]
  }

  /** Each part in `qs` opened and closed in turn. */
  function Sessions(qs: seq<nat>): seq<PartEvent> {
    if qs == [] then []
    else Sessions(qs[..|qs| - 1]) + [Opened(qs[|qs| - 1]), Closed(qs[|qs| - 1])]
  }

  /** The same, with the last part still open. */
  function Trail(qs: seq<nat>): seq<PartEvent> {
    if qs == [] then [] else Sessions(qs[..|qs| - 1]) + [Opened(qs[|qs| - 1])]
  }

  function LastPart(qs: seq<nat>): Option<nat> {
    if qs == [] then None else Some(qs[|qs| - 1])
  }

  /** `data` is open on the current part and holds that part's file. */
  predicate PartOpen(ctx: Context, st: LoopState) {
    match st.currentBigFile
    case None => st.data == NoPart
    case Some(p) => BlockLayout.PartPath(ctx.inputPath, p) in ctx.parts && st.data == OpenPart(p, PartBytes(ctx, p))
  }

  /** What holds after every prefix of the loop that raised nothing. */
  predicate Invariant(ctx: Context, es: seq<Entry>, st: LoopState) {
    var ps := PlannedOf(ctx, es);
    var qs := Collapse(PartsOf(ctx, es));
    && PartOpen(ctx, st)
    && st.currentBigFile == LastPart(qs)
    && st.events == Trail(qs)
    && st.manifest == Manifest.Annotate(ps)
    && st.lastLocale == LastLocale(ps)
  }

  lemma AnnotateSnoc(ps: seq<Manifest.Planned>, q: Manifest.Planned)
    ensures Manifest.Annotate(ps + [q]) ==
      Manifest.Annotate(ps) +
      (if LastLocale(ps) != Some(q.locale) then [Manifest.LocaleComment(Hex.X8(q.locale))] else []) +
      [Manifest.RecordOf(q)]
  {
    assert (ps + [q])[..|ps|] == ps;
  }

  lemma SessionsOfTrail(qs: seq<nat>)
    requires qs != []
    ensures Sessions(qs) == Trail(qs) + [Closed(qs[|qs| - 1])]
  {
  }

  /** Switching parts from a state where the open part is the current one. */
  lemma SwitchOpens(ctx: Context, st: LoopState, part: nat)
    requires PartOpen(ctx, st)
    requires SwitchPart(ctx, st, part).status == NoError
    ensures var sw := SwitchPart(ctx, st, part).state;
      && sw.currentBigFile == Some(part)
      && PartOpen(ctx, sw)
      && CurrentBytes(sw.data) == PartBytes(ctx, part)
      && sw.manifest == st.manifest && sw.lastLocale == st.lastLocale
      && sw.disk == st.disk && sw.failures == st.failures
      && sw.events == (if st.currentBigFile == Some(part) then st.events
                       else if st.currentBigFile.None? then st.events + [Opened(part)]
                       else st.events + [Closed(st.currentBigFile.value), Opened(part)])
  {
    if st.currentBigFile != Some(part) {
      var path := BlockLayout.PartPath(ctx.inputPath, part);
      var closed := match st.data
        case OpenPart(p, _) => st.(data := NoPart, events := st.events + [Closed(p)])
        case NoPart => st;
      assert path in ctx.parts;
      assert SwitchPart(ctx, st, part).state ==
        closed.(currentBigFile := Some(part), data := OpenPart(part, ctx.parts[path]), events := closed.events + [Opened(part)]);
      if st.currentBigFile.Some? {
        assert closed == st.(data := NoPart, events := st.events + [Closed(st.currentBigFile.value)]);
      } else {
        assert closed == st;
      }
    }
  }

  /** From a state whose open part is the current one, an iteration that
      raises nothing does what `Decide` says. */
  lemma StepByDecision(ctx: Context, st: LoopState, current: nat, e: Entry)
    requires PartOpen(ctx, st)
    requires Step(ctx, st, current, e).status == NoError
    ensures BlockLayout.Translate(e.offset, ctx.alignment).Some?
    ensures
      var addr := BlockLayout.Translate(e.offset, ctx.alignment).value;
      var sw := SwitchPart(ctx, st, addr.part).state;
      var st' := Step(ctx, st, current, e).state;
      match Decide(ctx, e)
      case None => st' == sw
      case Some(name) =>
        var path := DotNetPath.Combine(ctx.outputPath, name);
        var emitted := Emit(sw, e, name);
        st' == if !ctx.overwrite && path in emitted.disk then emitted
               else Store(ctx, emitted, current, path, PartBytes(ctx, addr.part), addr.byteOffset, e.size)
  {
    var addr := BlockLayout.Translate(e.offset, ctx.alignment).value;
    SwitchOpens(ctx, st, addr.part);
  }

  /** The parts opened so far follow the collapsed parts of the entries. */
  lemma SwitchFollowsParts(ctx: Context, parts: seq<nat>, st: LoopState, part: nat)
    requires PartOpen(ctx, st)
    requires st.currentBigFile == LastPart(Collapse(parts)) && st.events == Trail(Collapse(parts))
    requires SwitchPart(ctx, st, part).status == NoError
    ensures var sw := SwitchPart(ctx, st, part).state;
      sw.currentBigFile == LastPart(Collapse(parts + [part])) && sw.events == Trail(Collapse(parts + [part]))
  {
    SwitchOpens(ctx, st, part);
    CollapseSnoc(parts, part);
    var qs := Collapse(parts);
    if st.currentBigFile != Some(part) {
      TrailSnoc(qs, part);
    }
  }

  lemma CollapseSnoc(parts: seq<nat>, part: nat)
    ensures var qs := Collapse(parts);
      Collapse(parts + [part]) == if LastPart(qs) == Some(part) then qs else qs + [part]
  {
    assert (parts + [part])[..|parts|] == parts;
  }

  lemma TrailSnoc(qs: seq<nat>, part: nat)
    ensures Trail(qs + [part]) == (if qs == [] then [] else Trail(qs) + [Closed(qs[|qs| - 1])]) + [Opened(part)]
  {
    assert (qs + [part])[..|qs|] == qs;
    if qs != [] {
      SessionsOfTrail(qs);
    }
  }

  /** The manifest written so far is the annotated list of planned entries. */
  lemma EmitFollowsPlan(ctx: Context, ps: seq<Manifest.Planned>, st: LoopState, e: Entry, name: string)
    requires st.manifest == Manifest.Annotate(ps) && st.lastLocale == LastLocale(ps)
    ensures var q := Manifest.Planned(e.nameHash, e.locale, name);
      Emit(st, e, name).manifest == Manifest.Annotate(ps + [q]) && Emit(st, e, name).lastLocale == LastLocale(ps + [q])
  {
    AnnotateSnoc(ps, Manifest.Planned(e.nameHash, e.locale, name));
  }

  /** The fields of the loop state the invariant speaks about, after one
      iteration that raises nothing. */
  lemma StepControl(ctx: Context, st: LoopState, current: nat, e: Entry)
    requires PartOpen(ctx, st)
    requires Step(ctx, st, current, e).status == NoError
    ensures BlockLayout.Translate(e.offset, ctx.alignment).Some?
    ensures
      var sw := SwitchPart(ctx, st, BlockLayout.Translate(e.offset, ctx.alignment).value.part).state;
      var st' := Step(ctx, st, current, e).state;
      && st'.currentBigFile == sw.currentBigFile && st'.data == sw.data && st'.events == sw.events
      && (Decide(ctx, e).None? ==> st'.manifest == sw.manifest && st'.lastLocale == sw.lastLocale)
      && (Decide(ctx, e).Some? ==>
            st'.manifest == Emit(sw, e, Decide(ctx, e).value).manifest &&
            st'.lastLocale == Emit(sw, e, Decide(ctx, e).value).lastLocale)
  {
    StepByDecision(ctx, st, current, e);
  }

  lemma PlannedSnoc(ctx: Context, prefix: seq<Entry>, e: Entry)
    ensures PlannedOf(ctx, prefix + [e]) == PlannedOf(ctx, prefix) + PlannedEntry(e, Decide(ctx, e))
  {
    assert (prefix + [e])[..|prefix|] == prefix;
  }

  lemma PartsSnoc(ctx: Context, prefix: seq<Entry>, e: Entry)
    requires BlockLayout.Translate(e.offset, ctx.alignment).Some?
    ensures PartsOf(ctx, prefix + [e]) == PartsOf(ctx, prefix) + [BlockLayout.Translate(e.offset, ctx.alignment).value.part]
  {
    assert (prefix + [e])[..|prefix|] == prefix;
  }

  /** The manifest after a decision `d` on `e`. */
  lemma ManifestAdvance(ps: seq<Manifest.Planned>, e: Entry, d: Option<string>, sw: LoopState, st': LoopState)
    requires sw.manifest == Manifest.Annotate(ps) && sw.lastLocale == LastLocale(ps)
    requires d.None? ==> st'.manifest == sw.manifest && st'.lastLocale == sw.lastLocale
    requires d.Some? ==> st'.manifest == Emit(sw, e, d.value).manifest && st'.lastLocale == Emit(sw, e, d.value).lastLocale
    ensures st'.manifest == Manifest.Annotate(ps + PlannedEntry(e, d))
    ensures st'.lastLocale == LastLocale(ps + PlannedEntry(e, d))
  {
    if d.None? {
      assert ps + PlannedEntry(e, d) == ps;
    } else {
      AnnotateSnoc(ps, Manifest.Planned(e.nameHash, e.locale, d.value));
    }
  }

  /** One iteration that raises nothing keeps the invariant. */
  lemma StepPreserves(ctx: Context, prefix: seq<Entry>, st: LoopState, current: nat, e: Entry)
    requires Invariant(ctx, prefix, st)
    requires Step(ctx, st, current, e).status == NoError
    ensures Invariant(ctx, prefix + [e], Step(ctx, st, current, e).state)
  {
    StepControl(ctx, st, current, e);
    var addr := BlockLayout.Translate(e.offset, ctx.alignment).value;
    var sw := SwitchPart(ctx, st, addr.part).state;
    SwitchOpens(ctx, st, addr.part);
    SwitchFollowsParts(ctx, PartsOf(ctx, prefix), st, addr.part);
    PartsSnoc(ctx, prefix, e);
    PlannedSnoc(ctx, prefix, e);
    ManifestAdvance(PlannedOf(ctx, prefix), e, Decide(ctx, e), sw, Step(ctx, st, current, e).state);
  }

  /** The invariant holds after every prefix that raised nothing. */
  lemma {:induction false} PrefixInvariant(ctx: Context, es: seq<Entry>, disk: map<string, seq<byte>>)
    ensures RunPrefix(ctx, es, disk).status == NoError ==> Invariant(ctx, es, RunPrefix(ctx, es, disk).state)
  {
    if es != [] {
      var n := |es| - 1;
      PrefixInvariant(ctx, es[..n], disk);
      var prev := RunPrefix(ctx, es[..n], disk);
      assert es[..n] + [es[n]] == es;
      if prev.status == NoError && Step(ctx, prev.state, |es|, es[n]).status == NoError {
        StepPreserves(ctx, es[..n], prev.state, |es|, es[n]);
      }
    }
  }

  /** A run that raises nothing writes the annotated list of extracted
      entries: one record per extracted entry in visiting order, each locale
      comment where a new locale starts. */
  lemma ManifestOfRun(ctx: Context, es: seq<Entry>, disk: map<string, seq<byte>>)
    requires Extract(ctx, es, disk).status == NoError
    ensures var m := Extract(ctx, es, disk).state.manifest;
      var ps := PlannedOf(ctx, es);
      && m == Manifest.Annotate(ps)
      && Manifest.WellPlaced(m)
      && Manifest.Records(m) == seq(|ps|, j requires 0 <= j < |ps| => Manifest.RecordOf(ps[j]))
  {
    PrefixInvariant(ctx, es, disk);
    Manifest.AnnotateWellPlaced(PlannedOf(ctx, es));
    Manifest.AnnotateRecords(PlannedOf(ctx, es));
  }

  /** A run that raises nothing opens and closes the parts of its entries in
      turn, one session per run of equal parts, and leaves nothing open. */
  lemma PartsOfRun(ctx: Context, es: seq<Entry>, disk: map<string, seq<byte>>)
    requires Extract(ctx, es, disk).status == NoError
    ensures Extract(ctx, es, disk).state.events == Sessions(Collapse(PartsOf(ctx, es)))
    ensures Extract(ctx, es, disk).state.data == NoPart
  {
    PrefixInvariant(ctx, es, disk);
    var qs := Collapse(PartsOf(ctx, es));
    if qs != [] {
      SessionsOfTrail(qs);
    }
  }

  /** The exception, if any, that the iteration for `e` raises. */
  function EntryStatus(ctx: Context, e: Entry): Status {
    match BlockLayout.Translate(e.offset, ctx.alignment)
    case None => DivideByZero
    case Some(a) =>
      if PartPresent(ctx, e) then NoError else MissingPart(BlockLayout.PartPath(ctx.inputPath, a.part))
  }

  lemma StepStatus(ctx: Context, st: LoopState, current: nat, e: Entry)
    requires PartOpen(ctx, st)
    ensures Step(ctx, st, current, e).status == EntryStatus(ctx, e)
  {
    match BlockLayout.Translate(e.offset, ctx.alignment)
    case None =>
    case Some(a) =>
      var sw := SwitchPart(ctx, st, a.part);
      if sw.status == NoError {
        var bytes := CurrentBytes(sw.state.data);
        match EntryName(ctx, e, bytes, a.byteOffset)
        case None =>
          StepSkipped(ctx, st, current, e, a);
        case Some(name) =>
          if !ctx.overwrite && DotNetPath.Combine(ctx.outputPath, name) in st.disk {
            StepKept(ctx, st, current, e, a, name);
          } else {
            StepStored(ctx, st, current, e, a, name);
          }
      } else {
        assert Step(ctx, st, current, e) == sw;
      }
  }

  lemma PrefixStatusStep(ctx: Context, es: seq<Entry>, disk: map<string, seq<byte>>)
    requires es != []
    ensures var prev := RunPrefix(ctx, es[..|es| - 1], disk).status;
      RunPrefix(ctx, es, disk).status == if prev != NoError then prev else EntryStatus(ctx, es[|es| - 1])
  {
    var n := |es| - 1;
    var prev := RunPrefix(ctx, es[..n], disk);
    if prev.status == NoError {
      PrefixInvariant(ctx, es[..n], disk);
      StepStatus(ctx, prev.state, |es|, es[n]);
    }
  }

  /** `path` is the missing part file of entry `e`. */
  predicate MissingFor(ctx: Context, e: Entry, path: string) {
    match BlockLayout.Translate(e.offset, ctx.alignment)
    case None => false
    case Some(a) => path == BlockLayout.PartPath(ctx.inputPath, a.part) && path !in ctx.parts
  }

  /** `p` holds of every entry of `es`. */
  predicate AllOf(p: Entry -> bool, es: seq<Entry>) {
    es == [] || (AllOf(p, es[..|es| - 1]) && p(es[|es| - 1]))
  }

  lemma {:induction false} AllOfEach(p: Entry -> bool, es: seq<Entry>)
    ensures AllOf(p, es) <==> forall i :: 0 <= i < |es| ==> p(es[i])
  {
    if es != [] {
      var n := |es| - 1;
      AllOfEach(p, es[..n]);
      assert forall i :: 0 <= i < n ==> es[..n][i] == es[i];
    }
  }

  predicate AllPresent(ctx: Context, es: seq<Entry>) {
    AllOf(e => PartPresent(ctx, e), es)
  }

  lemma {:induction false} PrefixAllPresent(ctx: Context, es: seq<Entry>, disk: map<string, seq<byte>>)
    ensures RunPrefix(ctx, es, disk).status == NoError <==> AllPresent(ctx, es)
  {
    if es != [] {
      PrefixAllPresent(ctx, es[..|es| - 1], disk);
      PrefixStatusStep(ctx, es, disk);
    }
  }

  /** A prefix of the loop raises nothing exactly when every entry's part
      exists. */
  lemma PrefixNoError(ctx: Context, es: seq<Entry>, disk: map<string, seq<byte>>)
    ensures RunPrefix(ctx, es, disk).status == NoError <==> forall i :: 0 <= i < |es| ==> PartPresent(ctx, es[i])
  {
    PrefixAllPresent(ctx, es, disk);
    AllOfEach(e => PartPresent(ctx, e), es);
  }

  /** A prefix divides by zero exactly when it has an entry and a part holds
      fewer than 2048 bytes. */
  lemma {:induction false} PrefixDivides(ctx: Context, es: seq<Entry>, disk: map<string, seq<byte>>)
    ensures RunPrefix(ctx, es, disk).status == DivideByZero <==> es != [] && ctx.alignment < BlockLayout.BlockSize
  {
    if es != [] {
      var n := |es| - 1;
      PrefixDivides(ctx, es[..n], disk);
      PrefixStatusStep(ctx, es, disk);
      if RunPrefix(ctx, es[..n], disk).status != NoError {
        assert es[..n] != [];
      }
    }
  }

  /** A prefix that fails on a missing part file names the part file of the
      first of its entries whose part is missing: every earlier entry's part
      exists. */
  lemma {:induction false} PrefixMissing(ctx: Context, es: seq<Entry>, disk: map<string, seq<byte>>)
    ensures var s := RunPrefix(ctx, es, disk).status;
      s.MissingPart? ==> exists i :: 0 <= i < |es| && MissingFor(ctx, es[i], s.path) && FirstMissing(ctx, es, i)
  {
    if es != [] {
      var n := |es| - 1;
      PrefixMissing(ctx, es[..n], disk);
      PrefixStatusStep(ctx, es, disk);
      var s := RunPrefix(ctx, es, disk).status;
      if s.MissingPart? {
        if RunPrefix(ctx, es[..n], disk).status == NoError {
          PrefixNoError(ctx, es[..n], disk);
          assert MissingFor(ctx, es[n], s.path);
          assert forall j :: 0 <= j < n ==> es[..n][j] == es[j];
          assert FirstMissing(ctx, es, n);
        } else {
          var i :| 0 <= i < n && MissingFor(ctx, es[..n][i], s.path) && FirstMissing(ctx, es[..n], i);
          assert es[..n][i] == es[i];
          assert forall j :: 0 <= j < i ==> es[..n][j] == es[j];
          assert FirstMissing(ctx, es, i);
        }
      }
    }
  }

  /** Every entry before position `i` has its part file. */
  predicate FirstMissing(ctx: Context, es: seq<Entry>, i: nat)
    requires i <= |es|
  {
    forall j :: 0 <= j < i ==> PartPresent(ctx, es[j])
  }

  /** The events of `Sessions(qs)`: part `qs[i]` opened at `2 * i` and closed
      right after. */
  lemma {:induction false} SessionsShape(qs: seq<nat>)
    ensures |Sessions(qs)| == 2 * |qs|
    ensures forall i :: 0 <= i < |qs| ==> Sessions(qs)[2 * i] == Opened(qs[i]) && Sessions(qs)[2 * i + 1] == Closed(qs[i])
  {
    if qs != [] {
      var n := |qs| - 1;
      SessionsShape(qs[..n]);
      assert forall i :: 0 <= i < n ==> qs[..n][i] == qs[i];
    }
  }

  /** Collapsing keeps exactly the parts that occur. */
  lemma {:induction false} CollapseMembers(ps: seq<nat>)
    ensures forall x :: x in Collapse(ps) <==> x in ps
  {
    if ps != [] {
      var n := |ps| - 1;
      CollapseMembers(ps[..n]);
      assert ps == ps[..n] + [ps[n]];
      var c := Collapse(ps[..n]);
      if c != [] && c[|c| - 1] == ps[n] {
        assert ps[n] in c;
      }
    }
  }

  /** Collapsing a non-decreasing sequence leaves a strictly increasing one. */
  lemma {:induction false} CollapseIncreasing(ps: seq<nat>)
    requires forall i, j :: 0 <= i < j < |ps| ==> ps[i] <= ps[j]
    ensures forall i, j :: 0 <= i < j < |Collapse(ps)| ==> Collapse(ps)[i] < Collapse(ps)[j]
  {
    if ps != [] {
      var n := |ps| - 1;
      assert forall i :: 0 <= i < n ==> ps[..n][i] == ps[i];
      CollapseIncreasing(ps[..n]);
      var c := Collapse(ps[..n]);
      if n > 0 && c[|c| - 1] != ps[n] {
        assert c[|c| - 1] == ps[n - 1] <= ps[n];
        assert forall i :: 0 <= i < |c| ==> c[i] <= c[|c| - 1];
      }
    }
  }

  /** With at least 2048 bytes per part, one part per entry, in order. */
  lemma {:induction false} PartsIndexed(ctx: Context, es: seq<Entry>)
    requires ctx.alignment >= BlockLayout.BlockSize
    ensures |PartsOf(ctx, es)| == |es|
    ensures forall i :: 0 <= i < |es| ==>
      PartsOf(ctx, es)[i] == BlockLayout.Translate(es[i].offset, ctx.alignment).value.part
  {
    if es != [] {
      var n := |es| - 1;
      PartsIndexed(ctx, es[..n]);
      assert forall i :: 0 <= i < n ==> es[..n][i] == es[i];
    }
  }

  /** Entries in ascending offset order have their parts in ascending order. */
  lemma PartsSorted(ctx: Context, es: seq<Entry>)
    requires ctx.alignment >= BlockLayout.BlockSize
    requires forall i, j :: 0 <= i < j < |es| ==> es[i].offset <= es[j].offset
    ensures forall i, j :: 0 <= i < j < |PartsOf(ctx, es)| ==> PartsOf(ctx, es)[i] <= PartsOf(ctx, es)[j]
  {
    PartsIndexed(ctx, es);
    forall i, j | 0 <= i < j < |es|
      ensures PartsOf(ctx, es)[i] <= PartsOf(ctx, es)[j]
    {
      BlockLayout.PartMonotone(es[i].offset, es[j].offset, ctx.alignment);
    }
  }

  /** In the visiting order, a run that raises nothing opens every part that
      holds an entry exactly once, in ascending order, closing each before
      opening the next. */
  lemma EachPartOpenedOnce(ctx: Context, es: seq<Entry>, disk: map<string, seq<byte>>)
    requires Extract(ctx, VisitingOrder(es), disk).status == NoError
    ensures var vs := VisitingOrder(es);
      var qs := Collapse(PartsOf(ctx, vs));
      && Extract(ctx, vs, disk).state.events == Sessions(qs)
      && (forall i, j :: 0 <= i < j < |qs| ==> qs[i] < qs[j])
      && (forall x :: x in qs <==> x in PartsOf(ctx, vs))
      && |Sessions(qs)| == 2 * |qs|
      && (forall i :: 0 <= i < |qs| ==> Sessions(qs)[2 * i] == Opened(qs[i]) && Sessions(qs)[2 * i + 1] == Closed(qs[i]))
  {
    var vs := VisitingOrder(es);
    PartsOfRun(ctx, vs, disk);
    CollapseMembers(PartsOf(ctx, vs));
    SessionsShape(Collapse(PartsOf(ctx, vs)));
    PrefixDivides(ctx, vs, disk);
    if ctx.alignment >= BlockLayout.BlockSize {
      PartsSorted(ctx, vs);
      CollapseIncreasing(PartsOf(ctx, vs));
    } else {
      assert vs == [];
    }
  }

  /** Path `p` is in `after` exactly when it is in `before`, with the same contents. */
  predicate Unchanged(before: map<string, seq<byte>>, after: map<string, seq<byte>>, p: string) {
    (p in before <==> p in after) && (p in before ==> before[p] == after[p])
  }

  /** One copy (lines 266-282): only the destination changes; without a
      fault it holds the payload; `File.Create` failing leaves the disk as it
      was; a copy failing part way leaves a prefix of the payload; and the
      destination is reported as failed exactly when a fault occurs or the
      part ends before the payload does. */
  lemma StoreEffect(ctx: Context, st: LoopState, current: nat, path: string,
                    bytes: seq<byte>, byteOffset: nat, size: uint32)
    ensures var r := Store(ctx, st, current, path, bytes, byteOffset, size);
      var payload := Payload(bytes, byteOffset, size);
      && (forall p :: p != path ==> Unchanged(st.disk, r.disk, p))
      && (current !in ctx.faults ==> path in r.disk && r.disk[path] == payload)
      && (current in ctx.faults && ctx.faults[current] == CreateFails ==> r.disk == st.disk)
      && (current in ctx.faults && ctx.faults[current].FailsAfter? ==> path in r.disk && r.disk[path] <= payload)
      && (r.failures == st.failures || r.failures == st.failures + [path])
      && (r.failures == st.failures + [path] <==>
            current in ctx.faults || (size > 0 && byteOffset + size > |bytes|))
  {
  }

  /** A prefix of the loop writes only the destinations of the entries it
      extracts, never touches an existing file unless overwriting, and
      reports failures only for destinations. */
  ghost predicate DiskFrame(ctx: Context, before: LoopState, after: LoopState, target: Option<string>) {
    && (forall p :: target != Some(p) ==> Unchanged(before.disk, after.disk, p))
    && (!ctx.overwrite ==> forall p :: p in before.disk ==> Unchanged(before.disk, after.disk, p))
    && |before.failures| <= |after.failures|
    && after.failures[..|before.failures|] == before.failures
    && (forall k :: |before.failures| <= k < |after.failures| ==> target == Some(after.failures[k]))
  }

  /** The destination of an entry whose decision is `d`. */
  function TargetOf(ctx: Context, d: Option<string>): Option<string> {
    match d
    case None => None
    case Some(name) => Some(DotNetPath.Combine(ctx.outputPath, name))
  }

  lemma FrameSame(ctx: Context, st: LoopState, st': LoopState, t: Option<string>)
    requires st'.disk == st.disk && st'.failures == st.failures
    ensures DiskFrame(ctx, st, st', t)
  {
    assert st'.failures[..|st.failures|] == st.failures;
  }

  lemma FrameStore(ctx: Context, st: LoopState, emitted: LoopState, current: nat, path: string,
                   bytes: seq<byte>, byteOffset: nat, size: uint32)
    requires emitted.disk == st.disk && emitted.failures == st.failures
    requires ctx.overwrite || path !in st.disk
    ensures DiskFrame(ctx, st, Store(ctx, emitted, current, path, bytes, byteOffset, size), Some(path))
  {
    var r := Store(ctx, emitted, current, path, bytes, byteOffset, size);
    StoreEffect(ctx, emitted, current, path, bytes, byteOffset, size);
    assert (st.failures + [path])[..|st.failures|] == st.failures;
    assert r.failures[..|st.failures|] == st.failures;
  }

  lemma DiskAfterDecision(ctx: Context, st: LoopState, sw: LoopState, current: nat, e: Entry,
                          d: Option<string>, st': LoopState, bytes: seq<byte>, byteOffset: nat)
    requires sw.disk == st.disk && sw.failures == st.failures
    requires d.None? ==> st' == sw
    requires d.Some? ==>
      var path := DotNetPath.Combine(ctx.outputPath, d.value);
      var emitted := Emit(sw, e, d.value);
      st' == if !ctx.overwrite && path in emitted.disk then emitted
             else Store(ctx, emitted, current, path, bytes, byteOffset, e.size)
    ensures DiskFrame(ctx, st, st', TargetOf(ctx, d))
  {
    if d.None? {
      FrameSame(ctx, st, st', None);
    } else {
      var path := DotNetPath.Combine(ctx.outputPath, d.value);
      var emitted := Emit(sw, e, d.value);
      if !ctx.overwrite && path in emitted.disk {
        FrameSame(ctx, st, st', Some(path));
      } else {
        FrameStore(ctx, st, emitted, current, path, bytes, byteOffset, e.size);
      }
    }
  }

  /** An iteration that raises an exception writes nothing. */
  lemma StepAborts(ctx: Context, st: LoopState, current: nat, e: Entry)
    requires Step(ctx, st, current, e).status != NoError
    ensures Step(ctx, st, current, e).state.disk == st.disk
    ensures Step(ctx, st, current, e).state.failures == st.failures
  {
    match BlockLayout.Translate(e.offset, ctx.alignment)
    case None =>
    case Some(a) =>
      var sw := SwitchPart(ctx, st, a.part);
      if sw.status == NoError {
        StepAfterSwitch(ctx, st, current, e, a);
      }
      SwitchAborts(ctx, st, a.part);
  }

  /** Once the part is open, an iteration raises nothing. */
  lemma StepAfterSwitch(ctx: Context, st: LoopState, current: nat, e: Entry, addr: BlockLayout.Address)
    requires BlockLayout.Translate(e.offset, ctx.alignment) == Some(addr)
    requires SwitchPart(ctx, st, addr.part).status == NoError
    ensures Step(ctx, st, current, e).status == NoError
  {
  }

  /** A part switch that raises an exception writes nothing. */
  lemma SwitchAborts(ctx: Context, st: LoopState, part: nat)
    ensures SwitchPart(ctx, st, part).state.disk == st.disk
    ensures SwitchPart(ctx, st, part).state.failures == st.failures
  {
  }

  lemma StepDisk(ctx: Context, st: LoopState, current: nat, e: Entry)
    requires PartOpen(ctx, st)
    ensures DiskFrame(ctx, st, Step(ctx, st, current, e).state, TargetOf(ctx, Decide(ctx, e)))
  {
    if Step(ctx, st, current, e).status == NoError {
      StepDiskNoError(ctx, st, current, e);
    } else {
      StepAborts(ctx, st, current, e);
      FrameSame(ctx, st, Step(ctx, st, current, e).state, TargetOf(ctx, Decide(ctx, e)));
    }
  }

  lemma StepDiskNoError(ctx: Context, st: LoopState, current: nat, e: Entry)
    requires PartOpen(ctx, st)
    requires Step(ctx, st, current, e).status == NoError
    ensures DiskFrame(ctx, st, Step(ctx, st, current, e).state, TargetOf(ctx, Decide(ctx, e)))
  {
    StepByDecision(ctx, st, current, e);
    var addr := BlockLayout.Translate(e.offset, ctx.alignment).value;
    var sw := SwitchPart(ctx, st, addr.part).state;
    SwitchOpens(ctx, st, addr.part);
    DiskAfterDecision(ctx, st, sw, current, e, Decide(ctx, e), Step(ctx, st, current, e).state,
                      PartBytes(ctx, addr.part), addr.byteOffset);
  }

  /** The destinations of the manifest's records. */
  function Destinations(ctx: Context, ps: seq<Manifest.Planned>): set<string> {
    set q | q in ps :: DotNetPath.Combine(ctx.outputPath, q.name)
  }

  function TargetSet(t: Option<string>): set<string> {
    match t
    case None => {}
    case Some(p) => {p}
  }

  lemma DestinationsSnoc(ctx: Context, ps: seq<Manifest.Planned>, e: Entry, d: Option<string>)
    ensures Destinations(ctx, ps + PlannedEntry(e, d)) == Destinations(ctx, ps) + TargetSet(TargetOf(ctx, d))
  {
    if d.Some? {
      var q := Manifest.Planned(e.nameHash, e.locale, d.value);
      assert q in ps + PlannedEntry(e, d);
      assert forall x :: x in ps + [q] <==> x in ps || x == q;
    } else {
      assert ps + PlannedEntry(e, d) == ps;
    }
  }

  /** Starting from `disk`, only paths in `ds` changed, no existing file
      changed unless overwriting, and every failure names a path in `ds`. */
  ghost predicate WrittenWithin(ctx: Context, disk: map<string, seq<byte>>, st: LoopState, ds: set<string>) {
    && (forall p :: p !in ds ==> Unchanged(disk, st.disk, p))
    && (!ctx.overwrite ==> forall p :: p in disk ==> Unchanged(disk, st.disk, p))
    && (forall k :: 0 <= k < |st.failures| ==> st.failures[k] in ds)
  }

  lemma FrameCompose(ctx: Context, disk: map<string, seq<byte>>, st1: LoopState, st2: LoopState,
                     ds: set<string>, t: Option<string>)
    requires WrittenWithin(ctx, disk, st1, ds)
    requires DiskFrame(ctx, st1, st2, t)
    ensures WrittenWithin(ctx, disk, st2, ds + TargetSet(t))
  {
    forall p | p !in ds + TargetSet(t)
      ensures Unchanged(disk, st2.disk, p)
    {
      assert Unchanged(disk, st1.disk, p) && Unchanged(st1.disk, st2.disk, p);
    }
    forall k | 0 <= k < |st2.failures|
      ensures st2.failures[k] in ds + TargetSet(t)
    {
      if k < |st1.failures| {
        assert st2.failures[k] == st1.failures[k];
      }
    }
  }

  lemma {:induction false} PrefixDisk(ctx: Context, es: seq<Entry>, disk: map<string, seq<byte>>)
    ensures WrittenWithin(ctx, disk, RunPrefix(ctx, es, disk).state, Destinations(ctx, PlannedOf(ctx, es)))
  {
    if es != [] {
      var n := |es| - 1;
      var prefix := es[..n];
      PrefixDisk(ctx, prefix, disk);
      var prev := RunPrefix(ctx, prefix, disk);
      var d := Decide(ctx, es[n]);
      assert prefix + [es[n]] == es;
      PlannedSnoc(ctx, prefix, es[n]);
      DestinationsSnoc(ctx, PlannedOf(ctx, prefix), es[n], d);
      if prev.status == NoError {
        PrefixInvariant(ctx, prefix, disk);
        StepDisk(ctx, prev.state, |es|, es[n]);
        assert TargetOf(ctx, Decide(ctx, es[n])) == TargetOf(ctx, d);
        FrameCompose(ctx, disk, prev.state, Step(ctx, prev.state, |es|, es[n]).state,
                     Destinations(ctx, PlannedOf(ctx, prefix)), TargetOf(ctx, d));
      }
    }
  }

  /** What a whole run does to the output disk: a path changes only when it
      is the destination of a record in the manifest, an existing file never
      changes unless overwriting is on, and every reported failure names such
      a destination. */
  lemma DiskOfRun(ctx: Context, es: seq<Entry>, disk: map<string, seq<byte>>)
    ensures var st := Extract(ctx, es, disk).state;
      var ds := Destinations(ctx, PlannedOf(ctx, es));
      && (forall p :: p !in ds ==> (p in st.disk <==> p in disk) && (p in disk ==> st.disk[p] == disk[p]))
      && (!ctx.overwrite ==> forall p :: p in disk ==> p in st.disk && st.disk[p] == disk[p])
      && (forall k :: 0 <= k < |st.failures| ==> st.failures[k] in ds)
  {
    PrefixDisk(ctx, es, disk);
  }

  /** `e` is extracted to `path`. */
  predicate WritesTo(ctx: Context, e: Entry, path: string) {
    TargetOf(ctx, Decide(ctx, e)) == Some(path)
  }

  /** The bytes a complete copy of `e` writes. */
  function EntryPayload(ctx: Context, e: Entry): seq<byte> {
    match BlockLayout.Translate(e.offset, ctx.alignment)
    case None => []
    case Some(a) => Payload(PartBytes(ctx, a.part), a.byteOffset, e.size)
  }

  /** What the `current`-th entry `e`, with decision `d`, does to the files:
      nothing when it is skipped or its destination is kept, a copy otherwise. */
  function WriteStep(ctx: Context, f: Files, current: nat, e: Entry, d: Option<string>): Files {
    match d
    case None => f
    case Some(name) =>
      var path := DotNetPath.Combine(ctx.outputPath, name);
      if !ctx.overwrite && path in f.disk then f
      else Copy(ctx.faults, f, current, path, EntryPayload(ctx, e), e.size)
  }

  /** The files after the entries `es`, read off the archive and the
      options alone. */
  function Written(ctx: Context, es: seq<Entry>, disk: map<string, seq<byte>>): Files {
    if es == [] then Files(disk, [])
    else
      var n := |es| - 1;
      WriteStep(ctx, Written(ctx, es[..n], disk), |es|, es[n], Decide(ctx, es[n]))
  }

  /** An iteration that raises nothing does to the files what `WriteStep` says. */
  lemma StepWrites(ctx: Context, st: LoopState, current: nat, e: Entry)
    requires PartOpen(ctx, st)
    requires Step(ctx, st, current, e).status == NoError
    ensures FilesOf(Step(ctx, st, current, e).state) == WriteStep(ctx, FilesOf(st), current, e, Decide(ctx, e))
  {
    StepByDecision(ctx, st, current, e);
    var addr := BlockLayout.Translate(e.offset, ctx.alignment).value;
    SwitchOpens(ctx, st, addr.part);
  }

  lemma {:induction false} PrefixWritten(ctx: Context, es: seq<Entry>, disk: map<string, seq<byte>>)
    ensures RunPrefix(ctx, es, disk).status == NoError ==> FilesOf(RunPrefix(ctx, es, disk).state) == Written(ctx, es, disk)
  {
    if es != [] {
      var n := |es| - 1;
      PrefixWritten(ctx, es[..n], disk);
      var prev := RunPrefix(ctx, es[..n], disk);
      if prev.status == NoError && Step(ctx, prev.state, |es|, es[n]).status == NoError {
        PrefixInvariant(ctx, es[..n], disk);
        StepWrites(ctx, prev.state, |es|, es[n]);
      }
    }
  }

  /** A run that raises nothing leaves exactly the files `Written` describes. */
  lemma WrittenByRun(ctx: Context, es: seq<Entry>, disk: map<string, seq<byte>>)
    requires Extract(ctx, es, disk).status == NoError
    ensures FilesOf(Extract(ctx, es, disk).state) == Written(ctx, es, disk)
  {
    PrefixWritten(ctx, es, disk);
  }

  /** A copy changes only its destination; without a fault the destination
      holds the payload; the copy is reported as failed exactly when it meets
      a fault or the payload is short. */
  lemma CopyEffect(faults: map<nat, CopyFault>, f: Files, current: nat, path: string, payload: seq<byte>, size: nat)
    ensures var g := Copy(faults, f, current, path, payload, size);
      && (forall q :: q != path ==> Unchanged(f.disk, g.disk, q))
      && (current !in faults ==> path in g.disk && g.disk[path] == payload)
      && g.failures == f.failures + (if current in faults || |payload| != size then [path] else [])
  {
  }

  lemma WriteStepElsewhere(ctx: Context, f: Files, current: nat, e: Entry, d: Option<string>, path: string)
    requires TargetOf(ctx, d) != Some(path)
    ensures Unchanged(f.disk, WriteStep(ctx, f, current, e, d).disk, path)
  {
    match d
    case None =>
    case Some(name) =>
      var p := DotNetPath.Combine(ctx.outputPath, name);
      if ctx.overwrite || p !in f.disk {
        CopyEffect(ctx.faults, f, current, p, EntryPayload(ctx, e), e.size);
      }
  }

  lemma WriteStepKeeps(ctx: Context, f: Files, current: nat, e: Entry, d: Option<string>, path: string)
    requires !ctx.overwrite && path in f.disk
    ensures Unchanged(f.disk, WriteStep(ctx, f, current, e, d).disk, path)
  {
    match d
    case None =>
    case Some(name) =>
      var p := DotNetPath.Combine(ctx.outputPath, name);
      if p !in f.disk {
        CopyEffect(ctx.faults, f, current, p, EntryPayload(ctx, e), e.size);
      }
  }

  /** The destination of a copy that meets no fault holds the entry's payload. */
  lemma WriteStepCopies(ctx: Context, f: Files, current: nat, e: Entry, d: Option<string>, path: string)
    requires TargetOf(ctx, d) == Some(path) && current !in ctx.faults
    requires ctx.overwrite || path !in f.disk
    ensures var g := WriteStep(ctx, f, current, e, d).disk;
      path in g && g[path] == EntryPayload(ctx, e)
  {
    CopyEffect(ctx.faults, f, current, path, EntryPayload(ctx, e), e.size);
  }

  /** With overwriting on, an entry adds its destination to the failures
      exactly when its copy meets a fault or its payload is short. */
  lemma WriteStepFailures(ctx: Context, f: Files, current: nat, e: Entry, d: Option<string>)
    requires ctx.overwrite
    ensures WriteStep(ctx, f, current, e, d).failures == f.failures +
      match TargetOf(ctx, d)
      case None => []
      case Some(p) => if current in ctx.faults || |EntryPayload(ctx, e)| != e.size then [p] else []
  {
    if d.Some? {
      CopyEffect(ctx.faults, f, current, DotNetPath.Combine(ctx.outputPath, d.value), EntryPayload(ctx, e), e.size);
    }
  }

  /** Entries from the `i`-th on that do not write to `path` leave it as it was. */
  lemma {:induction false} WrittenAfter(ctx: Context, es: seq<Entry>, disk: map<string, seq<byte>>, i: nat, path: string)
    requires i <= |es|
    requires forall j {:trigger WritesTo(ctx, es[j], path)} :: i <= j < |es| ==> !WritesTo(ctx, es[j], path)
    ensures Unchanged(Written(ctx, es[..i], disk).disk, Written(ctx, es, disk).disk, path)
  {
    if i == |es| {
      assert es[..i] == es;
    } else {
      var n := |es| - 1;
      var prefix := es[..n];
      assert prefix[..i] == es[..i];
      assert forall j :: i <= j < |prefix| ==> prefix[j] == es[j];
      WrittenAfter(ctx, prefix, disk, i, path);
      assert !WritesTo(ctx, es[n], path);
      WriteStepElsewhere(ctx, Written(ctx, prefix, disk), |es|, es[n], Decide(ctx, es[n]), path);
    }
  }

  /** Without overwriting, a file that exists after the `i`-th entry keeps
      its contents to the end. */
  lemma {:induction false} WrittenKept(ctx: Context, es: seq<Entry>, disk: map<string, seq<byte>>, i: nat, path: string)
    requires !ctx.overwrite && i <= |es| && path in Written(ctx, es[..i], disk).disk
    ensures Unchanged(Written(ctx, es[..i], disk).disk, Written(ctx, es, disk).disk, path)
  {
    if i == |es| {
      assert es[..i] == es;
    } else {
      var n := |es| - 1;
      var prefix := es[..n];
      assert prefix[..i] == es[..i];
      WrittenKept(ctx, prefix, disk, i, path);
      WriteStepKeeps(ctx, Written(ctx, prefix, disk), |es|, es[n], Decide(ctx, es[n]), path);
    }
  }

  /** The entry `es[i]` copies its payload to `path` when it is extracted
      there, nothing fails and the destination is not kept. */
  lemma WrittenAt(ctx: Context, es: seq<Entry>, disk: map<string, seq<byte>>, i: nat, path: string)
    requires i < |es| && WritesTo(ctx, es[i], path) && (i + 1) !in ctx.faults
    requires ctx.overwrite || path !in Written(ctx, es[..i], disk).disk
    ensures var w := Written(ctx, es[..i + 1], disk).disk;
      path in w && w[path] == EntryPayload(ctx, es[i])
  {
    WrittenSnoc(ctx, es, disk, i);
    WriteStepCopies(ctx, Written(ctx, es[..i], disk), i + 1, es[i], Decide(ctx, es[i]), path);
  }

  lemma WrittenSnoc(ctx: Context, es: seq<Entry>, disk: map<string, seq<byte>>, n: nat)
    requires n < |es|
    ensures Written(ctx, es[..n + 1], disk) == WriteStep(ctx, Written(ctx, es[..n], disk), n + 1, es[n], Decide(ctx, es[n]))
  {
    assert es[..n + 1][..n] == es[..n];
    assert es[..n + 1][n] == es[n];
  }

  /** The first `i` entries, none of which writes to `path`, leave it as it was. */
  lemma WrittenUntouched(ctx: Context, es: seq<Entry>, disk: map<string, seq<byte>>, i: nat, path: string)
    requires i <= |es|
    requires forall j {:trigger WritesTo(ctx, es[j], path)} :: 0 <= j < i ==> !WritesTo(ctx, es[j], path)
    ensures Unchanged(disk, Written(ctx, es[..i], disk).disk, path)
  {
    var prefix := es[..i];
    assert prefix[..0] == [];
    assert forall j :: 0 <= j < i ==> prefix[j] == es[j];
    WrittenAfter(ctx, prefix, disk, 0, path);
  }

  /** Without overwriting, the first entry extracted to a path that did not
      exist leaves its payload there when its copy meets no fault. */
  lemma WrittenFirst(ctx: Context, es: seq<Entry>, disk: map<string, seq<byte>>, i: nat, path: string)
    requires !ctx.overwrite && path !in disk
    requires i < |es| && WritesTo(ctx, es[i], path) && (i + 1) !in ctx.faults
    requires forall j {:trigger WritesTo(ctx, es[j], path)} :: 0 <= j < i ==> !WritesTo(ctx, es[j], path)
    ensures var w := Written(ctx, es, disk).disk;
      path in w && w[path] == EntryPayload(ctx, es[i])
  {
    WrittenUntouched(ctx, es, disk, i, path);
    WrittenAt(ctx, es, disk, i, path);
    WrittenHolds(ctx, es, disk, i + 1, path, EntryPayload(ctx, es[i]));
  }

  /** Without overwriting, contents a path holds after the first `k`
      entries are what it holds at the end. */
  lemma WrittenHolds(ctx: Context, es: seq<Entry>, disk: map<string, seq<byte>>, k: nat, path: string, p: seq<byte>)
    requires !ctx.overwrite && k <= |es|
    requires path in Written(ctx, es[..k], disk).disk && Written(ctx, es[..k], disk).disk[path] == p
    ensures path in Written(ctx, es, disk).disk && Written(ctx, es, disk).disk[path] == p
  {
    WrittenKept(ctx, es, disk, k, path);
  }

  /** With overwriting on, a destination holds the payload of the last entry
      extracted to it when that copy does not fail. */
  lemma LastCopyWins(ctx: Context, es: seq<Entry>, disk: map<string, seq<byte>>, i: nat, path: string)
    requires ctx.overwrite && Extract(ctx, es, disk).status == NoError
    requires i < |es| && WritesTo(ctx, es[i], path) && (i + 1) !in ctx.faults
    requires forall j {:trigger WritesTo(ctx, es[j], path)} :: i < j < |es| ==> !WritesTo(ctx, es[j], path)
    ensures var st := Extract(ctx, es, disk).state;
      path in st.disk && st.disk[path] == EntryPayload(ctx, es[i])
  {
    WrittenByRun(ctx, es, disk);
    WrittenAt(ctx, es, disk, i, path);
    WrittenAfter(ctx, es, disk, i + 1, path);
  }

  /** With overwriting off, a destination that did not exist holds the
      payload of the first entry extracted to it when that copy does not fail. */
  lemma FirstCopyKept(ctx: Context, es: seq<Entry>, disk: map<string, seq<byte>>, i: nat, path: string)
    requires !ctx.overwrite && Extract(ctx, es, disk).status == NoError && path !in disk
    requires i < |es| && WritesTo(ctx, es[i], path) && (i + 1) !in ctx.faults
    requires forall j {:trigger WritesTo(ctx, es[j], path)} :: 0 <= j < i ==> !WritesTo(ctx, es[j], path)
    ensures var st := Extract(ctx, es, disk).state;
      path in st.disk && st.disk[path] == EntryPayload(ctx, es[i])
  {
    WrittenByRun(ctx, es, disk);
    WrittenFirst(ctx, es, disk, i, path);
  }

  /** The destinations reported as failed when every copy is made: those of
      the extracted entries whose copy meets a fault or whose part ends before
      the payload does, in visiting order. */
  function FailedCopies(ctx: Context, es: seq<Entry>): seq<string> {
    if es == [] then []
    else
      var n := |es| - 1;
      FailedCopies(ctx, es[..n]) +
      match TargetOf(ctx, Decide(ctx, es[n]))
      case None => []
      case Some(p) => if |es| in ctx.faults || |EntryPayload(ctx, es[n])| != es[n].size then [p] else []
  }

  lemma {:induction false} WrittenFailures(ctx: Context, es: seq<Entry>, disk: map<string, seq<byte>>)
    requires ctx.overwrite
    ensures Written(ctx, es, disk).failures == FailedCopies(ctx, es)
  {
    if es != [] {
      var n := |es| - 1;
      WrittenFailures(ctx, es[..n], disk);
      WriteStepFailures(ctx, Written(ctx, es[..n], disk), |es|, es[n], Decide(ctx, es[n]));
    }
  }

  /** With overwriting on, the failures a run reports are exactly the failed
      copies. */
  lemma FailuresWithOverwrite(ctx: Context, es: seq<Entry>, disk: map<string, seq<byte>>)
    requires ctx.overwrite && Extract(ctx, es, disk).status == NoError
    ensures Extract(ctx, es, disk).state.failures == FailedCopies(ctx, es)
  {
    WrittenByRun(ctx, es, disk);
    WrittenFailures(ctx, es, disk);
  }

  /** Two runs agree on everything but the files and the failures. */
  predicate SameControl(r1: Run, r2: Run) {
    && r1.status == r2.status
    && r1.state.data == r2.state.data
    && r1.state.currentBigFile == r2.state.currentBigFile
    && r1.state.lastLocale == r2.state.lastLocale
    && r1.state.manifest == r2.state.manifest
    && r1.state.events == r2.state.events
  }

  lemma SwitchIgnoresFaults(ctx: Context, faults: map<nat, CopyFault>, st: LoopState, part: nat)
    ensures SwitchPart(ctx.(faults := faults), st, part) == SwitchPart(ctx, st, part)
  {
    var ctx2 := ctx.(faults := faults);
    assert ctx2.inputPath == ctx.inputPath && ctx2.parts == ctx.parts;
  }

  lemma SwitchIgnoresDisk(ctx: Context, st1: LoopState, st2: LoopState, part: nat)
    requires SameControl(Run(NoError, st1), Run(NoError, st2))
    ensures SameControl(SwitchPart(ctx, st1, part), SwitchPart(ctx, st2, part))
    ensures SwitchPart(ctx, st1, part).state.disk == st1.disk
    ensures SwitchPart(ctx, st2, part).state.disk == st2.disk
  {
    if st1.currentBigFile != Some(part) {
      var path := BlockLayout.PartPath(ctx.inputPath, part);
      var events := match st1.data
        case OpenPart(p, _) => st1.events + [Closed(p)]
        case NoPart => st1.events;
      var c1 := st1.(data := NoPart, events := events, currentBigFile := Some(part));
      var c2 := st2.(data := NoPart, events := events, currentBigFile := Some(part));
      if path !in ctx.parts {
        assert SwitchPart(ctx, st1, part) == Run(MissingPart(path), c1);
        assert SwitchPart(ctx, st2, part) == Run(MissingPart(path), c2);
      } else {
        var o := OpenPart(part, ctx.parts[path]);
        assert SwitchPart(ctx, st1, part) == Run(NoError, c1.(data := o, events := events + [Opened(part)]));
        assert SwitchPart(ctx, st2, part) == Run(NoError, c2.(data := o, events := events + [Opened(part)]));
      }
    }
  }

  lemma DecideIgnoresFaults(ctx: Context, faults: map<nat, CopyFault>, e: Entry)
    ensures Decide(ctx.(faults := faults), e) == Decide(ctx, e)
    ensures EntryStatus(ctx.(faults := faults), e) == EntryStatus(ctx, e)
  {
    var ctx2 := ctx.(faults := faults);
    match BlockLayout.Translate(e.offset, ctx.alignment)
    case None =>
    case Some(a) =>
      var bytes := PartBytes(ctx, a.part);
      assert PartBytes(ctx2, a.part) == bytes;
      EntryNameIgnoresFaults(ctx, faults, e, bytes, a.byteOffset);
      assert Decide(ctx, e) == EntryName(ctx, e, bytes, a.byteOffset);
      assert Decide(ctx2, e) == EntryName(ctx2, e, bytes, a.byteOffset);
  }

  lemma EntryNameIgnoresFaults(ctx: Context, faults: map<nat, CopyFault>, e: Entry, bytes: seq<byte>, byteOffset: nat)
    ensures EntryName(ctx.(faults := faults), e, bytes, byteOffset) == EntryName(ctx, e, bytes, byteOffset)
  {
    var ctx2 := ctx.(faults := faults);
    assert ctx2.names == ctx.names && ctx2.detect == ctx.detect;
    assert ctx2.selection == ctx.selection && ctx2.filter == ctx.filter;
    assert Resolved(ctx2, e, bytes, byteOffset) == Resolved(ctx, e, bytes, byteOffset);
  }

  lemma ControlAfterDecision(ctx: Context, faults: map<nat, CopyFault>, sw1: LoopState, sw2: LoopState,
                             current: nat, e: Entry, d: Option<string>, st1: LoopState, st2: LoopState,
                             bytes: seq<byte>, byteOffset: nat)
    requires SameControl(Run(NoError, sw1), Run(NoError, sw2))
    requires d.None? ==> st1 == sw1 && st2 == sw2
    requires d.Some? ==>
      var path := DotNetPath.Combine(ctx.outputPath, d.value);
      var em1 := Emit(sw1, e, d.value);
      var em2 := Emit(sw2, e, d.value);
      && st1 == (if !ctx.overwrite && path in em1.disk then em1
                 else Store(ctx, em1, current, path, bytes, byteOffset, e.size))
      && st2 == (if !ctx.overwrite && path in em2.disk then em2
                 else Store(ctx.(faults := faults), em2, current, path, bytes, byteOffset, e.size))
    ensures SameControl(Run(NoError, st1), Run(NoError, st2))
  {
    if d.Some? {
      var em1 := Emit(sw1, e, d.value);
      var em2 := Emit(sw2, e, d.value);
      assert SameControl(Run(NoError, em1), Run(NoError, em2));
    }
  }

  /** One iteration decides the same whatever the faults and the files. */
  lemma StepIgnoresFaults(ctx: Context, faults: map<nat, CopyFault>, st1: LoopState, st2: LoopState, current: nat, e: Entry)
    requires PartOpen(ctx, st1)
    requires SameControl(Run(NoError, st1), Run(NoError, st2))
    ensures SameControl(Step(ctx, st1, current, e), Step(ctx.(faults := faults), st2, current, e))
  {
    var ctx2 := ctx.(faults := faults);
    assert PartOpen(ctx2, st2);
    DecideIgnoresFaults(ctx, faults, e);
    StepStatus(ctx, st1, current, e);
    StepStatus(ctx2, st2, current, e);
    match BlockLayout.Translate(e.offset, ctx.alignment)
    case None =>
    case Some(a) =>
      SwitchIgnoresFaults(ctx, faults, st2, a.part);
      SwitchIgnoresDisk(ctx, st1, st2, a.part);
      var r1 := Step(ctx, st1, current, e);
      var r2 := Step(ctx2, st2, current, e);
      if r1.status == NoError {
        StepByDecision(ctx, st1, current, e);
        StepByDecision(ctx2, st2, current, e);
        SwitchOpens(ctx, st1, a.part);
        SwitchOpens(ctx2, st2, a.part);
        ControlAfterDecision(ctx, faults, SwitchPart(ctx, st1, a.part).state, SwitchPart(ctx, st2, a.part).state,
                             current, e, Decide(ctx, e), r1.state, r2.state, PartBytes(ctx, a.part), a.byteOffset);
      } else {
        assert r1 == SwitchPart(ctx, st1, a.part);
        assert r2 == SwitchPart(ctx, st2, a.part);
      }
  }

  lemma {:induction false} PrefixIgnoresFaults(ctx: Context, faults: map<nat, CopyFault>, es: seq<Entry>,
                                               disk1: map<string, seq<byte>>, disk2: map<string, seq<byte>>)
    ensures SameControl(RunPrefix(ctx, es, disk1), RunPrefix(ctx.(faults := faults), es, disk2))
  {
    if es != [] {
      var n := |es| - 1;
      PrefixIgnoresFaults(ctx, faults, es[..n], disk1, disk2);
      var prev1 := RunPrefix(ctx, es[..n], disk1);
      var prev2 := RunPrefix(ctx.(faults := faults), es[..n], disk2);
      if prev1.status == NoError {
        PrefixInvariant(ctx, es[..n], disk1);
        StepIgnoresFaults(ctx, faults, prev1.state, prev2.state, |es|, es[n]);
      }
    }
  }

  /** Copy failures and the files already on disk change only the files and
      the failure reports: the exception raised, the manifest and the order
      in which parts are opened and closed are the same for any faults and
      any starting disk. */
  lemma FaultsChangeOnlyFiles(ctx: Context, faults: map<nat, CopyFault>, es: seq<Entry>,
                              disk1: map<string, seq<byte>>, disk2: map<string, seq<byte>>)
    ensures var r1 := Extract(ctx, es, disk1);
      var r2 := Extract(ctx.(faults := faults), es, disk2);
      && r1.status == r2.status
      && r1.state.manifest == r2.state.manifest
      && r1.state.events == r2.state.events
  {
    PrefixIgnoresFaults(ctx, faults, es, disk1, disk2);
  }

  /** How a whole run ends: it raises nothing exactly when every entry's part
      file exists, divides by zero exactly when there is an entry and a part
      holds fewer than 2048 bytes, and otherwise fails on the missing part
      file of one of its entries. */
  lemma RunStatus(ctx: Context, es: seq<Entry>, disk: map<string, seq<byte>>)
    ensures var s := Extract(ctx, es, disk).status;
      && (s == NoError <==> forall i :: 0 <= i < |es| ==> PartPresent(ctx, es[i]))
      && (s == DivideByZero <==> es != [] && ctx.alignment < BlockLayout.BlockSize)
      && (s.MissingPart? ==>
            exists i :: 0 <= i < |es| && MissingFor(ctx, es[i], s.path) && forall j :: 0 <= j < i ==> PartPresent(ctx, es[j]))
  {
    PrefixNoError(ctx, es, disk);
    PrefixDivides(ctx, es, disk);
    PrefixMissing(ctx, es, disk);
  }

  /** The filter only ever removes entries: an extracted entry's name
      matches it, and without the filter the entry gets the same name. */
  lemma DecideFilter(ctx: Context, e: Entry)
    ensures var d := Decide(ctx, e);
      && (d.Some? ==> PassesFilter(ctx.filter, d.value))
      && (d.Some? ==> Decide(ctx.(filter := None), e) == d)
  {
    var ctx2 := ctx.(filter := None);
    match BlockLayout.Translate(e.offset, ctx.alignment)
    case None =>
    case Some(a) =>
      var bytes := PartBytes(ctx, a.part);
      PartBytesIgnoresFilter(ctx, a.part);
      ResolvedIgnoresFilter(ctx, e, bytes, a.byteOffset);
      assert Decide(ctx, e) == EntryName(ctx, e, bytes, a.byteOffset);
      assert Decide(ctx2, e) == EntryName(ctx2, e, bytes, a.byteOffset);
  }

  lemma PartBytesIgnoresFilter(ctx: Context, part: nat)
    ensures PartBytes(ctx.(filter := None), part) == PartBytes(ctx, part)
  {
    var ctx2 := ctx.(filter := None);
    assert ctx2.inputPath == ctx.inputPath && ctx2.parts == ctx.parts;
  }

  lemma ResolvedIgnoresFilter(ctx: Context, e: Entry, bytes: seq<byte>, byteOffset: nat)
    ensures Resolved(ctx.(filter := None), e, bytes, byteOffset) == Resolved(ctx, e, bytes, byteOffset)
  {
    var ctx2 := ctx.(filter := None);
    assert ctx2.names == ctx.names && ctx2.detect == ctx.detect && ctx2.selection == ctx.selection;
  }

  /** The selection skips unresolved entries under "known only" and resolved
      ones under "unknown only"; with no filter and no selection every entry
      is extracted. */
  lemma DecideSelection(ctx: Context, e: Entry)
    ensures var d := Decide(ctx, e);
      var known := e.nameHash in ctx.names;
      && (known && ctx.selection == CommandLine.UnknownOnly ==> d.None?)
      && (!known && ctx.selection == CommandLine.KnownOnly ==> d.None?)
      && (ctx.alignment >= BlockLayout.BlockSize && ctx.filter.None? && ctx.selection == CommandLine.IncludeAll ==> d.Some?)
  {
    match BlockLayout.Translate(e.offset, ctx.alignment)
    case None =>
    case Some(a) =>
      var bytes := PartBytes(ctx, a.part);
      assert Decide(ctx, e) == EntryName(ctx, e, bytes, a.byteOffset);
  }

  /** A resolved entry is named by its normalised list name and an
      unresolved one by its hash and the type detected from its first bytes,
      both under the locale's directory. */
  lemma DecideName(ctx: Context, e: Entry)
    requires Decide(ctx, e).Some?
    ensures BlockLayout.Translate(e.offset, ctx.alignment).Some?
    ensures var a := BlockLayout.Translate(e.offset, ctx.alignment).value;
      var sniffed := ctx.detect(Sniff(PartBytes(ctx, a.part), a.byteOffset, e.size));
      Decide(ctx, e).value ==
        if e.nameHash in ctx.names then Naming.WithLocale(e.locale, Naming.NormalizeKnownName(ctx.names[e.nameHash]))
        else Naming.WithLocale(e.locale, Naming.UnknownName(e.nameHash, sniffed))
  {
    var a := BlockLayout.Translate(e.offset, ctx.alignment).value;
    var bytes := PartBytes(ctx, a.part);
    assert Decide(ctx, e) == EntryName(ctx, e, bytes, a.byteOffset);
    assert Resolved(ctx, e, bytes, a.byteOffset) == Decide(ctx, e);
  }
}
