/** The entry point as a whole (Program.cs lines 44-134): parse the options,
    check the positional arguments, compile the filter, read the index file,
    write the manifest header and run the extraction loop over the entries in
    offset order. What the program reads from outside — the index file's
    table, the project's name lists, the type detector, the regular
    expression engine, the part files and the output disk — is given as an
    `Environment`. */
module Unpack {
  import opened Types
  import Hex
  import CommandLine
  import DotNetPath
  import Manifest
  import BlockLayout
  import Extraction
  import ExtractionLaws

  datatype Endian = Little | Big

  /** What `BigArchiveFileV2.Deserialize` reads from the index file. */
  datatype Archive = Archive(endian: Endian, basePath: string, alignment: uint32, entries: seq<Extraction.Entry>)

  datatype Environment = Environment(
    archives: map<string, Archive>,                // the readable index files
    names: map<uint32, string>,                    // the project's file lists, by name hash
    detect: seq<byte> -> string,                   // `FileExtensions.Detect`
    compile: string -> Option<string -> bool>,     // the regular expression engine; `None` when it throws
    parts: map<string, seq<byte>>,
    disk: map<string, seq<byte>>,
    faults: map<nat, Extraction.CopyFault>)

  /** The index file is part 0 of the archive: whatever can be read as an
      index can also be opened as a part. */
  predicate WellFormed(env: Environment) {
    forall p :: p in env.archives ==> p in env.parts
  }

  /** How the program ends: an option the library rejects, the usage text,
      a pattern that does not compile, an index file that cannot be opened,
      or a run of the loop with the manifest's path and header. */
  datatype Outcome =
    | OptionError(message: string)
    | Usage
    | InvalidPattern(pattern: string)
    | MissingIndex(path: string)
    | Extracted(manifestPath: string, header: Manifest.Header, run: Extraction.Run)

  /** `Endian.ToString().ToLowerInvariant()`. */
  function EndianName(e: Endian): string {
    match e
    case Little => "little"
    case Big => "big"
  }

  /** Lines 130-132: the attributes of the `files` element. */
  function HeaderOf(a: Archive): (h: Manifest.Header)
    ensures h.endian == "little" <==> a.endian == Little
    ensures h.endian == "big" <==> a.endian == Big
    ensures |h.alignment| == 8 && Hex.AllHexDigits(h.alignment) && Hex.Value(h.alignment) == a.alignment
    ensures h.basePath == a.basePath
  {
    Manifest.Header(EndianName(a.endian), a.basePath, Hex.X8(a.alignment))
  }

  /** Lines 97-101: a pattern is compiled only when it is given and not empty. */
  function FilterOf(pattern: Option<string>, compile: string -> Option<string -> bool>): Result<Option<string -> bool>, string> {
    match pattern
    case None => Success(None)
    case Some(p) =>
      if p == "" then Success(None)
      else match compile(p)
        case None => Failure(p)
        case Some(f) => Success(Some(f))
  }

  function ContextOf(o: CommandLine.Options, inv: CommandLine.Invocation, filter: Option<string -> bool>,
                     a: Archive, env: Environment): Extraction.Context
  {
    Extraction.Context(inv.inputPath, inv.outputPath, o.selection, o.overwrite, filter, a.alignment,
                       env.names, env.detect, env.parts, env.faults)
  }

  /** The program's outcome for the arguments `args`. */
  function Unpacked(args: seq<CommandLine.Arg>, env: Environment): Outcome {
    match CommandLine.Parse(args)
    case Failure(m) => OptionError(m)
    case Success(o) =>
      match CommandLine.CheckArguments(o)
      case None => Usage
      case Some(inv) =>
        match FilterOf(o.filterPattern, env.compile)
        case Failure(p) => InvalidPattern(p)
        case Success(filter) =>
          if inv.inputPath !in env.archives then MissingIndex(inv.inputPath)
          else
            var a := env.archives[inv.inputPath];
            var ctx := ContextOf(o, inv, filter, a, env);
            Extracted(DotNetPath.Combine(inv.outputPath, "bigfile.xml"), HeaderOf(a),
                      Extraction.Extract(ctx, Extraction.VisitingOrder(a.entries), env.disk))
  }

  lemma UnpackedExtracted(args: seq<CommandLine.Arg>, env: Environment, o: CommandLine.Options,
                          inv: CommandLine.Invocation, filter: Option<string -> bool>)
    requires CommandLine.Parse(args) == Success(o) && CommandLine.CheckArguments(o) == Some(inv)
    requires FilterOf(o.filterPattern, env.compile) == Success(filter)
    requires inv.inputPath in env.archives
    ensures var a := env.archives[inv.inputPath];
      Unpacked(args, env) ==
        Extracted(DotNetPath.Combine(inv.outputPath, "bigfile.xml"), HeaderOf(a),
                  Extraction.Extract(ContextOf(o, inv, filter, a, env), Extraction.VisitingOrder(a.entries), env.disk))
  {
  }

  /** The entry point as the program runs it. */
  method Unpack(args: seq<CommandLine.Arg>, env: Environment) returns (r: Outcome)
    ensures r == Unpacked(args, env)
  {
    var parsed := CommandLine.Parse(args);
    if parsed.Failure? {
      return OptionError(parsed.error);
    }
    var options := parsed.value;
    var invocation := CommandLine.CheckArguments(options);
    if invocation.None? {
      return Usage;
    }
    var inputPath := invocation.value.inputPath;
    var outputPath := invocation.value.outputPath;
    var filter: Option<string -> bool> := None;
    if options.filterPattern.Some? && options.filterPattern.value != "" {
      var compiled := env.compile(options.filterPattern.value);
      if compiled.None? {
        return InvalidPattern(options.filterPattern.value);
      }
      filter := compiled;
    }
    assert FilterOf(options.filterPattern, env.compile) == Success(filter);
    if inputPath !in env.archives {
      return MissingIndex(inputPath);
    }
    var big := env.archives[inputPath];
    var ctx := ContextOf(options, invocation.value, filter, big, env);
    UnpackedExtracted(args, env, options, invocation.value, filter);
    var run := Extraction.ExtractEntries(ctx, Extraction.VisitingOrder(big.entries), env.disk);
    r := Extracted(DotNetPath.Combine(outputPath, "bigfile.xml"), HeaderOf(big), run);
  }

  /** The options decide how the program ends before any file is read: a
      rejected option ends it with the library's message, the usage text is
      shown exactly when the positional arguments or the help switch ask for
      it, a pattern that does not compile ends it before the index file is
      opened, an index file that cannot be opened ends it next, and otherwise
      the extraction starts, from an index file named "*.000". */
  lemma ArgumentOutcomes(args: seq<CommandLine.Arg>, env: Environment)
    ensures Unpacked(args, env).OptionError? <==> CommandLine.Parse(args).Failure?
    ensures Unpacked(args, env).Usage? <==>
      && CommandLine.Parse(args).Success?
      && var o := CommandLine.Parse(args).value;
         (|o.extras| < 1 || |o.extras| > 2 || o.showHelp || DotNetPath.GetExtension(o.extras[0]) != ".000")
    ensures Unpacked(args, env).InvalidPattern? ==>
      var p := Unpacked(args, env).pattern;
      && CommandLine.Parse(args).value.filterPattern == Some(p)
      && p != "" && env.compile(p).None?
    ensures Unpacked(args, env).InvalidPattern? <==>
      && CommandLine.Parse(args).Success?
      && CommandLine.CheckArguments(CommandLine.Parse(args).value).Some?
      && var o := CommandLine.Parse(args).value;
         o.filterPattern.Some? && o.filterPattern.value != "" && env.compile(o.filterPattern.value).None?
    ensures Unpacked(args, env).MissingIndex? <==>
      && CommandLine.Parse(args).Success?
      && CommandLine.CheckArguments(CommandLine.Parse(args).value).Some?
      && var o := CommandLine.Parse(args).value;
         FilterOf(o.filterPattern, env.compile).Success? && o.extras[0] !in env.archives
    ensures Unpacked(args, env).MissingIndex? ==> Unpacked(args, env).path == CommandLine.Parse(args).value.extras[0]
    ensures Unpacked(args, env).Extracted? <==>
      && CommandLine.Parse(args).Success?
      && CommandLine.CheckArguments(CommandLine.Parse(args).value).Some?
      && var o := CommandLine.Parse(args).value;
         FilterOf(o.filterPattern, env.compile).Success? && o.extras[0] in env.archives
    ensures Unpacked(args, env).Extracted? ==>
      var o := CommandLine.Parse(args).value;
      var input := o.extras[0];
      && CommandLine.Parse(args).Success? && 1 <= |o.extras| <= 2 && !o.showHelp
      && |input| >= 4 && input[|input| - 4..] == ".000" && input in env.archives
  {
    match CommandLine.Parse(args)
    case Failure(_) =>
    case Success(o) =>
      match CommandLine.CheckArguments(o)
      case None =>
      case Some(inv) =>
        assert inv.inputPath == o.extras[0];
  }

  /** The context of the loop for arguments that reach it. */
  function LoopContext(args: seq<CommandLine.Arg>, env: Environment): Extraction.Context
    requires Unpacked(args, env).Extracted?
  {
    var o := CommandLine.Parse(args).value;
    var inv := CommandLine.CheckArguments(o).value;
    ContextOf(o, inv, FilterOf(o.filterPattern, env.compile).value, env.archives[inv.inputPath], env)
  }

  /** An extraction reads the index's own table in offset order: it divides
      by zero exactly when the table has an entry and alignment is below
      2048, and when nothing is raised it opens each part once, in ascending
      order, and writes the annotated manifest of the extracted entries. */
  lemma ExtractionOutcome(args: seq<CommandLine.Arg>, env: Environment)
    requires Unpacked(args, env).Extracted?
    ensures var ctx := LoopContext(args, env);
      var a := env.archives[ctx.inputPath];
      var vs := Extraction.VisitingOrder(a.entries);
      var run := Unpacked(args, env).run;
      && run == Extraction.Extract(ctx, vs, env.disk)
      && (run.status == Extraction.DivideByZero <==> a.entries != [] && a.alignment < 2048)
      && (run.status == Extraction.NoError ==>
            var qs := ExtractionLaws.Collapse(ExtractionLaws.PartsOf(ctx, vs));
            && run.state.events == ExtractionLaws.Sessions(qs)
            && (forall i, j :: 0 <= i < j < |qs| ==> qs[i] < qs[j])
            && run.state.manifest == Manifest.Annotate(ExtractionLaws.PlannedOf(ctx, vs)))
      && (WellFormed(env) && run.status.MissingPart? ==>
            && run.status.path != ctx.inputPath
            && exists n: nat :: n > 0 && run.status.path == BlockLayout.PartPath(ctx.inputPath, n))
  {
    var ctx := LoopContext(args, env);
    var a := env.archives[ctx.inputPath];
    var vs := Extraction.VisitingOrder(a.entries);
    var o := CommandLine.Parse(args).value;
    var inv := CommandLine.CheckArguments(o).value;
    UnpackedExtracted(args, env, o, inv, FilterOf(o.filterPattern, env.compile).value);
    ExtractionLaws.RunStatus(ctx, vs, env.disk);
    var run := Extraction.Extract(ctx, vs, env.disk);
    if run.status == Extraction.NoError {
      ExtractionLaws.EachPartOpenedOnce(ctx, a.entries, env.disk);
      ExtractionLaws.ManifestOfRun(ctx, vs, env.disk);
    }
    if WellFormed(env) && run.status.MissingPart? {
      MissingLaterPart(ctx, vs, run.status.path);
    }
  }

  /** A missing part is never the index file itself when that file can be
      opened as a part. */
  lemma MissingLaterPart(ctx: Extraction.Context, vs: seq<Extraction.Entry>, path: string)
    requires DotNetPath.GetExtension(ctx.inputPath) == ".000" && ctx.inputPath in ctx.parts
    requires exists i :: 0 <= i < |vs| && ExtractionLaws.MissingFor(ctx, vs[i], path)
    ensures path != ctx.inputPath
    ensures exists n: nat :: n > 0 && path == BlockLayout.PartPath(ctx.inputPath, n)
  {
    var i :| 0 <= i < |vs| && ExtractionLaws.MissingFor(ctx, vs[i], path);
    var a := BlockLayout.Translate(vs[i].offset, ctx.alignment).value;
    BlockLayout.PartPathShape(ctx.inputPath, a.part);
    assert a.part > 0;
  }
}
