/** The option handling of the extractor's entry point (Program.cs lines 44-95):
    the options each argument sets, and the check of the positional arguments
    that yields the input index file and the output directory. Tokenising the
    command line is the option library's job; the model starts from its tokens. */
module CommandLine {
  import opened Types
  import DotNetPath

  /** The tri-state `bool? extractUnknowns`: null, false and true. */
  datatype UnknownSelection = IncludeAll | KnownOnly | UnknownOnly

  datatype Switch = Overwrite | NoUnknowns | OnlyUnknowns | Verbose | Help

  datatype Setting = FilterPattern | Project

  /** One token as the option library hands it over. */
  datatype Arg =
    | Flag(switch: Switch, enabled: bool)    // "-nu" (enabled) or "-nu-" (the value is null)
    | Value(setting: Setting, text: string)  // "-f pattern", "-p name"
    | Extra(text: string)                    // anything that is not an option
    | Rejected(message: string)              // the library raises OptionException

  datatype Options = Options(
    showHelp: bool,
    selection: UnknownSelection,
    overwrite: bool,
    verbose: bool,
    project: Option<string>,
    filterPattern: Option<string>,
    extras: seq<string>)

  const Defaults: Options := Options(false, IncludeAll, false, true, None, None, [])

  /** The callback of the option an argument names. `-nu-` and `-ou-` leave
      the selection as it was. */
  function Apply(o: Options, a: Arg): Options
    requires !a.Rejected?
  {
    match a
    case Flag(Overwrite, on) => o.(overwrite := on)
    case Flag(NoUnknowns, on) => if on then o.(selection := KnownOnly) else o
    case Flag(OnlyUnknowns, on) => if on then o.(selection := UnknownOnly) else o
    case Flag(Verbose, on) => o.(verbose := on)
    case Flag(Help, on) => o.(showHelp := on)
    case Value(FilterPattern, v) => o.(filterPattern := Some(v))
    case Value(Project, v) => o.(project := Some(v))
    case Extra(t) => o.(extras := o.extras + [t])
  }

  /** `options.Parse(args)`: the arguments applied in order, or the message
      of the first one the library rejects. */
  function Parse(args: seq<Arg>): Result<Options, string>
  {
    if args == [] then Success(Defaults)
    else
      var last := args[|args| - 1];
      match Parse(args[..|args| - 1])
      case Failure(m) => Failure(m)
      case Success(o) => if last.Rejected? then Failure(last.message) else Success(Apply(o, last))
  }

  /** An argument that sets the selection: `-nu` or `-ou` with a value. */
  predicate Selects(a: Arg) {
    a.Flag? && a.enabled && (a.switch == NoUnknowns || a.switch == OnlyUnknowns)
  }

  /** `args[k]` is `Flag(s, true)` and no later argument sets the selection. */
  ghost predicate LastSelectionAt(args: seq<Arg>, k: int, s: Switch) {
    0 <= k < |args| && args[k] == Flag(s, true) &&
    forall j :: k < j < |args| ==> !Selects(args[j])
  }

  ghost predicate SelectionFollows(args: seq<Arg>, sel: UnknownSelection) {
    && (sel == IncludeAll <==> forall j :: 0 <= j < |args| ==> !Selects(args[j]))
    && (sel == KnownOnly <==> exists k :: LastSelectionAt(args, k, NoUnknowns))
    && (sel == UnknownOnly <==> exists k :: LastSelectionAt(args, k, OnlyUnknowns))
  }

  /** The selection is decided by the last `-nu`/`-ou` that carries a value,
      and is "include all" when there is none. */
  lemma {:induction false} SelectionIsLastWins(args: seq<Arg>)
    requires Parse(args).Success?
    ensures SelectionFollows(args, Parse(args).value.selection)
  {
    if args != [] {
      var n := |args| - 1;
      var init := args[..n];
      SelectionIsLastWins(init);
      var o := Parse(init).value;
      assert Parse(args).value == Apply(o, args[n]);
      var sel := Parse(args).value.selection;
      if Selects(args[n]) {
        var s := args[n].switch;
        assert LastSelectionAt(args, n, s);
        forall k | 0 <= k < n
          ensures !LastSelectionAt(args, k, NoUnknowns) && !LastSelectionAt(args, k, OnlyUnknowns)
        {
          assert Selects(args[n]);
        }
        if s == NoUnknowns {
          assert !LastSelectionAt(args, n, OnlyUnknowns);
        } else {
          assert !LastSelectionAt(args, n, NoUnknowns);
        }
      } else {
        assert sel == o.selection;
        forall k, s | 0 <= k < n
          ensures LastSelectionAt(args, k, s) <==> LastSelectionAt(init, k, s)
        {
          assert forall j :: k < j < n ==> args[j] == init[j];
        }
        assert !LastSelectionAt(args, n, NoUnknowns) && !LastSelectionAt(args, n, OnlyUnknowns);
        assert (forall j :: 0 <= j < |args| ==> !Selects(args[j])) <==>
               (forall j :: 0 <= j < n ==> !Selects(init[j]));
        if sel == KnownOnly {
          var k :| LastSelectionAt(init, k, NoUnknowns);
          assert LastSelectionAt(args, k, NoUnknowns);
        }
        if sel == UnknownOnly {
          var k :| LastSelectionAt(init, k, OnlyUnknowns);
          assert LastSelectionAt(args, k, OnlyUnknowns);
        }
      }
    }
  }

  /** Parsing fails exactly when some argument is rejected, and then with the
      message of the first such argument. */
  lemma {:induction false} ParseFailsAtFirstRejected(args: seq<Arg>)
    ensures Parse(args).Failure? <==> exists k :: 0 <= k < |args| && args[k].Rejected?
    ensures Parse(args).Failure? ==>
      exists k :: 0 <= k < |args| && args[k].Rejected? && Parse(args).error == args[k].message &&
        forall j :: 0 <= j < k ==> !args[j].Rejected?
  {
    if args != [] {
      var n := |args| - 1;
      var init := args[..n];
      ParseFailsAtFirstRejected(init);
      assert forall j :: 0 <= j < n ==> args[j] == init[j];
      if Parse(init).Success? && args[n].Rejected? {
        assert forall j :: 0 <= j < n ==> !init[j].Rejected?;
      }
    }
  }

  datatype Invocation = Invocation(inputPath: string, outputPath: string)

  /** Lines 82-95: one or two positional arguments, no help request, and an
      input whose extension is ".000"; otherwise the usage text is shown.
      The output directory defaults to the input path without its extension
      followed by "_unpack". */
  function CheckArguments(o: Options): (r: Option<Invocation>)
    ensures r.Some? <==>
      1 <= |o.extras| <= 2 && !o.showHelp && DotNetPath.GetExtension(o.extras[0]) == ".000"
    ensures r.Some? ==>
      var input := r.value.inputPath;
      && input == o.extras[0]
      && |input| >= 4 && input[|input| - 4..] == ".000"
      && r.value.outputPath == if |o.extras| == 2 then o.extras[1] else input[..|input| - 4] + "_unpack"
    ensures r.Some? <==>
      1 <= |o.extras| <= 2 && !o.showHelp && |o.extras[0]| >= 4 && o.extras[0][|o.extras[0]| - 4..] == ".000"
  {
    if |o.extras| < 1 || |o.extras| > 2 || o.showHelp then None
    else
      var input := o.extras[0];
      DotNetPath.IndexExtensionIsSuffix(input);
      if DotNetPath.GetExtension(input) != ".000" then None
      else
        DotNetPath.IndexPathExtension(input, ".000");
        Some(Invocation(input, if |o.extras| > 1 then o.extras[1] else DotNetPath.ChangeExtension(input, None) + "_unpack"))
  }
}
