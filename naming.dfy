/** The relative name under which an entry is extracted (Program.cs lines
    171-226): a name from the hash list with its separators normalised, or a
    synthetic name for an unresolved hash, prefixed by a locale segment. */
module Naming {
  import opened Types
  import Hex
  import DotNetPath
  import CommandLine

  const UnknownDirectory: string := "__UNKNOWN"

  /** The locale of entries that are not localised. */
  const DefaultLocale: uint32 := 0xFFFF_FFFF

  /** `name.Replace("/", "\\")`. */
  function ReplaceSlashes(s: string): (r: string)
    ensures |r| == |s|
    ensures forall i :: 0 <= i < |s| ==> r[i] == if s[i] == '/' then '\\' else s[i]
  {
    if s == [] then [] else [if s[0] == '/' then '\\' else s[0]] + ReplaceSlashes(s[1..])
  }

  predicate IsSlash(c: char) {
    c == '/' || c == '\\'
  }

  /** Lines 212-216: forward slashes become back slashes, then one leading
      back slash is dropped. */
  function NormalizeKnownName(name: string): (r: string)
    ensures forall i :: 0 <= i < |r| ==> r[i] != '/'
    ensures |r| == if |name| > 0 && IsSlash(name[0]) then |name| - 1 else |name|
    ensures forall i :: 0 <= i < |r| ==>
      var c := name[i + |name| - |r|]; r[i] == if c == '/' then '\\' else c
  {
    var s := ReplaceSlashes(name);
    if |s| > 0 && s[0] == '\\' then s[1..] else s
  }

  /** Only one leading separator is removed: a normalised name still starts
      with one exactly when the hash list's name starts with two. */
  lemma NormalizedNameLeadingSeparator(name: string)
    ensures var r := NormalizeKnownName(name);
      (|r| > 0 && r[0] == '\\') <==> (|name| >= 2 && IsSlash(name[0]) && IsSlash(name[1]))
  {
  }

  /** Lines 199-202: "__UNKNOWN", the extension and the hash with that
      extension, joined with `Path.Combine`. */
  function UnknownName(hash: uint32, ext: string): (r: string)
    ensures PlainExtension(ext) ==> r == UnknownDirectory + "\\" + ext + "\\" + Hex.X8(hash) + "." + ext
    ensures ext == "" ==> r == UnknownDirectory + "\\" + Hex.X8(hash) + "."
  {
    var file := DotNetPath.ChangeExtension(Hex.X8(hash), Some("." + ext));
    var name := DotNetPath.Combine(UnknownDirectory, DotNetPath.Combine(ext, file));
    if PlainExtension(ext) then
      UnknownFileName(hash, "." + ext);
      UnknownPathShape(Hex.X8(hash), ext);
      name
    else if ext == "" then
      UnknownFileName(hash, ".");
      UnknownBareDot(Hex.X8(hash));
      assert "." + ext == ".";
      name
    else name
  }

  /** An extension that `Path.Combine` treats as an ordinary directory name. */
  predicate PlainExtension(ext: string) {
    |ext| > 0 && !DotNetPath.IsRooted(ext) && !DotNetPath.IsSeparator(ext[|ext| - 1])
  }

  lemma HexHasNoDot(hash: uint32)
    ensures forall k :: 0 <= k < |Hex.X8(hash)| ==> Hex.X8(hash)[k] != '.'
  {
    var h := Hex.X8(hash);
    assert forall k :: 0 <= k < |h| ==> Hex.IsHexDigit(h[k]);
  }

  /** For an ordinary extension the name is `__UNKNOWN\<ext>\<HASH>.<ext>`. */
  lemma UnknownPathShape(h: string, ext: string)
    requires PlainExtension(ext) && |h| > 0 && !DotNetPath.IsRooted(h + ("." + ext))
    ensures DotNetPath.Combine(UnknownDirectory, DotNetPath.Combine(ext, h + ("." + ext))) ==
      UnknownDirectory + "\\" + ext + "\\" + h + "." + ext
  {
    var t := ExtensionDirectory(ext, h + ("." + ext));
    CombinePlain(UnknownDirectory, t);
    ConcatShape(UnknownDirectory, ext, h);
  }

  /** Under an ordinary extension directory a relative file name stays
      relative. */
  lemma ExtensionDirectory(ext: string, file: string) returns (t: string)
    requires PlainExtension(ext) && |file| > 0 && !DotNetPath.IsRooted(file)
    ensures t == ext + "\\" + file && DotNetPath.Combine(ext, file) == t
    ensures |t| > 0 && !DotNetPath.IsRooted(t)
  {
    t := ext + "\\" + file;
    CombinePlain(ext, file);
    assert t[0] == ext[0] && (|ext| >= 2 ==> t[1] == ext[1]) && (|ext| == 1 ==> t[1] == '\\');
  }

  lemma ConcatShape(u: string, ext: string, h: string)
    ensures u + "\\" + (ext + "\\" + (h + ("." + ext))) == u + "\\" + ext + "\\" + h + "." + ext
  {
  }

  /** The file part of an unknown name: the hash with the extension appended,
      which starts with a hex digit and so is not rooted. */
  lemma UnknownFileName(hash: uint32, x: string)
    requires |x| > 0 && x[0] == '.'
    ensures DotNetPath.ChangeExtension(Hex.X8(hash), Some(x)) == Hex.X8(hash) + x
    ensures !DotNetPath.IsRooted(Hex.X8(hash) + x)
  {
    var h := Hex.X8(hash);
    HexHasNoDot(hash);
    DotNetPath.ChangeExtensionOfPlainName(h, x);
    var file := h + x;
    assert Hex.IsHexDigit(file[0]) && Hex.IsHexDigit(file[1]);
  }

  /** `Path.Combine` of two plain parts puts one separator between them. */
  lemma CombinePlain(a: string, b: string)
    requires |a| > 0 && !DotNetPath.IsSeparator(a[|a| - 1])
    requires |b| > 0 && !DotNetPath.IsRooted(b)
    ensures DotNetPath.Combine(a, b) == a + "\\" + b
  {
  }

  /** With an empty extension the name is `__UNKNOWN\<HASH>.`: the extension
      directory vanishes and the file name ends in a bare dot. */
  lemma UnknownBareDot(h: string)
    requires |h| > 0 && !DotNetPath.IsRooted(h + ".")
    ensures DotNetPath.Combine(UnknownDirectory, DotNetPath.Combine("", h + ".")) == UnknownDirectory + "\\" + h + "."
  {
    CombinePlain(UnknownDirectory, h + ".");
  }

  /** Lines 219-226: "default" for the default locale, else the locale in X8. */
  function LocaleSegment(locale: uint32): (r: string)
    ensures (r == "default") <==> (locale == DefaultLocale)
    ensures locale != DefaultLocale ==> |r| == 8 && Hex.AllHexDigits(r) && Hex.Value(r) == locale
  {
    if locale == DefaultLocale then "default" else Hex.X8(locale)
  }

  /** Different locales get different directories. */
  lemma LocaleSegmentInjective(a: uint32, b: uint32)
    ensures LocaleSegment(a) == LocaleSegment(b) <==> a == b
  {
    if a != b && a != DefaultLocale && b != DefaultLocale {
      Hex.X8Injective(a, b);
    }
  }

  /** Lines 219-226: a non-empty relative name is placed under the locale
      directory, a rooted one replaces it, an empty one leaves the directory. */
  function WithLocale(locale: uint32, name: string): (r: string)
    ensures |name| > 0 && !DotNetPath.IsRooted(name) ==> r == LocaleSegment(locale) + "\\" + name
    ensures |name| > 0 && DotNetPath.IsRooted(name) ==> r == name
    ensures name == "" ==> r == LocaleSegment(locale)
  {
    var seg := LocaleSegment(locale);
    if locale != DefaultLocale then
      assert Hex.IsHexDigit(seg[7]);
      DotNetPath.Combine(seg, name)
    else DotNetPath.Combine(seg, name)
  }

  /** `Path.Combine` discards the locale segment when the name is rooted,
      which a hash-list name starting with two separators produces. */
  lemma RootedNameLosesLocale(locale: uint32, name: string)
    requires |name| >= 2 && IsSlash(name[0]) && IsSlash(name[1])
    ensures WithLocale(locale, NormalizeKnownName(name)) == NormalizeKnownName(name)
    ensures NormalizeKnownName(name)[0] == '\\'
  {
    NormalizedNameLeadingSeparator(name);
  }

  /** Lines 171-226 without the type sniffing: the known name or, for an
      unresolved hash, the synthetic one built from the sniffed extension,
      each subject to the selection, and then placed under the locale. */
  function SelectedName(known: Option<string>, selection: CommandLine.UnknownSelection,
                        hash: uint32, locale: uint32, sniffed: string): Option<string>
  {
    match known
    case None =>
      if selection == CommandLine.KnownOnly then None
      else Some(WithLocale(locale, UnknownName(hash, sniffed)))
    case Some(n) =>
      if selection == CommandLine.UnknownOnly then None
      else Some(WithLocale(locale, NormalizeKnownName(n)))
  }

  /** The selection skips exactly the unresolved entries under "known only",
      exactly the resolved ones under "unknown only", and nothing otherwise. */
  lemma SelectionPolicy(known: Option<string>, selection: CommandLine.UnknownSelection,
                        hash: uint32, locale: uint32, sniffed: string)
    ensures SelectedName(known, selection, hash, locale, sniffed).None? <==>
      (known.None? && selection == CommandLine.KnownOnly) ||
      (known.Some? && selection == CommandLine.UnknownOnly)
    ensures selection == CommandLine.IncludeAll ==> SelectedName(known, selection, hash, locale, sniffed).Some?
  {
  }
}
