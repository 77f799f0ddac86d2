/** The parts of `System.IO.Path` (.NET Framework, Windows) that the extractor
    relies on: `Combine`, `IsPathRooted`, `GetExtension` and `ChangeExtension`.
    The directory separator is '\', the alternative separator '/', the volume
    separator ':'. Invalid-character checks are not modelled. */
module DotNetPath {
  import opened Types

  const DirectorySeparator: char := '\\'

  /** The characters that end the search for an extension and that make
      `Combine` add no separator of its own. */
  predicate IsSeparator(c: char) {
    c == '\\' || c == '/' || c == ':'
  }

  /** `Path.IsPathRooted`: a leading separator or a drive letter. */
  predicate IsRooted(p: string) {
    (|p| >= 1 && (p[0] == '\\' || p[0] == '/')) || (|p| >= 2 && p[1] == ':')
  }

  /** `Path.Combine(a, b)`. */
  function Combine(a: string, b: string): (r: string)
    ensures |b| == 0 ==> r == a
    ensures |b| > 0 ==> |r| >= |b| && r[|r| - |b|..] == b
    ensures |b| > 0 && IsRooted(b) ==> r == b
    ensures |a| == 0 ==> r == b
    ensures |a| > 0 && |b| > 0 && !IsRooted(b) ==>
      r == a + (if IsSeparator(a[|a| - 1]) then "" else [DirectorySeparator]) + b
  {
    if |b| == 0 then a
    else if |a| == 0 then b
    else if IsRooted(b) then b
    else if IsSeparator(a[|a| - 1]) then a + b
    else a + [DirectorySeparator] + b
  }

  predicate NoDotOrSeparator(p: string, lo: nat, hi: nat)
    requires lo <= hi <= |p|
  {
    forall k :: lo <= k < hi ==> p[k] != '.' && !IsSeparator(p[k])
  }

  /** `p[d]` is a '.' that no dot or separator follows before `i`. */
  predicate DotStartsExtension(p: string, d: nat, i: nat)
    requires d < i <= |p|
  {
    p[d] == '.' && NoDotOrSeparator(p, d + 1, i)
  }

  /** Position of the '.' that starts the extension of `p[..i]`: the last
      '.' that no separator follows. */
  function ExtensionDot(p: string, i: nat): (r: Option<nat>)
    requires i <= |p|
    ensures r.Some? ==> r.value < i && p[r.value] == '.' && NoDotOrSeparator(p, r.value + 1, i)
    ensures r.None? ==> forall d :: 0 <= d < i ==> !DotStartsExtension(p, d, i)
  {
    if i == 0 then None
    else if p[i - 1] == '.' then Some(i - 1)
    else if IsSeparator(p[i - 1]) then NoDotBeforeSeparator(p, i); None
    else
      var r := ExtensionDot(p, i - 1);
      if r.None? then NoDotBeforePlain(p, i - 1, i); r else r
  }

  /** Extending the range by one character keeps a dot that starts an
      extension exactly when that character is neither a dot nor a separator. */
  lemma DotStartsExtensionShrink(p: string, d: nat, i: nat)
    requires d < i - 1 && i <= |p|
    ensures DotStartsExtension(p, d, i) <==>
      DotStartsExtension(p, d, i - 1) && p[i - 1] != '.' && !IsSeparator(p[i - 1])
  {
  }

  lemma NoDotBeforeSeparator(p: string, i: nat)
    requires 0 < i <= |p| && IsSeparator(p[i - 1])
    ensures forall d :: 0 <= d < i ==> !DotStartsExtension(p, d, i)
  {
    forall d | 0 <= d < i - 1 {
      DotStartsExtensionShrink(p, d, i);
    }
  }

  lemma NoDotBeforePlain(p: string, j: nat, i: nat)
    requires i == j + 1 && i <= |p| && p[j] != '.'
    requires forall d :: 0 <= d < j ==> !DotStartsExtension(p, d, j)
    ensures forall d :: 0 <= d < i ==> !DotStartsExtension(p, d, i)
  {
    forall d | 0 <= d < j {
      DotStartsExtensionShrink(p, d, i);
    }
  }

  /** `Path.GetExtension(p)`: from the extension dot to the end, or empty
      when there is no dot or the dot is the last character. */
  function GetExtension(p: string): (r: string)
    ensures r == "" || (|r| >= 2 && |r| <= |p| && r[0] == '.' && r == p[|p| - |r|..])
    ensures r != "" ==> NoDotOrSeparator(p, |p| - |r| + 1, |p|)
    ensures r == "" ==> forall d :: 0 <= d < |p| - 1 ==> !DotStartsExtension(p, d, |p|)
  {
    match ExtensionDot(p, |p|)
    case None => ""
    case Some(d) => if d != |p| - 1 then p[d..] else ""
  }

  /** `p` up to its extension dot, or all of `p` when it has none. */
  function Stem(p: string): string {
    match ExtensionDot(p, |p|)
    case None => p
    case Some(d) => p[..d]
  }

  /** The stem is a prefix of the path. When it is shorter, a '.' follows it
      and no dot or separator comes after that '.'. When it is the whole
      path, the path has no such dot. */
  lemma StemShape(p: string)
    ensures var s := Stem(p);
      && |s| <= |p| && s == p[..|s|]
      && (|s| < |p| ==> p[|s|] == '.' && NoDotOrSeparator(p, |s| + 1, |p|))
      && (|s| == |p| ==> forall d :: 0 <= d < |p| ==> !DotStartsExtension(p, d, |p|))
  {
  }

  /** A path is its stem followed by its extension. */
  lemma StemThenExtension(p: string)
    ensures GetExtension(p) != "" ==> Stem(p) + GetExtension(p) == p
  {
  }

  /** `Path.ChangeExtension(p, ext)`, with `None` standing for a null extension
      (which removes the extension). */
  function ChangeExtension(p: string, ext: Option<string>): string {
    var stem := Stem(p);
    if ext.Some? && |p| != 0 then
      (if |ext.value| == 0 || ext.value[0] != '.' then stem + "." else stem) + ext.value
    else stem
  }

  /** Without a new extension, or for the empty path, the result is the stem;
      otherwise the stem, one '.', and the new extension. */
  lemma ChangeExtensionShape(p: string, ext: Option<string>)
    ensures var r := ChangeExtension(p, ext);
      && (ext.None? || |p| == 0 ==> r == Stem(p))
      && (ext.Some? && |p| > 0 ==>
            r == Stem(p) + (if |ext.value| > 0 && ext.value[0] == '.' then "" else ".") + ext.value)
  {
  }

  /** Reading back an extension just given: a '.' followed by at least one
      character, none of them a dot or a separator. */
  lemma ChangeThenGetExtension(p: string, x: string)
    requires |p| > 0 && |x| >= 2 && x[0] == '.' && NoDotOrSeparator(x, 1, |x|)
    ensures GetExtension(ChangeExtension(p, Some(x))) == x
  {
    var a := Stem(p);
    var r := a + x;
    assert ChangeExtension(p, Some(x)) == r;
    ExtensionDotOfSuffix(a, x, |x|);
    assert r[|a|..] == x;
  }

  lemma {:induction false} ExtensionDotOfSuffix(a: string, x: string, i: nat)
    requires |x| >= 1 && x[0] == '.' && NoDotOrSeparator(x, 1, |x|)
    requires 1 <= i <= |x|
    ensures ExtensionDot(a + x, |a| + i) == Some(|a|)
  {
    var r := a + x;
    if i == 1 {
      assert r[|a|] == '.';
    } else {
      assert r[|a| + i - 1] == x[i - 1];
      ExtensionDotOfSuffix(a, x, i - 1);
    }
  }

  /** The check of an index path: its extension is ".000" exactly when it
      ends in ".000". */
  lemma IndexExtensionIsSuffix(p: string)
    ensures GetExtension(p) == ".000" <==> |p| >= 4 && p[|p| - 4..] == ".000"
  {
    if |p| >= 4 && p[|p| - 4..] == ".000" {
      var n := |p|;
      assert p[n - 1] == '0' && p[n - 2] == '0' && p[n - 3] == '0' && p[n - 4] == '.';
      assert ExtensionDot(p, n - 3) == Some(n - 4);
      assert ExtensionDot(p, n - 2) == ExtensionDot(p, n - 3);
      assert ExtensionDot(p, n - 1) == ExtensionDot(p, n - 2);
      assert ExtensionDot(p, n) == ExtensionDot(p, n - 1);
    }
  }

  /** A path whose extension is ".000" ends in ".000"; removing its extension
      removes those four characters, and changing it replaces them. */
  lemma IndexPathExtension(p: string, x: string)
    requires GetExtension(p) == ".000"
    requires |x| > 0 && x[0] == '.'
    ensures |p| >= 4 && p[|p| - 4..] == ".000"
    ensures ChangeExtension(p, None) == p[..|p| - 4]
    ensures ChangeExtension(p, Some(x)) == p[..|p| - 4] + x
  {
    var d := ExtensionDot(p, |p|).value;
    assert p[d..] == ".000";
  }

  lemma {:induction false} NoDotNoExtension(p: string, i: nat)
    requires i <= |p|
    requires forall k :: 0 <= k < i ==> p[k] != '.'
    ensures ExtensionDot(p, i).None?
  {
  }

  /** Giving a dot-free name an extension appends it. */
  lemma ChangeExtensionOfPlainName(p: string, x: string)
    requires |p| > 0 && forall k :: 0 <= k < |p| ==> p[k] != '.'
    requires |x| > 0 && x[0] == '.'
    ensures ChangeExtension(p, Some(x)) == p + x
  {
    NoDotNoExtension(p, |p|);
  }
}
