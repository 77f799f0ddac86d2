/** The manifest `bigfile.xml` (Program.cs lines 124-132, 237-250): a header,
    then one `entry` element per extracted entry, with a comment naming the
    locale wherever a new run of one locale starts. XML syntax, indentation
    and the locale's enum name inside the comment are not modelled. */
module Manifest {
  import opened Types
  import Hex

  /** The attributes of the `files` element. */
  datatype Header = Header(endian: string, basePath: string, alignment: string)

  /** An entry that the selection and the filter let through, with its
      composed name. */
  datatype Planned = Planned(hash: uint32, locale: uint32, name: string)

  /** What the writer emits inside `files`, hash and locale as written (X8). */
  datatype Item =
    | LocaleComment(locale: string)
    | Record(hash: string, locale: string, name: string)

  function RecordOf(p: Planned): Item {
    Record(Hex.X8(p.hash), Hex.X8(p.locale), p.name)
  }

  /** Record `j` is the first record or has a different locale than record `j - 1`. */
  predicate StartsRun(ps: seq<Planned>, j: nat)
    requires j < |ps|
  {
    j == 0 || ps[j - 1].locale != ps[j].locale
  }

  /** The items for the records `ps`: each record, preceded by a comment with
      its locale where it starts a run. */
  function Annotate(ps: seq<Planned>): seq<Item>
  {
    if ps == [] then []
    else
      var n := |ps| - 1;
      Annotate(ps[..n]) +
      (if StartsRun(ps, n) then [LocaleComment(Hex.X8(ps[n].locale))] else []) +
      [RecordOf(ps[n])]
  }

  /** The records of a list of items, comments dropped. */
  function Records(items: seq<Item>): (r: seq<Item>)
    ensures forall i :: 0 <= i < |r| ==> r[i].Record?
  {
    if items == [] then []
    else (if items[0].Record? then [items[0]] else []) + Records(items[1..])
  }

  lemma {:induction false} RecordsAppend(a: seq<Item>, b: seq<Item>)
    ensures Records(a + b) == Records(a) + Records(b)
  {
    if a != [] {
      assert (a + b)[1..] == a[1..] + b;
      RecordsAppend(a[1..], b);
    } else {
      assert a + b == b;
    }
  }

  /** Dropping the comments gives back one record per planned entry, in order. */
  lemma {:induction false} AnnotateRecords(ps: seq<Planned>)
    ensures Records(Annotate(ps)) == seq(|ps|, j requires 0 <= j < |ps| => RecordOf(ps[j]))
  {
    if ps != [] {
      var n := |ps| - 1;
      AnnotateRecords(ps[..n]);
      var c: seq<Item> := if StartsRun(ps, n) then [LocaleComment(Hex.X8(ps[n].locale))] else [];
      assert Annotate(ps) == Annotate(ps[..n]) + c + [RecordOf(ps[n])];
      RecordsSnoc(Annotate(ps[..n]), c, RecordOf(ps[n]));
      RecordSeqSnoc(ps);
    }
  }

  /** A record after comments adds just that record. */
  lemma RecordsSnoc(a: seq<Item>, c: seq<Item>, r: Item)
    requires c == [] || (|c| == 1 && c[0].LocaleComment?)
    requires r.Record?
    ensures Records(a + c + [r]) == Records(a) + [r]
  {
    RecordsAppend(a + c, [r]);
    RecordsAppend(a, c);
    assert Records(c) == [];
    assert Records([r]) == [r];
  }

  lemma RecordSeqSnoc(ps: seq<Planned>)
    requires ps != []
    ensures var n := |ps| - 1;
      seq(|ps|, j requires 0 <= j < |ps| => RecordOf(ps[j])) ==
      seq(n, j requires 0 <= j < n => RecordOf(ps[..n][j])) + [RecordOf(ps[n])]
  {
  }

  /** Comments stand exactly at locale boundaries: the first item is a
      comment, every comment is followed by a record of its locale and
      preceded (unless first) by a record of another locale, and two adjacent
      records share their locale. */
  ghost predicate WellPlaced(items: seq<Item>) {
    && (items != [] ==> items[0].LocaleComment?)
    && (forall i :: 0 <= i < |items| && items[i].LocaleComment? ==>
          i + 1 < |items| && items[i + 1].Record? && items[i + 1].locale == items[i].locale)
    && (forall i :: 0 < i < |items| && items[i].LocaleComment? ==>
          items[i - 1].Record? && items[i - 1].locale != items[i].locale)
    && (forall i :: 0 < i < |items| && items[i].Record? && items[i - 1].Record? ==>
          items[i - 1].locale == items[i].locale)
  }

  /** Opening a new run: a comment and a record of a locale the last record does not have. */
  lemma AppendRunStart(prev: seq<Item>, c: Item, r: Item)
    requires WellPlaced(prev)
    requires c.LocaleComment? && r.Record? && c.locale == r.locale
    requires prev != [] ==> prev[|prev| - 1].Record? && prev[|prev| - 1].locale != c.locale
    ensures WellPlaced(prev + [c, r])
  {
    var items := prev + [c, r];
    var n := |prev|;
    assert items[n] == c && items[n + 1] == r;
    forall i | 0 <= i < |items| && items[i].LocaleComment?
      ensures i + 1 < |items| && items[i + 1].Record? && items[i + 1].locale == items[i].locale
    {
      if i < n {
        assert items[i] == prev[i];
        if i + 1 < n { assert items[i + 1] == prev[i + 1]; }
      }
    }
    forall i | 0 < i < |items| && items[i].LocaleComment?
      ensures items[i - 1].Record? && items[i - 1].locale != items[i].locale
    {
      if i < n { assert items[i] == prev[i] && items[i - 1] == prev[i - 1]; }
      else if i == n { assert items[i - 1] == prev[n - 1]; }
    }
    forall i | 0 < i < |items| && items[i].Record? && items[i - 1].Record?
      ensures items[i - 1].locale == items[i].locale
    {
      if i < n { assert items[i] == prev[i] && items[i - 1] == prev[i - 1]; }
    }
  }

  /** Continuing a run: a record of the locale the last record has. */
  lemma AppendRunContinued(prev: seq<Item>, r: Item)
    requires WellPlaced(prev)
    requires r.Record? && prev != [] && prev[|prev| - 1].Record? && prev[|prev| - 1].locale == r.locale
    ensures WellPlaced(prev + [r])
  {
    var items := prev + [r];
    var n := |prev|;
    assert items[n] == r;
    forall i | 0 <= i < |items| && items[i].LocaleComment?
      ensures i + 1 < |items| && items[i + 1].Record? && items[i + 1].locale == items[i].locale
    {
      assert i < n && items[i] == prev[i];
      if i + 1 < n { assert items[i + 1] == prev[i + 1]; }
    }
    forall i | 0 < i < |items| && items[i].LocaleComment?
      ensures items[i - 1].Record? && items[i - 1].locale != items[i].locale
    {
      assert i < n && items[i] == prev[i] && items[i - 1] == prev[i - 1];
    }
    forall i | 0 < i < |items| && items[i].Record? && items[i - 1].Record?
      ensures items[i - 1].locale == items[i].locale
    {
      if i < n { assert items[i] == prev[i] && items[i - 1] == prev[i - 1]; }
      else { assert items[i - 1] == prev[n - 1]; }
    }
  }

  lemma {:induction false} AnnotateWellPlaced(ps: seq<Planned>)
    ensures WellPlaced(Annotate(ps))
    ensures ps != [] ==> Annotate(ps) != [] && Annotate(ps)[|Annotate(ps)| - 1] == RecordOf(ps[|ps| - 1])
  {
    if ps != [] {
      var n := |ps| - 1;
      AnnotateWellPlaced(ps[..n]);
      if n > 0 {
        assert ps[..n][n - 1] == ps[n - 1];
      }
      AnnotateStep(ps, Annotate(ps[..n]));
    }
  }

  /** One more record keeps the comments well placed. */
  lemma AnnotateStep(ps: seq<Planned>, prev: seq<Item>)
    requires ps != [] && prev == Annotate(ps[..|ps| - 1]) && WellPlaced(prev)
    requires |ps| > 1 ==> prev != [] && prev[|prev| - 1] == RecordOf(ps[|ps| - 2])
    requires |ps| == 1 ==> prev == []
    ensures WellPlaced(Annotate(ps)) && Annotate(ps) != [] && Annotate(ps)[|Annotate(ps)| - 1] == RecordOf(ps[|ps| - 1])
  {
    var n := |ps| - 1;
    var r := RecordOf(ps[n]);
    if n > 0 {
      Hex.X8Injective(ps[n - 1].locale, ps[n].locale);
    }
    if StartsRun(ps, n) {
      var c := LocaleComment(Hex.X8(ps[n].locale));
      assert Annotate(ps) == prev + [c, r];
      AppendRunStart(prev, c, r);
    } else {
      assert Annotate(ps) == prev + [r];
      AppendRunContinued(prev, r);
    }
  }
}
