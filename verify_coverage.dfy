/**
 * verify-coverage: counts, for every chapter the catalog lists for a book,
 * how many baseline verses the target source renders with a non-blank value,
 * reports the chapters that miss some, and sums per book and over the run
 * with a percentage rounded to two decimals.
 */
module VerifyCoverage {
  import opened Common
  import opened Json
  import opened Store
  import opened Catalog

  // ---------------------------------------------------------------------
  // One chapter

  /** The baseline verses the target fills (`isFilled(tgt[String(v)])`). */
  function Filled(base: VerseMap, tgt: VerseMap): set<nat> {
    set v | v in base && NonBlank(Get(tgt, v))
  }

  /**
   * No more verses are filled than the baseline has, all of them exactly when
   * every baseline verse is filled, and none exactly when none is.
   */
  lemma FilledCount(base: VerseMap, tgt: VerseMap)
    ensures |Filled(base, tgt)| <= |base|
    ensures |Filled(base, tgt)| == |base| <==> forall v :: v in base ==> NonBlank(Get(tgt, v))
    ensures |Filled(base, tgt)| == 0 <==> forall v :: v in base ==> !NonBlank(Get(tgt, v))
  {
    var f := Filled(base, tgt);
    var rest := base.Keys - f;
    SubsetCard(f, base.Keys);
    if |f| == |base| {
      assert rest == {};
      forall v | v in base ensures NonBlank(Get(tgt, v)) {
        assert v !in rest;
      }
    }
    if |f| == 0 {
      assert f == {};
    } else {
      var v :| v in f;
    }
  }

  /** A subset is no larger than its superset, and what it leaves out makes up the difference. */
  lemma SubsetCard<T>(f: set<T>, keys: set<T>)
    requires f <= keys
    ensures |keys| == |f| + |keys - f|
  {
    assert keys == f + (keys - f);
    assert f * (keys - f) == {};
  }

  /** `have`: the number of baseline verses the target fills. */
  function Have(base: VerseMap, tgt: VerseMap): (n: nat)
    ensures n <= |base|
  {
    SubsetCard(Filled(base, tgt), base.Keys);
    |Filled(base, tgt)|
  }

  /** Only the target's values at baseline verses matter: verses outside the baseline never count. */
  lemma HaveBaselineOnly(base: VerseMap, tgt: VerseMap, tgt': VerseMap)
    requires forall v :: v in base ==> Get(tgt, v) == Get(tgt', v)
    ensures Have(base, tgt) == Have(base, tgt')
  {
    assert Filled(base, tgt) == Filled(base, tgt');
  }

  /**
   * The count loop of `verifyBook` over the baseline's verse numbers: `need`
   * is the number of baseline verses and `have` the number the target fills.
   */
  method CountChapter(base: VerseMap, tgt: VerseMap) returns (need: nat, have: nat)
    ensures need == |base|
    ensures have == Have(base, tgt)
  {
    var verses := KeyOrder(base);
    OrderCard(base, verses);
    need := |verses|;
    have := 0;
    for i := 0 to |verses|
      invariant have == CountIn(verses[..i], Filled(base, tgt))
    {
      assert verses[..i + 1][..i] == verses[..i];
      if NonBlank(Get(tgt, verses[i])) {
        have := have + 1;
      }
    }
    assert verses[..|verses|] == verses;
    CountInCard(verses, Filled(base, tgt));
    assert Elems(verses) * Filled(base, tgt) == Filled(base, tgt);
  }

  // ---------------------------------------------------------------------
  // One book

  /** A row of `lines`: chapter, verses needed, verses missing. */
  datatype Line = Line(ch: nat, need: nat, missing: nat)

  /** What `verifyBook` returns: the book's totals and a row per chapter. */
  datatype BookReport = BookReport(total: nat, filled: nat, lines: seq<Line>)

  /** The row of chapter `ch`. */
  function LineOf(kjvFiles: Files, files: Files, book: string, ch: nat): Line {
    var base := Load(kjvFiles, ChapterKey(book, ch));
    Line(ch, |base|, |base| - Have(base, Load(files, ChapterKey(book, ch))))
  }

  /** `verifyBook` over the chapter list, as a fold from the left. */
  function Coverage(kjvFiles: Files, files: Files, book: string, list: seq<nat>): BookReport
    decreases |list|
  {
    if list == [] then BookReport(0, 0, [])
    else
      var r := Coverage(kjvFiles, files, book, list[..|list| - 1]);
      var ch := list[|list| - 1];
      var base := Load(kjvFiles, ChapterKey(book, ch));
      var have := Have(base, Load(files, ChapterKey(book, ch)));
      BookReport(r.total + |base|, r.filled + have, r.lines + [LineOf(kjvFiles, files, book, ch)])
  }

  /** The missing verses of the rows, summed. */
  function MissingSum(lines: seq<Line>): nat
    decreases |lines|
  {
    if lines == [] then 0 else MissingSum(lines[..|lines| - 1]) + lines[|lines| - 1].missing
  }

  lemma {:induction false} MissingSumZero(lines: seq<Line>)
    ensures MissingSum(lines) == 0 <==> forall j :: 0 <= j < |lines| ==> lines[j].missing == 0
    decreases |lines|
  {
    if lines != [] {
      var init := lines[..|lines| - 1];
      MissingSumZero(init);
      if MissingSum(lines) == 0 {
        forall j | 0 <= j < |lines| ensures lines[j].missing == 0 {
          if j < |lines| - 1 { assert lines[j] == init[j]; }
        }
      } else if MissingSum(init) != 0 {
        var j :| 0 <= j < |init| && init[j].missing != 0;
        assert lines[j] == init[j];
      }
    }
  }

  /**
   * The report has one row per listed chapter, in list order, and the book's
   * totals are the rows' sums: the filled verses and the missing ones make up
   * the needed ones.
   */
  lemma {:induction false} CoverageLines(kjvFiles: Files, files: Files, book: string, list: seq<nat>)
    ensures var r := Coverage(kjvFiles, files, book, list);
      && |r.lines| == |list|
      && (forall j :: 0 <= j < |list| ==> r.lines[j] == LineOf(kjvFiles, files, book, list[j]))
      && r.total == r.filled + MissingSum(r.lines)
    decreases |list|
  {
    if list != [] {
      var init := list[..|list| - 1];
      CoverageLines(kjvFiles, files, book, init);
      var r := Coverage(kjvFiles, files, book, list);
      var ri := Coverage(kjvFiles, files, book, init);
      assert r.lines[..|r.lines| - 1] == ri.lines;
      forall j | 0 <= j < |list| ensures r.lines[j] == LineOf(kjvFiles, files, book, list[j]) {
        if j < |list| - 1 { assert list[j] == init[j]; }
      }
    }
  }

  /**
   * The book is complete, `bookFilled == bookTotal`, exactly when no row
   * misses a verse, and that is exactly when every baseline verse of every
   * listed chapter is filled; never are more verses filled than needed.
   */
  lemma CoverageComplete(kjvFiles: Files, files: Files, book: string, list: seq<nat>)
    ensures var r := Coverage(kjvFiles, files, book, list);
      && r.filled <= r.total
      && (r.filled == r.total <==> forall j :: 0 <= j < |r.lines| ==> r.lines[j].missing == 0)
      && (r.filled == r.total <==>
            forall ch, v :: ch in list && v in Load(kjvFiles, ChapterKey(book, ch))
              ==> NonBlank(Get(Load(files, ChapterKey(book, ch)), v)))
  {
    var r := Coverage(kjvFiles, files, book, list);
    CoverageLines(kjvFiles, files, book, list);
    MissingSumZero(r.lines);
    forall ch | ch in list
      ensures LineOf(kjvFiles, files, book, ch).missing == 0 <==>
        forall v :: v in Load(kjvFiles, ChapterKey(book, ch)) ==> NonBlank(Get(Load(files, ChapterKey(book, ch)), v))
    {
      FilledCount(Load(kjvFiles, ChapterKey(book, ch)), Load(files, ChapterKey(book, ch)));
    }
    if r.filled == r.total {
      forall ch, v | ch in list && v in Load(kjvFiles, ChapterKey(book, ch))
        ensures NonBlank(Get(Load(files, ChapterKey(book, ch)), v))
      {
        var j :| 0 <= j < |list| && list[j] == ch;
        assert r.lines[j].missing == 0;
      }
    } else {
      var j :| 0 <= j < |r.lines| && r.lines[j].missing != 0;
      assert list[j] in list;
    }
  }

  /** One chapter more of the fold. */
  lemma CoverageStep(kjvFiles: Files, files: Files, book: string, list: seq<nat>, j: nat)
    requires j < |list|
    ensures var r := Coverage(kjvFiles, files, book, list[..j]);
      var base := Load(kjvFiles, ChapterKey(book, list[j]));
      var have := Have(base, Load(files, ChapterKey(book, list[j])));
      Coverage(kjvFiles, files, book, list[..j + 1])
        == BookReport(r.total + |base|, r.filled + have, r.lines + [LineOf(kjvFiles, files, book, list[j])])
  {
    var full := list[..j + 1];
    assert full != [] && full[..|full| - 1] == list[..j] && full[|full| - 1] == list[j];
  }

  /**
   * `verifyBook`: reads each listed chapter of the baseline and the target,
   * counts it, appends its row and adds to the book's totals.
   */
  method VerifyBook(kjvFiles: Files, files: Files, book: string, list: seq<nat>) returns (r: BookReport)
    ensures r == Coverage(kjvFiles, files, book, list)
  {
    r := BookReport(0, 0, []);
    for j := 0 to |list|
      invariant r == Coverage(kjvFiles, files, book, list[..j])
    {
      CoverageStep(kjvFiles, files, book, list, j);
      var base := Load(kjvFiles, ChapterKey(book, list[j]));
      var tgt := Load(files, ChapterKey(book, list[j]));
      var need, have := CountChapter(base, tgt);
      var line := Line(list[j], need, need - have);
      assert line == LineOf(kjvFiles, files, book, list[j]);
      r := BookReport(r.total + need, r.filled + have, r.lines + [line]);
    }
    assert list[..|list|] == list;
  }

  // ---------------------------------------------------------------------
  // Percentages and details

  /**
   * `total ? Math.round(filled / total * 10000) / 100 : 100`, in hundredths
   * of a percent: 10000 for an empty total, otherwise the ratio rounded to
   * the nearest hundredth, halves upwards.
   */
  function Percent(filled: nat, total: nat): nat {
    if total == 0 then 10000 else (20000 * filled + total) / (2 * total)
  }

  /** `Percent` is the nearest hundredth: `|10000 * filled / total - p| <= 1/2`, halves rounding up. */
  lemma PercentRounds(filled: nat, total: nat)
    requires total > 0
    ensures var p := Percent(filled, total);
      2 * total * p <= 20000 * filled + total < 2 * total * p + 2 * total
  {
    var a := 20000 * filled + total;
    var d := 2 * total;
    assert a == d * (a / d) + a % d;
  }

  lemma MulLess(t: nat, x: nat, y: nat)
    requires t > 0 && t * x < t * y
    ensures x < y
  {
    if x >= y {
      MulMono(t, y, x);
    }
  }

  lemma {:induction false} MulMono(t: nat, x: nat, y: nat)
    requires x <= y
    ensures t * x <= t * y
    decreases t
  {
    if t > 0 {
      MulMono(t - 1, x, y);
      assert t * x == (t - 1) * x + x;
      assert t * y == (t - 1) * y + y;
    }
  }

  /**
   * A complete count is 100%, an empty one 0%, and a count never above its
   * total gives at most 100%.
   */
  lemma PercentBounds(filled: nat, total: nat)
    ensures filled <= total ==> Percent(filled, total) <= 10000
    ensures filled == total ==> Percent(filled, total) == 10000
    ensures filled == 0 ==> Percent(filled, total) == (if total == 0 then 10000 else 0)
  {
    if total > 0 {
      var p := Percent(filled, total);
      PercentRounds(filled, total);
      if filled <= total {
        assert 2 * total * p < 2 * total * 10001 by {
          MulMono(20000, filled, total);
        }
        MulLess(2 * total, p, 10001);
      }
      if filled == total {
        assert 2 * total * 9999 < 2 * total * p + 2 * total;
        assert 2 * total * 9999 < 2 * total * (p + 1);
        MulLess(2 * total, 9999, p + 1);
      }
      if filled == 0 {
        assert 2 * total * p < 2 * total * 1;
        MulLess(2 * total, p, 1);
      }
    }
  }

  /** The rows `main` prints: those with `missing != 0`, in order. */
  function Details(lines: seq<Line>): seq<Line>
    decreases |lines|
  {
    if lines == [] then []
    else Details(lines[..|lines| - 1]) + (if lines[|lines| - 1].missing != 0 then [lines[|lines| - 1]] else [])
  }

  /** A row is printed exactly when it is a row that misses a verse. */
  lemma {:induction false} DetailsIs(lines: seq<Line>, l: Line)
    ensures l in Details(lines) <==> l in lines && l.missing != 0
    decreases |lines|
  {
    if lines != [] {
      var init := lines[..|lines| - 1];
      DetailsIs(init, l);
      assert l in lines <==> l in init || l == lines[|lines| - 1] by {
        if l in lines {
          var i :| 0 <= i < |lines| && lines[i] == l;
          if i < |lines| - 1 { assert init[i] == l; }
        }
      }
    }
  }

  // ---------------------------------------------------------------------
  // The run

  /** What `main` reports for one book: skipped, or its counts, percentage and detail rows. */
  datatype Outcome =
    | Skipped(book: string)
    | Covered(book: string, report: BookReport, pct: nat, details: seq<Line>)

  /** A book without a non-empty chapter list is skipped; any other is counted. */
  function OutcomeOf(c: Catalog, kjvFiles: Files, files: Files, book: string): (o: Outcome)
    ensures o.book == book
    ensures o.Skipped? <==> ChaptersOf(c, book).None?
  {
    match ChaptersOf(c, book)
    case None => Skipped(book)
    case Some(list) =>
      var r := Coverage(kjvFiles, files, book, list);
      Covered(book, r, Percent(r.filled, r.total), Details(r.lines))
  }

  /** A reported book never shows more than 100% or a row without a missing verse. */
  lemma OutcomeBounds(c: Catalog, kjvFiles: Files, files: Files, book: string)
    ensures var o := OutcomeOf(c, kjvFiles, files, book);
      o.Covered? ==> o.pct <= 10000 && (o.pct < 10000 ==> o.details != [])
  {
    var o := OutcomeOf(c, kjvFiles, files, book);
    if o.Covered? {
      var list := ChaptersOf(c, book).value;
      var r := Coverage(kjvFiles, files, book, list);
      CoverageComplete(kjvFiles, files, book, list);
      PercentBounds(r.filled, r.total);
      if r.filled != r.total {
        var j :| 0 <= j < |r.lines| && r.lines[j].missing != 0;
        DetailsIs(r.lines, r.lines[j]);
      }
    }
  }

  /** The outcome of every book, in order. */
  function Outcomes(c: Catalog, kjvFiles: Files, files: Files, books: seq<string>): seq<Outcome>
    decreases |books|
  {
    if books == [] then []
    else Outcomes(c, kjvFiles, files, books[..|books| - 1]) + [OutcomeOf(c, kjvFiles, files, books[|books| - 1])]
  }

  lemma {:induction false} OutcomesAt(c: Catalog, kjvFiles: Files, files: Files, books: seq<string>)
    ensures |Outcomes(c, kjvFiles, files, books)| == |books|
    ensures forall i :: 0 <= i < |books| ==> Outcomes(c, kjvFiles, files, books)[i] == OutcomeOf(c, kjvFiles, files, books[i])
    decreases |books|
  {
    if books != [] {
      var init := books[..|books| - 1];
      OutcomesAt(c, kjvFiles, files, init);
      forall i | 0 <= i < |init| ensures books[i] == init[i] {}
    }
  }

  /** One book more of the run. */
  lemma GrandStep(outs: seq<Outcome>, o: Outcome)
    ensures GrandTotal(outs + [o]) == GrandTotal(outs) + (if o.Covered? then o.report.total else 0)
    ensures GrandFilled(outs + [o]) == GrandFilled(outs) + (if o.Covered? then o.report.filled else 0)
  {
    assert (outs + [o])[..|outs|] == outs;
  }

  /** `grandTotal` */
  function GrandTotal(outs: seq<Outcome>): nat
    decreases |outs|
  {
    if outs == [] then 0
    else
      var o := outs[|outs| - 1];
      GrandTotal(outs[..|outs| - 1]) + (if o.Covered? then o.report.total else 0)
  }

  /** `grandFilled` */
  function GrandFilled(outs: seq<Outcome>): nat
    decreases |outs|
  {
    if outs == [] then 0
    else
      var o := outs[|outs| - 1];
      GrandFilled(outs[..|outs| - 1]) + (if o.Covered? then o.report.filled else 0)
  }

  /**
   * Over the run the filled verses never exceed the needed ones, and they are
   * equal exactly when every reported book is complete.
   */
  lemma {:induction false} GrandComplete(c: Catalog, kjvFiles: Files, files: Files, books: seq<string>)
    ensures var outs := Outcomes(c, kjvFiles, files, books);
      && GrandFilled(outs) <= GrandTotal(outs)
      && (GrandFilled(outs) == GrandTotal(outs) <==>
            forall i :: 0 <= i < |outs| && outs[i].Covered? ==> outs[i].report.filled == outs[i].report.total)
    decreases |books|
  {
    if books != [] {
      var init := books[..|books| - 1];
      var outs := Outcomes(c, kjvFiles, files, books);
      var prev := Outcomes(c, kjvFiles, files, init);
      GrandComplete(c, kjvFiles, files, init);
      assert outs[..|outs| - 1] == prev;
      var o := outs[|outs| - 1];
      if o.Covered? {
        CoverageComplete(kjvFiles, files, o.book, ChaptersOf(c, o.book).value);
      }
      if GrandFilled(outs) == GrandTotal(outs) {
        forall i | 0 <= i < |outs| && outs[i].Covered? ensures outs[i].report.filled == outs[i].report.total {
          if i < |prev| { assert outs[i] == prev[i]; }
        }
      } else if GrandFilled(prev) != GrandTotal(prev) {
        var i :| 0 <= i < |prev| && prev[i].Covered? && prev[i].report.filled != prev[i].report.total;
        assert outs[i] == prev[i];
      }
    }
  }

  /** One book of `main`: skipped when the catalog does not list it, otherwise checked and reported. */
  method ReportBook(c: Catalog, kjvFiles: Files, files: Files, book: string) returns (o: Outcome)
    ensures o == OutcomeOf(c, kjvFiles, files, book)
  {
    var chapters := ChaptersOf(c, book);
    if chapters.None? {
      return Skipped(book);
    }
    var r := VerifyBook(kjvFiles, files, book, chapters.value);
    o := Covered(book, r, Percent(r.filled, r.total), Details(r.lines));
  }

  /** The book loop of `main` with its grand totals. */
  method CoverAll(c: Catalog, kjvFiles: Files, files: Files, books: seq<string>)
    returns (outs: seq<Outcome>, total: nat, filled: nat)
    ensures outs == Outcomes(c, kjvFiles, files, books)
    ensures total == GrandTotal(outs) && filled == GrandFilled(outs)
  {
    outs, total, filled := [], 0, 0;
    for i := 0 to |books|
      invariant |outs| == i
      invariant forall j :: 0 <= j < i ==> outs[j] == OutcomeOf(c, kjvFiles, files, books[j])
      invariant total == GrandTotal(outs) && filled == GrandFilled(outs)
    {
      var o := ReportBook(c, kjvFiles, files, books[i]);
      GrandStep(outs, o);
      if o.Covered? {
        total, filled := total + o.report.total, filled + o.report.filled;
      }
      outs := outs + [o];
    }
    OutcomesAt(c, kjvFiles, files, books);
  }

  /**
   * `main`: the book arguments, every book of the catalog by default, each
   * reported or skipped, and the grand totals with their percentage.
   */
  method Run(c: Catalog, args: seq<string>, kjvFiles: Files, files: Files)
    returns (outs: seq<Outcome>, total: nat, filled: nat, pct: nat)
    ensures outs == Outcomes(c, kjvFiles, files, BookList(args, c.keys))
    ensures total == GrandTotal(outs) && filled == GrandFilled(outs)
    ensures pct == Percent(filled, total)
  {
    outs, total, filled := CoverAll(c, kjvFiles, files, BookList(args, c.keys));
    pct := Percent(filled, total);
  }
}
