/**
 * seed-from-kjv: fills the chapters of a target source from the baseline.
 * For every chapter the catalog lists, each baseline verse whose target
 * value is absent or blank gets the baseline text; every verse that already
 * has a rendering keeps it, and a chapter file is rewritten only when some
 * verse was filled.
 */
module SeedFromKjv {
  import opened Common
  import opened Json
  import opened Store
  import opened Catalog

  // ---------------------------------------------------------------------
  // One chapter

  /** The baseline verses that the target lacks or holds blank. */
  function Blanks(kjv: VerseMap, tgt: VerseMap): set<nat> {
    set v | v in kjv && !NonBlank(Get(tgt, v))
  }

  /** The target chapter after seeding. */
  function Seeded(kjv: VerseMap, tgt: VerseMap): VerseMap {
    map v | v in kjv.Keys + tgt.Keys :: if v in kjv && !NonBlank(Get(tgt, v)) then kjv[v] else tgt[v]
  }

  /**
   * After seeding every baseline verse is present; a blank or absent one
   * holds the baseline text, a non-blank one is left as it was, and verses
   * outside the baseline are left as they were.
   */
  lemma SeededIs(kjv: VerseMap, tgt: VerseMap, v: nat)
    ensures v in Seeded(kjv, tgt) <==> v in kjv || v in tgt
    ensures v in Blanks(kjv, tgt) ==> Get(Seeded(kjv, tgt), v) == Some(kjv[v])
    ensures NonBlank(Get(tgt, v)) ==> Get(Seeded(kjv, tgt), v) == Get(tgt, v)
    ensures v !in kjv ==> Get(Seeded(kjv, tgt), v) == Get(tgt, v)
  {
  }

  /** With nothing to fill the chapter is left as it is. */
  lemma SeededNoBlanks(kjv: VerseMap, tgt: VerseMap)
    requires Blanks(kjv, tgt) == {}
    ensures Seeded(kjv, tgt) == tgt
  {
    var s := Seeded(kjv, tgt);
    forall v | v in kjv ensures v in tgt {
      assert v !in Blanks(kjv, tgt);
    }
    assert s.Keys == tgt.Keys;
    forall v | v in s ensures s[v] == tgt[v] {
      assert v !in Blanks(kjv, tgt);
    }
  }

  /** Seeding a seeded chapter again changes nothing. */
  lemma SeededIdempotent(kjv: VerseMap, tgt: VerseMap)
    ensures Seeded(kjv, Seeded(kjv, tgt)) == Seeded(kjv, tgt)
  {
    var s := Seeded(kjv, tgt);
    var s2 := Seeded(kjv, s);
    assert s2.Keys == s.Keys;
    forall v | v in s2 ensures s2[v] == s[v] {
      if v in kjv && !NonBlank(Get(s, v)) {
        assert !NonBlank(Get(tgt, v));
      }
    }
  }

  /** The fill loop over a prefix of the baseline's key order. */
  function SeedSeq(kjv: VerseMap, tgt: VerseMap, order: seq<nat>): VerseMap
    requires forall v <- order :: v in kjv
    decreases |order|
  {
    if order == [] then tgt
    else
      var f := SeedSeq(kjv, tgt, order[..|order| - 1]);
      var v := order[|order| - 1];
      if !NonBlank(Get(tgt, v)) then f[v := kjv[v]] else f
  }

  lemma {:induction false} SeedSeqAt(kjv: VerseMap, tgt: VerseMap, order: seq<nat>, v: nat)
    requires forall v <- order :: v in kjv
    ensures Get(SeedSeq(kjv, tgt, order), v)
         == if v in order && !NonBlank(Get(tgt, v)) then Some(kjv[v]) else Get(tgt, v)
    decreases |order|
  {
    if order != [] {
      var init := order[..|order| - 1];
      SeedSeqAt(kjv, tgt, init, v);
      assert v in order <==> v in init || v == order[|order| - 1] by {
        if v in order {
          var i :| 0 <= i < |order| && order[i] == v;
          if i < |order| - 1 { assert init[i] == v; }
        }
      }
    }
  }

  /** Filling along a whole key order of the baseline gives the seeded chapter. */
  lemma SeedSeqAll(kjv: VerseMap, tgt: VerseMap, order: seq<nat>)
    requires ListsKeys(order, kjv)
    ensures SeedSeq(kjv, tgt, order) == Seeded(kjv, tgt)
  {
    var f := SeedSeq(kjv, tgt, order);
    var g := Seeded(kjv, tgt);
    forall v ensures Get(f, v) == Get(g, v) {
      SeedSeqAt(kjv, tgt, order, v);
    }
    forall v | v in f ensures v in g && f[v] == g[v] {
      assert Get(f, v) == Some(f[v]);
    }
    forall v | v in g ensures v in f {
      assert Get(g, v) == Some(g[v]);
    }
  }

  /** One step of the fill loop, at index `i` of the key order. */
  lemma SeedStep(kjv: VerseMap, tgt: VerseMap, order: seq<nat>, i: nat)
    requires ListsKeys(order, kjv) && i < |order|
    ensures Get(SeedSeq(kjv, tgt, order[..i]), order[i]) == Get(tgt, order[i])
    ensures var v := order[i];
      && (!NonBlank(Get(tgt, v)) <==> v in Blanks(kjv, tgt))
      && SeedSeq(kjv, tgt, order[..i + 1])
         == (if !NonBlank(Get(tgt, v)) then SeedSeq(kjv, tgt, order[..i])[v := kjv[v]]
             else SeedSeq(kjv, tgt, order[..i]))
      && CountIn(order[..i + 1], Blanks(kjv, tgt))
         == CountIn(order[..i], Blanks(kjv, tgt)) + (if !NonBlank(Get(tgt, v)) then 1 else 0)
  {
    var v := order[i];
    assert order[..i + 1][..i] == order[..i];
    assert order[..i + 1][i] == v;
    assert v !in order[..i];
    SeedSeqAt(kjv, tgt, order[..i], v);
  }

  /** After the whole order: the seeded chapter, and a count of every blank verse. */
  lemma SeedDone(kjv: VerseMap, tgt: VerseMap, order: seq<nat>)
    requires ListsKeys(order, kjv)
    ensures SeedSeq(kjv, tgt, order[..|order|]) == Seeded(kjv, tgt)
    ensures CountIn(order[..|order|], Blanks(kjv, tgt)) == |Blanks(kjv, tgt)|
  {
    var blanks := Blanks(kjv, tgt);
    assert order[..|order|] == order;
    SeedSeqAll(kjv, tgt, order);
    CountInCard(order, blanks);
    assert Elems(order) * blanks == blanks;
  }

  /**
   * The inner loop of `seedBook` over `Object.entries(kjv)`: each blank or
   * absent target verse gets the baseline text, and `modified` records that
   * one did.
   */
  method SeedChapter(kjv: VerseMap, tgt: VerseMap, order: seq<nat>) returns (tgt': VerseMap, modified: bool)
    requires ListsKeys(order, kjv)
    ensures tgt' == Seeded(kjv, tgt)
    ensures modified <==> Blanks(kjv, tgt) != {}
  {
    tgt', modified := tgt, false;
    for i := 0 to |order|
      invariant tgt' == SeedSeq(kjv, tgt, order[..i])
      invariant modified <==> CountIn(order[..i], Blanks(kjv, tgt)) > 0
    {
      SeedStep(kjv, tgt, order, i);
      var v := order[i];
      if !NonBlank(Get(tgt', v)) {
        tgt' := tgt'[v := kjv[v]];
        modified := true;
      }
    }
    SeedDone(kjv, tgt, order);
  }

  // ---------------------------------------------------------------------
  // One book

  function Key(book: string, ch: nat): ChapterKey {
    ChapterKey(book, ch)
  }

  /**
   * The chapter loop of `seedBook` over the catalog's list: each chapter is
   * read as it is at that point, rewritten when it had something to fill, and
   * counted then; the files and the count.
   */
  function SeedChapters(kjvFiles: Files, files: Files, book: string, list: seq<nat>): (Files, nat)
    decreases |list|
  {
    if list == [] then (files, 0)
    else
      var (f, n) := SeedChapters(kjvFiles, files, book, list[..|list| - 1]);
      var k := Key(book, list[|list| - 1]);
      var kjv := Load(kjvFiles, k);
      if Blanks(kjv, Load(f, k)) != {} then (f[k := Seeded(kjv, Load(f, k))], n + 1) else (f, n)
  }

  /**
   * After the loop a listed chapter of the book is its seeded original, how
   * often the list names it notwithstanding, and every other chapter is as it
   * was.
   */
  lemma {:induction false} SeedChaptersLoad(kjvFiles: Files, files: Files, book: string, list: seq<nat>, k: ChapterKey)
    ensures Load(SeedChapters(kjvFiles, files, book, list).0, k)
         == if k.book == book && k.chapter in list then Seeded(Load(kjvFiles, k), Load(files, k)) else Load(files, k)
    decreases |list|
  {
    if list != [] {
      var init := list[..|list| - 1];
      var last := list[|list| - 1];
      SeedChaptersLoad(kjvFiles, files, book, init, k);
      var f := SeedChapters(kjvFiles, files, book, init).0;
      assert k.chapter in list <==> k.chapter in init || k.chapter == last by {
        if k.chapter in list {
          var i :| 0 <= i < |list| && list[i] == k.chapter;
          if i < |list| - 1 { assert init[i] == k.chapter; }
        }
      }
      if k == Key(book, last) {
        var kjv := Load(kjvFiles, k);
        if k.chapter in init {
          SeededIdempotent(kjv, Load(files, k));
        }
        if Blanks(kjv, Load(f, k)) == {} {
          SeededNoBlanks(kjv, Load(f, k));
        }
      }
    }
  }

  /** The listed chapters of the book that have something to fill. */
  function Unseeded(kjvFiles: Files, files: Files, book: string, list: seq<nat>): set<nat> {
    set ch | ch in list && Blanks(Load(kjvFiles, Key(book, ch)), Load(files, Key(book, ch))) != {}
  }

  /** With each chapter listed once, `changed` counts the chapters that had something to fill. */
  lemma {:induction false} SeedChaptersCount(kjvFiles: Files, files: Files, book: string, list: seq<nat>)
    requires Distinct(list)
    ensures SeedChapters(kjvFiles, files, book, list).1 == CountIn(list, Unseeded(kjvFiles, files, book, list))
    ensures SeedChapters(kjvFiles, files, book, list).1 == |Unseeded(kjvFiles, files, book, list)|
    decreases |list|
  {
    var u := Unseeded(kjvFiles, files, book, list);
    if list != [] {
      var init := list[..|list| - 1];
      var last := list[|list| - 1];
      assert Distinct(init);
      SeedChaptersCount(kjvFiles, files, book, init);
      var ui := Unseeded(kjvFiles, files, book, init);
      var f := SeedChapters(kjvFiles, files, book, init).0;
      assert last !in init;
      SeedChaptersLoad(kjvFiles, files, book, init, Key(book, last));
      assert Load(f, Key(book, last)) == Load(files, Key(book, last));
      CountInSame(init, ui, u);
    }
    CountInCard(list, u);
    assert Elems(list) * u == u;
  }

  /** Counting along a list only looks at the list's own elements. */
  lemma {:induction false} CountInSame(list: seq<nat>, a: set<nat>, b: set<nat>)
    requires forall x :: x in list ==> (x in a <==> x in b)
    ensures CountIn(list, a) == CountIn(list, b)
    decreases |list|
  {
    if list != [] {
      CountInSame(list[..|list| - 1], a, b);
    }
  }

  /** Seeding a book twice leaves every chapter as seeding it once does. */
  lemma SeedChaptersTwice(kjvFiles: Files, files: Files, book: string, list: seq<nat>, k: ChapterKey)
    ensures var once := SeedChapters(kjvFiles, files, book, list).0;
      Load(SeedChapters(kjvFiles, once, book, list).0, k) == Load(once, k)
  {
    var once := SeedChapters(kjvFiles, files, book, list).0;
    SeedChaptersLoad(kjvFiles, files, book, list, k);
    SeedChaptersLoad(kjvFiles, once, book, list, k);
    SeededIdempotent(Load(kjvFiles, k), Load(files, k));
  }

  /**
   * `seedBook`: an error for a book the catalog does not list with at least
   * one chapter; otherwise every listed chapter seeded and the number of
   * chapter files written.
   */
  method SeedBook(c: Catalog, book: string, kjvFiles: Files, files: Files) returns (r: Result<(Files, nat)>)
    ensures r.Err? <==> ChaptersOf(c, book).None?
    ensures r.Ok? ==> r.value == SeedChapters(kjvFiles, files, book, ChaptersOf(c, book).value)
  {
    var chapters := ChaptersOf(c, book);
    if chapters.None? {
      return Err("Book not in catalog: " + book);
    }
    var list := chapters.value;
    var files' := files;
    var changed := 0;
    for j := 0 to |list|
      invariant (files', changed) == SeedChapters(kjvFiles, files, book, list[..j])
    {
      assert list[..j + 1][..j] == list[..j];
      var k := Key(book, list[j]);
      var kjv := Load(kjvFiles, k);
      var tgt := Load(files', k);
      var order := KeyOrder(kjv);
      var seeded, modified := SeedChapter(kjv, tgt, order);
      if modified {
        files' := files'[k := seeded];
        changed := changed + 1;
      }
    }
    assert list[..|list|] == list;
    r := Ok((files', changed));
  }

  // ---------------------------------------------------------------------
  // The run

  /**
   * What `main` leaves behind: the files, the `changed` count of every book
   * seeded, and the book whose error stopped the run, if one did.
   */
  datatype SeedOutcome = SeedOutcome(files: Files, changed: seq<nat>, failed: Option<string>)

  /** The books in order; the first one the catalog lacks stops the run with the earlier books written. */
  function SeedBooks(c: Catalog, books: seq<string>, kjvFiles: Files, files: Files): SeedOutcome
    decreases |books|
  {
    if books == [] then SeedOutcome(files, [], None)
    else
      match ChaptersOf(c, books[0])
      case None => SeedOutcome(files, [], Some(books[0]))
      case Some(list) =>
        var (f, n) := SeedChapters(kjvFiles, files, books[0], list);
        var rest := SeedBooks(c, books[1..], kjvFiles, f);
        SeedOutcome(rest.files, [n] + rest.changed, rest.failed)
  }

  /**
   * The run fails exactly when some book is not in the catalog, and then at
   * the first such book; until then every book reports a count.
   */
  lemma {:induction false} SeedBooksFailed(c: Catalog, books: seq<string>, kjvFiles: Files, files: Files)
    ensures var r := SeedBooks(c, books, kjvFiles, files);
      && (r.failed.Some? <==> exists i :: 0 <= i < |books| && ChaptersOf(c, books[i]).None?)
      && (r.failed.None? ==> |r.changed| == |books|)
      && (r.failed.Some? ==>
            && |r.changed| < |books| && r.failed.value == books[|r.changed|]
            && ChaptersOf(c, books[|r.changed|]).None?
            && forall i :: 0 <= i < |r.changed| ==> ChaptersOf(c, books[i]).Some?)
    decreases |books|
  {
    if books != [] {
      var r := SeedBooks(c, books, kjvFiles, files);
      match ChaptersOf(c, books[0])
      case None =>
      case Some(list) =>
        var f := SeedChapters(kjvFiles, files, books[0], list).0;
        SeedBooksFailed(c, books[1..], kjvFiles, f);
        var rest := SeedBooks(c, books[1..], kjvFiles, f);
        if exists i :: 0 <= i < |books| && ChaptersOf(c, books[i]).None? {
          var i :| 0 <= i < |books| && ChaptersOf(c, books[i]).None?;
          assert books[1..][i - 1] == books[i];
        }
        if exists i :: 0 <= i < |books[1..]| && ChaptersOf(c, books[1..][i]).None? {
          var i :| 0 <= i < |books[1..]| && ChaptersOf(c, books[1..][i]).None?;
          assert books[i + 1] == books[1..][i];
        }
        if rest.failed.Some? {
          forall i | 0 <= i < |r.changed| ensures ChaptersOf(c, books[i]).Some? {
            if i > 0 { assert books[i] == books[1..][i - 1]; }
          }
        }
    }
  }

  /** Chapters of books the run does not name are never touched. */
  lemma {:induction false} SeedBooksOthers(c: Catalog, books: seq<string>, kjvFiles: Files, files: Files, k: ChapterKey)
    requires k.book !in books
    ensures Load(SeedBooks(c, books, kjvFiles, files).files, k) == Load(files, k)
    decreases |books|
  {
    if books != [] {
      match ChaptersOf(c, books[0])
      case None =>
      case Some(list) =>
        var f := SeedChapters(kjvFiles, files, books[0], list).0;
        SeedChaptersLoad(kjvFiles, files, books[0], list, k);
        assert k.book !in books[1..];
        SeedBooksOthers(c, books[1..], kjvFiles, f, k);
    }
  }

  /**
   * The loop of `main` after `i` books: seeding the rest from `f` and putting
   * `counts` in front gives the run over every book.
   */
  predicate Resumes(c: Catalog, books: seq<string>, kjvFiles: Files, files: Files, i: nat, f: Files, counts: seq<nat>)
    requires i <= |books|
  {
    var rest := SeedBooks(c, books[i..], kjvFiles, f);
    SeedBooks(c, books, kjvFiles, files) == SeedOutcome(rest.files, counts + rest.changed, rest.failed)
  }

  /** Book `i` fails: the run stops there with what it has. */
  lemma ResumesFail(c: Catalog, books: seq<string>, kjvFiles: Files, files: Files, i: nat, f: Files, counts: seq<nat>)
    requires i < |books| && Resumes(c, books, kjvFiles, files, i, f, counts)
    requires ChaptersOf(c, books[i]).None?
    ensures SeedBooks(c, books, kjvFiles, files) == SeedOutcome(f, counts, Some(books[i]))
  {
    assert books[i..][0] == books[i];
  }

  /** Book `i` is seeded: the loop goes on from its files with its count appended. */
  lemma ResumesStep(c: Catalog, books: seq<string>, kjvFiles: Files, files: Files, i: nat, f: Files, counts: seq<nat>)
    requires i < |books| && Resumes(c, books, kjvFiles, files, i, f, counts)
    requires ChaptersOf(c, books[i]).Some?
    ensures var (g, n) := SeedChapters(kjvFiles, f, books[i], ChaptersOf(c, books[i]).value);
      Resumes(c, books, kjvFiles, files, i + 1, g, counts + [n])
  {
    assert books[i..][0] == books[i] && books[i..][1..] == books[i + 1..];
    var (g, n) := SeedChapters(kjvFiles, f, books[i], ChaptersOf(c, books[i]).value);
    var rest := SeedBooks(c, books[i + 1..], kjvFiles, g);
    assert counts + ([n] + rest.changed) == (counts + [n]) + rest.changed;
  }

  /** The loop has seen every book. */
  lemma ResumesDone(c: Catalog, books: seq<string>, kjvFiles: Files, files: Files, f: Files, counts: seq<nat>)
    requires Resumes(c, books, kjvFiles, files, |books|, f, counts)
    ensures SeedBooks(c, books, kjvFiles, files) == SeedOutcome(f, counts, None)
  {
    assert counts + [] == counts;
  }

  /** The books of `main`, seeded one after the other; the first error stops the loop. */
  method SeedAll(c: Catalog, books: seq<string>, kjvFiles: Files, files: Files) returns (r: SeedOutcome)
    ensures r == SeedBooks(c, books, kjvFiles, files)
  {
    var files' := files;
    var counts: seq<nat> := [];
    var i := 0;
    assert books[0..] == books;
    while i < |books|
      invariant 0 <= i <= |books|
      invariant Resumes(c, books, kjvFiles, files, i, files', counts)
    {
      var done := SeedBook(c, books[i], kjvFiles, files');
      if done.Err? {
        ResumesFail(c, books, kjvFiles, files, i, files', counts);
        return SeedOutcome(files', counts, Some(books[i]));
      }
      ResumesStep(c, books, kjvFiles, files, i, files', counts);
      files' := done.value.0;
      counts := counts + [done.value.1];
      i := i + 1;
    }
    ResumesDone(c, books, kjvFiles, files, files', counts);
    r := SeedOutcome(files', counts, None);
  }

  /** `main`: the book arguments, "Genesis" by default. */
  method Run(c: Catalog, args: seq<string>, kjvFiles: Files, files: Files) returns (r: SeedOutcome)
    ensures r == SeedBooks(c, BookList(args, ["Genesis"]), kjvFiles, files)
  {
    r := SeedAll(c, BookList(args, ["Genesis"]), kjvFiles, files);
  }
}
