/**
 * scaffold-source-book: creates an empty chapter file (`{}`) for every
 * chapter the catalog lists for a book that the source does not have yet,
 * and leaves every existing file alone.
 */
module ScaffoldSourceBook {
  import opened Json
  import opened Common
  import opened Store
  import opened Catalog

  /** The keys of the listed chapters of `book`. */
  function Listed(book: string, list: seq<nat>): set<ChapterKey> {
    set ch | ch in list :: ChapterKey(book, ch)
  }

  /** The source after scaffolding: an empty object for every listed chapter it lacked. */
  function Scaffolded(files: Files, book: string, list: seq<nat>): Files {
    files + map k | k in Listed(book, list) && k !in files :: map[]
  }

  /**
   * After scaffolding every listed chapter has a file, the files that existed
   * are unchanged, the new ones are empty, and nothing else is created.
   */
  lemma ScaffoldedIs(files: Files, book: string, list: seq<nat>, k: ChapterKey)
    ensures k in Scaffolded(files, book, list) <==> k in files || (k.book == book && k.chapter in list)
    ensures k in files ==> Scaffolded(files, book, list)[k] == files[k]
    ensures k !in files && k.book == book && k.chapter in list ==> Scaffolded(files, book, list)[k] == map[]
  {
    if k.book == book && k.chapter in list {
      assert k in Listed(book, list);
    }
  }

  /** Readers see no difference: a missing chapter file already reads as `{}`. */
  lemma ScaffoldedLoads(files: Files, book: string, list: seq<nat>, k: ChapterKey)
    ensures Load(Scaffolded(files, book, list), k) == Load(files, k)
  {
    ScaffoldedIs(files, book, list, k);
  }

  /** Scaffolding twice is scaffolding once. */
  lemma ScaffoldedIdempotent(files: Files, book: string, list: seq<nat>)
    ensures Scaffolded(Scaffolded(files, book, list), book, list) == Scaffolded(files, book, list)
  {
    var once := Scaffolded(files, book, list);
    forall k ensures k in Scaffolded(once, book, list) <==> k in once {
      ScaffoldedIs(once, book, list, k);
      ScaffoldedIs(files, book, list, k);
    }
    forall k | k in once ensures Scaffolded(once, book, list)[k] == once[k] {
      ScaffoldedIs(once, book, list, k);
    }
  }

  lemma ScaffoldedStepAt(files: Files, book: string, list: seq<nat>, j: nat, k: ChapterKey)
    requires j < |list|
    ensures var f := Scaffolded(files, book, list[..j]);
      var g := if ChapterKey(book, list[j]) in f then f else f[ChapterKey(book, list[j]) := map[]];
      var h := Scaffolded(files, book, list[..j + 1]);
      (k in h <==> k in g) && (k in h ==> h[k] == g[k])
  {
    assert list[..j + 1] == list[..j] + [list[j]];
    ScaffoldedIs(files, book, list[..j + 1], k);
    ScaffoldedIs(files, book, list[..j], k);
  }

  /** One chapter more of the loop. */
  lemma ScaffoldedStep(files: Files, book: string, list: seq<nat>, j: nat)
    requires j < |list|
    ensures var f := Scaffolded(files, book, list[..j]);
      var k := ChapterKey(book, list[j]);
      Scaffolded(files, book, list[..j + 1]) == if k in f then f else f[k := map[]]
  {
    var f := Scaffolded(files, book, list[..j]);
    var k0 := ChapterKey(book, list[j]);
    var g := if k0 in f then f else f[k0 := map[]];
    var h := Scaffolded(files, book, list[..j + 1]);
    forall k ensures (k in h <==> k in g) && (k in h ==> h[k] == g[k]) {
      ScaffoldedStepAt(files, book, list, j, k);
    }
    assert h == g;
  }

  /**
   * `main`: an error for a book the catalog does not list with at least one
   * chapter; otherwise every listed chapter file that does not exist is
   * written as `{}`, and `count` is the number of listed chapters it reports.
   */
  method Run(c: Catalog, book: string, files: Files) returns (r: Result<Files>, count: nat)
    ensures r.Err? <==> ChaptersOf(c, book).None?
    ensures r.Ok? ==> r.value == Scaffolded(files, book, ChaptersOf(c, book).value)
    ensures r.Ok? ==> count == |ChaptersOf(c, book).value|
  {
    var chapters := ChaptersOf(c, book);
    if chapters.None? {
      return Err("Book not found in catalog: " + book), 0;
    }
    var list := chapters.value;
    var files' := files;
    for j := 0 to |list|
      invariant files' == Scaffolded(files, book, list[..j])
    {
      ScaffoldedStep(files, book, list, j);
      var k := ChapterKey(book, list[j]);
      if k in files' {
        continue;
      }
      files' := files'[k := map[]];
    }
    assert list[..|list|] == list;
    r := Ok(files');
    count := |list|;
  }
}
