/**
 * import-kjv: turns the downloaded baseline (an array of books, each with a
 * name and an array of chapters, each an array of verse texts) into one
 * chapter file per chapter, verse numbers from 1, and rewrites the catalog's
 * `books` with the chapter numbers of every book while keeping, or adding, the
 * `KJV` version entry.
 */
module ImportKjv {
  import opened Common
  import opened Json
  import opened Store

  // ---------------------------------------------------------------------
  // Chapters

  /** `normalizeVerseText`: `String(t ?? '').trim()`. */
  function NormalizeVerseText(t: Option<Json>): (r: string)
    ensures IsTrimmed(r)
  {
    if t.None? || t == Some(JNull) then "" else Trim(ToJsString(t.value))
  }

  /** A string value is normalized by trimming it, and it is blank exactly when its trim is empty. */
  lemma NormalizeString(s: string)
    ensures NormalizeVerseText(Some(JStr(s))) == Trim(s)
    ensures NonBlank(Some(JStr(s))) <==> Trim(s) != ""
  {
    assert ToJsString(JStr(s)) == s;
  }

  /** A value normalizes to `''` exactly when the seeding and coverage scripts count it as blank. */
  lemma NormalizeVerseTextBlank(t: Option<Json>)
    ensures NormalizeVerseText(t) == "" <==> !NonBlank(t)
  {
    if t.None? || t == Some(JNull) {
      assert !NonBlank(t);
    }
  }

  /** A normalized text is its own normalization, and it is blank exactly when the value is. */
  lemma NormalizeVerseTextIs(t: Option<Json>)
    ensures NormalizeVerseText(Some(JStr(NormalizeVerseText(t)))) == NormalizeVerseText(t)
    ensures NonBlank(Some(JStr(NormalizeVerseText(t)))) <==> NonBlank(t)
  {
    var r := NormalizeVerseText(t);
    TrimTrimmed(r);
    NormalizeString(r);
    NormalizeVerseTextBlank(t);
  }

  /** The chapter object `writeChapter` builds: verse `i + 1` holds the normalized `versesArray[i]`. */
  function ChapterObject(verses: seq<Json>): VerseMap {
    NumberFrom1(Texts(verses), |verses|)
  }

  /** The normalized texts, in verse order. */
  function Texts(verses: seq<Json>): seq<Json> {
    seq(|verses|, i requires 0 <= i < |verses| => VerseValue(verses, i + 1))
  }

  /** Verse `v` of the chapter file: the normalized text of `versesArray[v - 1]`. */
  function VerseValue(verses: seq<Json>, v: nat): Json
    requires 1 <= v <= |verses|
  {
    JStr(NormalizeVerseText(Some(verses[v - 1])))
  }

  /**
   * The chapter file numbers its verses 1 to the number of verse texts, with
   * no gap and nothing else, and every verse holds a trimmed string.
   */
  lemma ChapterObjectIs(verses: seq<Json>)
    ensures forall v: nat :: v in ChapterObject(verses) <==> 1 <= v <= |verses|
    ensures forall v: nat :: 1 <= v <= |verses| ==>
      ChapterObject(verses)[v] == JStr(NormalizeVerseText(Some(verses[v - 1])))
    ensures forall v <- ChapterObject(verses) :: ChapterObject(verses)[v].JStr? && IsTrimmed(ChapterObject(verses)[v].s)
  {
    var obj := ChapterObject(verses);
    var texts := Texts(verses);
    forall v: nat | 1 <= v <= |verses| ensures v in obj && obj[v] == VerseValue(verses, v) {
      assert obj[v] == NumberedAt(texts, v) == texts[v - 1];
    }
  }

  /** `writeChapter`'s object-building loop. */
  method WriteChapter(verses: seq<Json>) returns (obj: VerseMap)
    ensures obj == ChapterObject(verses)
  {
    ghost var texts := Texts(verses);
    obj := map[];
    NumberFrom1Empty(texts);
    for i := 0 to |verses|
      invariant obj == NumberFrom1(texts, i)
    {
      NumberFrom1Step(texts, i);
      TextsAt(verses, i);
      obj := obj[i + 1 := VerseValue(verses, i + 1)];
    }
  }

  lemma TextsAt(verses: seq<Json>, i: nat)
    requires i < |verses|
    ensures |Texts(verses)| == |verses| && Texts(verses)[i] == VerseValue(verses, i + 1)
  {
  }

  /** The chapter numbers `1..n`. */
  function ChapterNumbers(n: nat): seq<nat> {
    seq(n, i requires 0 <= i < n => i + 1)
  }

  /** `1..n` is strictly increasing and holds exactly the numbers from 1 to `n`. */
  lemma ChapterNumbersIs(n: nat)
    ensures |ChapterNumbers(n)| == n
    ensures forall i, j :: 0 <= i < j < n ==> ChapterNumbers(n)[i] < ChapterNumbers(n)[j]
    ensures forall c :: c in ChapterNumbers(n) <==> 1 <= c <= n
  {
    forall c | 1 <= c <= n ensures c in ChapterNumbers(n) {
      assert ChapterNumbers(n)[c - 1] == c;
    }
  }

  /** `chapterCountArray`. */
  method ChapterCountArray(n: nat) returns (arr: seq<nat>)
    ensures arr == ChapterNumbers(n)
  {
    arr := [];
    var i := 1;
    while i <= n
      invariant 1 <= i <= n + 1
      invariant |arr| == i - 1
      invariant forall j :: 0 <= j < i - 1 ==> arr[j] == j + 1
    {
      arr := arr + [i];
      i := i + 1;
    }
  }

  // ---------------------------------------------------------------------
  // Books

  /**
   * `book.name || book.book || book.abbrev || 'Unknown'`: a TypeError for a
   * `null` book, otherwise the first truthy of the three, or "Unknown".
   */
  function BookName(book: Json): (r: Result<Json>)
    ensures r.Err? <==> book == JNull
    ensures r.Ok? ==> Truthy(Some(r.value))
    ensures r.Ok? && Truthy(Prop(Some(book), "name")) ==> Some(r.value) == Prop(Some(book), "name")
    ensures (r.Ok? && !Truthy(Prop(Some(book), "name")) && Truthy(Prop(Some(book), "book")))
            ==> Some(r.value) == Prop(Some(book), "book")
    ensures (r.Ok? && !Truthy(Prop(Some(book), "name")) && !Truthy(Prop(Some(book), "book"))
             && Truthy(Prop(Some(book), "abbrev"))) ==> Some(r.value) == Prop(Some(book), "abbrev")
    ensures (r.Ok? && !Truthy(Prop(Some(book), "name")) && !Truthy(Prop(Some(book), "book"))
             && !Truthy(Prop(Some(book), "abbrev"))) ==> r.value == JStr("Unknown")
  {
    match Member(book, "name")
    case Err(e) => Err(e)
    case Ok(n) =>
      var v := Or(Or(n, Prop(Some(book), "book")), Prop(Some(book), "abbrev"));
      Ok(if Truthy(v) then v.value else JStr("Unknown"))
  }

  /** `path.join` refuses a book name that is not a string. */
  const PathError := "TypeError: The \"path\" argument must be of type string"

  /** Some chapter is an array, so `writeChapter` is called for it. */
  predicate HasList(chapters: seq<Json>) {
    exists ci :: 0 <= ci < |chapters| && chapters[ci].JArr?
  }

  /** The first `n` chapters of book `name`, each array written as its chapter file. */
  function WriteChapters(name: string, chapters: seq<Json>, n: nat, files: Files): Files
    requires n <= |chapters|
  {
    if n == 0 then files
    else
      var f := WriteChapters(name, chapters, n - 1, files);
      if chapters[n - 1].JArr? then f[ChapterKey(name, n) := ChapterObject(chapters[n - 1].items)] else f
  }

  /** Chapter `ci + 1` of the book is the object of its verses when those are an array; nothing else changes. */
  lemma {:induction false} WriteChaptersAt(name: string, chapters: seq<Json>, n: nat, files: Files, k: ChapterKey)
    requires n <= |chapters|
    ensures k in WriteChapters(name, chapters, n, files) <==>
      k in files || (k.book == name && 1 <= k.chapter <= n && chapters[k.chapter - 1].JArr?)
    ensures Load(WriteChapters(name, chapters, n, files), k)
         == if k.book == name && 1 <= k.chapter <= n && chapters[k.chapter - 1].JArr?
            then ChapterObject(chapters[k.chapter - 1].items) else Load(files, k)
  {
    if n > 0 {
      WriteChaptersAt(name, chapters, n - 1, files, k);
      var f := WriteChapters(name, chapters, n - 1, files);
      var g := WriteChapters(name, chapters, n, files);
      var last := ChapterKey(name, n);
      if chapters[n - 1].JArr? {
        assert g == f[last := ChapterObject(chapters[n - 1].items)];
      } else {
        assert g == f;
      }
      if k != last {
        assert k.book == name && 1 <= k.chapter <= n ==> k.chapter <= n - 1;
      }
    }
  }

  /** The chapter loop of one book: the files, and the error that stops it. */
  function BookChapters(name: Json, chapters: seq<Json>, files: Files): (Files, Option<string>) {
    if name.JStr? then (WriteChapters(name.s, chapters, |chapters|, files), None)
    else if HasList(chapters) then (files, Some(PathError))
    else (files, None)
  }

  /** The chapter loop of `main` for one book. */
  method WriteBook(name: Json, chapters: seq<Json>, files: Files) returns (files': Files, err: Option<string>)
    ensures (files', err) == BookChapters(name, chapters, files)
  {
    files' := files;
    for ci := 0 to |chapters|
      invariant name.JStr? ==> files' == WriteChapters(name.s, chapters, ci, files)
      invariant !name.JStr? ==> files' == files && forall j :: 0 <= j < ci ==> !chapters[j].JArr?
    {
      var verses := chapters[ci];
      if !verses.JArr? {
        continue;
      }
      if !name.JStr? {
        return files', Some(PathError);
      }
      var obj := WriteChapter(verses.items);
      files' := files'[ChapterKey(name.s, ci + 1) := obj];
    }
    err := None;
  }

  /** What the import has built so far: the files, `booksMap`, and the error that stopped it. */
  datatype Import = Import(files: Files, books: map<string, seq<nat>>, err: Option<string>)

  /**
   * One book of `main`: a `null` book throws; a book whose `chapters` is not
   * an array is skipped; otherwise `booksMap` gets its chapter numbers under
   * its name as a string and its chapters are written.
   */
  function ImportBook(book: Json, st: Import): Import {
    match BookName(book)
    case Err(e) => Import(st.files, st.books, Some(e))
    case Ok(name) =>
      var ch := Prop(Some(book), "chapters");
      if !IsArray(ch) then st
      else
        var (f, e) := BookChapters(name, ch.value.items, st.files);
        Import(f, st.books[ToJsString(name) := ChapterNumbers(|ch.value.items|)], e)
  }

  /** The name a book's chapter files are written under, when it has one. */
  function FileName(book: Json): Option<string> {
    match BookName(book)
    case Ok(JStr(s)) => Some(s)
    case _ => None
  }

  /** The book does not stop the import. */
  predicate BookOk(book: Json) {
    BookName(book).Ok?
    && (BookName(book).value.JStr? || !IsArray(Prop(Some(book), "chapters"))
        || !HasList(Prop(Some(book), "chapters").value.items))
  }

  /**
   * After one book: it fails exactly when it is not `BookOk`; its chapters
   * that are arrays are written under its name and every other chapter file is
   * as it was; `booksMap` gets its chapter numbers, 1 to the number of
   * chapters, under its name, and keeps every other entry.
   */
  lemma ImportBookIs(book: Json, st: Import, k: ChapterKey)
    requires st.err.None?
    ensures var r := ImportBook(book, st);
      && (r.err.None? <==> BookOk(book))
      && Load(r.files, k) ==
           (var ch := Prop(Some(book), "chapters");
            if FileName(book) == Some(k.book) && IsArray(ch) && 1 <= k.chapter <= |ch.value.items|
               && ch.value.items[k.chapter - 1].JArr?
            then ChapterObject(ch.value.items[k.chapter - 1].items) else Load(st.files, k))
      && (BookName(book).Ok? && IsArray(Prop(Some(book), "chapters")) ==>
            r.books == st.books[ToJsString(BookName(book).value) := ChapterNumbers(|Prop(Some(book), "chapters").value.items|)])
      && (!(BookName(book).Ok? && IsArray(Prop(Some(book), "chapters"))) ==> r.books == st.books)
  {
    match BookName(book)
    case Err(e) =>
    case Ok(name) =>
      var ch := Prop(Some(book), "chapters");
      if IsArray(ch) && name.JStr? {
        WriteChaptersAt(name.s, ch.value.items, |ch.value.items|, st.files, k);
      }
  }

  /** `main`'s book loop over a prefix of the data; the first error stops it. */
  function ImportAll(books: seq<Json>, files: Files): Import
    decreases |books|
  {
    if books == [] then Import(files, map[], None)
    else
      var st := ImportAll(books[..|books| - 1], files);
      if st.err.Some? then st else ImportBook(books[|books| - 1], st)
  }

  /** Once an error has stopped the loop, later books change nothing. */
  lemma {:induction false} ImportAllSticky(books: seq<Json>, n: nat, m: nat, files: Files)
    requires n <= m <= |books| && ImportAll(books[..n], files).err.Some?
    ensures ImportAll(books[..m], files) == ImportAll(books[..n], files)
    decreases m
  {
    if m > n {
      ImportAllSticky(books, n, m - 1, files);
      var full := books[..m];
      assert full != [] && full[..|full| - 1] == books[..m - 1];
    }
  }

  /** The import fails exactly when some book is not `BookOk`. */
  lemma {:induction false} ImportAllErr(books: seq<Json>, files: Files)
    ensures ImportAll(books, files).err.None? <==> forall i :: 0 <= i < |books| ==> BookOk(books[i])
    decreases |books|
  {
    if books != [] {
      var init := books[..|books| - 1];
      var st := ImportAll(init, files);
      ImportAllErr(init, files);
      if st.err.None? {
        ImportBookIs(books[|books| - 1], st, ChapterKey("", 0));
      }
      if forall i :: 0 <= i < |books| ==> BookOk(books[i]) {
        forall i | 0 <= i < |init| ensures BookOk(init[i]) {
          assert init[i] == books[i];
        }
      } else {
        var i :| 0 <= i < |books| && !BookOk(books[i]);
        if i < |init| { assert init[i] == books[i]; }
      }
    }
  }

  /**
   * Chapter files of a book no book of the data names (as a string) are
   * never touched, and neither is chapter 0 of any book.
   */
  lemma {:induction false} ImportAllOthers(books: seq<Json>, files: Files, k: ChapterKey)
    requires k.chapter == 0 || forall i :: 0 <= i < |books| ==> FileName(books[i]) != Some(k.book)
    ensures Load(ImportAll(books, files).files, k) == Load(files, k)
    decreases |books|
  {
    if books != [] {
      var init := books[..|books| - 1];
      var st := ImportAll(init, files);
      forall i | 0 <= i < |init| ensures init[i] == books[i] {}
      ImportAllOthers(init, files, k);
      if st.err.None? {
        ImportBookIs(books[|books| - 1], st, k);
      }
    }
  }

  /** Every entry of `booksMap` is a list `1..n`. */
  lemma {:induction false} ImportAllBooks(books: seq<Json>, files: Files, name: string)
    requires name in ImportAll(books, files).books
    ensures exists n :: ImportAll(books, files).books[name] == ChapterNumbers(n)
    decreases |books|
  {
    if books != [] {
      var init := books[..|books| - 1];
      var st := ImportAll(init, files);
      var book := books[|books| - 1];
      if st.err.None? {
        ImportBookIs(book, st, ChapterKey("", 0));
        var ch := Prop(Some(book), "chapters");
        if BookName(book).Ok? && IsArray(ch) && name == ToJsString(BookName(book).value) {
          assert ImportAll(books, files).books[name] == ChapterNumbers(|ch.value.items|);
        } else {
          ImportAllBooks(init, files, name);
        }
      } else {
        ImportAllBooks(init, files, name);
      }
    }
  }

  // ---------------------------------------------------------------------
  // The catalog

  /** `{ code: c }` */
  function Code(c: string): Json {
    JObj(map["code" := JStr(c)])
  }

  /** The catalog `updateCatalog` starts from when the file cannot be read or parsed. */
  function DefaultCatalog(): Json {
    JObj(map[
      "versions" := JObj(map[
        "KJV" := Code("kjv"),
        "KJV-AV.gpt-5" := Code("kjv_av_gpt5"),
        "KJV-AV.gpt4o-mini" := Code("kjv_av_gpt4o_mini")]),
      "books" := JObj(map[])])
  }

  /** `booksMap` as JSON: every name with its array of chapter numbers. */
  function BooksJson(books: map<string, seq<nat>>): Json {
    JObj(map name | name in books :: JArr(seq(|books[name]|, i requires 0 <= i < |books[name]| => JNum(books[name][i]))))
  }

  /** The `versions` value after `if (!catalog.versions) catalog.versions = {}` and the `KJV` entry. */
  function EnsureKjv(versions: Option<Json>): Result<Json> {
    if !Truthy(versions) then Ok(JObj(map["KJV" := Code("kjv")]))
    else
      match versions.value
      case JObj(vm) =>
        if "KJV" in vm && Truthy(Some(vm["KJV"])) then Ok(versions.value)
        else Ok(JObj(vm["KJV" := Code("kjv")]))
      case JArr(_) => Ok(versions.value)
      case _ => Err("TypeError: Cannot create property 'KJV'")
  }

  /**
   * `updateCatalog`: the parsed catalog, or the default one when there is
   * none (`None`), with `books` replaced by `booksMap` and a `KJV` version
   * ensured. Module code is strict, so setting a property on `null` or on a
   * string, number or boolean throws; on an array it is allowed but lost when
   * the array is written back.
   */
  function UpdateCatalog(existing: Option<Json>, books: Json): Result<Json> {
    var cat := if existing.None? then DefaultCatalog() else existing.value;
    match cat
    case JObj(m) =>
      var versions := if "versions" in m then Some(m["versions"]) else None;
      (match EnsureKjv(versions)
       case Err(e) => Err(e)
       case Ok(v) => Ok(JObj(m["books" := books]["versions" := v])))
    case JArr(_) => Ok(cat)
    case JNull => Err("TypeError: Cannot set properties of null")
    case _ => Err("TypeError: Cannot create property 'books'")
  }

  /**
   * An object catalog comes back with `books` replaced, a truthy `KJV`
   * version whenever its versions are an object or missing, every other
   * field and every truthy version as it was; the update fails only for a
   * `null` or primitive catalog or a truthy primitive `versions`.
   */
  lemma UpdateCatalogIs(existing: Option<Json>, books: Json)
    ensures var r := UpdateCatalog(existing, books);
      var cat := if existing.None? then DefaultCatalog() else existing.value;
      && (r.Err? <==>
            || cat.JNull? || cat.JBool? || cat.JNum? || cat.JStr?
            || (cat.JObj? && "versions" in cat.fields && Truthy(Some(cat.fields["versions"]))
                && !cat.fields["versions"].JObj? && !cat.fields["versions"].JArr?))
      && (cat.JArr? ==> r == Ok(cat))
      && (r.Ok? && cat.JObj? ==>
            && r.value.JObj?
            && r.value.fields.Keys == cat.fields.Keys + {"books", "versions"}
            && r.value.fields["books"] == books
            && (forall f <- cat.fields :: f != "books" && f != "versions" ==> r.value.fields[f] == cat.fields[f])
            && (var v := r.value.fields["versions"];
                && (v.JObj? ==> "KJV" in v.fields && Truthy(Some(v.fields["KJV"])))
                && ("versions" in cat.fields && cat.fields["versions"].JObj? ==>
                      v.JObj? && forall n <- cat.fields["versions"].fields ::
                        Truthy(Some(cat.fields["versions"].fields[n])) ==> n in v.fields && v.fields[n] == cat.fields["versions"].fields[n])
                && (!("versions" in cat.fields && cat.fields["versions"].JArr?) ==> v.JObj?)))
  {
  }

  /** Updating an updated catalog with the same books changes nothing. */
  lemma UpdateCatalogIdempotent(existing: Option<Json>, books: Json)
    requires UpdateCatalog(existing, books).Ok?
    ensures UpdateCatalog(Some(UpdateCatalog(existing, books).value), books) == UpdateCatalog(existing, books)
  {
    var cat := if existing.None? then DefaultCatalog() else existing.value;
    if cat.JObj? {
      var r := UpdateCatalog(existing, books).value;
      var m := cat.fields;
      var versions := if "versions" in m then Some(m["versions"]) else None;
      var v := EnsureKjv(versions).value;
      assert r.fields["versions"] == v;
      assert EnsureKjv(Some(v)) == Ok(v);
      assert r.fields["books" := books]["versions" := v] == r.fields;
    }
  }

  /** Without a readable catalog the three default versions are written with the new books. */
  lemma UpdateCatalogDefault(books: Json)
    ensures var r := UpdateCatalog(None, books);
      && r.Ok? && r.value.JObj?
      && r.value.fields["books"] == books
      && r.value.fields["versions"] == DefaultCatalog().fields["versions"]
  {
    var v := DefaultCatalog().fields["versions"];
    assert "KJV" in v.fields && Truthy(Some(v.fields["KJV"]));
  }

  // ---------------------------------------------------------------------
  // The run

  /**
   * The whole import: the chapter files as they stand when it ends, and the
   * catalog it writes, or the error that ended it before the catalog was
   * written.
   */
  function ImportKjvRun(data: Json, existing: Option<Json>, files: Files): (Files, Result<Json>) {
    if !data.JArr? then (files, Err("Unexpected KJV JSON format"))
    else
      var st := ImportAll(data.items, files);
      if st.err.Some? then (st.files, Err(st.err.value))
      else (st.files, UpdateCatalog(existing, BooksJson(st.books)))
  }

  /** The loop of `main` from book `i`; the books up to `i` imported without an error. */
  lemma ImportAllStep(books: seq<Json>, i: nat, files: Files)
    requires i < |books| && ImportAll(books[..i], files).err.None?
    ensures ImportAll(books[..i + 1], files) == ImportBook(books[i], ImportAll(books[..i], files))
  {
    assert books[..i + 1][..i] == books[..i];
  }

  /**
   * `main`: a data value that is not an array throws before anything is
   * written. `count` is the number of books it reports: the keys of `booksMap`.
   */
  method Run(data: Json, existing: Option<Json>, files: Files) returns (files': Files, catalog: Result<Json>, count: nat)
    ensures (files', catalog) == ImportKjvRun(data, existing, files)
    ensures catalog.Ok? ==> data.JArr? && count == |ImportAll(data.items, files).books|
  {
    if !data.JArr? {
      return files, Err("Unexpected KJV JSON format"), 0;
    }
    var books := data.items;
    var booksMap: map<string, seq<nat>> := map[];
    files' := files;
    for i := 0 to |books|
      invariant ImportAll(books[..i], files) == Import(files', booksMap, None)
    {
      ImportAllStep(books, i, files);
      var book := books[i];
      var name := BookName(book);
      if name.Err? {
        ImportAllSticky(books, i + 1, |books|, files);
        assert books[..|books|] == books;
        return files', Err(name.msg), 0;
      }
      var chapters := Prop(Some(book), "chapters");
      if !IsArray(chapters) {
        continue;
      }
      var numbers := ChapterCountArray(|chapters.value.items|);
      booksMap := booksMap[ToJsString(name.value) := numbers];
      var err;
      files', err := WriteBook(name.value, chapters.value.items, files');
      if err.Some? {
        ImportAllSticky(books, i + 1, |books|, files);
        assert books[..|books|] == books;
        return files', Err(err.value), 0;
      }
    }
    assert books[..|books|] == books;
    catalog := UpdateCatalog(existing, BooksJson(booksMap));
    count := |booksMap|;
  }
}
