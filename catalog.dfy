/**
 * `catalog.json` as the seeding, coverage and scaffolding scripts read it:
 * the `books` object, book name -> list of chapter numbers, with its keys in
 * `Object.keys` order, and the book arguments those scripts take on the
 * command line.
 */
module Catalog {
  import opened Common

  /** A value of `catalog.books`: an array of chapter numbers, or anything else. */
  datatype Entry = Chapters(list: seq<nat>) | NotAList

  /** The `books` object of the catalog; `keys` is `Object.keys(catalog.books || {})`. */
  datatype Catalog = Catalog(books: map<string, Entry>, keys: seq<string>)

  /**
   * `catalog.books?.[book]` when it passes `Array.isArray(chapters) &&
   * chapters.length > 0`: the chapter list, or `None` for an unknown book, a
   * value that is not an array, or an empty array.
   */
  function ChaptersOf(c: Catalog, book: string): (r: Option<seq<nat>>)
    ensures r.Some? <==> book in c.books && c.books[book].Chapters? && |c.books[book].list| > 0
    ensures r.Some? ==> r.value == c.books[book].list
  {
    if book in c.books && c.books[book].Chapters? && |c.books[book].list| > 0 then Some(c.books[book].list)
    else None
  }

  /**
   * The books a script works on: the arguments, or `fallback` when there are
   * none; a single argument holding a comma is split on commas, every piece
   * trimmed and the empty pieces dropped.
   */
  function BookList(args: seq<string>, fallback: seq<string>): (r: seq<string>)
  {
    var books := if |args| > 0 then args else fallback;
    if |books| == 1 && ',' in books[0] then NonEmptyOnly(MapSeq(Trim, Split(books[0], ',')))
    else books
  }

  /** Without a single comma-holding argument the list is taken as given. */
  lemma BookListPlain(args: seq<string>, fallback: seq<string>)
    ensures var books := if |args| > 0 then args else fallback;
      !(|books| == 1 && ',' in books[0]) ==> BookList(args, fallback) == books
    ensures |args| == 0 && fallback == [] ==> BookList(args, fallback) == []
  {
  }

  /** Every book of a split argument is trimmed, non-empty and free of commas. */
  lemma BookListPieces(args: seq<string>, fallback: seq<string>, b: string)
    requires var books := if |args| > 0 then args else fallback; |books| == 1 && ',' in books[0]
    requires b in BookList(args, fallback)
    ensures b != "" && IsTrimmed(b) && ',' !in b
  {
    var books := if |args| > 0 then args else fallback;
    var pieces := Split(books[0], ',');
    var trimmed := MapSeq(Trim, pieces);
    var i :| 0 <= i < |trimmed| && trimmed[i] == b;
    assert b == Trim(pieces[i]);
    var k := TrimSlice(pieces[i]);
  }

  /** Joining the pieces with commas gives one argument of them. */
  lemma {:induction false} JoinHasComma(names: seq<string>)
    requires |names| >= 2
    ensures ',' in Join(names, ",")
  {
    var rest := Join(names[1..], ",");
    assert Join(names, ",") == names[0] + "," + rest;
    assert (names[0] + "," + rest)[|names[0]|] == ',';
  }

  lemma {:induction false} NonEmptyOnlyAll(s: seq<string>)
    requires forall i :: 0 <= i < |s| ==> s[i] != ""
    ensures NonEmptyOnly(s) == s
    decreases |s|
  {
    if s != [] {
      NonEmptyOnlyAll(s[1..]);
      assert [s[0]] + s[1..] == s;
    }
  }

  /** Trimming names that are already trimmed changes none of them. */
  lemma MapTrimTrimmed(names: seq<string>)
    requires forall i :: 0 <= i < |names| ==> IsTrimmed(names[i])
    ensures MapSeq(Trim, names) == names
  {
    var trimmed := MapSeq(Trim, names);
    forall i | 0 <= i < |names| ensures trimmed[i] == names[i] {
      TrimTrimmed(names[i]);
    }
  }

  /**
   * Names joined by commas into one argument come back as the same list,
   * whatever the fallback.
   */
  lemma BookListJoined(names: seq<string>, fallback: seq<string>)
    requires |names| >= 2
    requires forall i :: 0 <= i < |names| ==> names[i] != "" && IsTrimmed(names[i]) && ',' !in names[i]
    ensures BookList([Join(names, ",")], fallback) == names
  {
    var joined := Join(names, ",");
    JoinHasComma(names);
    assert BookList([joined], fallback) == NonEmptyOnly(MapSeq(Trim, Split(joined, ',')));
    SplitJoin(names, ',');
    MapTrimTrimmed(names);
    NonEmptyOnlyAll(names);
  }
}
