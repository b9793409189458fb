/**
 * The reference pattern `^(.+?)\s+(\d+):(\d+)$` shared by the tag parsers of
 * the correlating importers, as an explicit right-to-left scanner.
 *
 * A match splits the text into a book (one or more characters, none of them a
 * line terminator, since `.` does not match those), a non-empty whitespace
 * gap, a chapter digit run, a colon and a verse digit run reaching the end.
 * The verse and chapter runs are forced; the lazy `+?` makes the book as
 * short as the gap allows, so a book never keeps whitespace from the gap
 * unless the gap is all that precedes the chapter.
 */
module Locator {
  import opened Common

  /** The four pieces of a match: `book + gap + chapter + ":" + verse`. */
  datatype Parts = Parts(book: string, gap: string, chapter: string, verse: string)

  /** `p` is one way of matching the pattern against the whole of `t`. */
  predicate Matches(t: string, p: Parts) {
    && t == p.book + p.gap + p.chapter + ":" + p.verse
    && |p.book| >= 1 && NoLineTerminator(p.book)
    && |p.gap| >= 1 && AllSpace(p.gap)
    && |p.chapter| >= 1 && AllDigits(p.chapter)
    && |p.verse| >= 1 && AllDigits(p.verse)
  }

  /** Start of the longest run of digits ending at `e`. */
  function DigitRunStart(t: string, e: nat): (i: nat)
    requires e <= |t|
    ensures i <= e && AllDigits(t[i..e])
    ensures i == 0 || !IsDigit(t[i - 1])
    decreases e
  {
    if e > 0 && IsDigit(t[e - 1]) then
      var i := DigitRunStart(t, e - 1);
      assert t[i..e] == t[i..e - 1] + [t[e - 1]];
      i
    else e
  }

  /** Start of the longest run of whitespace ending at `e`. */
  function SpaceRunStart(t: string, e: nat): (i: nat)
    requires e <= |t|
    ensures i <= e && AllSpace(t[i..e])
    ensures i == 0 || !IsSpace(t[i - 1])
    decreases e
  {
    if e > 0 && IsSpace(t[e - 1]) then
      var i := SpaceRunStart(t, e - 1);
      assert t[i..e] == t[i..e - 1] + [t[e - 1]];
      i
    else e
  }

  /** A digit run that cannot be extended to the left is the one the scanner finds. */
  lemma {:induction false} DigitRunStartIs(t: string, i: nat, e: nat)
    requires i <= e <= |t| && AllDigits(t[i..e]) && (i == 0 || !IsDigit(t[i - 1]))
    ensures DigitRunStart(t, e) == i
    decreases e
  {
    if e > i {
      assert IsDigit(t[i..e][e - 1 - i]);
      assert t[i..e - 1] == t[i..e][..e - 1 - i];
      DigitRunStartIs(t, i, e - 1);
    }
  }

  lemma {:induction false} SpaceRunStartIs(t: string, i: nat, e: nat)
    requires i <= e <= |t| && AllSpace(t[i..e]) && (i == 0 || !IsSpace(t[i - 1]))
    ensures SpaceRunStart(t, e) == i
    decreases e
  {
    if e > i {
      assert IsSpace(t[i..e][e - 1 - i]);
      assert t[i..e - 1] == t[i..e][..e - 1 - i];
      SpaceRunStartIs(t, i, e - 1);
    }
  }

  /** The scanner's whitespace run reaches at least as far left as any whitespace run. */
  lemma {:induction false} SpaceRunStartLe(t: string, j: nat, e: nat)
    requires j <= e <= |t| && AllSpace(t[j..e])
    ensures SpaceRunStart(t, e) <= j
    decreases e
  {
    if e > j {
      assert IsSpace(t[j..e][e - 1 - j]);
      assert t[j..e - 1] == t[j..e][..e - 1 - j];
      SpaceRunStartLe(t, j, e - 1);
    }
  }

  /**
   * The same match described by positions: the book is `t[..bl]`, the gap
   * `t[bl..cs]`, the chapter `t[cs..vs - 1]`, the colon `t[vs - 1]` and the
   * verse `t[vs..]`.
   */
  predicate Layout(t: string, bl: nat, cs: nat, vs: nat) {
    && 1 <= bl < cs && cs + 1 < vs < |t| && t[vs - 1] == ':'
    && NoLineTerminator(t[..bl]) && AllSpace(t[bl..cs])
    && AllDigits(t[cs..vs - 1]) && AllDigits(t[vs..])
  }

  /** The pieces of a layout form a match. */
  lemma LayoutMatches(t: string, bl: nat, cs: nat, vs: nat)
    requires Layout(t, bl, cs, vs)
    ensures Matches(t, Parts(t[..bl], t[bl..cs], t[cs..vs - 1], t[vs..]))
  {
    assert t == t[..bl] + t[bl..cs] + t[cs..vs - 1] + [t[vs - 1]] + t[vs..];
  }

  /** Every match is a layout, at the positions its pieces' lengths give. */
  lemma MatchLayout(t: string, p: Parts)
    requires Matches(t, p)
    ensures Layout(t, |p.book|, |p.book| + |p.gap|, |t| - |p.verse|)
    ensures t[..|p.book|] == p.book && t[|p.book|..|p.book| + |p.gap|] == p.gap
    ensures t[|p.book| + |p.gap|..|t| - |p.verse| - 1] == p.chapter && t[|t| - |p.verse|..] == p.verse
  {
    var cs := |p.book| + |p.gap|;
    var vs := |t| - |p.verse|;
    assert t == p.book + p.gap + p.chapter + [':'] + p.verse;
    assert |t| == cs + |p.chapter| + 1 + |p.verse|;
    assert t[..|p.book|] == p.book;
    assert t[|p.book|..cs] == p.gap;
    assert t[cs..vs - 1] == p.chapter;
    assert t[vs..] == p.verse;
    assert t[vs - 1] == ':';
  }

  /** Where the scanner cuts a text: book length, chapter start and verse start. */
  datatype Cuts = Cuts(bookEnd: nat, chapterStart: nat, verseStart: nat)

  /** Where the scanner cuts `t`. */
  function Cut(t: string): (r: Option<Cuts>)
    ensures r.Some? ==> Layout(t, r.value.bookEnd, r.value.chapterStart, r.value.verseStart)
  {
    var vs := DigitRunStart(t, |t|);
    if vs == |t| || vs == 0 || t[vs - 1] != ':' then None
    else
      var cs := DigitRunStart(t, vs - 1);
      if cs == vs - 1 then None
      else
        var ws := SpaceRunStart(t, cs);
        var b := if ws == 0 then 1 else ws;
        if b >= cs || !NoLineTerminator(t[..b]) then None
        else
          assert AllSpace(t[b..cs]) by {
            forall k | 0 <= k < cs - b ensures IsSpace(t[b..cs][k]) {
              assert t[b..cs][k] == t[ws..cs][b + k - ws];
            }
          }
          assert AllDigits(t[vs..]) by {
            assert t[vs..] == t[vs..|t|];
          }
          assert AllDigits(t[cs..vs - 1]);
          Some(Cuts(b, cs, vs))
  }

  /**
   * The scanner finds every layout's chapter and verse, and a book no
   * longer than the layout's; exactly that book when it does not end in
   * whitespace.
   */
  lemma CutLeast(t: string, bl: nat, cs: nat, vs: nat)
    requires Layout(t, bl, cs, vs)
    ensures Cut(t).Some? && Cut(t).value.chapterStart == cs && Cut(t).value.verseStart == vs
    ensures Cut(t).value.bookEnd <= bl
    ensures !IsSpace(t[bl - 1]) ==> Cut(t).value.bookEnd == bl
  {
    DigitRunStartIs(t, vs, |t|);
    assert t[cs - 1] == t[bl..cs][cs - 1 - bl];
    DigitRunStartIs(t, cs, vs - 1);
    SpaceRunStartLe(t, bl, cs);
    var ws := SpaceRunStart(t, cs);
    var b := if ws == 0 then 1 else ws;
    assert NoLineTerminator(t[..b]) by {
      forall k | 0 <= k < b ensures !IsLineTerminator(t[..b][k]) {
        assert t[..b][k] == t[..bl][k];
      }
    }
    if !IsSpace(t[bl - 1]) {
      SpaceRunStartIs(t, bl, cs);
    }
  }

  /**
   * The match the regular expression engine reports, or `None` when there is
   * none (`String.prototype.match` returning `null`).
   */
  function Locate(t: string): (r: Option<Parts>)
    ensures r.Some? ==> Matches(t, r.value)
  {
    match Cut(t)
    case None => None
    case Some(Cuts(b, cs, vs)) =>
      LayoutMatches(t, b, cs, vs);
      Some(Parts(t[..b], t[b..cs], t[cs..vs - 1], t[vs..]))
  }

  lemma LocateCut(t: string, b: nat, cs: nat, vs: nat)
    requires Cut(t) == Some(Cuts(b, cs, vs))
    ensures Locate(t) == Some(Parts(t[..b], t[b..cs], t[cs..vs - 1], t[vs..]))
  {
  }

  /** `Locate` on a layout, in positions. */
  lemma LocateLayout(t: string, bl: nat, cs: nat, vs: nat)
    requires Layout(t, bl, cs, vs)
    ensures Locate(t).Some? && |Locate(t).value.book| <= bl
    ensures Locate(t).value.chapter == t[cs..vs - 1] && Locate(t).value.verse == t[vs..]
    ensures !IsSpace(t[bl - 1]) ==> Locate(t) == Some(Parts(t[..bl], t[bl..cs], t[cs..vs - 1], t[vs..]))
  {
    CutLeast(t, bl, cs, vs);
    LocateCut(t, Cut(t).value.bookEnd, cs, vs);
  }

  /**
   * Lazy matching: when the text matches at all, the scanner reports a match
   * with the same chapter and verse and a book no longer than any other
   * match's book.
   */
  lemma LocateShortest(t: string, p: Parts)
    requires Matches(t, p)
    ensures Locate(t).Some?
    ensures |Locate(t).value.book| <= |p.book|
    ensures Locate(t).value.chapter == p.chapter && Locate(t).value.verse == p.verse
  {
    MatchLayout(t, p);
    LocateLayout(t, |p.book|, |p.book| + |p.gap|, |t| - |p.verse|);
  }

  /** No match at all is exactly when the scanner reports `None`. */
  lemma LocateNone(t: string)
    ensures Locate(t).None? <==> forall p :: !Matches(t, p)
  {
    if Locate(t).None? {
      forall p ensures !Matches(t, p) {
        if Matches(t, p) {
          LocateShortest(t, p);
        }
      }
    }
  }

  /** A match whose book does not end in whitespace is the one reported. */
  lemma LocateExact(t: string, p: Parts)
    requires Matches(t, p) && !IsSpace(p.book[|p.book| - 1])
    ensures Locate(t) == Some(p)
  {
    var bl, cs, vs := |p.book|, |p.book| + |p.gap|, |t| - |p.verse|;
    MatchParts(t, p, bl, cs, vs);
    LocateLayout(t, bl, cs, vs);
    SomeEqual(Locate(t), Parts(t[..bl], t[bl..cs], t[cs..vs - 1], t[vs..]), p);
  }

  lemma SomeEqual<T>(x: Option<T>, y: T, z: T)
    requires x == Some(y) && y == z
    ensures x == Some(z)
  {
  }

  lemma MatchParts(t: string, p: Parts, bl: nat, cs: nat, vs: nat)
    requires Matches(t, p) && |p.book| >= 1
    requires bl == |p.book| && cs == bl + |p.gap| && vs == |t| - |p.verse|
    ensures Layout(t, bl, cs, vs)
    ensures t[bl - 1] == p.book[bl - 1]
    ensures Parts(t[..bl], t[bl..cs], t[cs..vs - 1], t[vs..]) == p
  {
    MatchLayout(t, p);
    assert t[bl - 1] == t[..bl][bl - 1];
  }

  /** `book + " " + chapter + ":" + verse` splits back into its pieces. */
  lemma LocateJoined(book: string, chapter: string, verse: string)
    requires |book| >= 1 && NoLineTerminator(book) && !IsSpace(book[|book| - 1])
    requires |chapter| >= 1 && AllDigits(chapter) && |verse| >= 1 && AllDigits(verse)
    ensures Locate(book + " " + chapter + ":" + verse) == Some(Parts(book, " ", chapter, verse))
  {
    LocateExact(book + " " + chapter + ":" + verse, Parts(book, " ", chapter, verse));
  }
}
