/**
 * import-av-txt: reads an exported text file of lines `Book C:V<TAB>text`,
 * groups the parsed verses by chapter and merges each chapter into its file:
 * the verses of the text overwrite, those only in the file stay, and a file
 * is rewritten only when the merge changes it.
 */
module ImportAvTxt {
  import opened Common
  import opened Json
  import opened Store
  import CollectAv

  // ---------------------------------------------------------------------
  // Books

  /** The alias table of this tool: "Psalm" and "Song of Songs". */
  function NormalizeBook(name: string): (r: string)
    ensures name == "Psalm" ==> r == "Psalms"
    ensures name == "Song of Songs" ==> r == "Song of Solomon"
    ensures name != "Psalm" && name != "Song of Songs" ==> r == name
    ensures |name| >= 1 ==> |r| >= 1
  {
    if name == "Psalm" then "Psalms"
    else if name == "Song of Songs" then "Song of Solomon"
    else name
  }

  lemma NormalizeBookIdempotent(name: string)
    ensures NormalizeBook(NormalizeBook(name)) == NormalizeBook(name)
  {
  }

  // ---------------------------------------------------------------------
  // The line pattern `^\s*(.+?)\s+(\d+):(\d+)\s*[\t ]\s*(.+)\s*$`

  /** End of the longest run of whitespace starting at `i`. */
  function SpaceRunEnd(t: string, i: nat): (e: nat)
    requires i <= |t|
    ensures i <= e <= |t| && (e == |t| || !IsSpace(t[e]))
    decreases |t| - i
  {
    if i < |t| && IsSpace(t[i]) then SpaceRunEnd(t, i + 1) else i
  }

  /** End of the longest run of digits starting at `i`. */
  function DigitRunEnd(t: string, i: nat): (e: nat)
    requires i <= |t|
    ensures i <= e <= |t| && (e == |t| || !IsDigit(t[e]))
    decreases |t| - i
  {
    if i < |t| && IsDigit(t[i]) then DigitRunEnd(t, i + 1) else i
  }

  /** The first line terminator at or after `i`, or the end. */
  function FirstLineTerminator(t: string, i: nat): (q: nat)
    requires i <= |t|
    ensures i <= q <= |t| && (q == |t| || IsLineTerminator(t[q]))
    decreases |t| - i
  {
    if i < |t| && !IsLineTerminator(t[i]) then FirstLineTerminator(t, i + 1) else i
  }

  /** Everything the digit scan passes over is a digit. */
  lemma {:induction false} DigitRunEndAll(t: string, i: nat)
    requires i <= |t|
    ensures AllDigits(t[i..DigitRunEnd(t, i)])
    decreases |t| - i
  {
    if i < |t| && IsDigit(t[i]) {
      DigitRunEndAll(t, i + 1);
      assert t[i..DigitRunEnd(t, i)] == [t[i]] + t[i + 1..DigitRunEnd(t, i + 1)];
    }
  }

  lemma {:induction false} FirstLineTerminatorAll(t: string, i: nat)
    requires i <= |t|
    ensures NoLineTerminator(t[i..FirstLineTerminator(t, i)])
    decreases |t| - i
  {
    if i < |t| && !IsLineTerminator(t[i]) {
      FirstLineTerminatorAll(t, i + 1);
      assert t[i..FirstLineTerminator(t, i)] == [t[i]] + t[i + 1..FirstLineTerminator(t, i + 1)];
    }
  }

  predicate IsTabOrSpace(c: char) {
    c == '\t' || c == ' '
  }

  /** `\s*[\t ]\s*` can match the whole of `t[i..j]`: one of its characters is a tab or a space. */
  predicate HasTabOrSpace(t: string, i: nat, j: nat)
    requires i <= j <= |t|
    decreases j - i
  {
    i < j && (IsTabOrSpace(t[i]) || HasTabOrSpace(t, i + 1, j))
  }

  /** One of the characters of `t[i..j]` is not a line terminator. */
  predicate HasNonTerminator(t: string, i: nat, j: nat)
    requires i <= j <= |t|
    decreases j - i
  {
    i < j && (!IsLineTerminator(t[i]) || HasNonTerminator(t, i + 1, j))
  }

  /**
   * `\s*[\t ]\s*(.+)` can match the whole of a whitespace run `t[i..j]`
   * that ends the line: a tab or space with a non-terminator after it, so
   * that the text group holds whitespace only.
   */
  predicate BlankTail(t: string, i: nat, j: nat)
    requires i <= j <= |t|
    decreases j - i
  {
    i < j && ((IsTabOrSpace(t[i]) && HasNonTerminator(t, i + 1, j)) || BlankTail(t, i + 1, j))
  }

  lemma {:induction false} HasTabOrSpaceIs(t: string, i: nat, j: nat)
    requires i <= j <= |t|
    ensures HasTabOrSpace(t, i, j) <==> exists k :: i <= k < j && IsTabOrSpace(t[k])
    decreases j - i
  {
    if i < j {
      HasTabOrSpaceIs(t, i + 1, j);
    }
  }

  lemma {:induction false} BlankTailIs(t: string, i: nat, j: nat)
    requires i <= j <= |t|
    ensures BlankTail(t, i, j) <==> exists k, m :: i <= k < m < j && IsTabOrSpace(t[k]) && !IsLineTerminator(t[m])
    decreases j - i
  {
    if i < j {
      BlankTailIs(t, i + 1, j);
      HasNonTerminatorIs(t, i + 1, j);
    }
  }

  lemma {:induction false} HasNonTerminatorIs(t: string, i: nat, j: nat)
    requires i <= j <= |t|
    ensures HasNonTerminator(t, i, j) <==> exists m :: i <= m < j && !IsLineTerminator(t[m])
    decreases j - i
  {
    if i < j {
      HasNonTerminatorIs(t, i + 1, j);
    }
  }

  /**
   * How the part of the pattern after the book matches `t[l..]`: not at all,
   * with a text group of whitespace only, or with the chapter, verse and
   * text groups found.
   */
  datatype Tail = NoMatch | Blank | Found(chapter: string, verse: string, text: string)

  /**
   * `\s+(\d+):(\d+)\s*[\t ]\s*(.+)\s*$` against `t[l..]`. Each run is
   * forced to be maximal; the text group reaches the first line terminator,
   * and everything after it must be whitespace.
   */
  function MatchTail(t: string, l: nat): (m: Tail)
    requires l <= |t|
    ensures m.Found? ==> |m.chapter| >= 1 && |m.verse| >= 1 && |m.text| >= 1 && !IsSpace(m.text[0])
  {
    var g := SpaceRunEnd(t, l);
    if g == l then NoMatch
    else
      var ce := DigitRunEnd(t, g);
      if ce == g || ce == |t| || t[ce] != ':' then NoMatch
      else
        var ve := DigitRunEnd(t, ce + 1);
        if ve == ce + 1 then NoMatch
        else
          var w := SpaceRunEnd(t, ve);
          if w == |t| then (if BlankTail(t, ve, w) then Blank else NoMatch)
          else if !HasTabOrSpace(t, ve, w) then NoMatch
          else
            var q := FirstLineTerminator(t, w);
            if SpaceRunEnd(t, q) != |t| then NoMatch
            else Found(t[g..ce], t[ce + 1..ve], t[w..q])
  }

  /** The groups of a found tail: digit runs for chapter and verse, a text on one line. */
  lemma MatchTailFound(t: string, l: nat)
    requires l <= |t| && MatchTail(t, l).Found?
    ensures AllDigits(MatchTail(t, l).chapter) && AllDigits(MatchTail(t, l).verse)
    ensures NoLineTerminator(MatchTail(t, l).text)
  {
    var g := SpaceRunEnd(t, l);
    var ce := DigitRunEnd(t, g);
    var ve := DigitRunEnd(t, ce + 1);
    var w := SpaceRunEnd(t, ve);
    DigitRunEndAll(t, g);
    DigitRunEndAll(t, ce + 1);
    FirstLineTerminatorAll(t, w);
  }

  /**
   * The lazy book group `(.+?)` starting at `s`: the shortest book
   * `t[s..l]`, free of line terminators, after which the rest of the
   * pattern matches; the book end and how the rest matched.
   */
  function SearchBook(t: string, s: nat, l: nat): (r: Option<(nat, Tail)>)
    requires s < l <= |t|
    ensures r.Some? ==> l <= r.value.0 <= |t| && r.value.1 != NoMatch && r.value.1 == MatchTail(t, r.value.0)
    decreases |t| - l
  {
    if IsLineTerminator(t[l - 1]) then None
    else
      match MatchTail(t, l)
      case NoMatch => if l == |t| then None else SearchBook(t, s, l + 1)
      case m => Some((l, m))
  }

  /**
   * `line.match(...)` of `parseLine`: the end of the leading `\s*`, the end
   * of the book group and how the rest of the pattern matched.
   */
  function FindBook(line: string): (r: Option<(nat, nat, Tail)>)
    ensures r.Some? ==> r.value.0 < r.value.1 <= |line| && r.value.2 != NoMatch
    ensures r.Some? ==> r.value.2 == MatchTail(line, r.value.1)
    ensures r.Some? ==> r.value.0 == SpaceRunEnd(line, 0) && SearchBook(line, r.value.0, r.value.0 + 1) == Some((r.value.1, r.value.2))
  {
    var s := SpaceRunEnd(line, 0);
    if s == |line| then None
    else
      match SearchBook(line, s, s + 1)
      case None => None
      case Some((l, m)) => Some((s, l, m))
  }

  /**
   * The record `parseLine` builds from the groups: book `line[s..l]` trimmed
   * and aliased, the numbers of the chapter and verse digits and the trimmed
   * text; `null` when one of them is empty or zero.
   */
  function RecordOf(line: string, s: nat, l: nat, m: Tail): (r: Option<VerseRecord>)
    requires s <= l <= |line| && m.Found? && AllDigits(m.chapter) && AllDigits(m.verse)
    requires NoLineTerminator(m.text)
    ensures r.Some? ==> r.value.book != "" && r.value.chapter > 0 && r.value.verse > 0
    ensures r.Some? ==> r.value.text != "" && IsTrimmed(r.value.text) && NoLineTerminator(r.value.text)
  {
    TrimNoLineTerminator(m.text);
    GroupsRecord(line[s..l], m.chapter, m.verse, m.text)
  }

  /**
   * Lines 41-46 on the four captured groups: the book trimmed and aliased,
   * `Number` of the digit groups, the text trimmed; `null` when one of them
   * is empty or zero.
   */
  function GroupsRecord(book: string, chapter: string, verse: string, text: string): (r: Option<VerseRecord>)
    requires AllDigits(chapter) && AllDigits(verse)
    ensures r.Some? ==> r.value.book != "" && r.value.chapter > 0 && r.value.verse > 0
    ensures r.Some? ==> r.value.text != "" && IsTrimmed(r.value.text)
  {
    var b := NormalizeBook(Trim(book));
    var c := DigitsToNat(chapter);
    var v := DigitsToNat(verse);
    var x := Trim(text);
    if b == "" || c == 0 || v == 0 || x == "" then None
    else Some(VerseRecord(b, c, v, x))
  }

  /**
   * `parseLine`: `null` when the pattern does not match, and when the book
   * is empty, the chapter or verse is 0 or the trimmed text is empty.
   */
  function ParseLine(line: string): (r: Option<VerseRecord>)
    ensures r.Some? ==> r.value.book != "" && r.value.chapter > 0 && r.value.verse > 0
    ensures r.Some? ==> r.value.text != "" && IsTrimmed(r.value.text) && NoLineTerminator(r.value.text)
  {
    match FindBook(line)
    case None => None
    case Some((s, l, m)) =>
      if !m.Found? then None
      else
        MatchTailFound(line, l);
        RecordOf(line, s, l, m)
  }

  // ---------------------------------------------------------------------
  // The line pattern, group by group

  // Character classes over a range of positions of the line.

  predicate SpaceIn(t: string, i: nat, j: nat)
    requires i <= j <= |t|
  {
    forall k {:trigger IsSpace(t[k])} :: i <= k < j ==> IsSpace(t[k])
  }

  predicate DigitsIn(t: string, i: nat, j: nat)
    requires i <= j <= |t|
  {
    forall k {:trigger IsDigit(t[k])} :: i <= k < j ==> IsDigit(t[k])
  }

  /** No line terminator in `t[i..j]`. */
  predicate OneLineIn(t: string, i: nat, j: nat)
    requires i <= j <= |t|
  {
    forall k {:trigger IsLineTerminator(t[k])} :: i <= k < j ==> !IsLineTerminator(t[k])
  }

  /** `\s*[\t ]\s*` can match whitespace `t[i..j]` exactly when one of its characters is a tab or a space. */
  predicate TabOrSpaceIn(t: string, i: nat, j: nat)
    requires i <= j <= |t|
  {
    exists k :: i <= k < j && IsTabOrSpace(t[k])
  }

  /**
   * Where the parts of one way of matching the line pattern end: the
   * leading `\s*` is `t[..lead]`, the book group `t[lead..book]`, the `\s+`
   * gap `t[book..gap]`, the chapter group `t[gap..chapter]`, the colon
   * `t[chapter]`, the verse group `t[chapter + 1..verse]`, the separator
   * `\s*[\t ]\s*` `t[verse..mid]`, the text group `t[mid..text]` and the
   * trailing `\s*` `t[text..]`.
   */
  datatype Spans = Spans(lead: nat, book: nat, gap: nat, chapter: nat, verse: nat, mid: nat, text: nat)

  /** The part of a match from the end of the book on. */
  predicate TailLayout(t: string, sp: Spans) {
    && sp.book < sp.gap < sp.chapter && sp.chapter + 1 < sp.verse < sp.mid < sp.text <= |t|
    && SpaceIn(t, sp.book, sp.gap) && DigitsIn(t, sp.gap, sp.chapter) && t[sp.chapter] == ':'
    && DigitsIn(t, sp.chapter + 1, sp.verse) && SpaceIn(t, sp.verse, sp.mid) && TabOrSpaceIn(t, sp.verse, sp.mid)
    && OneLineIn(t, sp.mid, sp.text) && SpaceIn(t, sp.text, |t|)
  }

  /**
   * `sp` is one way of matching `^\s*(.+?)\s+(\d+):(\d+)\s*[\t ]\s*(.+)\s*$`
   * against the whole of `t` (no `m` flag, so `.` stops at line
   * terminators and `$` is the end of the line).
   */
  predicate LineMatches(t: string, sp: Spans) {
    && sp.lead < sp.book && TailLayout(t, sp)
    && SpaceIn(t, 0, sp.lead) && OneLineIn(t, sp.lead, sp.book)
  }

  /**
   * The match the backtracking engine reports: the greedy leading `\s*`
   * takes as much as any match allows, and the lazy book then ends as
   * early as any match with that lead allows.
   */
  ghost predicate FirstMatch(t: string, sp: Spans) {
    && LineMatches(t, sp)
    && (forall q :: LineMatches(t, q) ==> q.lead <= sp.lead)
    && (forall q :: LineMatches(t, q) && q.lead == sp.lead ==> sp.book <= q.book)
  }

  /** The chapter and verse groups of a match are digit runs. */
  lemma MatchDigits(t: string, sp: Spans)
    requires LineMatches(t, sp)
    ensures AllDigits(t[sp.gap..sp.chapter]) && AllDigits(t[sp.chapter + 1..sp.verse])
  {
    DigitsInSlice(t, sp.gap, sp.chapter);
    DigitsInSlice(t, sp.chapter + 1, sp.verse);
  }

  /**
   * What `\s*[\t ]\s*` matches: whitespace with a tab or a space in it
   * (both are whitespace, so the run splits around that character).
   */
  predicate Separator(s: string) {
    AllSpace(s) && exists k :: 0 <= k < |s| && IsTabOrSpace(s[k])
  }

  lemma SpaceInSlice(t: string, i: nat, j: nat)
    requires i <= j <= |t| && SpaceIn(t, i, j)
    ensures AllSpace(t[i..j])
  {
    forall m | 0 <= m < j - i ensures IsSpace(t[i..j][m]) { assert t[i..j][m] == t[i + m]; }
  }

  lemma DigitsInSlice(t: string, i: nat, j: nat)
    requires i <= j <= |t| && DigitsIn(t, i, j)
    ensures AllDigits(t[i..j])
  {
    forall m | 0 <= m < j - i ensures IsDigit(t[i..j][m]) { assert t[i..j][m] == t[i + m]; }
  }

  // The scans, by positions.

  lemma {:induction false} SpaceRunEndIn(t: string, i: nat)
    requires i <= |t|
    ensures SpaceIn(t, i, SpaceRunEnd(t, i))
    decreases |t| - i
  {
    if i < |t| && IsSpace(t[i]) {
      SpaceRunEndIn(t, i + 1);
    }
  }

  lemma {:induction false} DigitRunEndIn(t: string, i: nat)
    requires i <= |t|
    ensures DigitsIn(t, i, DigitRunEnd(t, i))
    decreases |t| - i
  {
    if i < |t| && IsDigit(t[i]) {
      DigitRunEndIn(t, i + 1);
    }
  }

  lemma {:induction false} FirstLineTerminatorIn(t: string, i: nat)
    requires i <= |t|
    ensures OneLineIn(t, i, FirstLineTerminator(t, i))
    decreases |t| - i
  {
    if i < |t| && !IsLineTerminator(t[i]) {
      FirstLineTerminatorIn(t, i + 1);
    }
  }

  /** A whitespace run from `i` reaches at least `j` when `t[i..j]` is whitespace. */
  lemma {:induction false} SpaceRunEndGe(t: string, i: nat, j: nat)
    requires i <= j <= |t| && SpaceIn(t, i, j)
    ensures SpaceRunEnd(t, i) >= j
    decreases j - i
  {
    if i < j {
      SpaceRunEndGe(t, i + 1, j);
    }
  }

  lemma {:induction false} DigitRunEndGe(t: string, i: nat, j: nat)
    requires i <= j <= |t| && DigitsIn(t, i, j)
    ensures DigitRunEnd(t, i) >= j
    decreases j - i
  {
    if i < j {
      DigitRunEndGe(t, i + 1, j);
    }
  }

  lemma {:induction false} FirstLineTerminatorGe(t: string, i: nat, j: nat)
    requires i <= j <= |t| && OneLineIn(t, i, j)
    ensures FirstLineTerminator(t, i) >= j
    decreases j - i
  {
    if i < j {
      FirstLineTerminatorGe(t, i + 1, j);
    }
  }

  /** A maximal whitespace run is the one the scan finds. */
  lemma SpaceRunEndIs(t: string, i: nat, e: nat)
    requires i <= e <= |t| && SpaceIn(t, i, e) && (e == |t| || !IsSpace(t[e]))
    ensures SpaceRunEnd(t, i) == e
  {
    SpaceRunEndGe(t, i, e);
    SpaceRunEndIn(t, i);
  }

  lemma DigitRunEndIs(t: string, i: nat, e: nat)
    requires i <= e <= |t| && DigitsIn(t, i, e) && (e == |t| || !IsDigit(t[e]))
    ensures DigitRunEnd(t, i) == e
  {
    DigitRunEndGe(t, i, e);
    DigitRunEndIn(t, i);
  }

  // Soundness: what the scanner reports is a match.

  /** The book group never holds a line terminator. */
  lemma {:induction false} SearchBookLine(t: string, s: nat, l: nat)
    requires s < l <= |t| && OneLineIn(t, s, l - 1) && SearchBook(t, s, l).Some?
    ensures OneLineIn(t, s, SearchBook(t, s, l).value.0)
    decreases |t| - l
  {
    SearchBookStep(t, s, l);
    if SearchBook(t, s, l).value.0 != l {
      SearchBookLine(t, s, l + 1);
    }
  }

  /** One step of the scan: it stops at `l` or goes on to `l + 1`, never past a line terminator. */
  lemma SearchBookStep(t: string, s: nat, l: nat)
    requires s < l <= |t| && SearchBook(t, s, l).Some?
    ensures !IsLineTerminator(t[l - 1])
    ensures SearchBook(t, s, l).value.0 != l ==> l < |t| && SearchBook(t, s, l) == SearchBook(t, s, l + 1)
  {
  }

  /** The runs the scanner takes for the gap, the chapter and the verse of an accepted tail. */
  lemma TailRuns(t: string, l: nat)
    requires l <= |t| && MatchTail(t, l) != NoMatch
    ensures var g := SpaceRunEnd(t, l); var ce := DigitRunEnd(t, g); var ve := DigitRunEnd(t, ce + 1);
      && l < g < ce < |t| && t[ce] == ':' && ce + 1 < ve
      && SpaceIn(t, l, g) && DigitsIn(t, g, ce) && DigitsIn(t, ce + 1, ve) && SpaceIn(t, ve, SpaceRunEnd(t, ve))
  {
    var g := SpaceRunEnd(t, l);
    var ce := DigitRunEnd(t, g);
    SpaceRunEndIn(t, l);
    DigitRunEndIn(t, g);
    DigitRunEndIn(t, ce + 1);
    SpaceRunEndIn(t, DigitRunEnd(t, ce + 1));
  }

  /** A tail the scanner accepts at `l`, as the positions of a match's tail. */
  lemma TailSpans(t: string, l: nat) returns (sp: Spans)
    requires l <= |t| && MatchTail(t, l) != NoMatch
    ensures TailLayout(t, sp) && sp.book == l
    ensures MatchTail(t, l).Found? ==>
      && MatchTail(t, l).chapter == t[sp.gap..sp.chapter] && MatchTail(t, l).verse == t[sp.chapter + 1..sp.verse]
      && MatchTail(t, l).text == t[sp.mid..sp.text]
    ensures MatchTail(t, l).Blank? ==> SpaceIn(t, sp.mid, sp.text)
  {
    TailRuns(t, l);
    var g := SpaceRunEnd(t, l);
    var ce := DigitRunEnd(t, g);
    var ve := DigitRunEnd(t, ce + 1);
    var w := SpaceRunEnd(t, ve);
    if w == |t| {
      sp := BlankTailSpans(t, l, g, ce, ve);
    } else {
      HasTabOrSpaceIs(t, ve, w);
      sp := FoundTail(t, l, g, ce, ve, w);
    }
  }

  /** The layout of a tail whose text group is whitespace, from the ends of its runs. */
  lemma BlankTailSpans(t: string, l: nat, g: nat, ce: nat, ve: nat) returns (sp: Spans)
    requires l < g < ce < |t| && t[ce] == ':' && ce + 1 < ve <= |t|
    requires SpaceIn(t, l, g) && DigitsIn(t, g, ce) && DigitsIn(t, ce + 1, ve) && SpaceIn(t, ve, |t|)
    requires BlankTail(t, ve, |t|)
    ensures TailLayout(t, sp) && sp.book == l && SpaceIn(t, sp.mid, sp.text)
  {
    BlankTailIs(t, ve, |t|);
    var k, m :| ve <= k < m < |t| && IsTabOrSpace(t[k]) && !IsLineTerminator(t[m]);
    sp := Spans(0, l, g, ce, ve, m, m + 1);
  }

  /** The layout of a tail whose text the scanner finds, from the ends of its runs. */
  lemma FoundTail(t: string, l: nat, g: nat, ce: nat, ve: nat, w: nat) returns (sp: Spans)
    requires l < g < ce < |t| && t[ce] == ':' && ce + 1 < ve <= w < |t|
    requires SpaceIn(t, l, g) && DigitsIn(t, g, ce) && DigitsIn(t, ce + 1, ve) && SpaceIn(t, ve, w)
    requires TabOrSpaceIn(t, ve, w) && !IsSpace(t[w]) && SpaceRunEnd(t, FirstLineTerminator(t, w)) == |t|
    ensures TailLayout(t, sp) && sp == Spans(0, l, g, ce, ve, w, FirstLineTerminator(t, w))
  {
    var q := FirstLineTerminator(t, w);
    FirstLineTerminatorIn(t, w);
    SpaceRunEndIn(t, q);
    sp := Spans(0, l, g, ce, ve, w, q);
  }

  /**
   * Soundness: what the scanner reports is a match of the pattern, with
   * the scanner's groups (a text group of whitespace only when it reports
   * `Blank`).
   */
  lemma FoundSpans(t: string) returns (sp: Spans)
    requires FindBook(t).Some?
    ensures LineMatches(t, sp)
    ensures sp.lead == FindBook(t).value.0 && sp.book == FindBook(t).value.1
    ensures FindBook(t).value.2.Found? ==>
      && FindBook(t).value.2.chapter == t[sp.gap..sp.chapter] && FindBook(t).value.2.verse == t[sp.chapter + 1..sp.verse]
      && FindBook(t).value.2.text == t[sp.mid..sp.text]
    ensures FindBook(t).value.2.Blank? ==> SpaceIn(t, sp.mid, sp.text)
  {
    var s := SpaceRunEnd(t, 0);
    var l := FindBook(t).value.1;
    SearchBookLine(t, s, s + 1);
    sp := LeadSpans(t, s, l);
  }

  /** An accepted tail at `l`, after a book on one line from the end of the leading whitespace, is a match. */
  lemma LeadSpans(t: string, s: nat, l: nat) returns (sp: Spans)
    requires s == SpaceRunEnd(t, 0) && s < l <= |t| && OneLineIn(t, s, l) && MatchTail(t, l) != NoMatch
    ensures LineMatches(t, sp) && sp.lead == s && sp.book == l
    ensures MatchTail(t, l).Found? ==>
      && MatchTail(t, l).chapter == t[sp.gap..sp.chapter] && MatchTail(t, l).verse == t[sp.chapter + 1..sp.verse]
      && MatchTail(t, l).text == t[sp.mid..sp.text]
    ensures MatchTail(t, l).Blank? ==> SpaceIn(t, sp.mid, sp.text)
  {
    SpaceRunEndIn(t, 0);
    var tail := TailSpans(t, l);
    sp := tail.(lead := s);
  }

  lemma FindBookSound(t: string)
    requires FindBook(t).Some?
    ensures exists sp :: LineMatches(t, sp) && sp.lead == FindBook(t).value.0 && sp.book == FindBook(t).value.1
  {
    var sp := FoundSpans(t);
  }

  // Completeness: every match is seen by the scanner.

  /** The whitespace after the book, the chapter and the verse of a match are the runs the scanner takes. */
  lemma RunsOfLayout(t: string, sp: Spans)
    requires TailLayout(t, sp)
    ensures SpaceRunEnd(t, sp.book) == sp.gap && DigitRunEnd(t, sp.gap) == sp.chapter
    ensures DigitRunEnd(t, sp.chapter + 1) == sp.verse
    ensures sp.mid <= SpaceRunEnd(t, sp.verse) && SpaceIn(t, sp.verse, SpaceRunEnd(t, sp.verse))
  {
    assert IsDigit(t[sp.gap]) && IsSpace(t[sp.verse]);
    SpaceRunEndIs(t, sp.book, sp.gap);
    DigitRunEndIs(t, sp.gap, sp.chapter);
    DigitRunEndIs(t, sp.chapter + 1, sp.verse);
    SpaceRunEndGe(t, sp.verse, sp.mid);
    SpaceRunEndIn(t, sp.verse);
  }

  /** At the end of a match's book the rest of the pattern matches. */
  lemma TailScan(t: string, sp: Spans)
    requires TailLayout(t, sp)
    ensures MatchTail(t, sp.book) != NoMatch
    ensures MatchTail(t, sp.book).Blank? ==> SpaceRunEnd(t, sp.verse) == |t| && SpaceIn(t, sp.mid, sp.text)
    ensures MatchTail(t, sp.book).Found? ==>
      && SpaceRunEnd(t, sp.verse) < |t| && MatchTail(t, sp.book).chapter == t[sp.gap..sp.chapter]
      && MatchTail(t, sp.book).verse == t[sp.chapter + 1..sp.verse]
      && MatchTail(t, sp.book).text == t[SpaceRunEnd(t, sp.verse)..FirstLineTerminator(t, SpaceRunEnd(t, sp.verse))]
  {
    RunsOfLayout(t, sp);
    var w := SpaceRunEnd(t, sp.verse);
    if w == |t| {
      BlankFacts(t, sp);
      BlankAt(t, sp.book, sp.gap, sp.chapter, sp.verse);
    } else {
      FoundFacts(t, sp, w);
      FoundAt(t, sp.book, sp.gap, sp.chapter, sp.verse, w);
    }
  }

  /** A match whose text is followed only by whitespace leaves a blank rest after its verse. */
  lemma BlankFacts(t: string, sp: Spans)
    requires TailLayout(t, sp) && SpaceRunEnd(t, sp.verse) == |t|
    ensures BlankTail(t, sp.verse, |t|) && SpaceIn(t, sp.mid, sp.text)
  {
    SpaceRunEndIn(t, sp.verse);
    var k :| sp.verse <= k < sp.mid && IsTabOrSpace(t[k]);
    BlankTailIs(t, sp.verse, |t|);
    assert sp.verse <= k < sp.mid < |t| && IsTabOrSpace(t[k]) && !IsLineTerminator(t[sp.mid]);
  }

  /** A match whose text holds a non-space: the scanner's text starts at `w` and ends the line. */
  lemma FoundFacts(t: string, sp: Spans, w: nat)
    requires TailLayout(t, sp) && w == SpaceRunEnd(t, sp.verse) < |t|
    ensures sp.mid <= w && HasTabOrSpace(t, sp.verse, w) && SpaceRunEnd(t, FirstLineTerminator(t, w)) == |t|
  {
    SpaceRunEndGe(t, sp.verse, sp.mid);
    SpaceRunEndIn(t, sp.verse);
    HasTabOrSpaceIs(t, sp.verse, w);
    TextEnd(t, sp, w);
  }

  /** The scanner's verdict once its runs are known: a whitespace-only rest. */
  lemma BlankAt(t: string, l: nat, g: nat, ce: nat, ve: nat)
    requires l < g <= ce < ve <= |t| && ce + 1 < ve
    requires SpaceRunEnd(t, l) == g && DigitRunEnd(t, g) == ce && t[ce] == ':' && DigitRunEnd(t, ce + 1) == ve
    requires g < ce && SpaceRunEnd(t, ve) == |t| && BlankTail(t, ve, |t|)
    ensures MatchTail(t, l) == Blank
  {
  }

  /** The scanner's verdict once its runs are known: a text starting at `w`. */
  lemma FoundAt(t: string, l: nat, g: nat, ce: nat, ve: nat, w: nat)
    requires l < g < ce < ve <= w < |t| && ce + 1 < ve
    requires SpaceRunEnd(t, l) == g && DigitRunEnd(t, g) == ce && t[ce] == ':' && DigitRunEnd(t, ce + 1) == ve
    requires SpaceRunEnd(t, ve) == w && HasTabOrSpace(t, ve, w)
    requires SpaceRunEnd(t, FirstLineTerminator(t, w)) == |t|
    ensures MatchTail(t, l) == Found(t[g..ce], t[ce + 1..ve], t[w..FirstLineTerminator(t, w)])
  {
  }

  /**
   * At the end of a match's book the rest of the pattern is found: the
   * chapter and verse of the match and a text with the same trimmed
   * content, or `Blank` when the match's text is whitespace.
   */
  lemma TailOfLayout(t: string, sp: Spans)
    requires TailLayout(t, sp)
    ensures MatchTail(t, sp.book) != NoMatch
    ensures MatchTail(t, sp.book).Found? ==>
      && MatchTail(t, sp.book).chapter == t[sp.gap..sp.chapter]
      && MatchTail(t, sp.book).verse == t[sp.chapter + 1..sp.verse]
      && Trim(MatchTail(t, sp.book).text) == Trim(t[sp.mid..sp.text])
    ensures MatchTail(t, sp.book).Blank? ==> SpaceIn(t, sp.mid, sp.text)
  {
    TailScan(t, sp);
    RunsOfLayout(t, sp);
    var w := SpaceRunEnd(t, sp.verse);
    if w < |t| {
      TextEnd(t, sp, w);
      TextTrim(t, sp.mid, w, sp.text, FirstLineTerminator(t, w));
    }
  }

  /** The text the scanner takes when the separator run stops before the end of the line. */
  lemma TextEnd(t: string, sp: Spans, w: nat)
    requires TailLayout(t, sp) && sp.mid <= w < |t| && SpaceIn(t, sp.verse, w) && !IsSpace(t[w])
    ensures w < sp.text <= FirstLineTerminator(t, w) && SpaceRunEnd(t, FirstLineTerminator(t, w)) == |t|
  {
    FirstLineTerminatorGe(t, w, sp.text);
    SpaceRunEndIs(t, FirstLineTerminator(t, w), |t|);
  }

  /** The text the scanner takes and the match's text differ only in whitespace at their ends. */
  lemma TextTrim(t: string, a: nat, w: nat, b: nat, q: nat)
    requires a <= w <= b <= q <= |t|
    requires SpaceIn(t, a, w) && SpaceIn(t, b, q)
    ensures Trim(t[w..q]) == Trim(t[a..b])
  {
    SpaceInSlice(t, a, w);
    SpaceInSlice(t, b, q);
    Glue(t, a, w, b);
    Glue(t, w, b, q);
    assert t[w..q] == [] + t[w..b] + t[b..q];
    assert t[a..b] == t[a..w] + t[w..b] + [];
    TrimAround([], t[w..b], t[b..q]);
    TrimAround(t[a..w], t[w..b], []);
  }

  /** The leading `\s*` of a match never goes past the end of the leading whitespace. */
  lemma LeadLongest(t: string, sp: Spans)
    requires LineMatches(t, sp)
    ensures sp.lead <= SpaceRunEnd(t, 0)
  {
    SpaceRunEndGe(t, 0, sp.lead);
  }

  lemma {:induction false} SearchBookReaches(t: string, s: nat, l0: nat, l: nat)
    requires s < l0 <= l <= |t| && OneLineIn(t, s, l) && MatchTail(t, l) != NoMatch
    ensures SearchBook(t, s, l0).Some? && SearchBook(t, s, l0).value.0 <= l
    decreases l - l0
  {
    if MatchTail(t, l0) == NoMatch {
      SearchBookReaches(t, s, l0 + 1, l);
    }
  }

  /**
   * Completeness and laziness: when a match starts its book right after
   * the leading whitespace, the scanner finds a match there too, with a
   * book that ends no later than that match's.
   */
  lemma FindBookShortest(t: string, sp: Spans)
    requires LineMatches(t, sp) && sp.lead == SpaceRunEnd(t, 0)
    ensures FindBook(t).Some? && FindBook(t).value.0 == sp.lead && FindBook(t).value.1 <= sp.book
  {
    TailAccepts(t, sp);
    FindBookReaches(t, sp.book);
  }

  /** The scanner finds a book ending at or before any end at which the rest of the line matches. */
  lemma FindBookReaches(t: string, l: nat)
    requires SpaceRunEnd(t, 0) < l <= |t| && OneLineIn(t, SpaceRunEnd(t, 0), l) && MatchTail(t, l) != NoMatch
    ensures FindBook(t).Some? && FindBook(t).value.0 == SpaceRunEnd(t, 0) && FindBook(t).value.1 <= l
  {
    var s := SpaceRunEnd(t, 0);
    SearchBookReaches(t, s, s + 1, l);
  }

  /** At the end of a match's book the scanner accepts the rest of the line. */
  lemma TailAccepts(t: string, sp: Spans)
    requires TailLayout(t, sp)
    ensures MatchTail(t, sp.book) != NoMatch
  {
    TailScan(t, sp);
  }

  /** A match whose book reaches past the leading whitespace still matches with the longest lead. */
  lemma LeadShift(t: string, sp: Spans)
    requires LineMatches(t, sp) && SpaceRunEnd(t, 0) < sp.book
    ensures FindBook(t).Some?
  {
    LeadLongest(t, sp);
    SpaceRunEndIn(t, 0);
    FindBookShortest(t, sp.(lead := SpaceRunEnd(t, 0)));
  }

  // The engine's match.

  lemma {:induction false} LongestLead(t: string, sp: Spans) returns (q: Spans)
    requires LineMatches(t, sp)
    ensures LineMatches(t, q) && forall r :: LineMatches(t, r) ==> r.lead <= q.lead
    decreases |t| - sp.lead
  {
    if exists r :: LineMatches(t, r) && r.lead > sp.lead {
      var r :| LineMatches(t, r) && r.lead > sp.lead;
      q := LongestLead(t, r);
    } else {
      q := sp;
    }
  }

  lemma {:induction false} ShortestBook(t: string, sp: Spans) returns (q: Spans)
    requires LineMatches(t, sp) && forall r :: LineMatches(t, r) ==> r.lead <= sp.lead
    ensures FirstMatch(t, q) && q.lead == sp.lead
    decreases sp.book
  {
    if exists r :: LineMatches(t, r) && r.lead == sp.lead && r.book < sp.book {
      var r :| LineMatches(t, r) && r.lead == sp.lead && r.book < sp.book;
      q := ShortestBook(t, r);
    } else {
      q := sp;
    }
  }

  /** Whenever the pattern matches, the engine has a match to report. */
  lemma FirstMatchExists(t: string, sp: Spans)
    requires LineMatches(t, sp)
    ensures exists q :: FirstMatch(t, q)
  {
    var r := LongestLead(t, sp);
    var q := ShortestBook(t, r);
  }

  /** The engine's match ends its lead and its book where the scanner does. */
  lemma FirstMatchFound(t: string, sp: Spans)
    requires FirstMatch(t, sp) && FindBook(t).Some?
    ensures sp.lead == FindBook(t).value.0 && sp.book == FindBook(t).value.1
  {
    LeadLongest(t, sp);
    var found := FoundSpans(t);
    assert LineMatches(t, found);
    FindBookShortest(t, sp);
  }

  // What `parseLine` returns.

  /** `parseLine` returns `null` when the pattern does not match. */
  lemma ParseLineNoMatch(t: string)
    requires forall sp :: !LineMatches(t, sp)
    ensures ParseLine(t) == None
  {
    if FindBook(t).Some? {
      FindBookSound(t);
    }
  }

  /** `parseLine` when the scanner finds the text group. */
  lemma ParseLineFound(t: string)
    requires FindBook(t).Some? && FindBook(t).value.2.Found?
    ensures var (s, l, m) := FindBook(t).value;
      AllDigits(m.chapter) && AllDigits(m.verse) && ParseLine(t) == GroupsRecord(t[s..l], m.chapter, m.verse, m.text)
  {
    MatchTailFound(t, FindBook(t).value.1);
  }

  lemma GroupsRecordTrim(b: string, c: string, v: string, x: string, y: string)
    requires AllDigits(c) && AllDigits(v) && Trim(x) == Trim(y)
    ensures GroupsRecord(b, c, v, x) == GroupsRecord(b, c, v, y)
  {
  }

  /** A whitespace text group gives `null`. */
  lemma BlankText(b: string, c: string, v: string, x: string)
    requires AllDigits(c) && AllDigits(v) && AllSpace(x)
    ensures GroupsRecord(b, c, v, x) == None
  {
  }

  /** The record from the scanner's groups is the one from the match's groups. */
  lemma FoundGroups(t: string, sp: Spans, b: string)
    requires TailLayout(t, sp) && MatchTail(t, sp.book).Found?
    ensures var m := MatchTail(t, sp.book);
      && AllDigits(m.chapter) && AllDigits(m.verse)
      && m.chapter == t[sp.gap..sp.chapter] && m.verse == t[sp.chapter + 1..sp.verse]
      && GroupsRecord(b, m.chapter, m.verse, m.text) == GroupsRecord(b, m.chapter, m.verse, t[sp.mid..sp.text])
  {
    MatchTailFound(t, sp.book);
    TailOfLayout(t, sp);
    var m := MatchTail(t, sp.book);
    GroupsRecordTrim(b, m.chapter, m.verse, m.text, t[sp.mid..sp.text]);
  }

  /** `parseLine` on a match whose lead and book the scanner finds: that match's groups decide. */
  lemma ParseLineAt(t: string, sp: Spans)
    requires LineMatches(t, sp) && FindBook(t).Some?
    requires sp.lead == FindBook(t).value.0 && sp.book == FindBook(t).value.1
    ensures ParseLine(t) == GroupsRecord(t[sp.lead..sp.book], t[sp.gap..sp.chapter], t[sp.chapter + 1..sp.verse], t[sp.mid..sp.text])
  {
    MatchDigits(t, sp);
    var b, c, v, x := t[sp.lead..sp.book], t[sp.gap..sp.chapter], t[sp.chapter + 1..sp.verse], t[sp.mid..sp.text];
    TailScan(t, sp);
    if MatchTail(t, sp.book).Found? {
      ParseLineFound(t);
      FoundGroups(t, sp, b);
    } else {
      SpaceInSlice(t, sp.mid, sp.text);
      BlankText(b, c, v, x);
    }
  }

  /** A match whose book lies in the leading whitespace gives `null`: its trimmed book is empty. */
  lemma BlankBook(t: string, sp: Spans)
    requires LineMatches(t, sp) && sp.book <= SpaceRunEnd(t, 0)
    ensures GroupsRecord(t[sp.lead..sp.book], t[sp.gap..sp.chapter], t[sp.chapter + 1..sp.verse], t[sp.mid..sp.text]) == None
  {
    SpaceRunEndIn(t, 0);
    SpaceInSlice(t, sp.lead, sp.book);
  }

  /**
   * `parseLine` is decided by the match the engine reports: its record is
   * the one built from that match's groups.
   */
  lemma ParseLineFirst(t: string, sp: Spans)
    requires FirstMatch(t, sp)
    ensures ParseLine(t) == GroupsRecord(t[sp.lead..sp.book], t[sp.gap..sp.chapter], t[sp.chapter + 1..sp.verse], t[sp.mid..sp.text])
  {
    if FindBook(t).Some? {
      FirstMatchFound(t, sp);
      ParseLineAt(t, sp);
    } else {
      if SpaceRunEnd(t, 0) < sp.book {
        LeadShift(t, sp);
      }
      BlankBook(t, sp);
    }
  }

  // Lines written as `B C:V<sep>T`.

  /** No whitespace in `s` is followed by a digit, so no book end inside it is followed by a chapter. */
  predicate NoDigitAfterSpace(s: string) {
    forall i :: 0 < i < |s| && IsDigit(s[i]) ==> !IsSpace(s[i - 1])
  }

  function FormatLine(b: string, c: string, v: string, sep: string, x: string): string {
    b + " " + c + ":" + v + sep + x
  }

  /** `t` is `B C:V<sep>T`, piece by piece. */
  predicate Formatted(t: string, b: string, c: string, v: string, sep: string, x: string) {
    var cs := |b| + 1; var vs := cs + |c| + 1; var ss := vs + |v|; var xs := ss + |sep|;
    && |t| == xs + |x|
    && t[..|b|] == b && t[|b|] == ' ' && t[cs..cs + |c|] == c && t[cs + |c|] == ':'
    && t[vs..ss] == v && t[ss..xs] == sep && t[xs..] == x
  }

  lemma FormatLineAt(b: string, c: string, v: string, sep: string, x: string)
    ensures Formatted(FormatLine(b, c, v, sep, x), b, c, v, sep, x)
  {
  }

  /** `b` is whitespace, the non-empty trimmed `tb` from position `k`, and whitespace: what `trim` sees. */
  predicate Padded(b: string, tb: string, k: nat) {
    && 1 <= |tb| && k + |tb| <= |b| && b[k..k + |tb|] == tb && IsTrimmed(tb)
    && AllSpace(b[..k]) && AllSpace(b[k + |tb|..])
  }

  /** The groups of `sp` in `t` are the book `tb`, `C`, `V` and `T`. */
  predicate FormatGroups(t: string, tb: string, c: string, v: string, x: string, sp: Spans) {
    && sp.lead <= sp.book <= sp.gap <= sp.chapter < sp.verse <= sp.mid <= sp.text <= |t|
    && t[sp.lead..sp.book] == tb && t[sp.gap..sp.chapter] == c
    && t[sp.chapter + 1..sp.verse] == v && t[sp.mid..sp.text] == x
  }

  /** A class of characters holding for a piece holds for its positions in `t`. */
  lemma PieceIn(t: string, i: nat, j: nat, s: string)
    requires i <= j <= |t| && t[i..j] == s
    ensures AllSpace(s) ==> SpaceIn(t, i, j)
    ensures AllDigits(s) ==> DigitsIn(t, i, j)
    ensures NoLineTerminator(s) ==> OneLineIn(t, i, j)
  {
    forall k | i <= k < j ensures t[k] == s[k - i] {
      assert t[i..j][k - i] == t[k];
    }
  }

  /**
   * In `B C:V<sep>T`, the engine's match has the trimmed `B` as its book,
   * `C` and `V` as its chapter and verse and `T` as its text.
   */
  lemma FormatFirst(t: string, b: string, tb: string, k: nat, c: string, v: string, sep: string, x: string)
    returns (sp: Spans)
    requires Formatted(t, b, c, v, sep, x) && Padded(b, tb, k)
    requires NoLineTerminator(b) && NoDigitAfterSpace(b)
    requires |c| >= 1 && AllDigits(c) && |v| >= 1 && AllDigits(v)
    requires Separator(sep) && |x| >= 1 && NoLineTerminator(x)
    ensures FirstMatch(t, sp) && FormatGroups(t, tb, c, v, x, sp)
  {
    sp := FormatSpans(t, b, tb, k, c, v, sep, x);
    FirstOfFormatted(t, b, sp);
  }

  /**
   * The match that starts its book after the longest leading whitespace
   * and ends it at the last non-space of `B` is the engine's: no match ends
   * its book inside `B`, where no whitespace is followed by a digit.
   */
  lemma FirstOfFormatted(t: string, b: string, sp: Spans)
    requires LineMatches(t, sp) && sp.lead == SpaceRunEnd(t, 0)
    requires 1 <= sp.book <= |b| < |t| && !IsSpace(t[sp.book - 1]) && t[..|b|] == b && NoDigitAfterSpace(b)
    ensures FirstMatch(t, sp)
  {
    forall q | LineMatches(t, q) ensures q.lead <= sp.lead {
      LeadLongest(t, q);
    }
    forall q | LineMatches(t, q) && q.lead == sp.lead ensures sp.book <= q.book {
      BookNotShorter(b, t, sp.book, q);
    }
  }

  /** The match of `B C:V<sep>T` with the trimmed `B` as its book. */
  lemma FormatSpans(t: string, b: string, tb: string, k: nat, c: string, v: string, sep: string, x: string)
    returns (sp: Spans)
    requires Formatted(t, b, c, v, sep, x) && Padded(b, tb, k) && NoLineTerminator(b)
    requires |c| >= 1 && AllDigits(c) && |v| >= 1 && AllDigits(v)
    requires Separator(sep) && |x| >= 1 && NoLineTerminator(x)
    ensures LineMatches(t, sp) && sp.lead == SpaceRunEnd(t, 0) && FormatGroups(t, tb, c, v, x, sp)
    ensures 1 <= sp.book <= |b| < |t| && !IsSpace(t[sp.book - 1]) && t[..|b|] == b
  {
    var cs := |b| + 1;
    var ss := cs + |c| + 1 + |v|;
    FormatBookRuns(t, b, tb, k);
    FormatTail(t, cs, c, v, sep, x);
    sp := FormatLayout(t, k, k + |tb|, cs, cs + |c|, ss, ss + |sep|);
    SpaceRunEndIs(t, 0, k);
    FormatGroupsAt(t, b, tb, c, v, sep, x, k);
  }

  /** The positions of a match, from the runs of a formatted line. */
  lemma FormatLayout(t: string, lead: nat, book: nat, gap: nat, chapter: nat, verse: nat, mid: nat)
    returns (sp: Spans)
    requires lead < book < gap < chapter && chapter + 1 < verse < mid < |t|
    requires SpaceIn(t, 0, lead) && OneLineIn(t, lead, book) && SpaceIn(t, book, gap)
    requires DigitsIn(t, gap, chapter) && t[chapter] == ':' && DigitsIn(t, chapter + 1, verse)
    requires SpaceIn(t, verse, mid) && TabOrSpaceIn(t, verse, mid) && OneLineIn(t, mid, |t|)
    ensures sp == Spans(lead, book, gap, chapter, verse, mid, |t|) && LineMatches(t, sp)
  {
    sp := Spans(lead, book, gap, chapter, verse, mid, |t|);
  }

  /** The groups of the match `FormatSpans` builds. */
  lemma FormatGroupsAt(t: string, b: string, tb: string, c: string, v: string, sep: string, x: string, k: nat)
    requires Formatted(t, b, c, v, sep, x)
    requires k + |tb| <= |b| && b[k..k + |tb|] == tb
    ensures var cs := |b| + 1; var ss := cs + |c| + 1 + |v|;
      FormatGroups(t, tb, c, v, x, Spans(k, k + |tb|, cs, cs + |c|, ss, ss + |sep|, |t|))
  {
    var e := k + |tb|;
    assert t[k..e] == t[..|b|][k..e];
    var xs := |b| + 1 + |c| + 1 + |v| + |sep|;
    assert t[xs..|t|] == t[xs..];
  }

  /**
   * The runs of the book part of `B C:V<sep>T`: the whitespace before the
   * trimmed book `tb` at `k`, `tb` itself, and the whitespace after it up
   * to the chapter.
   */
  lemma FormatBookRuns(t: string, b: string, tb: string, k: nat)
    requires |b| < |t| && t[..|b|] == b && t[|b|] == ' ' && Padded(b, tb, k) && NoLineTerminator(b)
    ensures var e := k + |tb|;
      && SpaceIn(t, 0, k) && !IsSpace(t[k]) && OneLineIn(t, k, e) && !IsSpace(t[e - 1]) && SpaceIn(t, e, |b| + 1)
  {
    var e := k + |tb|;
    forall i | 0 <= i < |b| ensures t[i] == b[i] {
      assert t[..|b|][i] == t[i];
    }
    forall i | 0 <= i < k ensures IsSpace(t[i]) {
      assert b[..k][i] == b[i];
    }
    forall i | e <= i < |b| ensures IsSpace(t[i]) {
      assert b[e..][i - e] == b[i];
    }
    assert tb[0] == b[k] && tb[|tb| - 1] == b[e - 1];
  }

  /** The chapter, verse, separator and text parts of `B C:V<sep>T`, the chapter starting at `cs`. */
  lemma FormatTail(t: string, cs: nat, c: string, v: string, sep: string, x: string)
    requires var vs := cs + |c| + 1; var ss := vs + |v|; var xs := ss + |sep|;
      && |t| == xs + |x| && t[cs..cs + |c|] == c && t[vs..ss] == v && t[ss..xs] == sep && t[xs..] == x
    requires AllDigits(c) && AllDigits(v) && Separator(sep) && NoLineTerminator(x)
    ensures var vs := cs + |c| + 1; var ss := vs + |v|; var xs := ss + |sep|;
      && DigitsIn(t, cs, cs + |c|) && DigitsIn(t, vs, ss)
      && SpaceIn(t, ss, xs) && TabOrSpaceIn(t, ss, xs) && OneLineIn(t, xs, |t|)
  {
    var vs := cs + |c| + 1;
    var ss := vs + |v|;
    var xs := ss + |sep|;
    PieceIn(t, cs, cs + |c|, c);
    PieceIn(t, vs, ss, v);
    PieceIn(t, ss, xs, sep);
    assert t[xs..|t|] == x;
    PieceIn(t, xs, |t|, x);
    var j :| 0 <= j < |sep| && IsTabOrSpace(sep[j]);
    assert t[ss..xs][j] == t[ss + j];
  }

  /** A match of the formatted line cannot end its book inside the trimmed `B`. */
  lemma BookNotShorter(b: string, t: string, e: nat, q: Spans)
    requires 1 <= e <= |b| < |t| && t[..|b|] == b && NoDigitAfterSpace(b)
    requires !IsSpace(t[e - 1]) && LineMatches(t, q)
    ensures e <= q.book
  {
    assert forall i :: 0 < i < |b| && IsDigit(t[i]) ==> !IsSpace(t[i - 1]) by {
      forall i | 0 < i < |b| && IsDigit(t[i]) ensures !IsSpace(t[i - 1]) {
        assert t[i] == t[..|b|][i] && t[i - 1] == t[..|b|][i - 1];
      }
    }
    assert IsDigit(t[q.gap]) && IsSpace(t[q.gap - 1]);
    assert q.gap >= |b|;
    assert !IsSpace(t[e - 1]);
  }

  /** The record built from the groups of the formatted line. */
  lemma FormatRecord(t: string, tb: string, c: string, v: string, x: string, sp: Spans)
    requires AllDigits(c) && AllDigits(v) && FormatGroups(t, tb, c, v, x, sp)
    ensures AllDigits(t[sp.gap..sp.chapter]) && AllDigits(t[sp.chapter + 1..sp.verse])
    ensures GroupsRecord(t[sp.lead..sp.book], t[sp.gap..sp.chapter], t[sp.chapter + 1..sp.verse], t[sp.mid..sp.text])
         == GroupsRecord(tb, c, v, x)
  {
  }

  /** The engine's match of a formatted line gives the record of its parts. */
  lemma ParseFormatted(b: string, c: string, v: string, sep: string, x: string)
    requires |Trim(b)| >= 1 && NoLineTerminator(b) && NoDigitAfterSpace(b)
    requires |c| >= 1 && AllDigits(c) && |v| >= 1 && AllDigits(v)
    requires Separator(sep) && |x| >= 1 && NoLineTerminator(x)
    ensures ParseLine(FormatLine(b, c, v, sep, x)) == GroupsRecord(Trim(b), c, v, x)
  {
    var t := FormatLine(b, c, v, sep, x);
    FormatLineAt(b, c, v, sep, x);
    var k := TrimSlice(b);
    var sp := FormatFirst(t, b, Trim(b), k, c, v, sep, x);
    ParseLineFirst(t, sp);
    FormatRecord(t, Trim(b), c, v, x, sp);
  }

  /**
   * The line `B C:V<sep>T`, with whitespace around `B` and `T` allowed and
   * `<sep>` any whitespace holding a tab or a space, parses to the trimmed
   * and aliased `B`, the numbers of `C` and `V` and the trimmed `T`.
   */
  lemma ParseLineFormat(b: string, c: string, v: string, sep: string, x: string)
    requires |Trim(b)| >= 1 && NoLineTerminator(b) && NoDigitAfterSpace(b)
    requires |c| >= 1 && AllDigits(c) && DigitsToNat(c) > 0
    requires |v| >= 1 && AllDigits(v) && DigitsToNat(v) > 0
    requires Separator(sep)
    requires |Trim(x)| >= 1 && NoLineTerminator(x)
    ensures ParseLine(b + " " + c + ":" + v + sep + x)
         == Some(VerseRecord(NormalizeBook(Trim(b)), DigitsToNat(c), DigitsToNat(v), Trim(x)))
  {
    ParseFormatted(b, c, v, sep, x);
    assert |x| >= 1;
    GroupsRecordSome(Trim(b), c, v, x);
  }

  /** The record of groups with a non-empty book, positive numbers and a non-blank text. */
  lemma GroupsRecordSome(tb: string, c: string, v: string, x: string)
    requires |tb| >= 1 && IsTrimmed(tb) && AllDigits(c) && DigitsToNat(c) > 0 && AllDigits(v) && DigitsToNat(v) > 0
    requires |Trim(x)| >= 1
    ensures GroupsRecord(tb, c, v, x) == Some(VerseRecord(NormalizeBook(tb), DigitsToNat(c), DigitsToNat(v), Trim(x)))
  {
    TrimTrimmed(tb);
  }

  /** The same line with chapter or verse 0 is rejected. */
  lemma ParseLineZero(b: string, c: string, v: string, sep: string, x: string)
    requires |Trim(b)| >= 1 && NoLineTerminator(b) && NoDigitAfterSpace(b)
    requires |c| >= 1 && AllDigits(c) && |v| >= 1 && AllDigits(v)
    requires DigitsToNat(c) == 0 || DigitsToNat(v) == 0
    requires Separator(sep) && |x| >= 1 && NoLineTerminator(x)
    ensures ParseLine(b + " " + c + ":" + v + sep + x) == None
  {
    ParseFormatted(b, c, v, sep, x);
  }

  /** A line of the correlating importer's TSV reads back as the record it came from. */
  lemma TsvLineParses(r: VerseRecord)
    requires |r.book| >= 1 && IsTrimmed(r.book) && NoLineTerminator(r.book) && NoDigitAfterSpace(r.book)
    requires r.chapter > 0 && r.verse > 0
    requires |r.text| >= 1 && IsTrimmed(r.text) && NoLineTerminator(r.text)
    ensures ParseLine(CollectAv.TsvLine(r))
         == Some(VerseRecord(NormalizeBook(r.book), r.chapter, r.verse, r.text))
  {
    NatToStringRoundTrip(r.chapter);
    NatToStringRoundTrip(r.verse);
    TrimTrimmed(r.book);
    TrimTrimmed(r.text);
    assert Separator("\t") by { assert IsTabOrSpace("\t"[0]); }
    ParseLineFormat(r.book, NatToString(r.chapter), NatToString(r.verse), "\t", r.text);
  }

  // ---------------------------------------------------------------------
  // Buckets

  /** The parsed lines, in order: empty lines are gone already, unparseable ones skipped. */
  function TxtRecords(lines: seq<string>): seq<VerseRecord> {
    FilterMap(MapSeq(ParseLine, lines))
  }

  // ---------------------------------------------------------------------
  // The merge

  /** `{ ...existing, ...bucket.verses }`. */
  function Merge(existing: VerseMap, verses: VerseMap): VerseMap {
    existing + verses
  }

  /**
   * Every verse of the bucket overwrites, every verse only in the file is
   * kept, and there are no others.
   */
  lemma MergeIs(existing: VerseMap, verses: VerseMap)
    ensures Merge(existing, verses).Keys == existing.Keys + verses.Keys
    ensures forall v :: v in verses ==> Merge(existing, verses)[v] == verses[v]
    ensures forall v :: v in existing && v !in verses ==> Merge(existing, verses)[v] == existing[v]
  {
  }

  /** The merge changes chapter `k`'s file. */
  predicate Changed(files: Files, buckets: map<ChapterKey, VerseMap>, k: ChapterKey)
    requires k in buckets
  {
    Merge(Load(files, k), buckets[k]) != Load(files, k)
  }

  /** The chapters whose files the merge rewrites, with their new contents. */
  function Rewrites(files: Files, buckets: map<ChapterKey, VerseMap>): map<ChapterKey, VerseMap> {
    map k | k in buckets && Changed(files, buckets, k) :: Merge(Load(files, k), buckets[k])
  }

  /** The files after the merge. */
  function MergedFiles(files: Files, buckets: map<ChapterKey, VerseMap>): Files {
    files + Rewrites(files, buckets)
  }

  /** The merge loop over a prefix of the bucket order. */
  function MergeSeq(files: Files, buckets: map<ChapterKey, VerseMap>, order: seq<ChapterKey>): Files
    requires forall k <- order :: k in buckets
    decreases |order|
  {
    if order == [] then files
    else
      var f := MergeSeq(files, buckets, order[..|order| - 1]);
      var k := order[|order| - 1];
      if Changed(files, buckets, k) then f[k := Merge(Load(files, k), buckets[k])] else f
  }

  lemma {:induction false} MergeSeqAt(files: Files, buckets: map<ChapterKey, VerseMap>, order: seq<ChapterKey>, k: ChapterKey)
    requires forall k <- order :: k in buckets
    ensures Load(MergeSeq(files, buckets, order), k)
         == if k in order && Changed(files, buckets, k) then Merge(Load(files, k), buckets[k]) else Load(files, k)
    ensures k in MergeSeq(files, buckets, order) <==> k in files || (k in order && Changed(files, buckets, k))
    decreases |order|
  {
    if order != [] {
      var init := order[..|order| - 1];
      MergeSeqAt(files, buckets, init, k);
      assert k in order <==> k in init || k == order[|order| - 1] by {
        if k in order {
          var i :| 0 <= i < |order| && order[i] == k;
          if i < |order| - 1 { assert init[i] == k; }
        }
      }
    }
  }

  /** Merging a whole iteration order of the buckets gives the merged files. */
  lemma MergeSeqAll(files: Files, buckets: map<ChapterKey, VerseMap>, order: seq<ChapterKey>)
    requires ListsKeys(order, buckets)
    ensures MergeSeq(files, buckets, order) == MergedFiles(files, buckets)
  {
    var f := MergeSeq(files, buckets, order);
    var g := MergedFiles(files, buckets);
    forall k | k in f ensures k in g && f[k] == g[k] {
      MergeSeqAt(files, buckets, order, k);
      assert Load(f, k) == f[k];
    }
    forall k | k in g ensures k in f {
      MergeSeqAt(files, buckets, order, k);
    }
  }

  /** One step of the merge loop, at index `i` of the order. */
  lemma MergeStep(files: Files, buckets: map<ChapterKey, VerseMap>, order: seq<ChapterKey>, i: nat)
    requires ListsKeys(order, buckets) && i < |order|
    ensures Load(MergeSeq(files, buckets, order[..i]), order[i]) == Load(files, order[i])
    ensures var k := order[i];
      var merged := Merge(Load(files, k), buckets[k]);
      && (merged != Load(files, k) <==> k in Rewrites(files, buckets))
      && MergeSeq(files, buckets, order[..i + 1])
         == (if merged != Load(files, k) then MergeSeq(files, buckets, order[..i])[k := merged]
             else MergeSeq(files, buckets, order[..i]))
      && CountIn(order[..i + 1], Rewrites(files, buckets).Keys)
         == CountIn(order[..i], Rewrites(files, buckets).Keys) + (if merged != Load(files, k) then 1 else 0)
  {
    var k := order[i];
    assert order[..i + 1][..i] == order[..i];
    assert order[..i + 1][i] == k;
    assert k !in order[..i];
    MergeSeqAt(files, buckets, order[..i], k);
  }

  /**
   * The merge loop: each bucket, in the order the buckets were created, is
   * merged into its file, which is rewritten and counted as written when
   * the merge changed it and counted as unchanged otherwise.
   */
  method MergeAll(files: Files, buckets: map<ChapterKey, VerseMap>, order: seq<ChapterKey>)
    returns (files': Files, written: nat, kept: nat)
    requires ListsKeys(order, buckets)
    ensures files' == MergedFiles(files, buckets)
    ensures written == |Rewrites(files, buckets)|
    ensures written + kept == |buckets|
  {
    files', written, kept := files, 0, 0;
    for i := 0 to |order|
      invariant files' == MergeSeq(files, buckets, order[..i])
      invariant written == CountIn(order[..i], Rewrites(files, buckets).Keys)
      invariant written + kept == i
    {
      MergeStep(files, buckets, order, i);
      var k := order[i];
      var existing := Load(files', k);
      var merged := Merge(existing, buckets[k]);
      if merged != existing {
        files' := files'[k := merged];
        written := written + 1;
      } else {
        kept := kept + 1;
      }
    }
    MergeAllDone(files, buckets, order);
  }

  /** After the whole order: the merged files, and one count per rewritten chapter. */
  lemma MergeAllDone(files: Files, buckets: map<ChapterKey, VerseMap>, order: seq<ChapterKey>)
    requires ListsKeys(order, buckets)
    ensures MergeSeq(files, buckets, order[..|order|]) == MergedFiles(files, buckets)
    ensures CountIn(order[..|order|], Rewrites(files, buckets).Keys) == |Rewrites(files, buckets)|
    ensures |order| == |buckets|
  {
    var changed := Rewrites(files, buckets).Keys;
    assert order[..|order|] == order;
    MergeSeqAll(files, buckets, order);
    CountInCard(order, changed);
    assert Elems(order) * changed == changed;
    OrderCard(buckets, order);
  }

  /** Load of the merged files: the merge result for a rewritten chapter, the old file otherwise. */
  lemma MergedLoad(files: Files, buckets: map<ChapterKey, VerseMap>, k: ChapterKey)
    requires k in buckets
    ensures Load(MergedFiles(files, buckets), k)
         == if Changed(files, buckets, k) then Merge(Load(files, k), buckets[k]) else Load(files, k)
  {
  }

  lemma RerunAt(files: Files, buckets: map<ChapterKey, VerseMap>, k: ChapterKey)
    requires k in buckets
    ensures !Changed(MergedFiles(files, buckets), buckets, k)
  {
    var e := Load(files, k);
    var b := buckets[k];
    MergedLoad(files, buckets, k);
    assert Merge(Merge(e, b), b) == Merge(e, b);
  }

  /** Merging the same buckets again changes no chapter and leaves the files as they are. */
  lemma MergeRerun(files: Files, buckets: map<ChapterKey, VerseMap>)
    ensures Rewrites(MergedFiles(files, buckets), buckets) == map[]
    ensures MergedFiles(MergedFiles(files, buckets), buckets) == MergedFiles(files, buckets)
  {
    var f2 := MergedFiles(files, buckets);
    forall k | k in buckets ensures !Changed(f2, buckets, k) {
      RerunAt(files, buckets, k);
    }
    assert Rewrites(f2, buckets) == map[];
    assert f2 + map[] == f2;
  }

  /** The counts `main` reports, and the files it leaves. */
  datatype TxtOutcome = TxtOutcome(files: Files, written: nat, kept: nat)

  /**
   * `main`: every line of the export parsed, the verses grouped per chapter
   * with later lines winning, and the chapters merged into their files.
   */
  method Run(raw: string, files: Files) returns (r: TxtOutcome)
    ensures var buckets := GroupByChapter(TxtRecords(SplitLines(raw)));
      && r.files == MergedFiles(files, buckets)
      && r.written == |Rewrites(files, buckets)|
      && r.written + r.kept == |buckets|
  {
    var lines := SplitLines(raw);
    var records := CollectSome(ParseLine, lines);
    var buckets, order := GroupRecords(records);
    ChapterOrderLists(records);
    var files', written, kept := MergeAll(files, buckets, order);
    r := TxtOutcome(files', written, kept);
  }
}
