/**
 * import-av-mirror: pairs the plain lines of a mirror text file with the
 * entries of the request map written next to it, by position, and writes the
 * resulting verses into per-chapter files.
 *
 * The map file is given as what `JSON.parse` made of it, the mirror file as
 * its raw text, and the target source's chapter files as a `Files` map.
 */
module ImportAvMirror {
  import opened Common
  import opened Json
  import opened Store
  import opened Locator
  import CollectAv

  // ---------------------------------------------------------------------
  // Locating the request map

  /** `pat` occurs in `s` at index `i`. */
  predicate OccursAt(s: string, pat: string, i: nat) {
    i + |pat| <= |s| && s[i..i + |pat|] == pat
  }

  /** The first occurrence of `pat` in `s` at or after `from`. */
  function FindFrom(s: string, pat: string, from: nat): (r: Option<nat>)
    requires from <= |s|
    ensures r.Some? ==> from <= r.value && OccursAt(s, pat, r.value)
    ensures r.Some? ==> forall j :: from <= j < r.value ==> !OccursAt(s, pat, j)
    ensures r.None? ==> forall j :: from <= j <= |s| ==> !OccursAt(s, pat, j)
    decreases |s| - from
  {
    if OccursAt(s, pat, from) then Some(from)
    else if from == |s| then None
    else FindFrom(s, pat, from + 1)
  }

  /** `s.replace(pat, rep)` with a string pattern: only the first occurrence. */
  function ReplaceFirst(s: string, pat: string, rep: string): string {
    match FindFrom(s, pat, 0)
    case None => s
    case Some(i) => s[..i] + rep + s[i + |pat|..]
  }

  /** Without an occurrence nothing changes; otherwise exactly the first one is replaced. */
  lemma ReplaceFirstIs(s: string, pat: string, rep: string)
    ensures (forall j :: 0 <= j <= |s| ==> !OccursAt(s, pat, j)) ==> ReplaceFirst(s, pat, rep) == s
    ensures forall i: nat :: OccursAt(s, pat, i) && (forall j :: 0 <= j < i ==> !OccursAt(s, pat, j)) ==>
      ReplaceFirst(s, pat, rep) == s[..i] + rep + s[i + |pat|..]
  {
    forall i: nat | OccursAt(s, pat, i) && (forall j :: 0 <= j < i ==> !OccursAt(s, pat, j))
      ensures ReplaceFirst(s, pat, rep) == s[..i] + rep + s[i + |pat|..]
    {
      var r := FindFrom(s, pat, 0);
      assert r.Some?;
      assert r.value == i;
    }
  }

  /** The last index of `c` in `s`. */
  function LastIndex(s: string, c: char): (r: Option<nat>)
    ensures r.Some? ==> r.value < |s| && s[r.value] == c && c !in s[r.value + 1..]
    ensures r.None? ==> c !in s
    decreases |s|
  {
    if s == [] then None
    else if s[|s| - 1] == c then Some(|s| - 1)
    else
      var r := LastIndex(s[..|s| - 1], c);
      assert s == s[..|s| - 1] + [s[|s| - 1]];
      if r.Some? then
        assert s[r.value + 1..] == s[..|s| - 1][r.value + 1..] + [s[|s| - 1]];
        r
      else r
  }

  lemma LastIndexIs(s: string, c: char, i: nat)
    requires i < |s| && s[i] == c && c !in s[i + 1..]
    ensures LastIndex(s, c) == Some(i)
  {
  }

  /** Length of the directory part of `p`, including its last `/`. */
  function DirLength(p: string): (k: nat)
    ensures k <= |p| && '/' !in p[k..]
    ensures k > 0 ==> p[k - 1] == '/'
  {
    match LastIndex(p, '/')
    case None => 0
    case Some(i) => i + 1
  }

  const MirrorSuffix := ".AV.mirror.txt"
  const MapSuffix := ".AV.requests.jsonl.map.json"

  /**
   * `mapPathFromMirror`: the directory of the mirror path kept, and the first
   * ".AV.mirror.txt" in its base name replaced.
   */
  function MapPathFromMirror(p: string): string {
    var k := DirLength(p);
    p[..k] + ReplaceFirst(p[k..], MirrorSuffix, MapSuffix)
  }

  /** The map file sits in the mirror file's directory. */
  lemma MapPathSameDir(p: string)
    ensures DirLength(p) <= |MapPathFromMirror(p)|
    ensures MapPathFromMirror(p)[..DirLength(p)] == p[..DirLength(p)]
  {
  }

  lemma ReplaceFirstAbsent(s: string, pat: string, rep: string)
    requires forall j :: 0 <= j <= |s| ==> !OccursAt(s, pat, j)
    ensures ReplaceFirst(s, pat, rep) == s
  {
  }

  /** An occurrence in a suffix is an occurrence in the whole. */
  lemma OccursShift(p: string, pat: string, k: nat, j: nat)
    requires k <= |p|
    ensures OccursAt(p[k..], pat, j) ==> OccursAt(p, pat, k + j)
  {
    if OccursAt(p[k..], pat, j) {
      assert p[k + j..k + j + |pat|] == p[k..][j..j + |pat|];
    }
  }

  /** A base name without the mirror suffix is kept as it is. */
  lemma MapPathNoSuffix(p: string)
    requires forall j :: DirLength(p) <= j <= |p| ==> !OccursAt(p, MirrorSuffix, j)
    ensures MapPathFromMirror(p) == p
  {
    var k := DirLength(p);
    var b := p[k..];
    forall j | 0 <= j <= |b| ensures !OccursAt(b, MirrorSuffix, j) {
      OccursShift(p, MirrorSuffix, k, j);
    }
    ReplaceFirstAbsent(b, MirrorSuffix, MapSuffix);
    assert p[..k] + b == p;
  }

  /** The directory of `dir/name` is `dir/` when the name has no slash. */
  lemma DirOfName(dir: string, name: string)
    requires '/' !in name
    ensures DirLength(dir + "/" + name) == |dir| + 1
    ensures (dir + "/" + name)[..|dir| + 1] == dir + "/" && (dir + "/" + name)[|dir| + 1..] == name
  {
    var p := dir + "/" + name;
    assert p[|dir| + 1..] == name;
    LastIndexIs(p, '/', |dir|);
  }

  /** ".AV.mirror.txt" has no border: no proper prefix of it is also a suffix of it. */
  lemma MirrorSuffixNoBorder(m: nat)
    requires 0 < m < |MirrorSuffix|
    ensures MirrorSuffix[..m] != MirrorSuffix[|MirrorSuffix| - m..]
  {
    var s := MirrorSuffix;
    if s[|s| - m] != '.' {
      assert s[..m][0] != s[|s| - m..][0];
    } else {
      assert m == 4 || m == 11;
      assert s[..m][1] != s[|s| - m..][1];
    }
  }

  /**
   * In `stem.AV.mirror.txt` with the suffix nowhere in the stem, the first
   * occurrence is the suffix itself: one starting inside the stem would
   * either lie in the stem or make a border of the suffix.
   */
  lemma ReplaceSuffix(stem: string)
    requires forall j :: 0 <= j <= |stem| ==> !OccursAt(stem, MirrorSuffix, j)
    ensures ReplaceFirst(stem + MirrorSuffix, MirrorSuffix, MapSuffix) == stem + MapSuffix
  {
    var b := stem + MirrorSuffix;
    var n := |MirrorSuffix|;
    assert OccursAt(b, MirrorSuffix, |stem|) by {
      assert b[|stem|..|stem| + n] == MirrorSuffix;
    }
    forall j | 0 <= j < |stem| ensures !OccursAt(b, MirrorSuffix, j) {
      if OccursAt(b, MirrorSuffix, j) {
        if j + n <= |stem| {
          assert b[j..j + n] == stem[j..j + n];
          assert OccursAt(stem, MirrorSuffix, j);
        } else {
          var m := j + n - |stem|;
          assert MirrorSuffix[..m] == MirrorSuffix[n - m..] by {
            forall i | 0 <= i < m ensures MirrorSuffix[..m][i] == MirrorSuffix[n - m..][i] {
              assert b[j..j + n][n - m + i] == b[|stem| + i];
            }
          }
          MirrorSuffixNoBorder(m);
        }
      }
    }
    ReplaceFirstIs(b, MirrorSuffix, MapSuffix);
    assert b[..|stem|] == stem;
    assert b[|stem| + n..] == [];
  }

  /** `dir/stem.AV.mirror.txt` maps to `dir/stem.AV.requests.jsonl.map.json` when ".AV.mirror.txt" is nowhere in the stem. */
  lemma MapPathForMirrorName(dir: string, stem: string)
    requires '/' !in stem
    requires forall j :: 0 <= j <= |stem| ==> !OccursAt(stem, MirrorSuffix, j)
    ensures MapPathFromMirror(dir + "/" + (stem + MirrorSuffix)) == dir + "/" + (stem + MapSuffix)
  {
    var name := stem + MirrorSuffix;
    var p := dir + "/" + name;
    assert '/' !in name;
    DirOfName(dir, name);
    ReplaceSuffix(stem);
    assert MapPathFromMirror(p) == p[..|dir| + 1] + ReplaceFirst(p[|dir| + 1..], MirrorSuffix, MapSuffix);
  }

  // ---------------------------------------------------------------------
  // Tags

  /**
   * The book alias of this tool: only "Psalm" is rewritten. The script
   * keeps its own copy of the correlating importer's alias; the two agree
   * (`NormalizeBookIsAlias`).
   */
  function NormalizeBook(name: string): (r: string)
    ensures r != name <==> name == "Psalm"
    ensures name == "Psalm" ==> r == "Psalms"
  {
    if name == "Psalm" then "Psalms" else name
  }

  lemma NormalizeBookIsAlias(name: string)
    ensures NormalizeBook(name) == CollectAv.Alias(name)
  {
  }

  /** `replace(/\t+$/, '')`: a trailing run of tabs removed. */
  function DropTrailingTabs(s: string): (r: string)
    ensures |r| <= |s| && r == s[..|r|]
    decreases |s|
  {
    if s != [] && s[|s| - 1] == '\t' then DropTrailingTabs(s[..|s| - 1]) else s
  }

  /** The text parseTag matches: `String(tag || '').trim().replace(/\t+$/, '')`. */
  function TagText(tag: Option<Json>): string {
    var v := Or(tag, Some(JStr("")));
    DropTrailingTabs(Trim(ToJsString(v.value)))
  }

  /** `parseTag`. */
  function ParseTag(tag: Option<Json>): Option<Ref> {
    match Locate(TagText(tag))
    case None => None
    case Some(p) => Some(Ref(NormalizeBook(p.book), DigitsToNat(p.chapter), DigitsToNat(p.verse)))
  }

  /** After `trim` there is no trailing tab left, so the tab strip changes nothing. */
  lemma TabStripAfterTrim(s: string)
    ensures DropTrailingTabs(Trim(s)) == Trim(s)
  {
  }

  /** A tag yields a reference exactly when its text matches the pattern. */
  lemma ParseTagNone(tag: Option<Json>)
    ensures ParseTag(tag).None? ==> forall p :: !Matches(TagText(tag), p)
    ensures ParseTag(tag).Some? ==> exists p :: Matches(TagText(tag), p)
  {
    if Locate(TagText(tag)).Some? {
      assert Matches(TagText(tag), Locate(TagText(tag)).value);
    } else {
      LocateNone(TagText(tag));
    }
  }

  /** Every match of the pattern is at least `B g:v` long. */
  lemma LocateLength(t: string)
    ensures Locate(t).Some? ==> |t| >= 5
  {
    if Locate(t).Some? {
      var p := Locate(t).value;
      assert t == p.book + p.gap + p.chapter + ":" + p.verse;
    }
  }

  /** The text of the `''` fallback is empty. */
  lemma EmptyTagText(v: Option<Json>)
    requires v == Some(JStr(""))
    ensures |DropTrailingTabs(Trim(ToJsString(v.value)))| == 0
  {
    assert AllSpace(ToJsString(v.value));
  }

  /** A missing or falsy tag becomes `''`, which never parses. */
  lemma ParseTagFalsy(tag: Option<Json>)
    requires !Truthy(tag)
    ensures ParseTag(tag).None?
  {
    var v := Or(tag, Some(JStr("")));
    EmptyTagText(v);
    LocateLength(TagText(tag));
  }

  /**
   * On a string tag this parser and the correlating importer's, applied to
   * the trimmed tag, agree.
   */
  lemma ParseTagAgrees(s: string)
    ensures ParseTag(Some(JStr(s))) == CollectAv.ParseTagToRef(Trim(s))
  {
    var t := Trim(s);
    StringTagText(s);
    TrimEndOfTrimmed(t);
    match Locate(t)
    case None =>
    case Some(p) =>
      NormalizeBookIsAlias(p.book);
  }

  /** The text of a string tag is the trimmed string. */
  lemma StringTagText(s: string)
    ensures TagText(Some(JStr(s))) == Trim(s)
  {
    assert ToJsString(Or(Some(JStr(s)), Some(JStr(""))).value) == s;
    TabStripAfterTrim(s);
  }

  lemma TrimEndOfTrimmed(t: string)
    requires IsTrimmed(t)
    ensures TrimEnd(t) == t
  {
  }

  // ---------------------------------------------------------------------
  // Pairing

  /**
   * `Array.isArray(map.entries) ? map.entries : []`; the member access throws
   * when the map file holds `null`.
   */
  function MirrorEntries(mapFile: Json): (r: Result<seq<Json>>)
    ensures r.Err? <==> mapFile == JNull
    ensures r.Ok? && IsArray(Prop(Some(mapFile), "entries")) ==> r.value == Prop(Some(mapFile), "entries").value.items
    ensures r.Ok? && !IsArray(Prop(Some(mapFile), "entries")) ==> r.value == []
  {
    match Member(mapFile, "entries")
    case Err(m) => Err(m)
    case Ok(Some(JArr(items))) => Ok(items)
    case Ok(_) => Ok([])
  }

  /**
   * Pair `i`: `entries[i].tag` (a TypeError on a `null` entry) gives the
   * reference and the trimmed `lines[i]` the text; an unparseable tag gives
   * nothing.
   */
  function PairRecord(entry: Json, line: string): Result<Option<VerseRecord>> {
    match Member(entry, "tag")
    case Err(m) => Err(m)
    case Ok(tag) =>
      match ParseTag(tag)
      case None => Ok(None)
      case Some(ref) => Ok(Some(VerseRecord(ref.book, ref.chapter, ref.verse, Trim(line))))
  }

  lemma PairRecordIs(entry: Json, line: string)
    ensures PairRecord(entry, line).Err? <==> entry == JNull
    ensures PairRecord(entry, line) == Ok(None) <==> entry != JNull && ParseTag(Prop(Some(entry), "tag")).None?
    ensures PairRecord(entry, line).Ok? && PairRecord(entry, line).value.Some? ==>
      var r := PairRecord(entry, line).value.value;
      && ParseTag(Prop(Some(entry), "tag")) == Some(Ref(r.book, r.chapter, r.verse))
      && r.text == Trim(line)
  {
  }

  /** The outcomes of the first `n` pairs, each from the entry and the line at the same index. */
  function Pairs(entries: seq<Json>, lines: seq<string>, n: nat): seq<Result<Option<VerseRecord>>>
    requires n <= |entries| && n <= |lines|
  {
    seq(n, i requires 0 <= i < n => PairRecord(entries[i], lines[i]))
  }

  function PairedRecords(entries: seq<Json>, lines: seq<string>, n: nat): Result<seq<VerseRecord>>
    requires n <= |entries| && n <= |lines|
  {
    Gather(Pairs(entries, lines, n))
  }

  lemma PairAt(entries: seq<Json>, lines: seq<string>, n: nat, i: nat)
    requires n <= |entries| && n <= |lines| && i < n
    ensures Pairs(entries, lines, n)[i].Err? <==> entries[i] == JNull
  {
    PairRecordIs(entries[i], lines[i]);
  }

  /**
   * Pairing fails exactly when one of the first `n` entries is `null`;
   * otherwise the records are those of the pairs that parse, in index order.
   */
  lemma PairedRecordsIs(entries: seq<Json>, lines: seq<string>, n: nat)
    requires n <= |entries| && n <= |lines|
    ensures PairedRecords(entries, lines, n).Err? <==> exists i :: 0 <= i < n && entries[i] == JNull
    ensures PairedRecords(entries, lines, n).Ok? ==>
      && (forall i :: 0 <= i < n ==> Pairs(entries, lines, n)[i].Ok?)
      && PairedRecords(entries, lines, n).value == FilterMap(OkValues(Pairs(entries, lines, n)))
      && |PairedRecords(entries, lines, n).value| <= n
  {
    var outs := Pairs(entries, lines, n);
    GatherErr(outs);
    forall i | 0 <= i < n ensures outs[i].Err? <==> entries[i] == JNull {
      PairAt(entries, lines, n, i);
    }
    if forall i :: 0 <= i < n ==> outs[i].Ok? {
      GatherOk(outs);
    }
  }

  /** The pairing loop: the first `null` entry aborts the run. */
  method PairUp(entries: seq<Json>, lines: seq<string>, n: nat) returns (r: Result<seq<VerseRecord>>)
    requires n <= |entries| && n <= |lines|
    ensures r == PairedRecords(entries, lines, n)
  {
    ghost var outs := Pairs(entries, lines, n);
    var records: seq<VerseRecord> := [];
    for i := 0 to n
      invariant Gather(outs[..i]) == Ok(records)
    {
      GatherStep(outs, i);
      var e := PairRecord(entries[i], lines[i]);
      assert e == outs[i];
      if e.Err? {
        GatherPrefix(outs, i + 1);
        return Err(e.msg);
      }
      if e.value.Some? {
        records := records + [e.value.value];
      }
    }
    assert outs[..n] == outs;
    r := Ok(records);
  }

  // ---------------------------------------------------------------------
  // Chapter keys

  /** The key of the chapter map, `${book}|${chapter}`. */
  function KeyString(k: ChapterKey): string {
    k.book + "|" + NatToString(k.chapter)
  }

  /**
   * The file a chapter key is written to AS WRITTEN: `key.split('|')` taken
   * apart as `[book, chStr]`, so `chStr` is the second piece (`undefined`
   * when there is none) wherever the book itself holds a `|`.
   */
  function FileOfKeyAsWritten(key: string): (string, Option<string>) {
    var parts := Split(key, '|');
    (parts[0], if |parts| >= 2 then Some(parts[1]) else None)
  }

  /**
   * Two different chapters of the book "A|5" are written to the same file,
   * the one of chapter 5 of book "A"; the second overwrites the first.
   */
  lemma MirrorKeyCollision()
    ensures ChapterKey("A|5", 3) != ChapterKey("A|5", 4)
    ensures FileOfKeyAsWritten(KeyString(ChapterKey("A|5", 3))) == ("A", Some("5"))
    ensures FileOfKeyAsWritten(KeyString(ChapterKey("A|5", 4))) == ("A", Some("5"))
  {
    assert NatToString(3) == "3";
    assert NatToString(4) == "4";
    assert KeyString(ChapterKey("A|5", 3)) == "A" + "|" + "5|3";
    assert KeyString(ChapterKey("A|5", 4)) == "A" + "|" + "5|4";
    SplitAfterPiece("A", '|', "5|3");
    SplitAfterPiece("A", '|', "5|4");
    assert "5|3" == "5" + "|" + "3";
    assert "5|4" == "5" + "|" + "4";
    SplitAfterPiece("5", '|', "3");
    SplitAfterPiece("5", '|', "4");
  }

  /** For a book without `|` the as-written split does find the book and chapter. */
  lemma FileOfKeyAsWrittenAgrees(k: ChapterKey)
    requires '|' !in k.book
    ensures FileOfKeyAsWritten(KeyString(k)) == (k.book, Some(NatToString(k.chapter)))
  {
    var c := NatToString(k.chapter);
    assert '|' !in c;
    SplitAfterPiece(k.book, '|', c);
    SplitNoSep(c, '|');
  }

  /**
   * The intended reading of a key: the book before its LAST `|`, the
   * chapter number after it.
   */
  function ChapterOfKey(key: string): Option<ChapterKey> {
    match LastIndex(key, '|')
    case None => None
    case Some(i) =>
      var c := key[i + 1..];
      if c != [] && AllDigits(c) then Some(ChapterKey(key[..i], DigitsToNat(c))) else None
  }

  /** Every chapter key, whatever its book, reads back as itself. */
  lemma ChapterOfKeyString(k: ChapterKey)
    ensures ChapterOfKey(KeyString(k)) == Some(k)
  {
    var key := KeyString(k);
    var c := NatToString(k.chapter);
    assert key[|k.book| + 1..] == c;
    assert '|' !in c;
    LastIndexIs(key, '|', |k.book|);
    assert key[..|k.book|] == k.book;
    NatToStringRoundTrip(k.chapter);
  }

  /** Distinct chapters have distinct keys, so grouping by key is grouping by chapter. */
  lemma KeyStringInjective(a: ChapterKey, b: ChapterKey)
    requires KeyString(a) == KeyString(b)
    ensures a == b
  {
    ChapterOfKeyString(a);
    ChapterOfKeyString(b);
  }

  // ---------------------------------------------------------------------
  // The run

  datatype MirrorOutcome = MirrorOutcome(files: Files, written: nat, warnings: nat)

  function Min(a: nat, b: nat): nat {
    if a <= b then a else b
  }

  /**
   * `main`: `n` is the shorter of the entries and the non-empty mirror
   * lines; nothing to pair is an error raised before anything is written, a
   * length mismatch is warned about once, and every chapter found is
   * written, replacing its file, under its own book and chapter.
   */
  method Run(mapFile: Json, mirror: string, files: Files) returns (r: Result<MirrorOutcome>)
    ensures r.Err? <==>
      || MirrorEntries(mapFile).Err?
      || Min(|MirrorEntries(mapFile).value|, |SplitLines(mirror)|) == 0
      || PairedRecords(MirrorEntries(mapFile).value, SplitLines(mirror),
                       Min(|MirrorEntries(mapFile).value|, |SplitLines(mirror)|)).Err?
    ensures r.Ok? ==>
      var entries, lines := MirrorEntries(mapFile).value, SplitLines(mirror);
      var records := PairedRecords(entries, lines, Min(|entries|, |lines|)).value;
      && r.value.files == files + GroupByChapter(records)
      && r.value.written == |GroupByChapter(records)|
      && r.value.warnings == (if |entries| != |lines| then 1 else 0)
  {
    var lines := SplitLines(mirror);
    var entries := MirrorEntries(mapFile);
    if entries.Err? {
      return Err(entries.msg);
    }
    var n := Min(|entries.value|, |lines|);
    if n == 0 {
      return Err("No records to import");
    }
    var warnings := if |entries.value| != |lines| then 1 else 0;
    var recs := PairUp(entries.value, lines, n);
    if recs.Err? {
      return Err(recs.msg);
    }
    var byChapter, order := GroupRecords(recs.value);
    ChapterOrderLists(recs.value);
    var files', written := WriteAll(files, byChapter, order);
    r := Ok(MirrorOutcome(files', written, warnings));
  }
}
