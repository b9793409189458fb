/**
 * collect-av: correlates the results of a batch of generation requests with
 * the request map by request id, writes the tagged TSV and optionally
 * imports the verses into per-chapter files.
 *
 * The results file is a sequence of lines, each given here as what
 * `JSON.parse` made of it (`None` when it threw); the request map is the
 * parsed map file.
 */
module CollectAv {
  import opened Common
  import opened Json
  import opened Store
  import opened Locator

  /** The book alias of this tool: only "Psalm" is rewritten. */
  function Alias(book: string): (r: string)
    ensures r != book <==> book == "Psalm"
    ensures book == "Psalm" ==> r == "Psalms"
  {
    if book == "Psalm" then "Psalms" else book
  }

  lemma AliasIdempotent(book: string)
    ensures Alias(Alias(book)) == Alias(book)
  {
  }

  /** `parseTagToRef`: trailing whitespace dropped, then the reference pattern. */
  function ParseTagToRef(tag: string): Option<Ref> {
    match Locate(TrimEnd(tag))
    case None => None
    case Some(p) => Some(Ref(Alias(p.book), DigitsToNat(p.chapter), DigitsToNat(p.verse)))
  }

  /** A tag yields `null`, never an exception, exactly when the pattern does not match. */
  lemma ParseTagNone(tag: string)
    ensures ParseTagToRef(tag).None? ==> forall p :: !Matches(TrimEnd(tag), p)
    ensures ParseTagToRef(tag).Some? ==> exists p :: Matches(TrimEnd(tag), p)
  {
    if Locate(TrimEnd(tag)).Some? {
      assert Matches(TrimEnd(tag), Locate(TrimEnd(tag)).value);
    } else {
      LocateNone(TrimEnd(tag));
    }
  }

  /** A well-formed tag `B C:V` parses to its pieces, with the alias applied to `B`. */
  lemma ParseTagCanonical(book: string, chapter: string, verse: string)
    requires |book| >= 1 && NoLineTerminator(book) && !IsSpace(book[|book| - 1])
    requires |chapter| >= 1 && AllDigits(chapter) && |verse| >= 1 && AllDigits(verse)
    ensures ParseTagToRef(book + " " + chapter + ":" + verse)
         == Some(Ref(Alias(book), DigitsToNat(chapter), DigitsToNat(verse)))
  {
    var t := book + " " + chapter + ":" + verse;
    assert t[|t| - 1] == verse[|verse| - 1];
    assert TrimEnd(t) == t;
    LocateJoined(book, chapter, verse);
  }

  /** Trailing whitespace on a tag does not change what it parses to. */
  lemma ParseTagTrailing(tag: string, ws: string)
    requires AllSpace(ws)
    ensures ParseTagToRef(tag + ws) == ParseTagToRef(tag)
  {
    TrimEndPadded(tag, ws);
  }

  // -----------------------------------------------------------------------
  // Results lines

  /** The first truthy candidate, or `undefined`: an `if / else if` chain over truthiness. */
  function FirstTruthy(cands: seq<Option<Json>>): (r: Option<Json>)
    ensures r.Some? ==> Truthy(r)
    decreases |cands|
  {
    if cands == [] then None
    else if Truthy(cands[0]) then cands[0]
    else FirstTruthy(cands[1..])
  }

  /**
   * The chain yields nothing exactly when no candidate is truthy, and
   * otherwise the earliest truthy candidate.
   */
  lemma {:induction false} FirstTruthyIs(cands: seq<Option<Json>>)
    ensures FirstTruthy(cands).None? <==> forall i :: 0 <= i < |cands| ==> !Truthy(cands[i])
    ensures FirstTruthy(cands).Some? ==>
      exists i :: 0 <= i < |cands| && cands[i] == FirstTruthy(cands) && forall j :: 0 <= j < i ==> !Truthy(cands[j])
    decreases |cands|
  {
    if cands != [] && !Truthy(cands[0]) {
      var tail := cands[1..];
      FirstTruthyIs(tail);
      assert FirstTruthy(cands) == FirstTruthy(tail);
      forall j | 0 < j < |cands| ensures cands[j] == tail[j - 1] { }
      if FirstTruthy(tail).Some? {
        var i :| 0 <= i < |tail| && tail[i] == FirstTruthy(tail)
                 && forall j :: 0 <= j < i ==> !Truthy(tail[j]);
        assert cands[i + 1] == FirstTruthy(cands);
        assert forall j :: 0 <= j < i + 1 ==> !Truthy(cands[j]);
      } else {
        assert forall j :: 0 <= j < |cands| ==> !Truthy(cands[j]);
      }
    } else if cands != [] {
      assert cands[0] == FirstTruthy(cands);
    }
  }

  /** The four places a result line may keep its text, in the order they are tried. */
  function TextCandidates(obj: Json): seq<Option<Json>> {
    var o := Some(obj);
    [ Prop(Elem0(Prop(Elem0(Prop(Prop(o, "response"), "output")), "content")), "text"),
      Prop(Elem0(Prop(Elem0(Prop(o, "output")), "content")), "text"),
      Prop(Elem0(Prop(Prop(o, "response"), "data")), "text"),
      Prop(o, "text") ]
  }

  /** `obj.custom_id || obj.id || obj.request_id`. */
  function IdOf(obj: Json): Option<Json> {
    Or(Or(Prop(Some(obj), "custom_id"), Prop(Some(obj), "id")), Prop(Some(obj), "request_id"))
  }

  /**
   * What one results line adds to the id-to-text lookup: its id and
   * `String(text)`, or nothing when the line did not parse, is `null`
   * (reading `obj.custom_id` throws and the error is swallowed), has no
   * truthy id or has no text.
   */
  function ResultEntry(line: Option<Json>): Option<(Json, string)> {
    match line
    case None => None
    case Some(obj) =>
      if obj == JNull then None
      else
        var id := IdOf(obj);
        var text := FirstTruthy(TextCandidates(obj));
        if Truthy(id) && text.Some? then Some((id.value, ToJsString(text.value))) else None
  }

  /**
   * A line is recorded exactly when it parsed to a non-null value with a
   * truthy id and some text, and then under that id with that text.
   */
  lemma ResultEntryIs(line: Option<Json>)
    ensures ResultEntry(line).Some? ==>
      && line.Some? && line.value != JNull && Truthy(IdOf(line.value))
      && FirstTruthy(TextCandidates(line.value)).Some?
      && ResultEntry(line).value == (IdOf(line.value).value, ToJsString(FirstTruthy(TextCandidates(line.value)).value))
    ensures (line.Some? && line.value != JNull && Truthy(IdOf(line.value))
             && FirstTruthy(TextCandidates(line.value)).Some?) ==> ResultEntry(line).Some?
  {
  }

  /**
   * A `Map` compares keys by identity: a parsed object or array id is a fresh
   * object that no later `get` can reach, so only primitive ids are kept.
   */
  predicate Reachable(id: Json) {
    !id.JArr? && !id.JObj?
  }

  /** What every line contributes, in file order. */
  function LineEntries(lines: seq<Option<Json>>): seq<Option<(Json, string)>> {
    seq(|lines|, i requires 0 <= i < |lines| => ResultEntry(lines[i]))
  }

  /** The id-to-text lookup built from the contributions, in order. */
  function Lookup(es: seq<Option<(Json, string)>>): map<Json, string>
    decreases |es|
  {
    if es == [] then map[]
    else
      var o := Lookup(es[..|es| - 1]);
      match es[|es| - 1]
      case Some((id, text)) => if Reachable(id) then o[id := text] else o
      case None => o
  }

  /** The lookup after all results lines. */
  function OutputsOf(lines: seq<Option<Json>>): map<Json, string> {
    Lookup(LineEntries(lines))
  }

  /** Contribution `i` is for `id`. */
  predicate RecordsId(es: seq<Option<(Json, string)>>, i: int, id: Json) {
    0 <= i < |es| && es[i].Some? && es[i].value.0 == id
  }

  /** An id is known exactly when some line records it (and it is reachable). */
  lemma {:induction false} LookupKeys(es: seq<Option<(Json, string)>>, id: Json)
    ensures id in Lookup(es) <==> Reachable(id) && exists i :: RecordsId(es, i, id)
    decreases |es|
  {
    if es != [] {
      var init := es[..|es| - 1];
      LookupKeys(init, id);
      if exists i :: RecordsId(init, i, id) {
        var i :| RecordsId(init, i, id);
        assert RecordsId(es, i, id);
      }
      if exists i :: RecordsId(es, i, id) {
        var i :| RecordsId(es, i, id);
        if i < |init| { assert RecordsId(init, i, id); }
      }
      if es[|es| - 1].Some? && es[|es| - 1].value.0 == id {
        assert RecordsId(es, |es| - 1, id);
      }
    }
  }

  /** Of several lines with the same id, the last one wins. */
  lemma {:induction false} LookupLastWins(es: seq<Option<(Json, string)>>, i: int, id: Json, text: string)
    requires 0 <= i < |es| && es[i] == Some((id, text)) && Reachable(id)
    requires forall j :: i < j < |es| ==> !RecordsId(es, j, id)
    ensures id in Lookup(es) && Lookup(es)[id] == text
    decreases |es|
  {
    var init := es[..|es| - 1];
    if i < |es| - 1 {
      assert !RecordsId(es, |es| - 1, id);
      forall j | i < j < |init| ensures !RecordsId(init, j, id) {
        assert !RecordsId(es, j, id);
      }
      LookupLastWins(init, i, id, text);
    }
  }

  /** The loop over the results lines. */
  method CollectOutputs(lines: seq<Option<Json>>) returns (outputs: map<Json, string>)
    ensures outputs == OutputsOf(lines)
  {
    ghost var es := LineEntries(lines);
    outputs := map[];
    for i := 0 to |lines|
      invariant outputs == Lookup(es[..i])
    {
      assert es[..i + 1][..i] == es[..i];
      var e := ResultEntry(lines[i]);
      if e.Some? && Reachable(e.value.0) {
        outputs := outputs[e.value.0 := e.value.1];
      }
    }
    assert es[..|lines|] == es;
  }

  // -----------------------------------------------------------------------
  // Correlation with the request map

  /**
   * `for (const e of map.entries)`: an array is iterated element by element
   * and a string character by character; `null` in place of the map, or
   * anything else in place of `entries`, throws.
   */
  predicate IsIterable(v: Option<Json>) {
    v.Some? && (v.value.JArr? || v.value.JStr?)
  }

  function EntriesOf(mapFile: Json): (r: Result<seq<Json>>)
    ensures r.Err? <==> (mapFile == JNull || !IsIterable(Prop(Some(mapFile), "entries")))
  {
    match Member(mapFile, "entries")
    case Err(m) => Err(m)
    case Ok(Some(JArr(items))) => Ok(items)
    case Ok(Some(JStr(s))) => Ok(seq(|s|, i requires 0 <= i < |s| => JStr([s[i]])))
    case Ok(_) => Err("TypeError: map.entries is not iterable")
  }

  /** `outputs.get(e.custom_id)`, which is `undefined` for a non-object entry. */
  function OutputFor(e: Json, outputs: map<Json, string>): Option<string> {
    var id := Prop(Some(e), "custom_id");
    if id.Some? && id.value in outputs then Some(outputs[id.value]) else None
  }

  /** The tag as `(e.tag || '')` gives it. */
  function TagOf(e: Json): Option<Json> {
    Or(Prop(Some(e), "tag"), Some(JStr("")))
  }

  /** The record of a parsed reference with `text` as its text. */
  function RecordOfRef(ref: Option<Ref>, text: string): Option<VerseRecord> {
    match ref
    case None => None
    case Some(r) => Some(VerseRecord(r.book, r.chapter, r.verse, text))
  }

  /**
   * What an entry with output `out` and tag `tag` contributes: nothing
   * without a non-empty output, the record of its trimmed tag when that is a
   * string that parses, and a TypeError from `.trim()` on a truthy tag that
   * is not a string.
   */
  function RecordFrom(out: Option<string>, tag: Option<Json>): Result<Option<VerseRecord>> {
    if out.None? || out.value == "" then Ok(None)
    else
      match tag
      case Some(JStr(t)) => Ok(RecordOfRef(ParseTagToRef(Trim(t)), out.value))
      case _ => Err("TypeError: tag.trim is not a function")
  }

  /**
   * One entry of the map: `e.custom_id` throws on `null`; otherwise the
   * entry's output and tag decide.
   */
  function EntryRecord(e: Json, outputs: map<Json, string>): Result<Option<VerseRecord>> {
    if e == JNull then Err("TypeError: Cannot read properties of null (reading 'custom_id')")
    else RecordFrom(OutputFor(e, outputs), TagOf(e))
  }

  /**
   * An entry contributes a record exactly when it has a non-empty output and
   * its trimmed tag is a string that parses; the record is that reference
   * with the output as its text. Only an entry with an output and a truthy
   * non-string tag throws, besides `null`.
   */
  lemma RecordFromIs(out: Option<string>, tag: Option<Json>)
    ensures RecordFrom(out, tag).Err? <==> out.Some? && out.value != "" && !(tag.Some? && tag.value.JStr?)
    ensures RecordFrom(out, tag).Ok? && RecordFrom(out, tag).value.Some? <==>
      out.Some? && out.value != "" && tag.Some? && tag.value.JStr? && ParseTagToRef(Trim(tag.value.s)).Some?
    ensures RecordFrom(out, tag).Ok? && RecordFrom(out, tag).value.Some? ==>
      var ref := ParseTagToRef(Trim(tag.value.s)).value;
      RecordFrom(out, tag).value.value == VerseRecord(ref.book, ref.chapter, ref.verse, out.value)
  {
    if out.Some? && out.value != "" && tag.Some? && tag.value.JStr? {
      RecordFromString(out.value, tag.value.s);
    }
  }

  lemma RecordFromString(out: string, t: string)
    requires out != ""
    ensures RecordFrom(Some(out), Some(JStr(t))) == Ok(RecordOfRef(ParseTagToRef(Trim(t)), out))
  {
  }

  /** The tag is `''` when absent or falsy, so it is always there. */
  lemma TagPresent(e: Json)
    ensures TagOf(e).Some?
    ensures TagOf(e).value.JStr? <==> !Truthy(Prop(Some(e), "tag")) || Prop(Some(e), "tag").value.JStr?
  {
  }

  /** Every entry's outcome, in entry order. */
  function Outcomes(entries: seq<Json>, outputs: map<Json, string>): seq<Result<Option<VerseRecord>>> {
    seq(|entries|, i requires 0 <= i < |entries| => EntryRecord(entries[i], outputs))
  }

  /** The records of the map's entries in entry order, or the first error. */
  function RecordsOf(entries: seq<Json>, outputs: map<Json, string>): Result<seq<VerseRecord>> {
    Gather(Outcomes(entries, outputs))
  }

  /**
   * The correlation fails exactly when some entry throws; otherwise the
   * records are the contributions of the entries, in entry order, so there
   * are at most as many records as entries.
   */
  lemma RecordsOfIs(entries: seq<Json>, outputs: map<Json, string>)
    ensures RecordsOf(entries, outputs).Err?
        <==> exists i :: 0 <= i < |entries| && EntryRecord(entries[i], outputs).Err?
    ensures RecordsOf(entries, outputs).Ok? ==>
      && (forall i :: 0 <= i < |entries| ==> Outcomes(entries, outputs)[i].Ok?)
      && RecordsOf(entries, outputs).value == FilterMap(OkValues(Outcomes(entries, outputs)))
      && |RecordsOf(entries, outputs).value| <= |entries|
  {
    var outs := Outcomes(entries, outputs);
    GatherErr(outs);
    assert forall i :: 0 <= i < |entries| ==> outs[i] == EntryRecord(entries[i], outputs);
    if forall i :: 0 <= i < |outs| ==> outs[i].Ok? {
      GatherOk(outs);
      var vs := OkValues(outs);
      assert |FilterMap(vs)| <= |vs| == |entries|;
    }
  }

  /** The correlation loop: the first throwing entry aborts the run. */
  method Correlate(entries: seq<Json>, outputs: map<Json, string>) returns (r: Result<seq<VerseRecord>>)
    ensures r == RecordsOf(entries, outputs)
  {
    ghost var outs := Outcomes(entries, outputs);
    var records: seq<VerseRecord> := [];
    for i := 0 to |entries|
      invariant Gather(outs[..i]) == Ok(records)
    {
      GatherStep(outs, i);
      var e := EntryRecord(entries[i], outputs);
      assert e == outs[i];
      if e.Err? {
        GatherPrefix(outs, i + 1);
        return Err(e.msg);
      }
      if e.value.Some? {
        records := records + [e.value.value];
      }
    }
    assert outs[..|entries|] == outs;
    r := Ok(records);
  }

  // -----------------------------------------------------------------------
  // Output

  /** One TSV line: `Book C:V<TAB>text`. */
  function TsvLine(r: VerseRecord): string {
    r.book + " " + NatToString(r.chapter) + ":" + NatToString(r.verse) + "\t" + r.text
  }

  /** The TSV: one line per record, in record order, newline-terminated. */
  function Tsv(records: seq<VerseRecord>): (tsv: string)
    ensures |tsv| >= 1 && tsv[|tsv| - 1] == '\n'
  {
    Join(seq(|records|, i requires 0 <= i < |records| => TsvLine(records[i])), "\n") + "\n"
  }

  /** When no record holds a line feed, the TSV's lines are exactly the records' lines. */
  lemma TsvLines(records: seq<VerseRecord>)
    requires |records| >= 1
    requires forall i :: 0 <= i < |records| ==> '\n' !in TsvLine(records[i])
    ensures Split(Tsv(records), '\n')
         == seq(|records|, i requires 0 <= i < |records| => TsvLine(records[i])) + [""]
  {
    var lines := seq(|records|, i requires 0 <= i < |records| => TsvLine(records[i]));
    var j := Join(lines, "\n");
    SplitJoin(lines, '\n');
    SplitAfterLast(j, '\n');
  }

  /** Splitting `s + [c]` adds one empty piece after the pieces of `s`. */
  lemma {:induction false} SplitAfterLast(s: string, c: char)
    ensures Split(s + [c], c) == Split(s, c) + [""]
    decreases |s|
  {
    if s == [] {
      assert [c][1..] == [];
    } else {
      assert (s + [c])[1..] == s[1..] + [c];
      SplitAfterLast(s[1..], c);
      var rest := Split(s[1..], c);
      if s[0] != c {
        assert (rest + [""])[0] == rest[0];
        assert (rest + [""])[1..] == rest[1..] + [""];
      }
    }
  }

  /**
   * `importToSite`: the records grouped by chapter, each chapter file
   * replaced wholesale, and the number of files written.
   */
  method ImportToSite(files: Files, records: seq<VerseRecord>) returns (files': Files, written: nat)
    ensures files' == files + GroupByChapter(records)
    ensures written == |set i | 0 <= i < |records| :: KeyOf(records[i])|
  {
    var byChapter, order := GroupRecords(records);
    ChapterOrderLists(records);
    files', written := WriteAll(files, byChapter, order);
    GroupKeys(records);
  }

  /** What a run leaves behind. */
  datatype Outcome = Outcome(tsv: Option<string>, files: Files, reported: nat)

  /**
   * `main`: the lookup from the results lines, the correlation with the map,
   * then the TSV when asked for and the import when asked for. The reported
   * count is the number of chapter files imported, or else of records.
   */
  method Run(mapFile: Json, results: seq<Option<Json>>, files: Files, writeTxt: bool, doImport: bool)
    returns (r: Result<Outcome>)
    ensures r.Err? <==>
      (EntriesOf(mapFile).Err? || RecordsOf(EntriesOf(mapFile).value, OutputsOf(results)).Err?)
    ensures r.Ok? ==>
      var records := RecordsOf(EntriesOf(mapFile).value, OutputsOf(results)).value;
      && r.value.tsv == (if writeTxt then Some(Tsv(records)) else None)
      && r.value.files == (if doImport then files + GroupByChapter(records) else files)
      && r.value.reported == (if doImport then |GroupByChapter(records)| else |records|)
  {
    var outputs := CollectOutputs(results);
    var entries := EntriesOf(mapFile);
    if entries.Err? {
      return Err(entries.msg);
    }
    var recs := Correlate(entries.value, outputs);
    if recs.Err? {
      return Err(recs.msg);
    }
    var records := recs.value;
    var tsv := if writeTxt then Some(Tsv(records)) else None;
    if doImport {
      var files', n := ImportToSite(files, records);
      GroupKeys(records);
      r := Ok(Outcome(tsv, files', n));
    } else {
      r := Ok(Outcome(tsv, files, |records|));
    }
  }
}
