/**
 * Per-chapter verse stores. Each script reads and writes one JSON file per
 * (book, chapter) of one source; here the files of a source are a map from
 * chapter key to verse map, a missing or unreadable file is an absent key, and
 * writing a file is a map update. Verse keys are written as `String(Number(..))`,
 * i.e. canonical integers, so a verse map is keyed by `nat`.
 */
module Store {
  import opened Common
  import opened Json

  /** Parsed contents of one chapter file: verse number -> value. */
  type VerseMap = map<nat, Json>

  datatype ChapterKey = ChapterKey(book: string, chapter: nat)

  /** All chapter files of one source. */
  type Files = map<ChapterKey, VerseMap>

  /** A verse reference. */
  datatype Ref = Ref(book: string, chapter: nat, verse: nat)

  /** One parsed `(Reference, text)` record. */
  datatype VerseRecord = VerseRecord(book: string, chapter: nat, verse: nat, text: string)

  function KeyOf(r: VerseRecord): ChapterKey {
    ChapterKey(r.book, r.chapter)
  }

  /** Reading a chapter file; a missing or unreadable file reads as `{}`. */
  function Load(files: Files, key: ChapterKey): VerseMap {
    if key in files then files[key] else map[]
  }

  /** `verses[String(v)]`: `undefined` when absent. */
  function Get(m: VerseMap, v: nat): Option<Json> {
    if v in m then Some(m[v]) else None
  }

  /**
   * Grouping of records by chapter as every importer does it: the first record
   * of a chapter creates its entry, and `verses[String(r.verse)] = r.text`
   * lets a later record for the same verse win.
   */
  function GroupByChapter(records: seq<VerseRecord>): map<ChapterKey, VerseMap>
    decreases |records|
  {
    if records == [] then map[]
    else
      var g := GroupByChapter(records[..|records| - 1]);
      var r := records[|records| - 1];
      g[KeyOf(r) := Load(g, KeyOf(r))[r.verse := JStr(r.text)]]
  }

  /** Record `i` is the last one for its chapter and verse. */
  ghost predicate IsLastFor(records: seq<VerseRecord>, i: int) {
    && 0 <= i < |records|
    && forall j :: i < j < |records| ==>
         !(KeyOf(records[j]) == KeyOf(records[i]) && records[j].verse == records[i].verse)
  }

  /** The grouped chapters are exactly the chapters of the records. */
  lemma {:induction false} GroupKeys(records: seq<VerseRecord>)
    ensures GroupByChapter(records).Keys == set i | 0 <= i < |records| :: KeyOf(records[i])
    decreases |records|
  {
    if records != [] {
      var init := records[..|records| - 1];
      GroupKeys(init);
      var s := set i | 0 <= i < |records| :: KeyOf(records[i]);
      var s' := set i | 0 <= i < |init| :: KeyOf(init[i]);
      assert s == s' + {KeyOf(records[|records| - 1])} by {
        forall k | k in s ensures k in s' + {KeyOf(records[|records| - 1])} {
          var i :| 0 <= i < |records| && KeyOf(records[i]) == k;
          if i < |init| { assert KeyOf(init[i]) == k; }
        }
        forall k | k in s' ensures k in s {
          var i :| 0 <= i < |init| && KeyOf(init[i]) == k;
          assert KeyOf(records[i]) == k;
        }
      }
    }
  }

  /** A chapter holds a verse exactly when some record names that chapter and verse. */
  lemma {:induction false} GroupVerses(records: seq<VerseRecord>, k: ChapterKey, v: nat)
    ensures (k in GroupByChapter(records) && v in GroupByChapter(records)[k])
        <==> exists i :: 0 <= i < |records| && KeyOf(records[i]) == k && records[i].verse == v
    decreases |records|
  {
    if records != [] {
      var init := records[..|records| - 1];
      var last := records[|records| - 1];
      GroupVerses(init, k, v);
      if exists i :: 0 <= i < |init| && KeyOf(init[i]) == k && init[i].verse == v {
        var i :| 0 <= i < |init| && KeyOf(init[i]) == k && init[i].verse == v;
        assert records[i] == init[i];
      }
      if exists i :: 0 <= i < |records| && KeyOf(records[i]) == k && records[i].verse == v {
        var i :| 0 <= i < |records| && KeyOf(records[i]) == k && records[i].verse == v;
        if i < |init| { assert init[i] == records[i]; }
      }
    }
  }

  /** The text stored for a verse is the text of the last record for it. */
  lemma {:induction false} GroupLastWins(records: seq<VerseRecord>, i: int)
    requires IsLastFor(records, i)
    ensures KeyOf(records[i]) in GroupByChapter(records)
    ensures records[i].verse in GroupByChapter(records)[KeyOf(records[i])]
    ensures GroupByChapter(records)[KeyOf(records[i])][records[i].verse] == JStr(records[i].text)
    decreases |records|
  {
    var init := records[..|records| - 1];
    var last := records[|records| - 1];
    if i < |records| - 1 {
      assert init[i] == records[i];
      assert IsLastFor(init, i) by {
        forall j | i < j < |init|
          ensures !(KeyOf(init[j]) == KeyOf(init[i]) && init[j].verse == init[i].verse)
        {
          assert init[j] == records[j];
        }
      }
      GroupLastWins(init, i);
    }
  }

  /**
   * The order in which a JavaScript `Map` keyed by chapter first sees each
   * chapter of `records`: the order `byChapter.values()` visits them in.
   */
  function ChapterOrder(records: seq<VerseRecord>): seq<ChapterKey>
    decreases |records|
  {
    if records == [] then []
    else
      var o := ChapterOrder(records[..|records| - 1]);
      var k := KeyOf(records[|records| - 1]);
      if k in o then o else o + [k]
  }

  predicate Distinct<K(==)>(s: seq<K>) {
    forall i, j :: 0 <= i < j < |s| ==> s[i] != s[j]
  }

  /** `order` lists every key of `m` exactly once: an iteration order of `m`. */
  predicate ListsKeys<K(==), V>(order: seq<K>, m: map<K, V>) {
    Distinct(order) && (forall k <- order :: k in m) && (forall k <- m :: k in order)
  }

  lemma {:induction false} ChapterOrderKeys(records: seq<VerseRecord>, k: ChapterKey)
    ensures k in ChapterOrder(records) <==> k in GroupByChapter(records)
    decreases |records|
  {
    if records != [] {
      ChapterOrderKeys(records[..|records| - 1], k);
    }
  }

  /** The chapters are visited once each, and all of them are. */
  lemma {:induction false} ChapterOrderLists(records: seq<VerseRecord>)
    ensures ListsKeys(ChapterOrder(records), GroupByChapter(records))
    decreases |records|
  {
    forall k ensures k in ChapterOrder(records) <==> k in GroupByChapter(records) {
      ChapterOrderKeys(records, k);
    }
    if records != [] {
      ChapterOrderLists(records[..|records| - 1]);
    }
  }

  /** The grouping loop of the importers, with the `Map`'s insertion order. */
  method GroupRecords(records: seq<VerseRecord>) returns (byChapter: map<ChapterKey, VerseMap>, order: seq<ChapterKey>)
    ensures byChapter == GroupByChapter(records)
    ensures order == ChapterOrder(records)
  {
    byChapter, order := map[], [];
    var i := 0;
    while i < |records|
      invariant 0 <= i <= |records|
      invariant byChapter == GroupByChapter(records[..i])
      invariant order == ChapterOrder(records[..i])
    {
      var r := records[i];
      var key := ChapterKey(r.book, r.chapter);
      ChapterOrderKeys(records[..i], key);
      if key !in byChapter {
        order := order + [key];
      }
      var vv := if key in byChapter then byChapter[key] else map[];
      vv := vv[r.verse := JStr(r.text)];
      byChapter := byChapter[key := vv];
      assert records[..i + 1][..i] == records[..i];
      i := i + 1;
    }
    assert records[..|records|] == records;
  }

  /** `files` after writing `m[k]` for every `k` of `order`, in order. */
  function WriteSeq<K, V>(files: map<K, V>, m: map<K, V>, order: seq<K>): map<K, V>
    requires forall k <- order :: k in m
    decreases |order|
  {
    if order == [] then files
    else WriteSeq(files, m, order[..|order| - 1])[order[|order| - 1] := m[order[|order| - 1]]]
  }

  lemma {:induction false} WriteSeqAt<K, V>(files: map<K, V>, m: map<K, V>, order: seq<K>, k: K)
    requires forall k <- order :: k in m
    ensures k in WriteSeq(files, m, order) <==> k in files || k in order
    ensures k in WriteSeq(files, m, order) ==>
      WriteSeq(files, m, order)[k] == if k in order then m[k] else files[k]
    decreases |order|
  {
    if order != [] {
      var init := order[..|order| - 1];
      WriteSeqAt(files, m, init, k);
      assert k in order <==> k in init || k == order[|order| - 1] by {
        if k in order {
          var i :| 0 <= i < |order| && order[i] == k;
          if i < |order| - 1 { assert init[i] == k; }
        }
      }
    }
  }

  /** Writing every key of `m` once, in any order, is `files + m`. */
  lemma WriteSeqAll<K, V>(files: map<K, V>, m: map<K, V>, order: seq<K>)
    requires forall k :: k in order <==> k in m
    ensures WriteSeq(files, m, order) == files + m
  {
    var w := WriteSeq(files, m, order);
    forall k | k in w ensures k in files + m && w[k] == (files + m)[k] {
      WriteSeqAt(files, m, order, k);
    }
    forall k | k in files + m ensures k in w {
      WriteSeqAt(files, m, order, k);
    }
  }

  lemma {:induction false} DistinctCard<K>(s: seq<K>)
    requires Distinct(s)
    ensures |set k | k in s| == |s|
    decreases |s|
  {
    if s != [] {
      var init := s[..|s| - 1];
      DistinctCard(init);
      assert (set k | k in s) == (set k | k in init) + {s[|s| - 1]} by {
        forall k | k in s ensures k in init || k == s[|s| - 1] {
          var i :| 0 <= i < |s| && s[i] == k;
          if i < |s| - 1 { assert init[i] == k; }
        }
      }
      assert s[|s| - 1] !in init;
    }
  }

  /** An iteration order of a map is as long as the map. */
  lemma OrderCard<K, V>(m: map<K, V>, order: seq<K>)
    requires ListsKeys(order, m)
    ensures |order| == |m|
  {
    DistinctCard(order);
    assert (set k | k in order) == m.Keys;
  }

  /**
   * Some iteration order of the keys of `m`, as `Object.entries` or
   * `Object.keys` gives one; the scripts' results do not depend on which.
   */
  method KeyOrder<K, V>(m: map<K, V>) returns (order: seq<K>)
    ensures ListsKeys(order, m)
  {
    order := [];
    var pending := m.Keys;
    while pending != {}
      invariant Distinct(order)
      invariant forall k :: k in m <==> k in order || k in pending
      invariant forall k :: k in pending ==> k in m && k !in order
      decreases |pending|
    {
      var k :| k in pending;
      order := order + [k];
      pending := pending - {k};
    }
  }

  /**
   * The write loop of the wholesale importers: every grouped chapter file is
   * written in iteration order, replacing what was there, and counted.
   */
  method WriteAll<K, V>(files: map<K, V>, byChapter: map<K, V>, order: seq<K>) returns (files': map<K, V>, written: nat)
    requires ListsKeys(order, byChapter)
    ensures files' == files + byChapter
    ensures written == |byChapter|
  {
    files', written := files, 0;
    for i := 0 to |order|
      invariant files' == WriteSeq(files, byChapter, order[..i])
      invariant written == i
    {
      assert order[..i + 1][..i] == order[..i];
      files' := files'[order[i] := byChapter[order[i]]];
      written := written + 1;
    }
    assert order[..|order|] == order;
    WriteSeqAll(files, byChapter, order);
    OrderCard(byChapter, order);
  }

  // ---------------------------------------------------------------------
  // Counting

  function Elems<K>(s: seq<K>): set<K> {
    set k | k in s
  }

  function CountIn<K>(order: seq<K>, c: set<K>): nat
    decreases |order|
  {
    if order == [] then 0
    else CountIn(order[..|order| - 1], c) + (if order[|order| - 1] in c then 1 else 0)
  }

  lemma {:induction false} ElemsSnoc<K>(s: seq<K>)
    requires s != []
    ensures Elems(s) == Elems(s[..|s| - 1]) + {s[|s| - 1]}
  {
    var init := s[..|s| - 1];
    forall k | k in Elems(s) ensures k in Elems(init) + {s[|s| - 1]} {
      var i :| 0 <= i < |s| && s[i] == k;
      if i < |s| - 1 { assert init[i] == k; }
    }
  }

  lemma {:induction false} CountInCard<K>(order: seq<K>, c: set<K>)
    requires Distinct(order)
    ensures CountIn(order, c) == |Elems(order) * c|
    decreases |order|
  {
    if order != [] {
      var init := order[..|order| - 1];
      var last := order[|order| - 1];
      assert Distinct(init);
      CountInCard(init, c);
      ElemsSnoc(order);
      assert last !in Elems(init);
      if last in c {
        assert Elems(order) * c == (Elems(init) * c) + {last};
      } else {
        assert Elems(order) * c == Elems(init) * c;
      }
    }
  }
}
