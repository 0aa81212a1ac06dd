/**
 * `search_in_tafasir_local` in the Flask app: a full scan of the local tafsir
 * corpus, surah 1 to 114 and then each surah's entries in file order, keeping
 * the entries whose text contains the query, ignoring case.
 */
module TafsirSearch {
  import opened Wrappers
  import opened PyText
  import opened PyDict
  import opened SurahResolver
  import opened LocalCorpus

  /** One result record; `hash` is the md5 fingerprint of "surah-ayah-tafsir". */
  datatype SearchResult = SearchResult(
    surahName: string,
    surahNumber: string,
    ayahNumber: string,
    ayahText: Option<string>,
    tafsir: string,
    hash: string)

  /** What the search reads: the name table, quran.json and the tafsir file of each surah key (absent key: no file). */
  datatype Corpus = Corpus(table: SurahTable, quran: QuranData, files: map<string, FileState<Dict<string>>>)

  /** The tafsir dict of one surah, as get_tafsir_data_local returns it. */
  function TafsirOf(corpus: Corpus, key: string): Dict<string> {
    if key in corpus.files then TafsirDataLocal(corpus.files[key]) else []
  }

  /** `surahs_data.get(key, {}).get("arabic", f"السورة {key}")` */
  function DisplayName(key: string, table: SurahTable): string {
    var names := Get(table, key);
    if names.Some? && names.value.arabic.Some? then names.value.arabic.value else "السورة " + key
  }

  /** `query.lower() in tafsir_text.lower()` */
  predicate Matches(query: string, text: string) {
    Contains(Lower(text), Lower(query))
  }

  /** The string whose md5 is the record's fingerprint. */
  function HashInput(surahKey: string, ayahKey: string, tafsir: string): string {
    surahKey + "-" + ayahKey + "-" + tafsir
  }

  /** The record emitted for one entry of surah `key`. */
  function Hit(key: string, name: string, entry: (string, string), corpus: Corpus, md5: string -> string): SearchResult {
    SearchResult(name, key, entry.0, GetAyahText(key, entry.0, corpus.quran), entry.1, md5(HashInput(key, entry.0, entry.1)))
  }

  /** The records a run over `entries` (a prefix of one surah's dict) emits. */
  function Hits(query: string, key: string, name: string, entries: Dict<string>, corpus: Corpus, md5: string -> string): seq<SearchResult>
    decreases |entries|
  {
    if entries == [] then []
    else
      var last := entries[|entries| - 1];
      Hits(query, key, name, entries[..|entries| - 1], corpus, md5)
        + (if Matches(query, last.1) then [Hit(key, name, last, corpus, md5)] else [])
  }

  /** The records surah `n` contributes; a surah whose dict is empty is skipped. */
  function SurahHits(query: string, n: nat, corpus: Corpus, md5: string -> string): seq<SearchResult> {
    var key := NatToString(n);
    var entries := TafsirOf(corpus, key);
    if entries == [] then [] else Hits(query, key, DisplayName(key, corpus.table), entries, corpus, md5)
  }

  /** The records of surahs 1..m, in that order. */
  function SearchUpTo(query: string, m: nat, corpus: Corpus, md5: string -> string): seq<SearchResult> {
    if m == 0 then [] else SearchUpTo(query, m - 1, corpus, md5) + SurahHits(query, m, corpus, md5)
  }

  /** The whole search result. */
  function Search(query: string, corpus: Corpus, md5: string -> string): seq<SearchResult> {
    SearchUpTo(query, 114, corpus, md5)
  }

  /** One more entry of the dict adds its record when it matches. */
  lemma HitsStep(query: string, key: string, name: string, entries: Dict<string>, j: int, corpus: Corpus, md5: string -> string)
    requires 0 <= j < |entries|
    ensures Hits(query, key, name, entries[..j + 1], corpus, md5)
         == Hits(query, key, name, entries[..j], corpus, md5)
            + (if Matches(query, entries[j].1) then [Hit(key, name, entries[j], corpus, md5)] else [])
  {
    assert entries[..j + 1][..j] == entries[..j];
  }

  /** `search_in_tafasir_local`: nested loops appending to `results`. */
  method SearchInTafasirLocal(query: string, corpus: Corpus, md5: string -> string) returns (results: seq<SearchResult>)
    ensures results == Search(query, corpus, md5)
  {
    results := [];
    var n := 1;
    while n <= 114
      invariant 1 <= n <= 115
      invariant results == SearchUpTo(query, n - 1, corpus, md5)
    {
      var key := NatToString(n);
      var tafsirData := TafsirOf(corpus, key);
      ghost var before := results;
      if tafsirData != [] {
        var name := DisplayName(key, corpus.table);
        var j := 0;
        while j < |tafsirData|
          invariant 0 <= j <= |tafsirData|
          invariant results == before + Hits(query, key, name, tafsirData[..j], corpus, md5)
        {
          var (ayahNum, tafsirText) := tafsirData[j];
          HitsStep(query, key, name, tafsirData, j, corpus, md5);
          if Contains(Lower(tafsirText), Lower(query)) {
            var ayahText := GetAyahText(key, ayahNum, corpus.quran);
            results := results + [SearchResult(name, key, ayahNum, ayahText, tafsirText, md5(HashInput(key, ayahNum, tafsirText)))];
          }
          j := j + 1;
        }
        assert tafsirData[..|tafsirData|] == tafsirData;
      }
      assert results == before + SurahHits(query, n, corpus, md5);
      n := n + 1;
    }
  }

  // ---------------------------------------------------------------------------
  // Properties of the search
  // ---------------------------------------------------------------------------

  /** What every result record satisfies: it is a matching entry of surah 1..114, with its verse, name and fingerprint. */
  predicate IsHitOf(r: SearchResult, n: nat, query: string, corpus: Corpus, md5: string -> string) {
    && 1 <= n <= 114
    && r.surahNumber == NatToString(n)
    && (r.ayahNumber, r.tafsir) in TafsirOf(corpus, r.surahNumber)
    && Matches(query, r.tafsir)
    && r.surahName == DisplayName(r.surahNumber, corpus.table)
    && r.ayahText == GetAyahText(r.surahNumber, r.ayahNumber, corpus.quran)
    && r.hash == md5(HashInput(r.surahNumber, r.ayahNumber, r.tafsir))
  }

  lemma {:induction false} HitsSound(query: string, n: nat, entries: Dict<string>, corpus: Corpus, md5: string -> string)
    requires 1 <= n <= 114
    requires forall e :: e in entries ==> e in TafsirOf(corpus, NatToString(n))
    ensures forall r :: r in Hits(query, NatToString(n), DisplayName(NatToString(n), corpus.table), entries, corpus, md5)
              ==> IsHitOf(r, n, query, corpus, md5)
    decreases |entries|
  {
    if entries != [] {
      HitsSound(query, n, entries[..|entries| - 1], corpus, md5);
    }
  }

  lemma SurahHitsSound(query: string, m: nat, corpus: Corpus, md5: string -> string)
    requires 1 <= m <= 114
    ensures forall r :: r in SurahHits(query, m, corpus, md5) ==> IsHitOf(r, m, query, corpus, md5)
  {
    var key := NatToString(m);
    if TafsirOf(corpus, key) != [] {
      HitsSound(query, m, TafsirOf(corpus, key), corpus, md5);
    }
  }

  /** A record of surah 1..m: its surah number is in digits and it is a hit of that surah. */
  predicate IsSearchHit(r: SearchResult, m: nat, query: string, corpus: Corpus, md5: string -> string) {
    IsDigits(r.surahNumber) && 1 <= ParseDigits(r.surahNumber) <= m
    && IsHitOf(r, ParseDigits(r.surahNumber), query, corpus, md5)
  }

  /** Soundness: every record's tafsir contains the query ignoring case and comes from surah 1..m of the corpus. */
  lemma {:induction false} SearchSound(query: string, m: nat, corpus: Corpus, md5: string -> string)
    requires m <= 114
    ensures forall r :: r in SearchUpTo(query, m, corpus, md5) ==> IsSearchHit(r, m, query, corpus, md5)
  {
    if m > 0 {
      var prev := SearchUpTo(query, m - 1, corpus, md5);
      var here := SurahHits(query, m, corpus, md5);
      var rs := SearchUpTo(query, m, corpus, md5);
      assert rs == prev + here;
      SearchSound(query, m - 1, corpus, md5);
      SurahHitsSound(query, m, corpus, md5);
      ParseNatToString(m);
      forall r | r in rs ensures IsSearchHit(r, m, query, corpus, md5) {
        if r in prev {
          assert IsSearchHit(r, m - 1, query, corpus, md5);
        } else {
          assert r in here;
        }
      }
    }
  }

  /** Every record names its surah by digits, and surah numbers never decrease along the list. */
  predicate OrderedBySurah(rs: seq<SearchResult>) {
    forall i, j :: 0 <= i < j < |rs| ==> SurahNotAfter(rs[i], rs[j])
  }

  /** Both records name their surah by digits, and the first one's number is not above the second's. */
  predicate SurahNotAfter(a: SearchResult, b: SearchResult) {
    IsDigits(a.surahNumber) && IsDigits(b.surahNumber) && ParseDigits(a.surahNumber) <= ParseDigits(b.surahNumber)
  }

  /** Results are ordered by surah number. */
  lemma SearchOrdered(query: string, corpus: Corpus, md5: string -> string)
    ensures OrderedBySurah(Search(query, corpus, md5))
  {
    SearchOrderedUpTo(query, 114, corpus, md5);
  }

  lemma {:induction false} SearchOrderedUpTo(query: string, m: nat, corpus: Corpus, md5: string -> string)
    requires m <= 114
    ensures OrderedBySurah(SearchUpTo(query, m, corpus, md5))
  {
    if m > 0 {
      SearchOrderedUpTo(query, m - 1, corpus, md5);
      SearchSound(query, m - 1, corpus, md5);
      SurahHitsSound(query, m, corpus, md5);
      ParseNatToString(m);
      var prev := SearchUpTo(query, m - 1, corpus, md5);
      var here := SurahHits(query, m, corpus, md5);
      var rs := SearchUpTo(query, m, corpus, md5);
      assert rs == prev + here;
      forall i, j | 0 <= i < j < |rs| ensures SurahNotAfter(rs[i], rs[j]) {
        if j < |prev| {
          assert rs[i] == prev[i] && rs[j] == prev[j];
          assert prev[i] in prev && prev[j] in prev;
        } else if i < |prev| {
          assert rs[i] == prev[i] && prev[i] in prev;
          assert rs[j] in here;
        } else {
          assert rs[i] in here && rs[j] in here;
        }
      }
      assert OrderedBySurah(rs);
    } else {
      assert SearchUpTo(query, m, corpus, md5) == [];
    }
  }

  /** Per surah, the (ayah, tafsir) pairs of the records are exactly the matching entries, in dict order. */
  function Pairs(rs: seq<SearchResult>): seq<(string, string)> {
    if rs == [] then [] else [(rs[0].ayahNumber, rs[0].tafsir)] + Pairs(rs[1..])
  }

  lemma {:induction false} PairsAppend(a: seq<SearchResult>, b: seq<SearchResult>)
    ensures Pairs(a + b) == Pairs(a) + Pairs(b)
  {
    if a == [] {
      assert a + b == b;
    } else {
      assert (a + b)[0] == a[0] && (a + b)[1..] == a[1..] + b;
      PairsAppend(a[1..], b);
    }
  }

  lemma {:induction false} HitsInOrder(query: string, key: string, name: string, entries: Dict<string>, corpus: Corpus, md5: string -> string)
    ensures Pairs(Hits(query, key, name, entries, corpus, md5)) == Filter((e: (string, string)) => Matches(query, e.1), entries)
    decreases |entries|
  {
    if entries != [] {
      var init := entries[..|entries| - 1];
      var last := entries[|entries| - 1];
      HitsInOrder(query, key, name, init, corpus, md5);
      var tail := if Matches(query, last.1) then [Hit(key, name, last, corpus, md5)] else [];
      PairsAppend(Hits(query, key, name, init, corpus, md5), tail);
      assert entries == init + [last];
      FilterAppend((e: (string, string)) => Matches(query, e.1), init, [last]);
    }
  }

  /** The records of one surah list exactly its matching entries, in the dict's own order. */
  lemma SurahHitsInOrder(query: string, n: nat, corpus: Corpus, md5: string -> string)
    ensures Pairs(SurahHits(query, n, corpus, md5)) == Filter((e: (string, string)) => Matches(query, e.1), TafsirOf(corpus, NatToString(n)))
  {
    var key := NatToString(n);
    HitsInOrder(query, key, DisplayName(key, corpus.table), TafsirOf(corpus, key), corpus, md5);
  }

  // ---------------------------------------------------------------------------
  // Exactly once
  // ---------------------------------------------------------------------------

  /** How many records name surah `key`, ayah `ayah`. */
  function CountHits(rs: seq<SearchResult>, key: string, ayah: string): nat {
    if rs == [] then 0 else (if rs[0].surahNumber == key && rs[0].ayahNumber == ayah then 1 else 0) + CountHits(rs[1..], key, ayah)
  }

  lemma {:induction false} CountHitsAppend(a: seq<SearchResult>, b: seq<SearchResult>, key: string, ayah: string)
    ensures CountHits(a + b, key, ayah) == CountHits(a, key, ayah) + CountHits(b, key, ayah)
  {
    if a == [] {
      assert a + b == b;
    } else {
      assert (a + b)[0] == a[0] && (a + b)[1..] == a[1..] + b;
      CountHitsAppend(a[1..], b, key, ayah);
    }
  }

  /** 1 when the dict holds `ayah` with a matching text, 0 otherwise. */
  function Expected(query: string, entries: Dict<string>, ayah: string): nat {
    match Get(entries, ayah)
    case Some(text) => if Matches(query, text) then 1 else 0
    case None => 0
  }

  lemma {:induction false} HitsCount(query: string, key: string, name: string, entries: Dict<string>, corpus: Corpus, md5: string -> string, ayah: string)
    requires DistinctKeys(entries)
    ensures CountHits(Hits(query, key, name, entries, corpus, md5), key, ayah) == Expected(query, entries, ayah)
    decreases |entries|
  {
    if entries != [] {
      var init := entries[..|entries| - 1];
      var last := entries[|entries| - 1];
      GetDropLast(entries, ayah);
      HitsCount(query, key, name, init, corpus, md5, ayah);
      var tail := if Matches(query, last.1) then [Hit(key, name, last, corpus, md5)] else [];
      CountHitsAppend(Hits(query, key, name, init, corpus, md5), tail, key, ayah);
    }
  }

  /** Looking a key up in a dict with distinct keys: the last entry, or else the entries before it. */
  lemma GetDropLast(entries: Dict<string>, k: string)
    requires entries != [] && DistinctKeys(entries)
    ensures k == entries[|entries| - 1].0 ==> Get(entries[..|entries| - 1], k).None?
    ensures Get(entries, k) == if k == entries[|entries| - 1].0 then Some(entries[|entries| - 1].1) else Get(entries[..|entries| - 1], k)
  {
    var init, last := entries[..|entries| - 1], entries[|entries| - 1];
    assert entries == init + [last];
    GetAppendLast(init, last, k);
  }

  /** Looking a key up in `init + [last]`, where `last`'s key is new. */
  lemma {:induction false} GetAppendLast(init: Dict<string>, last: (string, string), k: string)
    requires DistinctKeys(init + [last])
    ensures k == last.0 ==> Get(init, k).None?
    ensures Get(init + [last], k) == if k == last.0 then Some(last.1) else Get(init, k)
  {
    if init == [] {
    } else {
      assert (init + [last])[1..] == init[1..] + [last];
      assert init[0].0 != last.0 by {
        assert (init + [last])[0] == init[0] && (init + [last])[|init|] == last;
      }
      GetAppendLast(init[1..], last, k);
    }
  }

  lemma {:induction false} OtherSurahsCountZero(query: string, m: nat, n: nat, corpus: Corpus, md5: string -> string, ayah: string)
    requires m < n <= 114
    ensures CountHits(SearchUpTo(query, m, corpus, md5), NatToString(n), ayah) == 0
  {
    if m > 0 {
      OtherSurahsCountZero(query, m - 1, n, corpus, md5, ayah);
      var here := SurahHits(query, m, corpus, md5);
      CountHitsAppend(SearchUpTo(query, m - 1, corpus, md5), here, NatToString(n), ayah);
      if NatToString(n) == NatToString(m) {
        NatToStringInjective(n, m);
      }
      SurahHitsForeignCount(query, m, NatToString(n), corpus, md5, ayah);
    }
  }

  lemma SurahHitsForeignCount(query: string, m: nat, key: string, corpus: Corpus, md5: string -> string, ayah: string)
    requires key != NatToString(m)
    ensures CountHits(SurahHits(query, m, corpus, md5), key, ayah) == 0
  {
    var k := NatToString(m);
    if TafsirOf(corpus, k) != [] {
      HitsForeignCount(query, k, DisplayName(k, corpus.table), TafsirOf(corpus, k), corpus, md5, key, ayah);
    }
  }

  lemma {:induction false} HitsForeignCount(query: string, k: string, name: string, entries: Dict<string>, corpus: Corpus, md5: string -> string, key: string, ayah: string)
    requires key != k
    ensures CountHits(Hits(query, k, name, entries, corpus, md5), key, ayah) == 0
    decreases |entries|
  {
    if entries != [] {
      var init := entries[..|entries| - 1];
      var last := entries[|entries| - 1];
      HitsForeignCount(query, k, name, init, corpus, md5, key, ayah);
      var tail := if Matches(query, last.1) then [Hit(k, name, last, corpus, md5)] else [];
      CountHitsAppend(Hits(query, k, name, init, corpus, md5), tail, key, ayah);
    }
  }

  lemma {:induction false} LaterSurahsCount(query: string, m: nat, n: nat, corpus: Corpus, md5: string -> string, ayah: string)
    requires 1 <= n <= m <= 114
    ensures CountHits(SearchUpTo(query, m, corpus, md5), NatToString(n), ayah) == CountHits(SurahHits(query, n, corpus, md5), NatToString(n), ayah)
  {
    var prev := SearchUpTo(query, m - 1, corpus, md5);
    CountHitsAppend(prev, SurahHits(query, m, corpus, md5), NatToString(n), ayah);
    if m == n {
      OtherSurahsCountZero(query, m - 1, n, corpus, md5, ayah);
    } else {
      LaterSurahsCount(query, m - 1, n, corpus, md5, ayah);
      if NatToString(n) == NatToString(m) {
        NatToStringInjective(n, m);
      }
      SurahHitsForeignCount(query, m, NatToString(n), corpus, md5, ayah);
    }
  }

  /** Exactly once: a matching (surah, ayah) entry appears once in the results, any other (surah, ayah) never. */
  lemma SearchExactlyOnce(query: string, n: nat, corpus: Corpus, md5: string -> string, ayah: string)
    requires 1 <= n <= 114
    requires DistinctKeys(TafsirOf(corpus, NatToString(n)))
    ensures CountHits(Search(query, corpus, md5), NatToString(n), ayah) == Expected(query, TafsirOf(corpus, NatToString(n)), ayah)
  {
    LaterSurahsCount(query, 114, n, corpus, md5, ayah);
    var key := NatToString(n);
    if TafsirOf(corpus, key) != [] {
      HitsCount(query, key, DisplayName(key, corpus.table), TafsirOf(corpus, key), corpus, md5, ayah);
    }
  }
}
