/**
 * search_all_tafasir.py: a case-sensitive keyword search over the lines of
 * every ".txt" file of a folder, reporting each matching line with its
 * 1-based number and, for inner lines, its two neighbours as context.
 */
module SearchAllTafasir {
  import opened PyText

  /** One reported line: `(basename, line number, context)`. */
  datatype LineMatch = LineMatch(file: string, lineNumber: nat, context: string)

  /** "prev | line | next", each stripped, when both neighbours exist; the stripped line alone otherwise. */
  function Context(lines: seq<string>, i: nat): string
    requires i < |lines|
  {
    if i > 0 && i + 1 < |lines| then Strip(lines[i - 1]) + " | " + Strip(lines[i]) + " | " + Strip(lines[i + 1])
    else Strip(lines[i])
  }

  /** What line `i` (0-based) contributes: its match when it contains the keyword. */
  function LineEntry(name: string, lines: seq<string>, keyword: string, i: nat): (e: seq<LineMatch>)
    requires i < |lines|
    ensures |e| <= 1
  {
    if Contains(lines[i], keyword) then [LineMatch(name, i + 1, Context(lines, i))] else []
  }

  /** The matches among the first `n` lines, in line order. */
  function LineHits(name: string, lines: seq<string>, keyword: string, n: nat): (hits: seq<LineMatch>)
    requires n <= |lines|
    ensures |hits| <= n
  {
    if n == 0 then []
    else LineHits(name, lines, keyword, n - 1) + LineEntry(name, lines, keyword, n - 1)
  }

  /** `search_in_file`, on the text of the file. */
  method SearchInFile(name: string, content: string, keyword: string) returns (results: seq<LineMatch>)
    ensures results == LineHits(name, SplitLines(content), keyword, |SplitLines(content)|)
  {
    var lines := SplitLines(content);
    results := [];
    var i := 0;
    while i < |lines|
      invariant 0 <= i <= |lines|
      invariant results == LineHits(name, lines, keyword, i)
    {
      if Contains(lines[i], keyword) {
        var context := if i > 0 && i + 1 < |lines| then Strip(lines[i - 1]) + " | " + Strip(lines[i]) + " | " + Strip(lines[i + 1]) else Strip(lines[i]);
        results := results + [LineMatch(name, i + 1, context)];
      }
      i := i + 1;
    }
  }

  /** `r` reports line `r.lineNumber` of the first `n` lines of `name`: that line contains the keyword and `r` carries its context. */
  predicate IsLineHit(name: string, lines: seq<string>, keyword: string, n: nat, r: LineMatch)
    requires n <= |lines|
  {
    && r.file == name && 1 <= r.lineNumber <= n
    && Contains(lines[r.lineNumber - 1], keyword)
    && r.context == Context(lines, r.lineNumber - 1)
  }

  /** Every reported line contains the keyword, carries its 1-based number and its context. */
  lemma {:induction false} LineHitsSound(name: string, lines: seq<string>, keyword: string, n: nat)
    requires n <= |lines|
    ensures forall r :: r in LineHits(name, lines, keyword, n) ==> IsLineHit(name, lines, keyword, n, r)
  {
    if n > 0 {
      LineHitsSound(name, lines, keyword, n - 1);
      var prev := LineHits(name, lines, keyword, n - 1);
      var e := LineEntry(name, lines, keyword, n - 1);
      forall r | r in prev + e ensures IsLineHit(name, lines, keyword, n, r) {
        if r in prev {
          assert IsLineHit(name, lines, keyword, n - 1, r);
        } else {
          assert r in e;
        }
      }
    }
  }

  /** Every line that contains the keyword is reported. */
  lemma {:induction false} LineHitsComplete(name: string, lines: seq<string>, keyword: string, n: nat, i: nat)
    requires i < n <= |lines| && Contains(lines[i], keyword)
    ensures LineMatch(name, i + 1, Context(lines, i)) in LineHits(name, lines, keyword, n)
  {
    var prev := LineHits(name, lines, keyword, n - 1);
    var last := LineEntry(name, lines, keyword, n - 1);
    if i < n - 1 {
      LineHitsComplete(name, lines, keyword, n - 1, i);
      assert LineMatch(name, i + 1, Context(lines, i)) in prev + last;
    } else {
      assert LineMatch(name, i + 1, Context(lines, i)) in last;
      assert LineMatch(name, i + 1, Context(lines, i)) in prev + last;
    }
  }

  /** Line numbers strictly increase along the results. */
  lemma {:induction false} LineHitsOrdered(name: string, lines: seq<string>, keyword: string, n: nat)
    requires n <= |lines|
    ensures forall a, b :: 0 <= a < b < |LineHits(name, lines, keyword, n)| ==>
              LineHits(name, lines, keyword, n)[a].lineNumber < LineHits(name, lines, keyword, n)[b].lineNumber
  {
    if n > 0 {
      var prev := LineHits(name, lines, keyword, n - 1);
      var e := LineEntry(name, lines, keyword, n - 1);
      var hs := prev + e;
      LineHitsOrdered(name, lines, keyword, n - 1);
      LineHitsSound(name, lines, keyword, n - 1);
      forall a, b | 0 <= a < b < |hs| ensures hs[a].lineNumber < hs[b].lineNumber {
        assert hs[a] == prev[a];
        if b < |prev| {
          assert hs[b] == prev[b];
        } else {
          assert hs[b] == e[0] && e[0].lineNumber == n;
          assert IsLineHit(name, lines, keyword, n - 1, prev[a]);
        }
      }
    }
  }

  /** An empty keyword reports every line. */
  lemma {:induction false} EmptyKeywordEveryLine(name: string, lines: seq<string>, n: nat)
    requires n <= |lines|
    ensures |LineHits(name, lines, [], n)| == n
  {
    if n > 0 {
      EmptyKeywordEveryLine(name, lines, n - 1);
      ContainsEmpty(lines[n - 1]);
    }
  }

  /** The results of the first `n` entries of the listing: ".txt" files only, in listing order. */
  function AllHits(listing: seq<(string, string)>, keyword: string, n: nat): seq<LineMatch>
    requires n <= |listing|
  {
    if n == 0 then []
    else AllHits(listing, keyword, n - 1) + FileHits(listing[n - 1].0, listing[n - 1].1, keyword)
  }

  /** What one entry of the listing contributes: the matches of a ".txt" file, nothing otherwise. */
  function FileHits(name: string, content: string, keyword: string): seq<LineMatch> {
    if EndsWith(name, ".txt") then LineHits(name, SplitLines(content), keyword, |SplitLines(content)|) else []
  }

  /** `search_all_txt`, over the folder listing given as (name, text) pairs. */
  method SearchAllTxt(listing: seq<(string, string)>, keyword: string) returns (allResults: seq<LineMatch>)
    ensures allResults == AllHits(listing, keyword, |listing|)
  {
    allResults := [];
    for k := 0 to |listing|
      invariant allResults == AllHits(listing, keyword, k)
    {
      var filename, content := listing[k].0, listing[k].1;
      if EndsWith(filename, ".txt") {
        var results := SearchInFile(filename, content, keyword);
        allResults := allResults + results;
      }
    }
  }

  /** `r` reports a line of a ".txt" file among the first `n` entries of the listing that contains the keyword. */
  predicate IsListingHit(listing: seq<(string, string)>, keyword: string, n: nat, r: LineMatch)
    requires n <= |listing|
  {
    exists k :: 0 <= k < n && listing[k].0 == r.file && EndsWith(r.file, ".txt")
      && IsLineHit(r.file, SplitLines(listing[k].1), keyword, |SplitLines(listing[k].1)|, r)
  }

  /** Every result names a ".txt" file of the listing and a line of it that contains the keyword. */
  lemma {:induction false} AllHitsSound(listing: seq<(string, string)>, keyword: string, n: nat)
    requires n <= |listing|
    ensures forall r :: r in AllHits(listing, keyword, n) ==> IsListingHit(listing, keyword, n, r)
  {
    if n > 0 {
      AllHitsSound(listing, keyword, n - 1);
      var (name, content) := listing[n - 1];
      var lines := SplitLines(content);
      var prev := AllHits(listing, keyword, n - 1);
      var fh := FileHits(name, content, keyword);
      LineHitsSound(name, lines, keyword, |lines|);
      forall r | r in prev + fh ensures IsListingHit(listing, keyword, n, r) {
        if r in prev {
          var k :| 0 <= k < n - 1 && listing[k].0 == r.file && EndsWith(r.file, ".txt")
            && IsLineHit(r.file, SplitLines(listing[k].1), keyword, |SplitLines(listing[k].1)|, r);
        } else {
          assert r in fh && EndsWith(name, ".txt");
          assert IsLineHit(name, lines, keyword, |lines|, r);
          assert listing[n - 1].0 == r.file;
        }
      }
    }
  }

  /** What an entry of the listing contributes stays among the results of any longer prefix. */
  lemma {:induction false} AllHitsInclude(listing: seq<(string, string)>, keyword: string, n: nat, k: nat, r: LineMatch)
    requires k < n <= |listing| && r in FileHits(listing[k].0, listing[k].1, keyword)
    ensures r in AllHits(listing, keyword, n)
  {
    var prev := AllHits(listing, keyword, n - 1);
    var last := FileHits(listing[n - 1].0, listing[n - 1].1, keyword);
    if k < n - 1 {
      AllHitsInclude(listing, keyword, n - 1, k, r);
      assert r in prev + last;
    } else {
      assert k == n - 1;
      assert r in prev + last;
    }
  }

  /** Every line of a ".txt" file of the listing that contains the keyword is reported. */
  lemma AllHitsComplete(listing: seq<(string, string)>, keyword: string, n: nat, k: nat, i: nat)
    requires k < n <= |listing| && EndsWith(listing[k].0, ".txt")
    requires i < |SplitLines(listing[k].1)| && Contains(SplitLines(listing[k].1)[i], keyword)
    ensures LineMatch(listing[k].0, i + 1, Context(SplitLines(listing[k].1), i)) in AllHits(listing, keyword, n)
  {
    var lines := SplitLines(listing[k].1);
    LineHitsComplete(listing[k].0, lines, keyword, |lines|, i);
    AllHitsInclude(listing, keyword, n, k, LineMatch(listing[k].0, i + 1, Context(lines, i)));
  }
}
