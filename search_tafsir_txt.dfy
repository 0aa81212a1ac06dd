/**
 * search_tafsir_txt.py: cut the text of every ".txt" file into the blocks that
 * run from a "==== الكلمة:" header to the nearest following "==== نهاية ===="
 * footer, and report each block whose lower-cased text contains the query.
 */
module SearchTafsirTxt {
  import opened Wrappers
  import opened PyText

  const BlockStart: string := "==== الكلمة:"
  const BlockEnd: string := "==== نهاية ===="

  /**
   * A block as the pattern `h.*?f` (DOTALL) matches it, for a header `h` and a
   * footer `f`: it starts with the header, ends with the footer, and the footer
   * appears nowhere else after the header.
   */
  predicate IsBlockOf(b: string, h: string, f: string) {
    && |h| + |f| <= |b|
    && StartsWith(b, h)
    && EndsWith(b, f)
    && forall j :: |h| <= j < |b| - |f| ==> !OccursAt(b, f, j)
  }

  /**
   * `re.findall(h + ".*?" + f, s, re.DOTALL)` from index `i` on: the leftmost
   * header, the nearest footer after it, then the same after that footer. A
   * header with no footer after it ends the search, since no later header can
   * have one either.
   */
  function BlocksFrom(s: string, h: string, f: string, i: nat): seq<string>
    requires h != []
    decreases |s| - i
  {
    match FindFrom(s, h, i)
    case None => []
    case Some(p) =>
      match FindFrom(s, f, p + |h|)
      case None => []
      case Some(e) => [s[p..e + |f|]] + BlocksFrom(s, h, f, e + |f|)
  }

  /** All the blocks of the text `s`. */
  function BlocksOf(s: string, h: string, f: string): seq<string>
    requires h != []
  {
    BlocksFrom(s, h, f, 0)
  }

  /** The blocks of one file, between the script's own header and footer. */
  function Blocks(s: string): seq<string> {
    BlocksOf(s, BlockStart, BlockEnd)
  }

  /** The text from a header at `p` to the first footer `e` after it is a block. */
  lemma CutIsBlock(s: string, h: string, f: string, p: nat, e: nat)
    requires OccursAt(s, h, p) && p + |h| <= e && OccursAt(s, f, e)
    requires forall j :: p + |h| <= j < e ==> !OccursAt(s, f, j)
    ensures IsBlockOf(s[p..e + |f|], h, f)
  {
    var hi := e + |f|;
    var b := s[p..hi];
    forall j | |h| <= j < |b| - |f| ensures !OccursAt(b, f, j) {
      OccursAtSlice(s, f, p, hi, j, p + j);
    }
    OccursAtSlice(s, h, p, hi, 0, p);
    OccursAtEnds(b, h, |b| - |h|);
    OccursAtSlice(s, f, p, hi, e - p, e);
    OccursAtEnds(b, f, e - p);
  }

  /** A non-empty result starts with the block from the first header to the first footer after it. */
  lemma FirstBlock(s: string, h: string, f: string, i: nat) returns (p: nat, e: nat)
    requires h != [] && BlocksFrom(s, h, f, i) != []
    ensures FindFrom(s, h, i) == Some(p) && FindFrom(s, f, p + |h|) == Some(e)
    ensures i <= p && p + |h| <= e && e + |f| <= |s|
    ensures BlocksFrom(s, h, f, i) == [s[p..e + |f|]] + BlocksFrom(s, h, f, e + |f|)
    ensures IsBlockOf(s[p..e + |f|], h, f)
  {
    p := FindFrom(s, h, i).value;
    e := FindFrom(s, f, p + |h|).value;
    FoundIsBlock(s, h, f, i, p, e);
  }

  /** The text between what FindFrom returns for the header and then for the footer is a block. */
  lemma FoundIsBlock(s: string, h: string, f: string, i: nat, p: nat, e: nat)
    requires FindFrom(s, h, i) == Some(p) && FindFrom(s, f, p + |h|) == Some(e)
    ensures IsBlockOf(s[p..e + |f|], h, f)
  {
    FindFromFirst(s, h, i);
    FindFromFirst(s, f, p + |h|);
    CutIsBlock(s, h, f, p, e);
  }

  /** A block in front of blocks gives blocks. */
  lemma AllBlocksCons(c: string, rest: seq<string>, h: string, f: string)
    requires IsBlockOf(c, h, f)
    requires forall b :: b in rest ==> IsBlockOf(b, h, f)
    ensures forall b :: b in [c] + rest ==> IsBlockOf(b, h, f)
  {
  }

  /** Every block found from `i` on starts with the header, ends with the footer and holds no other footer. */
  lemma {:induction false} BlocksFromAreBlocks(s: string, h: string, f: string, i: nat)
    requires h != []
    ensures forall b :: b in BlocksFrom(s, h, f, i) ==> IsBlockOf(b, h, f)
    decreases |s| - i
  {
    if BlocksFrom(s, h, f, i) != [] {
      var p, e := FirstBlock(s, h, f, i);
      BlocksFromAreBlocks(s, h, f, e + |f|);
      AllBlocksCons(s[p..e + |f|], BlocksFrom(s, h, f, e + |f|), h, f);
    }
  }

  /** Every block found starts with the header, ends with the footer and holds no other footer. */
  lemma BlocksAreBlocks(s: string, h: string, f: string)
    requires h != []
    ensures forall b :: b in BlocksOf(s, h, f) ==> IsBlockOf(b, h, f)
  {
    BlocksFromAreBlocks(s, h, f, 0);
  }

  /** The text holds a header followed, somewhere after it, by a footer. */
  ghost predicate HasHeaderThenFooter(s: string, h: string, f: string) {
    exists p, e :: OccursAt(s, h, p) && p + |h| <= e && OccursAt(s, f, e)
  }

  /** Some block is found exactly when a header is followed somewhere by a footer. */
  lemma BlocksNonEmptyIff(s: string, h: string, f: string)
    requires h != []
    ensures BlocksOf(s, h, f) != [] <==> HasHeaderThenFooter(s, h, f)
  {
    if BlocksOf(s, h, f) != [] {
      var p, e := FirstBlock(s, h, f, 0);
      FindFromFirst(s, h, 0);
      FindFromFirst(s, f, p + |h|);
      assert OccursAt(s, h, p) && OccursAt(s, f, e);
    } else {
      NoBlockNoFooter(s, h, f);
    }
  }

  /** No block found means no header followed by a footer. */
  lemma NoBlockNoFooter(s: string, h: string, f: string)
    requires h != [] && BlocksOf(s, h, f) == []
    ensures !HasHeaderThenFooter(s, h, f)
  {
    FindFromFirst(s, h, 0);
    match FindFrom(s, h, 0)
    case None =>
    case Some(p) =>
      assert FindFrom(s, f, p + |h|).None?;
      FindFromFirst(s, f, p + |h|);
  }

  /** A text without a header has no block, whatever footers it holds. */
  lemma NoHeaderNoBlocks(s: string, h: string, f: string)
    requires h != [] && !Contains(s, h)
    ensures BlocksOf(s, h, f) == []
  {
    FindFromFirst(s, h, 0);
    ContainsIff(s, h);
  }

  /** `input(...).strip().lower()` */
  function Query(raw: string): string {
    Lower(Strip(raw))
  }

  /** `query in block.lower()` */
  predicate Mentions(block: string, query: string) {
    Contains(Lower(block), query)
  }

  /** One printed result: the file name and the stripped block. */
  datatype Report = Report(file: string, block: string)

  /** What one block contributes: its report when its lower-cased text contains the query. */
  function BlockReport(name: string, block: string, query: string): (r: seq<Report>)
  {
    if Mentions(block, query) then [Report(name, Strip(block))] else []
  }

  /** The reports for the first `n` blocks of one file, in order. */
  function BlockReports(name: string, blocks: seq<string>, query: string, n: nat): (rs: seq<Report>)
    requires n <= |blocks|
  {
    if n == 0 then [] else BlockReports(name, blocks, query, n - 1) + BlockReport(name, blocks[n - 1], query)
  }

  /** What one entry of the listing contributes: the reports of a ".txt" file, nothing otherwise. */
  function FileReports(name: string, content: string, query: string): seq<Report> {
    if EndsWith(name, ".txt") then BlockReports(name, Blocks(content), query, |Blocks(content)|) else []
  }

  /** The reports for the first `n` entries of the listing, in listing order. */
  function Reports(listing: seq<(string, string)>, query: string, n: nat): seq<Report>
    requires n <= |listing|
  {
    if n == 0 then [] else Reports(listing, query, n - 1) + FileReports(listing[n - 1].0, listing[n - 1].1, query)
  }

  /** The body of the outer loop for one ".txt" file: the blocks it prints, and whether any was printed. */
  method SearchFile(filename: string, content: string, query: string) returns (printed: seq<Report>, foundAny: bool)
    requires EndsWith(filename, ".txt")
    ensures printed == FileReports(filename, content, query)
    ensures foundAny <==> printed != []
  {
    var blocks := Blocks(content);
    foundAny := false;
    printed := [];
    for i := 0 to |blocks|
      invariant printed == BlockReports(filename, blocks, query, i)
      invariant foundAny <==> printed != []
    {
      if Mentions(blocks[i], query) {
        foundAny := true;
        printed := printed + [Report(filename, Strip(blocks[i]))];
      }
    }
  }

  /** The outer loop of the script, over the folder listing given as (name, text) pairs. */
  method SearchListing(listing: seq<(string, string)>, query: string) returns (printed: seq<Report>, foundAny: bool)
    ensures printed == Reports(listing, query, |listing|)
    ensures foundAny <==> printed != []
  {
    foundAny := false;
    printed := [];
    for k := 0 to |listing|
      invariant printed == Reports(listing, query, k)
      invariant foundAny <==> printed != []
    {
      var reports, found := SearchEntry(listing[k], query);
      ReportsNext(listing, query, k);
      printed := printed + reports;
      foundAny := foundAny || found;
    }
  }

  /** One entry of the listing: a ".txt" file is searched, any other name is passed over. */
  method SearchEntry(entry: (string, string), query: string) returns (printed: seq<Report>, foundAny: bool)
    ensures printed == FileReports(entry.0, entry.1, query)
    ensures foundAny <==> printed != []
  {
    if EndsWith(entry.0, ".txt") {
      printed, foundAny := SearchFile(entry.0, entry.1, query);
    } else {
      printed, foundAny := [], false;
    }
  }

  /** The reports of one more entry follow those of the entries before it. */
  lemma ReportsNext(listing: seq<(string, string)>, query: string, k: nat)
    requires k < |listing|
    ensures Reports(listing, query, k + 1) == Reports(listing, query, k) + FileReports(listing[k].0, listing[k].1, query)
  {
  }

  /**
   * The script, given the raw query typed: what it prints, and `found_any`,
   * which selects the "no result" message when false.
   */
  method SearchTafsirTxt(listing: seq<(string, string)>, rawQuery: string) returns (printed: seq<Report>, foundAny: bool)
    ensures printed == Reports(listing, Query(rawQuery), |listing|)
    ensures foundAny <==> printed != []
  {
    var query := Query(rawQuery);
    printed, foundAny := SearchListing(listing, query);
  }

  /** `r` reports a block of the ".txt" file `name` whose lower-cased text contains the query. */
  predicate IsBlockReport(name: string, content: string, query: string, r: Report) {
    EndsWith(name, ".txt") && r.file == name
    && exists i :: 0 <= i < |Blocks(content)| && Mentions(Blocks(content)[i], query) && r.block == Strip(Blocks(content)[i])
  }

  lemma {:induction false} BlockReportsSound(name: string, blocks: seq<string>, query: string, n: nat)
    requires n <= |blocks|
    ensures forall r :: r in BlockReports(name, blocks, query, n) ==>
              r.file == name && exists i :: 0 <= i < n && Mentions(blocks[i], query) && r.block == Strip(blocks[i])
  {
    if n > 0 {
      BlockReportsSound(name, blocks, query, n - 1);
    }
  }

  lemma FileReportsSound(name: string, content: string, query: string)
    ensures forall r :: r in FileReports(name, content, query) ==> IsBlockReport(name, content, query, r)
  {
    BlockReportsSound(name, Blocks(content), query, |Blocks(content)|);
  }

  /** Every report names a ".txt" file of the listing and a block of it that contains the query. */
  lemma {:induction false} ReportsSound(listing: seq<(string, string)>, query: string, n: nat)
    requires n <= |listing|
    ensures forall r :: r in Reports(listing, query, n) ==>
              exists k :: 0 <= k < n && IsBlockReport(listing[k].0, listing[k].1, query, r)
  {
    if n > 0 {
      ReportsSound(listing, query, n - 1);
      FileReportsSound(listing[n - 1].0, listing[n - 1].1, query);
    }
  }

  lemma {:induction false} BlockReportsComplete(name: string, blocks: seq<string>, query: string, n: nat, i: nat)
    requires i < n <= |blocks| && Mentions(blocks[i], query)
    ensures Report(name, Strip(blocks[i])) in BlockReports(name, blocks, query, n)
  {
    var prev := BlockReports(name, blocks, query, n - 1);
    var last := BlockReport(name, blocks[n - 1], query);
    if i < n - 1 {
      BlockReportsComplete(name, blocks, query, n - 1, i);
      assert Report(name, Strip(blocks[i])) in prev + last;
    } else {
      assert Report(name, Strip(blocks[i])) in last;
      assert Report(name, Strip(blocks[i])) in prev + last;
    }
  }

  /** What an entry of the listing contributes stays among the reports of any longer prefix. */
  lemma {:induction false} ReportsInclude(listing: seq<(string, string)>, query: string, n: nat, k: nat, r: Report)
    requires k < n <= |listing| && r in FileReports(listing[k].0, listing[k].1, query)
    ensures r in Reports(listing, query, n)
    decreases n
  {
    if k < n - 1 {
      ReportsInclude(listing, query, n - 1, k, r);
    }
    InEither(r, Reports(listing, query, n - 1), FileReports(listing[n - 1].0, listing[n - 1].1, query));
  }

  /** Every block of a ".txt" file that contains the query is reported. */
  lemma ReportsComplete(listing: seq<(string, string)>, query: string, n: nat, k: nat, i: nat)
    requires k < n <= |listing| && EndsWith(listing[k].0, ".txt")
    requires i < |Blocks(listing[k].1)| && Mentions(Blocks(listing[k].1)[i], query)
    ensures Report(listing[k].0, Strip(Blocks(listing[k].1)[i])) in Reports(listing, query, n)
  {
    var blocks := Blocks(listing[k].1);
    BlockReportsComplete(listing[k].0, blocks, query, |blocks|, i);
    ReportsInclude(listing, query, n, k, Report(listing[k].0, Strip(blocks[i])));
  }

  /** `found_any` is set exactly when some block of some ".txt" file contains the query. */
  lemma {:induction false} FoundIff(listing: seq<(string, string)>, query: string)
    ensures Reports(listing, query, |listing|) != [] <==>
            exists k, i :: 0 <= k < |listing| && EndsWith(listing[k].0, ".txt")
              && 0 <= i < |Blocks(listing[k].1)| && Mentions(Blocks(listing[k].1)[i], query)
  {
    var rs := Reports(listing, query, |listing|);
    if rs != [] {
      ReportsSound(listing, query, |listing|);
      assert rs[0] in rs;
      var k :| 0 <= k < |listing| && IsBlockReport(listing[k].0, listing[k].1, query, rs[0]);
    }
    if exists k, i :: 0 <= k < |listing| && EndsWith(listing[k].0, ".txt")
         && 0 <= i < |Blocks(listing[k].1)| && Mentions(Blocks(listing[k].1)[i], query) {
      var k, i :| 0 <= k < |listing| && EndsWith(listing[k].0, ".txt")
        && 0 <= i < |Blocks(listing[k].1)| && Mentions(Blocks(listing[k].1)[i], query);
      ReportsComplete(listing, query, |listing|, k, i);
    }
  }
}
