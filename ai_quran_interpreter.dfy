/**
 * ai_quran_interpreter.py: read a search term, scan every line of every
 * ".txt" file of the folder, and collect each line that contains the term,
 * case-sensitively, with its file name and 1-based line number.
 */
module AiQuranInterpreter {
  import opened Wrappers
  import opened PyText

  /** One collected line: the `{"file", "line", "line_num"}` record. */
  datatype Finding = Finding(file: string, line: string, lineNum: nat)

  /**
   * What reading one file gives: the lines `enumerate(f, 1)` yields (each with
   * its newline), and the exception that ended the reading early, if any.
   */
  datatype Reading = Reading(lines: seq<string>, failure: Option<string>)

  /** What line `i` (0-based) contributes: the stripped line when the raw line contains the term. */
  function LineFinding(name: string, lines: seq<string>, term: string, i: nat): (e: seq<Finding>)
    requires i < |lines|
  {
    if Contains(lines[i], term) then [Finding(name, Strip(lines[i]), i + 1)] else []
  }

  /** The findings among the first `n` lines of one file, in line order. */
  function LineFindings(name: string, lines: seq<string>, term: string, n: nat): (fs: seq<Finding>)
    requires n <= |lines|
  {
    if n == 0 then [] else LineFindings(name, lines, term, n - 1) + LineFinding(name, lines, term, n - 1)
  }

  /** What one entry of the listing contributes: the findings of a ".txt" file, nothing otherwise. */
  function FileFindings(name: string, reading: Reading, term: string): seq<Finding> {
    if EndsWith(name, ".txt") then LineFindings(name, reading.lines, term, |reading.lines|) else []
  }

  /** The findings of the first `n` entries of the listing, in listing order. */
  function Findings(listing: seq<(string, Reading)>, term: string, n: nat): seq<Finding>
    requires n <= |listing|
  {
    if n == 0 then [] else Findings(listing, term, n - 1) + FileFindings(listing[n - 1].0, listing[n - 1].1, term)
  }

  /** The names of the ".txt" files among the first `n` entries whose reading failed, in listing order. */
  function Warnings(listing: seq<(string, Reading)>, n: nat): seq<string>
    requires n <= |listing|
  {
    if n == 0 then []
    else Warnings(listing, n - 1) + (if EndsWith(listing[n - 1].0, ".txt") && listing[n - 1].1.failure.Some? then [listing[n - 1].0] else [])
  }

  /**
   * The script, over the folder listing given as (name, reading) pairs: the
   * findings and the files for which it prints a warning.
   */
  method Interpret(listing: seq<(string, Reading)>, rawTerm: string) returns (results: seq<Finding>, warned: seq<string>)
    ensures results == Findings(listing, Strip(rawTerm), |listing|)
    ensures warned == Warnings(listing, |listing|)
  {
    var searchTerm := Strip(rawTerm);
    results := [];
    warned := [];
    var k := 0;
    while k < |listing|
      invariant 0 <= k <= |listing|
      invariant results == Findings(listing, searchTerm, k)
      invariant warned == Warnings(listing, k)
    {
      var found, warn := ScanFile(listing[k].0, listing[k].1, searchTerm);
      results := results + found;
      if warn {
        warned := warned + [listing[k].0];
      }
      k := k + 1;
    }
  }

  /** One entry of the listing: its findings, and whether the script warns about it. */
  method ScanFile(filename: string, reading: Reading, searchTerm: string) returns (found: seq<Finding>, warn: bool)
    ensures found == FileFindings(filename, reading, searchTerm)
    ensures warn <==> EndsWith(filename, ".txt") && reading.failure.Some?
  {
    found, warn := [], false;
    if EndsWith(filename, ".txt") {
      found := ScanLines(filename, reading.lines, searchTerm);
      warn := reading.failure.Some?;
    }
  }

  /** The inner loop: `enumerate(f, 1)` over the lines of one ".txt" file. */
  method ScanLines(filename: string, lines: seq<string>, searchTerm: string) returns (found: seq<Finding>)
    ensures found == LineFindings(filename, lines, searchTerm, |lines|)
  {
    found := [];
    for i := 0 to |lines|
      invariant found == LineFindings(filename, lines, searchTerm, i)
    {
      var lineNum, line := i + 1, lines[i];
      if Contains(line, searchTerm) {
        found := found + [Finding(filename, Strip(line), lineNum)];
      }
    }
  }

  /** `r` records line `r.lineNum` of `lines` (among the first `n`): the raw line contains the term and `r` holds it stripped. */
  predicate IsLineFinding(name: string, lines: seq<string>, term: string, n: nat, r: Finding)
    requires n <= |lines|
  {
    && r.file == name && 1 <= r.lineNum <= n
    && Contains(lines[r.lineNum - 1], term)
    && r.line == Strip(lines[r.lineNum - 1])
  }

  /** Every finding is a line containing the term, numbered from 1, stored stripped. */
  lemma {:induction false} LineFindingsSound(name: string, lines: seq<string>, term: string, n: nat)
    requires n <= |lines|
    ensures forall r :: r in LineFindings(name, lines, term, n) ==> IsLineFinding(name, lines, term, n, r)
  {
    if n > 0 {
      LineFindingsSound(name, lines, term, n - 1);
      var prev := LineFindings(name, lines, term, n - 1);
      var e := LineFinding(name, lines, term, n - 1);
      forall r | r in prev + e ensures IsLineFinding(name, lines, term, n, r) {
        if r in prev {
          assert IsLineFinding(name, lines, term, n - 1, r);
        } else {
          assert r in e;
        }
      }
    }
  }

  /** Every line that contains the term is recorded. */
  lemma {:induction false} LineFindingsComplete(name: string, lines: seq<string>, term: string, n: nat, i: nat)
    requires i < n <= |lines| && Contains(lines[i], term)
    ensures Finding(name, Strip(lines[i]), i + 1) in LineFindings(name, lines, term, n)
  {
    var prev := LineFindings(name, lines, term, n - 1);
    var last := LineFinding(name, lines, term, n - 1);
    if i < n - 1 {
      LineFindingsComplete(name, lines, term, n - 1, i);
      assert Finding(name, Strip(lines[i]), i + 1) in prev + last;
    } else {
      assert Finding(name, Strip(lines[i]), i + 1) in last;
      assert Finding(name, Strip(lines[i]), i + 1) in prev + last;
    }
  }

  /** Within one file, line numbers strictly increase along the findings. */
  lemma {:induction false} LineFindingsOrdered(name: string, lines: seq<string>, term: string, n: nat)
    requires n <= |lines|
    ensures forall a, b :: 0 <= a < b < |LineFindings(name, lines, term, n)| ==>
              LineFindings(name, lines, term, n)[a].lineNum < LineFindings(name, lines, term, n)[b].lineNum
  {
    if n > 0 {
      var prev := LineFindings(name, lines, term, n - 1);
      var e := LineFinding(name, lines, term, n - 1);
      var fs := prev + e;
      LineFindingsOrdered(name, lines, term, n - 1);
      LineFindingsSound(name, lines, term, n - 1);
      forall a, b | 0 <= a < b < |fs| ensures fs[a].lineNum < fs[b].lineNum {
        assert fs[a] == prev[a];
        if b < |prev| {
          assert fs[b] == prev[b];
        } else {
          assert fs[b] == e[0] && e[0].lineNum == n;
          assert prev[a] in prev;
          assert IsLineFinding(name, lines, term, n - 1, prev[a]);
        }
      }
    }
  }

  /** A file gives at most one finding per line. */
  lemma {:induction false} LineFindingsAtMost(name: string, lines: seq<string>, term: string, n: nat)
    requires n <= |lines|
    ensures |LineFindings(name, lines, term, n)| <= n
  {
    if n > 0 {
      LineFindingsAtMost(name, lines, term, n - 1);
    }
  }

  /** The empty term (what a blank input strips to) records every line. */
  lemma {:induction false} EmptyTermEveryLine(name: string, lines: seq<string>, n: nat)
    requires n <= |lines|
    ensures |LineFindings(name, lines, [], n)| == n
  {
    if n > 0 {
      EmptyTermEveryLine(name, lines, n - 1);
      ContainsEmpty(lines[n - 1]);
    }
  }

  /**
   * The findings of a prefix of the listing come first and are never revised:
   * later files, including one whose reading fails, only append.
   */
  lemma {:induction false} FindingsPrefix(listing: seq<(string, Reading)>, term: string, m: nat, n: nat)
    requires m <= n <= |listing|
    ensures Findings(listing, term, m) <= Findings(listing, term, n)
  {
    if m < n {
      var prev := Findings(listing, term, n - 1);
      var here := FileFindings(listing[n - 1].0, listing[n - 1].1, term);
      FindingsPrefix(listing, term, m, n - 1);
      PrefixAppend(Findings(listing, term, m), prev, here);
    }
  }

  /** Only ".txt" files are scanned: any other entry contributes nothing, whatever it holds. */
  lemma OnlyTextFiles(listing: seq<(string, Reading)>, term: string, n: nat)
    requires 0 < n <= |listing| && !EndsWith(listing[n - 1].0, ".txt")
    ensures Findings(listing, term, n) == Findings(listing, term, n - 1)
    ensures Warnings(listing, n) == Warnings(listing, n - 1)
  {
    assert FileFindings(listing[n - 1].0, listing[n - 1].1, term) == [];
  }

  /** The k-th entry is a ".txt" file whose reading failed, so the script warns about it. */
  predicate FailedText(listing: seq<(string, Reading)>, k: nat)
    requires k < |listing|
  {
    EndsWith(listing[k].0, ".txt") && listing[k].1.failure.Some?
  }

  /** A name is warned about exactly when it is one of the first `n` entries, a ".txt" file whose read failed. */
  lemma {:induction false} WarningsIff(listing: seq<(string, Reading)>, n: nat, w: string)
    requires n <= |listing|
    ensures w in Warnings(listing, n) <==> exists k :: 0 <= k < n && listing[k].0 == w && FailedText(listing, k)
  {
    if n > 0 {
      WarningsIff(listing, n - 1, w);
      if exists k :: 0 <= k < n && listing[k].0 == w && FailedText(listing, k) {
        var k :| 0 <= k < n && listing[k].0 == w && FailedText(listing, k);
        if k < n - 1 {
          assert w in Warnings(listing, n - 1);
        }
      }
    }
  }

  /**
   * A reading that fails part-way keeps the findings of the lines read before
   * the failure: they are exactly the findings of a reading of those lines that
   * did not fail.
   */
  lemma FailureKeepsEarlierLines(name: string, lines: seq<string>, message: string, term: string)
    requires EndsWith(name, ".txt")
    ensures FileFindings(name, Reading(lines, Some(message)), term) == FileFindings(name, Reading(lines, None), term)
    ensures forall r :: r in FileFindings(name, Reading(lines, Some(message)), term) ==> IsLineFinding(name, lines, term, |lines|, r)
  {
    LineFindingsSound(name, lines, term, |lines|);
  }
}
