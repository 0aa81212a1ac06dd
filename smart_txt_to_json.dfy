/**
 * smart_txt_to_json.py: group the lines of a tafsir text file under header
 * lines (a verse or a verse number) and dump `{"البقرة": {header: text}}`.
 */
module SmartTxtToJson {
  import opened Wrappers
  import opened PyText
  import opened PyDict

  /** The single top-level key of the output. */
  const SurahName: string := "البقرة"

  /** The ornate opening parenthesis that starts a quoted verse. */
  const VerseOpening: string := "﴿"

  /** The word "the ayah". */
  const AyahWord: string := "الآية"

  /** `line[:2]` */
  function FirstTwo(line: string): (r: string)
    ensures |r| <= 2 && StartsWith(line, r)
    ensures |line| >= 2 ==> |r| == 2
  {
    if |line| <= 2 then line else line[..2]
  }

  /** The header test of line 16, on a stripped line. */
  predicate IsHeader(line: string) {
    StartsWith(line, VerseOpening) || StartsWith(line, AyahWord) || IsDigits(FirstTwo(line))
  }

  /** `" ".join(parts)` */
  function JoinSpaces(parts: seq<string>): (r: string)
    ensures parts == [] ==> r == []
    ensures |parts| == 1 ==> r == parts[0]
  {
    if parts == [] then [] else Join(parts, ' ')
  }

  /** The loop variables: `current_verse`, `verse_lines` and the inner dictionary `data["البقرة"]`. */
  datatype Grouping = Grouping(current: string, body: seq<string>, entries: Dict<string>)

  /** Where the loop starts (lines 6-8). */
  const Start: Grouping := Grouping([], [], [])

  /** One iteration of the loop (lines 12-22) on a raw line. */
  function Step(g: Grouping, raw: string): Grouping {
    var line := Strip(raw);
    if line == [] then g
    else if IsHeader(line) then
      if g.current != [] then Grouping(line, [], Put(g.entries, g.current, JoinSpaces(g.body)))
      else Grouping(line, g.body, g.entries)
    else Grouping(g.current, g.body + [line], g.entries)
  }

  /** The loop variables after the lines `lines`. */
  function Run(lines: seq<string>): Grouping {
    if lines == [] then Start else Step(Run(lines[..|lines| - 1]), lines[|lines| - 1])
  }

  /** Lines 25-26: the last header is stored only when it has text. */
  function Finish(g: Grouping): Dict<string> {
    if g.current != [] && g.body != [] then Put(g.entries, g.current, JoinSpaces(g.body)) else g.entries
  }

  /** The script over the lines of the file: the object it dumps. */
  method Convert(lines: seq<string>) returns (output: Dict<Dict<string>>)
    ensures output == [(SurahName, Finish(Run(lines)))]
  {
    var entries: Dict<string> := [];
    var currentVerse: string := [];
    var verseLines: seq<string> := [];
    var k := 0;
    while k < |lines|
      invariant 0 <= k <= |lines|
      invariant Grouping(currentVerse, verseLines, entries) == Run(lines[..k])
    {
      assert lines[..k + 1][..k] == lines[..k];
      var line := Strip(lines[k]);
      if line != [] {
        if StartsWith(line, VerseOpening) || StartsWith(line, AyahWord) || IsDigits(FirstTwo(line)) {
          if currentVerse != [] {
            entries := Put(entries, currentVerse, JoinSpaces(verseLines));
            verseLines := [];
          }
          currentVerse := line;
        } else {
          verseLines := verseLines + [line];
        }
      }
      k := k + 1;
    }
    assert lines[..|lines|] == lines;
    if currentVerse != [] && verseLines != [] {
      entries := Put(entries, currentVerse, JoinSpaces(verseLines));
    }
    output := [(SurahName, entries)];
  }

  /**
   * The digit part of the header test looks at the first two characters only:
   * a line of one digit, or one that starts with two digits, is a header, but
   * a single digit followed by anything else ("5. ...", "5 ...") is not.
   */
  lemma DigitHeaders(line: string)
    ensures |line| == 1 && IsDigitChar(line[0]) ==> IsHeader(line)
    ensures |line| >= 2 && IsDigitChar(line[0]) && IsDigitChar(line[1]) ==> IsHeader(line)
    ensures |line| >= 2 && IsDigitChar(line[0]) && !IsDigitChar(line[1]) ==> !IsHeader(line)
  {
    if |line| >= 2 {
      assert FirstTwo(line) == [line[0], line[1]];
    }
    if |line| >= 1 && IsDigitChar(line[0]) {
      assert !StartsWith(line, VerseOpening) by {
        assert VerseOpening[0] == '\U{FD3F}';
      }
      assert !StartsWith(line, AyahWord) by {
        assert AyahWord[0] == '\U{0627}';
      }
    }
  }

  /** A raw line that is not blank once stripped. */
  predicate IsContent(raw: string) {
    Strip(raw) != []
  }

  /** Blank and whitespace-only lines are skipped: the run over all lines is the run over the non-blank ones. */
  lemma {:induction false} BlankLinesIgnored(lines: seq<string>)
    ensures Run(lines) == Run(Filter(IsContent, lines))
  {
    if lines != [] {
      var init := lines[..|lines| - 1];
      var last := lines[|lines| - 1];
      assert lines == init + [last];
      BlankLinesIgnored(init);
      FilterAppend(IsContent, init, [last]);
      var f := Filter(IsContent, init);
      assert [last][1..] == [];
      if IsContent(last) {
        assert Filter(IsContent, [last]) == [last];
        assert (f + [last])[..|f|] == f;
      } else {
        assert Filter(IsContent, [last]) == [];
        assert f + [] == f;
      }
    }
  }

  /** A stripped, non-empty header line. */
  predicate IsHeaderLine(s: string) {
    s != [] && Strip(s) == s && IsHeader(s)
  }

  /**
   * What the loop keeps true: nothing is stored before the first header, the
   * current header and every stored key are stripped header lines, and keys are distinct.
   */
  predicate Consistent(g: Grouping) {
    && (g.current == [] ==> g.entries == [])
    && (g.current != [] ==> IsHeaderLine(g.current))
    && (forall k :: k in Keys(g.entries) ==> IsHeaderLine(k))
    && DistinctKeys(g.entries)
  }

  /** One iteration keeps the loop consistent. */
  lemma StepConsistent(g: Grouping, raw: string)
    requires Consistent(g)
    ensures Consistent(Step(g, raw))
  {
    var line := Strip(raw);
    StripIdempotent(raw);
    if line != [] && IsHeader(line) && g.current != [] {
      PutDistinct(g.entries, g.current, JoinSpaces(g.body));
    }
  }

  /** The loop stays consistent over any lines. */
  lemma {:induction false} RunConsistent(lines: seq<string>)
    ensures Consistent(Run(lines))
  {
    if lines != [] {
      RunConsistent(lines[..|lines| - 1]);
      StepConsistent(Run(lines[..|lines| - 1]), lines[|lines| - 1]);
    }
  }

  /** Every key of the output is a stripped header line, and no key appears twice. */
  lemma OutputKeysAreHeaders(lines: seq<string>)
    ensures forall k :: k in Keys(Finish(Run(lines))) ==> IsHeaderLine(k)
    ensures DistinctKeys(Finish(Run(lines)))
  {
    var g := Run(lines);
    RunConsistent(lines);
    if g.current != [] && g.body != [] {
      PutDistinct(g.entries, g.current, JoinSpaces(g.body));
    }
  }

  /** The stripped non-blank lines of `lines`, in order. */
  function Contents(lines: seq<string>): seq<string> {
    if lines == [] then []
    else Contents(lines[..|lines| - 1]) + (if IsContent(lines[|lines| - 1]) then [Strip(lines[|lines| - 1])] else [])
  }

  /** Before the first header every non-blank line is kept as text, and nothing is stored. */
  lemma {:induction false} Preamble(lines: seq<string>)
    requires forall i :: 0 <= i < |lines| ==> !IsHeader(Strip(lines[i]))
    ensures Run(lines) == Grouping([], Contents(lines), [])
  {
    if lines != [] {
      var init := lines[..|lines| - 1];
      forall i | 0 <= i < |init| ensures !IsHeader(Strip(init[i])) {
        assert init[i] == lines[i];
      }
      Preamble(init);
    }
  }

  /**
   * The lines before the first header are not dropped: the first header starts
   * with them as its text, because the text is reset only when a previous header exists.
   */
  lemma FirstHeaderTakesPreamble(pre: seq<string>, h: string)
    requires forall i :: 0 <= i < |pre| ==> !IsHeader(Strip(pre[i]))
    requires IsHeader(Strip(h))
    ensures Run(pre + [h]) == Grouping(Strip(h), Contents(pre), [])
  {
    Preamble(pre);
    assert (pre + [h])[..|pre|] == pre;
  }

  /**
   * At a header the previous header is stored with its text joined by single
   * spaces, as "" when it has none, overwriting any earlier entry for it; the
   * new header starts with no text.
   */
  lemma HeaderStoresPrevious(lines: seq<string>, raw: string)
    requires Run(lines).current != [] && IsHeader(Strip(raw))
    ensures Get(Run(lines + [raw]).entries, Run(lines).current) == Some(JoinSpaces(Run(lines).body))
    ensures Run(lines).body == [] ==> Get(Run(lines + [raw]).entries, Run(lines).current) == Some([])
    ensures Run(lines + [raw]).current == Strip(raw) && Run(lines + [raw]).body == []
  {
    var g := Run(lines);
    assert (lines + [raw])[..|lines|] == lines;
    PutGet(g.entries, g.current, JoinSpaces(g.body), g.current);
  }

  /** At the end of the file the last header is stored with its text when it has some. */
  lemma LastHeaderStored(lines: seq<string>)
    requires Run(lines).current != [] && Run(lines).body != []
    ensures Get(Finish(Run(lines)), Run(lines).current) == Some(JoinSpaces(Run(lines).body))
  {
    var g := Run(lines);
    PutGet(g.entries, g.current, JoinSpaces(g.body), g.current);
  }

  /**
   * A new header on the last line, with no text after it, is lost from the
   * output, unless it is the first header and inherits the lines before it.
   */
  lemma LastHeaderWithoutText(lines: seq<string>, raw: string)
    requires IsHeader(Strip(raw))
    requires Run(lines).current != [] || Run(lines).body == []
    requires Strip(raw) != Run(lines).current && Strip(raw) !in Keys(Run(lines).entries)
    ensures Get(Finish(Run(lines + [raw])), Strip(raw)) == None
  {
    var g := Run(lines);
    var line := Strip(raw);
    assert line != [] by {
      assert !IsDigits(FirstTwo([]));
    }
    assert (lines + [raw])[..|lines|] == lines;
    var g' := Step(g, raw);
    assert Run(lines + [raw]) == g';
    assert g'.body == [];
    assert Get(g.entries, line) == None;
    if g.current != [] {
      PutGet(g.entries, g.current, JoinSpaces(g.body), line);
    }
  }
}
