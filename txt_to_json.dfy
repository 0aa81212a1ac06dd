/**
 * txt_to_json.py: turn a text file of `verse: tafsir` lines into the JSON
 * object `{"البقرة": {verse: tafsir, ...}}`.
 */
module TxtToJson {
  import opened Wrappers
  import opened PyText
  import opened PyDict

  /** The single top-level key of the output. */
  const SurahName: string := "البقرة"

  /** `s.split(c, 1)` on a string that holds `c`: the text before the first `c` and the text after it. */
  function SplitOnce(s: string, c: char): (r: (string, string))
    requires c in s
    ensures s == r.0 + [c] + r.1 && c !in r.0
  {
    var i := IndexOfChar(s, c);
    assert i < |s|;
    assert s == s[..i] + [s[i]] + s[i + 1..];
    (s[..i], s[i + 1..])
  }

  /**
   * Lines 13-18 for one line: the stripped halves around the first colon,
   * when the line holds a colon and neither half is empty.
   */
  function ParseLine(line: string): Option<(string, string)> {
    if ':' !in line then None
    else
      NonSpaceSurvivesStrip(line, ':');
      var halves := SplitOnce(Strip(line), ':');
      var verse := Strip(halves.0);
      var tafsir := Strip(halves.1);
      if verse != [] && tafsir != [] then Some((verse, tafsir)) else None
  }

  /** The dictionary after the loop has seen `lines`: each parsed line assigns `tafsir_data[verse]`. */
  function Entries(lines: seq<string>): Dict<string> {
    if lines == [] then []
    else
      var before := Entries(lines[..|lines| - 1]);
      match ParseLine(lines[|lines| - 1])
      case None => before
      case Some(entry) => Put(before, entry.0, entry.1)
  }

  /** The script over the lines `readlines()` gives: the object it dumps. */
  method Convert(lines: seq<string>) returns (output: Dict<Dict<string>>)
    ensures output == [(SurahName, Entries(lines))]
  {
    var tafsirData: Dict<string> := [];
    var k := 0;
    while k < |lines|
      invariant 0 <= k <= |lines|
      invariant tafsirData == Entries(lines[..k])
    {
      var line := lines[k];
      assert lines[..k + 1][..k] == lines[..k];
      if ':' in line {
        NonSpaceSurvivesStrip(line, ':');
        var parts := SplitOnce(Strip(line), ':');
        var verse := Strip(parts.0);
        var tafsir := Strip(parts.1);
        if verse != [] && tafsir != [] {
          tafsirData := Put(tafsirData, verse, tafsir);
        }
      }
      k := k + 1;
    }
    assert lines[..|lines|] == lines;
    output := [(SurahName, tafsirData)];
  }

  /**
   * A line written as `verse: tafsir` reads back as that pair: the split is at
   * the first colon, so the tafsir may itself hold colons while the verse may not.
   */
  lemma ParseLineRoundTrip(verse: string, tafsir: string)
    requires verse != [] && !IsSpace(verse[0]) && !IsSpace(verse[|verse| - 1]) && ':' !in verse
    requires tafsir != [] && !IsSpace(tafsir[0]) && !IsSpace(tafsir[|tafsir| - 1])
    ensures ParseLine(verse + ": " + tafsir) == Some((verse, tafsir))
  {
    var line := verse + ": " + tafsir;
    assert line[|verse|] == ':';
    assert line[0] == verse[0] && line[|line| - 1] == tafsir[|tafsir| - 1];
    StripIdentity(line);
    var halves := SplitOnce(line, ':');
    assert halves.0 == verse && halves.1 == " " + tafsir by {
      assert line == verse + [':'] + (" " + tafsir);
      SplitAtFirst(verse, ':', " " + tafsir, halves.0, halves.1);
    }
    StripIdentity(verse);
    assert LStrip(" " + tafsir) == LStrip(tafsir) by {
      assert (" " + tafsir)[1..] == tafsir;
    }
    StripIdentity(tafsir);
  }

  /**
   * What a parsed line gives: a non-empty verse without a colon and a
   * non-empty tafsir, both already stripped; a line without a colon gives nothing.
   */
  lemma ParseLineSound(line: string)
    ensures ':' !in line ==> ParseLine(line).None?
    ensures ParseLine(line).Some? ==>
              var (verse, tafsir) := ParseLine(line).value;
              && verse != [] && tafsir != [] && ':' !in verse
              && Strip(verse) == verse && Strip(tafsir) == tafsir
  {
    if ':' in line {
      NonSpaceSurvivesStrip(line, ':');
      var halves := SplitOnce(Strip(line), ':');
      StripKeepsOut(halves.0, ':');
      StripIdempotent(halves.0);
      StripIdempotent(halves.1);
    }
  }

  /** `line` assigns a tafsir to `verse`. */
  predicate Assigns(line: string, verse: string) {
    ParseLine(line).Some? && ParseLine(line).value.0 == verse
  }

  /** A line without a colon leaves the dictionary as it was. */
  lemma NoColonIgnored(lines: seq<string>, line: string)
    requires ':' !in line
    ensures Entries(lines + [line]) == Entries(lines)
  {
    assert (lines + [line])[..|lines|] == lines;
  }

  /** The verse keys stay distinct, as in a Python dict. */
  lemma {:induction false} EntriesDistinct(lines: seq<string>)
    ensures DistinctKeys(Entries(lines))
  {
    if lines != [] {
      var init := lines[..|lines| - 1];
      EntriesDistinct(init);
      match ParseLine(lines[|lines| - 1])
      case None =>
      case Some(entry) => PutDistinct(Entries(init), entry.0, entry.1);
    }
  }

  /** The value stored for a verse is the tafsir of the last line that assigns it: later lines overwrite. */
  lemma {:induction false} LastAssignmentWins(lines: seq<string>, verse: string, i: nat)
    requires i < |lines| && Assigns(lines[i], verse)
    requires forall j :: i < j < |lines| ==> !Assigns(lines[j], verse)
    ensures Get(Entries(lines), verse) == Some(ParseLine(lines[i]).value.1)
  {
    var n := |lines|;
    var init := lines[..n - 1];
    var last := lines[n - 1];
    if i == n - 1 {
      var entry := ParseLine(last).value;
      PutGet(Entries(init), entry.0, entry.1, verse);
    } else {
      assert init[i] == lines[i];
      forall j | i < j < |init| ensures !Assigns(init[j], verse) {
        assert init[j] == lines[j];
      }
      LastAssignmentWins(init, verse, i);
      OtherVerseKept(lines, verse);
    }
  }

  /** A line that does not assign `verse` leaves its value as it was. */
  lemma OtherVerseKept(lines: seq<string>, verse: string)
    requires lines != [] && !Assigns(lines[|lines| - 1], verse)
    ensures Get(Entries(lines), verse) == Get(Entries(lines[..|lines| - 1]), verse)
  {
    match ParseLine(lines[|lines| - 1])
    case None =>
    case Some(entry) => PutGet(Entries(lines[..|lines| - 1]), entry.0, entry.1, verse);
  }

  /** A verse that no line assigns is not a key of the dictionary. */
  lemma {:induction false} UnassignedAbsent(lines: seq<string>, verse: string)
    requires forall j :: 0 <= j < |lines| ==> !Assigns(lines[j], verse)
    ensures Get(Entries(lines), verse) == None
  {
    if lines != [] {
      var n := |lines|;
      var init := lines[..n - 1];
      forall j | 0 <= j < |init| ensures !Assigns(init[j], verse) {
        assert init[j] == lines[j];
      }
      UnassignedAbsent(init, verse);
      OtherVerseKept(lines, verse);
    }
  }
}
