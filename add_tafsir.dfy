/**
 * add_tafsir.py: pick the next surah number from the names already in the
 * tafsir folder, read a JSON document typed line by line until end of input,
 * and save it as `<n>.json` when it parses.
 */
module AddTafsir {
  import opened Wrappers
  import opened PyText

  /** `f.replace('.json', '')`: every occurrence is removed, not only the suffix. */
  function Stem(name: string): string {
    ReplaceAll(name, ".json", "")
  }

  /** The comprehension's filter: a ".json" name whose stem is all digits. */
  predicate Considered(name: string) {
    EndsWith(name, ".json") && IsDigits(Stem(name))
  }

  /** What one name contributes to the comprehension. */
  function StemEntry(name: string): (e: seq<nat>)
    ensures |e| <= 1
    ensures |e| == 1 <==> Considered(name)
  {
    if Considered(name) then [ParseDigits(Stem(name))] else []
  }

  /** `[int(f.replace('.json', '')) for f in listing if ...]` */
  function Stems(listing: seq<string>): (ns: seq<nat>)
    ensures |ns| <= |listing|
  {
    if listing == [] then [] else StemEntry(listing[0]) + Stems(listing[1..])
  }

  /** A number is among the stems exactly when some considered name has it. */
  lemma {:induction false} StemsMembership(listing: seq<string>, n: nat)
    ensures n in Stems(listing) <==> exists i :: 0 <= i < |listing| && Considered(listing[i]) && ParseDigits(Stem(listing[i])) == n
  {
    if listing != [] {
      StemsMembership(listing[1..], n);
      if exists i :: 0 <= i < |listing| && Considered(listing[i]) && ParseDigits(Stem(listing[i])) == n {
        var i :| 0 <= i < |listing| && Considered(listing[i]) && ParseDigits(Stem(listing[i])) == n;
        if i > 0 {
          assert listing[1..][i - 1] == listing[i];
        }
      }
      if exists i :: 0 <= i < |listing[1..]| && Considered(listing[1..][i]) && ParseDigits(Stem(listing[1..][i])) == n {
        var i :| 0 <= i < |listing[1..]| && Considered(listing[1..][i]) && ParseDigits(Stem(listing[1..][i])) == n;
        assert listing[i + 1] == listing[1..][i];
      }
    }
  }

  lemma {:induction false} StemsAppend(a: seq<string>, b: seq<string>)
    ensures Stems(a + b) == Stems(a) + Stems(b)
  {
    if a == [] {
      assert a + b == b;
    } else {
      assert (a + b)[0] == a[0] && (a + b)[1..] == a[1..] + b;
      StemsAppend(a[1..], b);
    }
  }

  /** `max(xs)` of a non-empty list. */
  function Max(xs: seq<nat>): (m: nat)
    requires xs != []
    ensures m in xs && forall i :: 0 <= i < |xs| ==> xs[i] <= m
  {
    if |xs| == 1 then xs[0]
    else
      var rest := Max(xs[1..]);
      assert forall i :: 1 <= i < |xs| ==> xs[i] == xs[1..][i - 1];
      if xs[0] >= rest then xs[0] else rest
  }

  /** `get_next_surah_number`: `max(stems, default=3) + 1`. */
  function NextSurahNumber(listing: seq<string>): (n: nat)
    ensures n > 0
  {
    var ns := Stems(listing);
    (if ns == [] then 3 else Max(ns)) + 1
  }

  /** The number is above the stem of every considered name. */
  lemma NextAboveEveryStem(listing: seq<string>, i: int)
    requires 0 <= i < |listing| && Considered(listing[i])
    ensures NextSurahNumber(listing) > ParseDigits(Stem(listing[i]))
  {
    var ns := Stems(listing);
    StemsMembership(listing, ParseDigits(Stem(listing[i])));
    var k :| 0 <= k < |ns| && ns[k] == ParseDigits(Stem(listing[i]));
  }

  /** The comprehension is empty exactly when no name is considered. */
  lemma {:induction false} StemsEmptyIff(listing: seq<string>)
    ensures Stems(listing) == [] <==> forall i :: 0 <= i < |listing| ==> !Considered(listing[i])
  {
    if listing != [] {
      StemsEmptyIff(listing[1..]);
      assert forall i :: 1 <= i < |listing| ==> listing[i] == listing[1..][i - 1];
    }
  }

  /** With no considered name the number is 4; otherwise it is one more than a stem in use. */
  lemma NextDefaultOrAttained(listing: seq<string>)
    ensures (forall i :: 0 <= i < |listing| ==> !Considered(listing[i])) ==> NextSurahNumber(listing) == 4
    ensures (exists i :: 0 <= i < |listing| && Considered(listing[i])) ==>
              exists i :: 0 <= i < |listing| && Considered(listing[i]) && NextSurahNumber(listing) == ParseDigits(Stem(listing[i])) + 1
  {
    StemsEmptyIff(listing);
    var ns := Stems(listing);
    if ns != [] {
      StemsMembership(listing, Max(ns));
    }
  }

  /** The name the script writes for number `n`. */
  function FileName(n: nat): string {
    NatToString(n) + ".json"
  }

  /** A written name is considered again, with its own number as stem. */
  lemma FileNameStem(n: nat)
    ensures Stem(FileName(n)) == NatToString(n)
    ensures Considered(FileName(n)) && ParseDigits(Stem(FileName(n))) == n
  {
    ReplaceAllSuffix(NatToString(n), ".json");
    ParseNatToString(n);
  }

  /** A folder holding only `<k>.json` gives k + 1, so "1.json" alone gives 2, not 4. */
  lemma SingleFile(k: nat)
    ensures NextSurahNumber([FileName(k)]) == k + 1
  {
    FileNameStem(k);
    assert [FileName(k)][1..] == [];
  }

  /** After saving `<n>.json` the next run picks n + 1. */
  lemma NextAfterSave(listing: seq<string>)
    ensures NextSurahNumber(listing + [FileName(NextSurahNumber(listing))]) == NextSurahNumber(listing) + 1
  {
    var n := NextSurahNumber(listing);
    FileNameStem(n);
    StemsAppend(listing, [FileName(n)]);
    assert Stems([FileName(n)]) == [n] by {
      assert [FileName(n)][1..] == [];
    }
    var ns := Stems(listing);
    var ms := ns + [n];
    assert Max(ms) == n by {
      assert n in ms;
      forall i | 0 <= i < |ms| ensures ms[i] <= n {
        if i < |ns| {
          assert ms[i] == ns[i];
        }
      }
      var m := Max(ms);
      assert m in ms;
    }
  }

  /** The reading loop of `main`: `tafsir_raw += input()` until end of input. */
  method AccumulateInput(lines: seq<string>) returns (raw: string)
    ensures raw == Concat(lines)
  {
    raw := "";
    var i := 0;
    while i < |lines|
      invariant 0 <= i <= |lines|
      invariant raw == Concat(lines[..i])
    {
      ConcatAppend(lines[..i], [lines[i]]);
      assert lines[..i + 1] == lines[..i] + [lines[i]];
      assert Concat([lines[i]]) == lines[i] by {
        assert [lines[i]][1..] == [];
      }
      raw := raw + lines[i];
      i := i + 1;
    }
    assert lines[..|lines|] == lines;
  }

  /** The lines typed carry no separator between them once accumulated. */
  lemma AccumulateTwo(a: string, b: string)
    ensures Concat([a, b]) == a + b
  {
    assert [a, b][1..] == [b];
    assert Concat([b]) == b by { assert [b][1..] == []; }
  }

  /**
   * `main`, with `parses` standing for `json.loads` succeeding: the name of the
   * file written, or None when the text does not parse and nothing is written.
   */
  method AddTafsirSession(listing: seq<string>, lines: seq<string>, parses: string -> bool) returns (saved: Option<string>)
    ensures saved.Some? <==> parses(Concat(lines))
    ensures saved.Some? ==> saved.value == FileName(NextSurahNumber(listing))
  {
    var surahNumber := NextSurahNumber(listing);
    var tafsirRaw := AccumulateInput(lines);
    if parses(tafsirRaw) {
      saved := Some(FileName(surahNumber));
    } else {
      saved := None;
    }
  }
}
