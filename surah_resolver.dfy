/**
 * Surah resolution in the Flask app: the surah-name table and its fallback,
 * Arabic name normalisation, and mapping a user token (a number, an Arabic
 * name or an English name) to the surah key.
 */
module SurahResolver {
  import opened Wrappers
  import opened PyText
  import opened PyDict

  /** One entry of surahs.json; either name field may be absent. */
  datatype SurahNames = SurahNames(arabic: Option<string>, english: Option<string>)

  /** surahs.json: surah key ("1".."114") to names, in file order. */
  type SurahTable = Dict<SurahNames>

  // ---------------------------------------------------------------------------
  // normalize_arabic
  // ---------------------------------------------------------------------------

  const Alef: char := '\U{627}'
  const TaaMarbuta: char := '\U{629}'
  const Haa: char := '\U{647}'

  /** The diacritic class removed by normalize_arabic: fathatan through sukun, U+064B..U+0652. */
  predicate IsTashkeel(c: char) {
    '\U{64B}' <= c <= '\U{652}'
  }

  /** Alef with hamza above, alef with hamza below, alef with madda. */
  predicate IsHamzaAlef(c: char) {
    c == '\U{623}' || c == '\U{625}' || c == '\U{622}'
  }

  /** First substitution: every diacritic is deleted. */
  function StripTashkeel(s: string): (r: string)
    ensures forall i :: 0 <= i < |r| ==> !IsTashkeel(r[i])
  {
    Filter(c => !IsTashkeel(c), s)
  }

  /** Second substitution: the three hamza-bearing alefs become bare alef. */
  function UnifyAlef(s: string): (r: string)
    ensures |r| == |s|
    ensures forall i :: 0 <= i < |s| ==> !IsHamzaAlef(r[i]) && (r[i] != s[i] ==> IsHamzaAlef(s[i]) && r[i] == Alef)
  {
    if s == [] then [] else [if IsHamzaAlef(s[0]) then Alef else s[0]] + UnifyAlef(s[1..])
  }

  /** Third substitution: taa marbuta becomes haa. */
  function UnifyTaaMarbuta(s: string): (r: string)
    ensures |r| == |s|
    ensures forall i :: 0 <= i < |s| ==> r[i] != TaaMarbuta && (r[i] != s[i] ==> s[i] == TaaMarbuta && r[i] == Haa)
  {
    if s == [] then [] else [if s[0] == TaaMarbuta then Haa else s[0]] + UnifyTaaMarbuta(s[1..])
  }

  /** `normalize_arabic`: the three substitutions in the order the source applies them. */
  function NormalizeArabic(s: string): (r: string)
    ensures |r| <= |s|
    ensures forall i :: 0 <= i < |r| ==> !IsTashkeel(r[i]) && !IsHamzaAlef(r[i]) && r[i] != TaaMarbuta
  {
    UnifyTaaMarbuta(UnifyAlef(StripTashkeel(s)))
  }

  /** What one character becomes, when it survives. */
  function FoldChar(c: char): char {
    if IsHamzaAlef(c) then Alef else if c == TaaMarbuta then Haa else c
  }

  /** Reference definition: one left-to-right pass that drops diacritics and folds letters. */
  function NormalizeOnePass(s: string): string {
    if s == [] then [] else (if IsTashkeel(s[0]) then [] else [FoldChar(s[0])]) + NormalizeOnePass(s[1..])
  }

  /** The three regex passes of the source equal a single character-by-character pass. */
  lemma {:induction false} NormalizeIsOnePass(s: string)
    ensures NormalizeArabic(s) == NormalizeOnePass(s)
  {
    if s != [] {
      NormalizeIsOnePass(s[1..]);
      var head := if IsTashkeel(s[0]) then [] else [s[0]];
      assert StripTashkeel(s) == head + StripTashkeel(s[1..]);
      UnifyAppend(head, StripTashkeel(s[1..]));
    }
  }

  lemma UnifyAppend(a: string, b: string)
    ensures UnifyTaaMarbuta(UnifyAlef(a + b)) == UnifyTaaMarbuta(UnifyAlef(a)) + UnifyTaaMarbuta(UnifyAlef(b))
  {
    UnifyAlefAppend(a, b);
    UnifyTaaMarbutaAppend(UnifyAlef(a), UnifyAlef(b));
  }

  lemma {:induction false} UnifyAlefAppend(a: string, b: string)
    ensures UnifyAlef(a + b) == UnifyAlef(a) + UnifyAlef(b)
  {
    if a == [] {
      assert a + b == b;
    } else {
      assert (a + b)[0] == a[0] && (a + b)[1..] == a[1..] + b;
      UnifyAlefAppend(a[1..], b);
    }
  }

  lemma {:induction false} UnifyTaaMarbutaAppend(a: string, b: string)
    ensures UnifyTaaMarbuta(a + b) == UnifyTaaMarbuta(a) + UnifyTaaMarbuta(b)
  {
    if a == [] {
      assert a + b == b;
    } else {
      assert (a + b)[0] == a[0] && (a + b)[1..] == a[1..] + b;
      UnifyTaaMarbutaAppend(a[1..], b);
    }
  }

  /** Normalisation distributes over concatenation. */
  lemma {:induction false} NormalizeAppend(a: string, b: string)
    ensures NormalizeArabic(a + b) == NormalizeArabic(a) + NormalizeArabic(b)
  {
    FilterAppend(c => !IsTashkeel(c), a, b);
    UnifyAppend(StripTashkeel(a), StripTashkeel(b));
  }

  /** A string free of diacritics, hamza alefs and taa marbuta is already normal. */
  lemma NormalizeIdentity(s: string)
    requires forall i :: 0 <= i < |s| ==> !IsTashkeel(s[i]) && !IsHamzaAlef(s[i]) && s[i] != TaaMarbuta
    ensures NormalizeArabic(s) == s
  {
    FilterIdentity(c => !IsTashkeel(c), s);
  }

  /** normalize_arabic is idempotent. */
  lemma NormalizeIdempotent(s: string)
    ensures NormalizeArabic(NormalizeArabic(s)) == NormalizeArabic(s)
  {
    NormalizeIdentity(NormalizeArabic(s));
  }

  // ---------------------------------------------------------------------------
  // load_surah_names_data
  // ---------------------------------------------------------------------------

  /** The placeholder names for surah `n`: "السورة n" and "Surah n". */
  function FallbackNames(n: nat): SurahNames {
    SurahNames(Some("السورة " + NatToString(n)), Some("Surah " + NatToString(n)))
  }

  /** The table used when surahs.json is missing or unreadable: keys "1".."114" in order. */
  function FallbackTable(): (t: SurahTable)
    ensures |t| == 114
  {
    seq(114, i requires 0 <= i < 114 => (NatToString(i + 1), FallbackNames(i + 1)))
  }

  /** The fallback table is a well-formed dict whose i-th key is str(i + 1). */
  lemma FallbackTableShape()
    ensures DistinctKeys(FallbackTable())
    ensures forall i :: 0 <= i < 114 ==> FallbackTable()[i].0 == NatToString(i + 1)
  {
    var t := FallbackTable();
    forall i, j | 0 <= i < j < 114 ensures t[i].0 != t[j].0 {
      if t[i].0 == t[j].0 {
        NatToStringInjective(i + 1, j + 1);
      }
    }
  }

  /** `load_surah_names_data`: the file's table, or the fallback when the file is missing or does not decode. */
  function LoadSurahNames(file: FileState<SurahTable>): (t: SurahTable)
    ensures file.Loaded? ==> t == file.content
    ensures !file.Loaded? ==> t == FallbackTable()
  {
    match file
    case Loaded(d) => d
    case _ => FallbackTable()
  }

  // ---------------------------------------------------------------------------
  // get_surah_number
  // ---------------------------------------------------------------------------

  /** `names.get(field, "")` */
  function FieldOrEmpty(field: Option<string>): string {
    match field
    case Some(s) => s
    case None => ""
  }

  /** Does the (trimmed, lower-cased) token name this entry? */
  predicate NameMatches(token: string, names: SurahNames) {
    var arabic := Lower(Strip(FieldOrEmpty(names.arabic)));
    var english := Lower(Strip(FieldOrEmpty(names.english)));
    token == arabic || token == english || NormalizeArabic(token) == NormalizeArabic(arabic)
  }

  /** The name loop of get_surah_number: the key of the first entry, in table order, the token names. */
  function FindByName(token: string, table: SurahTable): Option<string> {
    if table == [] then None
    else if NameMatches(token, table[0].1) then Some(table[0].0)
    else FindByName(token, table[1..])
  }

  /** The index of the first entry the token names, if any. */
  predicate IsFirstMatch(token: string, table: SurahTable, i: int) {
    0 <= i < |table| && NameMatches(token, table[i].1)
    && forall j :: 0 <= j < i ==> !NameMatches(token, table[j].1)
  }

  /** The name loop returns the key of the first matching entry, and None exactly when no entry matches. */
  lemma {:induction false} FindByNameFirst(token: string, table: SurahTable)
    ensures FindByName(token, table).None? <==> forall j :: 0 <= j < |table| ==> !NameMatches(token, table[j].1)
    ensures forall i :: IsFirstMatch(token, table, i) ==> FindByName(token, table) == Some(table[i].0)
  {
    if table != [] {
      FindByNameFirst(token, table[1..]);
      if !NameMatches(token, table[0].1) {
        forall i | IsFirstMatch(token, table, i) ensures FindByName(token, table) == Some(table[i].0) {
          assert IsFirstMatch(token, table[1..], i - 1);
        }
        assert (forall j :: 0 <= j < |table| ==> !NameMatches(token, table[j].1))
          <==> (forall j :: 0 <= j < |table[1..]| ==> !NameMatches(token, table[1..][j].1));
      }
    }
  }

  /** The trimmed, lower-cased form the source compares. */
  function Token(input: string): string {
    Lower(Strip(input))
  }

  /** `get_surah_number` in app.py. */
  function ResolveSurah(input: Option<string>, table: SurahTable): (r: Option<string>)
    ensures input.None? || input == Some([]) ==> r.None?
    ensures r.Some? && input.Some? && IsDigits(Token(input.value)) ==> 1 <= ParseDigits(Token(input.value)) <= 114
  {
    if input.None? || input.value == [] then None
    else
      var token := Token(input.value);
      if IsDigits(token) then
        var num := ParseDigits(token);
        if 1 <= num <= 114 then Some(NatToString(num)) else None
      else FindByName(token, table)
  }

  /** `int()` ignores leading zeros. */
  lemma {:induction false} ParseLeadingZero(s: string)
    requires AllDigits(s)
    ensures AllDigits("0" + s) && ParseDigits("0" + s) == ParseDigits(s)
    decreases |s|
  {
    if s != [] {
      assert ("0" + s)[..|"0" + s| - 1] == "0" + s[..|s| - 1];
      ParseLeadingZero(s[..|s| - 1]);
    }
  }

  lemma NatToStringToken(n: nat)
    ensures Token(NatToString(n)) == NatToString(n)
  {
    StripIdentity(NatToString(n));
    LowerIdentity(NatToString(n));
  }

  /** Every number 1..114 resolves to itself, whatever the table holds; 0 and numbers above 114 resolve to None. */
  lemma ResolveNumber(n: nat, table: SurahTable)
    ensures ResolveSurah(Some(NatToString(n)), table) == if 1 <= n <= 114 then Some(NatToString(n)) else None
  {
    NatToStringToken(n);
    ParseNatToString(n);
  }

  /** Leading zeros are accepted and dropped: "007" resolves to "7". */
  lemma ResolvePaddedNumber(n: nat, table: SurahTable)
    requires 1 <= n <= 114
    ensures ResolveSurah(Some("00" + NatToString(n)), table) == Some(NatToString(n))
  {
    PaddedToken(n);
    ResolveDigits("00" + NatToString(n), table);
  }

  /** "00" followed by a number is its own token, all digits, and reads back as the number. */
  lemma PaddedToken(n: nat)
    ensures var padded := "00" + NatToString(n);
      Token(padded) == padded && IsDigits(padded) && ParseDigits(padded) == n
  {
    var s := NatToString(n);
    var padded := "00" + s;
    StripIdentity(padded);
    LowerIdentity(padded);
    assert padded == "0" + ("0" + s);
    ParseLeadingZero(s);
    ParseLeadingZero("0" + s);
    ParseNatToString(n);
  }

  /** A token of digits whose value is 1..114 resolves to that number written without leading zeros. */
  lemma ResolveDigits(input: string, table: SurahTable)
    requires IsDigits(Token(input)) && 1 <= ParseDigits(Token(input)) <= 114
    ensures ResolveSurah(Some(input), table) == Some(NatToString(ParseDigits(Token(input))))
  {
  }

  /** A non-numeric token resolves to the first entry it names, by either name or by normalised Arabic name. */
  lemma ResolveByName(input: string, table: SurahTable, i: int)
    requires input != [] && !IsDigits(Token(input))
    requires IsFirstMatch(Token(input), table, i)
    ensures ResolveSurah(Some(input), table) == Some(table[i].0)
  {
    FindByNameFirst(Token(input), table);
  }

  /** A non-numeric token that names no entry resolves to None. */
  lemma ResolveUnknownName(input: string, table: SurahTable)
    requires !IsDigits(Token(input))
    requires forall j :: 0 <= j < |table| ==> !NameMatches(Token(input), table[j].1)
    ensures ResolveSurah(Some(input), table) == None
  {
    FindByNameFirst(Token(input), table);
  }

  /** The English placeholder token holds no letter the Arabic normalisation changes. */
  lemma EnglishPlaceholderPlain(n: nat)
    ensures NormalizeArabic("surah " + NatToString(n)) == "surah " + NatToString(n)
  {
    NormalizeIdentity("surah " + NatToString(n));
  }

  lemma EnglishPlaceholderToken(m: nat)
    ensures Token("Surah " + NatToString(m)) == "surah " + NatToString(m)
  {
    var english := "Surah " + NatToString(m);
    StripIdentity(english);
    LowerAppend("Surah ", NatToString(m));
    LowerIdentity(NatToString(m));
    assert Lower("Surah ") == "surah " by {
      LowerAppend("S", "urah ");
      LowerIdentity("urah ");
    }
  }

  lemma ArabicToken(prefix: string, m: nat)
    requires prefix == "السورة " || prefix == "السوره "
    ensures Token(prefix + NatToString(m)) == prefix + NatToString(m)
  {
    var s := prefix + NatToString(m);
    StripIdentity(s);
    LowerIdentity(s);
  }

  lemma NormalizeStem()
    ensures NormalizeArabic("السور") == "السور"
  {
    NormalizeIdentity("السور");
  }

  lemma NormalizePlaceholderPrefix(prefix: string)
    requires prefix == "السورة " || prefix == "السوره "
    ensures NormalizeArabic(prefix) == "السوره "
  {
    var stem := "السور";
    var c := if prefix == "السورة " then TaaMarbuta else Haa;
    assert prefix == stem + ([c] + " ");
    NormalizeThree(stem, [c], " ");
    NormalizeStem();
    NormalizeSpace();
    NormalizeFinalLetter(c);
  }

  lemma NormalizeThree(a: string, b: string, c: string)
    ensures NormalizeArabic(a + (b + c)) == NormalizeArabic(a) + (NormalizeArabic(b) + NormalizeArabic(c))
  {
    NormalizeAppend(a, b + c);
    NormalizeAppend(b, c);
  }

  lemma NormalizeSpace()
    ensures NormalizeArabic(" ") == " "
  {
    NormalizeIdentity(" ");
  }

  /** Both spellings of the final letter normalise to haa. */
  lemma NormalizeFinalLetter(c: char)
    requires c == TaaMarbuta || c == Haa
    ensures NormalizeArabic([c]) == [Haa]
  {
    NormalizeIsOnePass([c]);
  }

  /** Both spellings of the placeholder normalise to the haa spelling. */
  lemma NormalizePlaceholder(prefix: string, m: nat)
    requires prefix == "السورة " || prefix == "السوره "
    ensures NormalizeArabic(prefix + NatToString(m)) == "السوره " + NatToString(m)
  {
    NormalizePlaceholderPrefix(prefix);
    NormalizeAppend(prefix, NatToString(m));
    NormalizeIdentity(NatToString(m));
  }

  lemma FallbackEntry(j: int)
    requires 0 <= j < 114
    ensures FallbackTable()[j] == (NatToString(j + 1), FallbackNames(j + 1))
  {
  }

  lemma EnglishNamesOnlyItsSurah(n: nat, m: nat)
    ensures NameMatches("surah " + NatToString(n), FallbackNames(m)) <==> m == n
  {
    var token := "surah " + NatToString(n);
    var names := FallbackNames(m);
    var arabic := "السورة " + NatToString(m);
    var english := "Surah " + NatToString(m);
    assert FieldOrEmpty(names.arabic) == arabic && FieldOrEmpty(names.english) == english;
    EnglishPlaceholderToken(m);
    ArabicToken("السورة ", m);
    EnglishPlaceholderPlain(n);
    NormalizePlaceholder("السورة ", m);
    assert token != arabic by { assert token[0] != arabic[0]; }
    assert NormalizeArabic(token) != NormalizeArabic(arabic) by {
      assert NormalizeArabic(token)[0] != NormalizeArabic(arabic)[0];
    }
    if token == "surah " + NatToString(m) {
      assert NatToString(m) == token[6..];
      NatToStringInjective(m, n);
    }
  }

  lemma ArabicVariantNamesOnlyItsSurah(n: nat, m: nat)
    ensures NameMatches("السوره " + NatToString(n), FallbackNames(m)) <==> m == n
  {
    var token := "السوره " + NatToString(n);
    var names := FallbackNames(m);
    assert FieldOrEmpty(names.arabic) == "السورة " + NatToString(m);
    assert FieldOrEmpty(names.english) == "Surah " + NatToString(m);
    EnglishPlaceholderToken(m);
    ArabicToken("السورة ", m);
    NormalizePlaceholder("السورة ", m);
    NormalizePlaceholder("السوره ", n);
    var arabic := "السورة " + NatToString(m);
    assert token != arabic by { assert token[5] != arabic[5]; }
    assert token[0] != ("surah " + NatToString(m))[0];
    if NormalizeArabic(token) == NormalizeArabic(arabic) {
      assert NatToString(n) == ("السوره " + NatToString(n))[7..];
      assert NatToString(m) == ("السوره " + NatToString(m))[7..];
      NatToStringInjective(m, n);
    }
  }

  /** With the fallback table, "Surah n" resolves to "n" for every n in 1..114. */
  lemma FallbackResolvesEnglish(n: nat)
    requires 1 <= n <= 114
    ensures ResolveSurah(Some("Surah " + NatToString(n)), FallbackTable()) == Some(NatToString(n))
  {
    var t := FallbackTable();
    var token := "surah " + NatToString(n);
    EnglishPlaceholderToken(n);
    assert !IsDigits(token) by { assert token[0] == 's'; }
    forall j | 0 <= j <= n - 1 ensures NameMatches(token, t[j].1) <==> j == n - 1 {
      FallbackEntry(j);
      EnglishNamesOnlyItsSurah(n, j + 1);
    }
    assert IsFirstMatch(token, t, n - 1);
    ResolveByName("Surah " + NatToString(n), t, n - 1);
  }

  /** With the fallback table, the placeholder spelt with haa for taa marbuta ("السوره n") still resolves to "n". */
  lemma FallbackResolvesArabicVariant(n: nat)
    requires 1 <= n <= 114
    ensures ResolveSurah(Some("السوره " + NatToString(n)), FallbackTable()) == Some(NatToString(n))
  {
    var t := FallbackTable();
    var token := "السوره " + NatToString(n);
    ArabicToken("السوره ", n);
    assert !IsDigits(token) by { assert token[0] == Alef; }
    forall j | 0 <= j <= n - 1 ensures NameMatches(token, t[j].1) <==> j == n - 1 {
      FallbackEntry(j);
      ArabicVariantNamesOnlyItsSurah(n, j + 1);
    }
    assert IsFirstMatch(token, t, n - 1);
    ResolveByName(token, t, n - 1);
  }
}
