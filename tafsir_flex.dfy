/**
 * tafsir_flex.py: a command-line lookup with its own, simpler surah resolver
 * (exact comparison only, no Arabic normalisation, no range check) and a
 * tafsir lookup that turns read failures into a message string.
 */
module TafsirFlex {
  import opened Wrappers
  import opened PyText
  import opened PyDict
  import opened SurahResolver

  /** The entry has both name fields, so indexing them cannot raise. */
  predicate Complete(names: SurahNames) {
    names.arabic.Some? && names.english.Some?
  }

  /** The token names the entry: its key, or its trimmed, lower-cased Arabic or English name, compared exactly. */
  predicate Names(token: string, key: string, names: SurahNames) {
    || token == key
    || (names.arabic.Some? && token == Token(names.arabic.value))
    || (names.english.Some? && token == Token(names.english.value))
  }

  /**
   * The condition of one loop turn, evaluated left to right: `names["arabic"]`
   * is read only when the key differs and `names["english"]` only when the
   * Arabic name differs too; reading an absent one raises KeyError.
   */
  function EntryMatches(token: string, key: string, names: SurahNames): (r: Result<bool>)
    ensures r.Ok? ==> r.value == Names(token, key, names)
    ensures Complete(names) ==> r.Ok?
    ensures r.Raised? ==> r.kind == "KeyError"
  {
    if token == key then Ok(true)
    else if names.arabic.None? then Raised("KeyError")
    else if token == Token(names.arabic.value) then Ok(true)
    else if names.english.None? then Raised("KeyError")
    else Ok(token == Token(names.english.value))
  }

  /** Entry `i` is the first the token names. */
  predicate IsFirstFlexMatch(token: string, table: SurahTable, i: int) {
    0 <= i < |table| && Names(token, table[i].0, table[i].1)
    && forall j :: 0 <= j < i ==> !Names(token, table[j].0, table[j].1)
  }

  /** The loop of `get_surah_number`: `int(key)` of the first entry the token names, None when none does. */
  function FlexScan(token: string, table: SurahTable): (r: Result<Option<nat>>)
    ensures r == Ok(None) ==> forall j :: 0 <= j < |table| ==> !Names(token, table[j].0, table[j].1)
    ensures (forall j :: 0 <= j < |table| ==> Complete(table[j].1) && !Names(token, table[j].0, table[j].1))
            ==> r == Ok(None)
    ensures r.Ok? && r.value.Some? ==>
              exists i :: IsFirstFlexMatch(token, table, i) && IsDigits(table[i].0) && r.value.value == ParseDigits(table[i].0)
  {
    if table == [] then Ok(None)
    else
      match EntryMatches(token, table[0].0, table[0].1)
      case Raised(kind) => Raised(kind)
      case Ok(hit) =>
        if hit then
          if IsDigits(table[0].0) then
            assert IsFirstFlexMatch(token, table, 0);
            Ok(Some(ParseDigits(table[0].0)))
          else Raised("ValueError")
        else
          var rest := FlexScan(token, table[1..]);
          assert forall j :: 1 <= j < |table| ==> table[j] == table[1..][j - 1];
          if rest.Ok? && rest.value.Some? then
            var i :| IsFirstFlexMatch(token, table[1..], i) && IsDigits(table[1..][i].0)
                     && rest.value.value == ParseDigits(table[1..][i].0);
            assert IsFirstFlexMatch(token, table, i + 1);
            rest
          else rest
  }

  /** `get_surah_number` in tafsir_flex.py. */
  function FlexResolve(input: string, table: SurahTable): Result<Option<nat>> {
    FlexScan(Token(input), table)
  }

  /** Over a table whose entries all have both names, the first entry named wins and its key is converted. */
  lemma {:induction false} FlexFirstWins(token: string, table: SurahTable, i: int)
    requires forall j :: 0 <= j < |table| ==> Complete(table[j].1)
    requires IsFirstFlexMatch(token, table, i) && IsDigits(table[i].0)
    ensures FlexScan(token, table) == Ok(Some(ParseDigits(table[i].0)))
  {
    if i > 0 {
      assert !Names(token, table[0].0, table[0].1);
      assert IsFirstFlexMatch(token, table[1..], i - 1);
      FlexFirstWins(token, table[1..], i - 1);
    }
  }

  /** An entry without an Arabic name, reached before any match, makes the lookup raise KeyError. */
  lemma FlexMissingArabicName(token: string, table: SurahTable)
    requires table != [] && table[0].1.arabic.None? && token != table[0].0
    ensures FlexScan(token, table) == Raised("KeyError")
  {
  }

  /** The two names of fallback entry `m`, as the resolver compares them. */
  lemma FallbackTokens(m: nat)
    ensures FallbackNames(m).arabic.Some? && Token(FallbackNames(m).arabic.value) == "السورة " + NatToString(m)
    ensures FallbackNames(m).english.Some? && Token(FallbackNames(m).english.value) == "surah " + NatToString(m)
  {
    EnglishPlaceholderToken(m);
    ArabicToken("السورة ", m);
  }

  lemma PaddedMissesEntry(token: string, m: nat)
    requires |token| >= 2 && token[0] == '0' && 1 <= m
    ensures !Names(token, NatToString(m), FallbackNames(m))
  {
    var key := NatToString(m);
    FallbackTokens(m);
    var ar := "السورة " + key;
    var en := "surah " + key;
    assert key[0] != '0';
    assert token != key by { assert token[0] != key[0]; }
    assert token != en by { assert token[0] != en[0]; }
    assert token != ar by { assert token[0] != ar[0]; }
  }

  lemma TaaVariantMissesEntry(n: nat, m: nat)
    ensures !Names("السوره " + NatToString(n), NatToString(m), FallbackNames(m))
  {
    var token := "السوره " + NatToString(n);
    var key := NatToString(m);
    FallbackTokens(m);
    var ar := "السورة " + key;
    var en := "surah " + key;
    assert token != key by { assert token[0] != key[0]; }
    assert token != en by { assert token[0] != en[0]; }
    assert token != ar by { assert token[5] != ar[5]; }
  }

  /** A one-zero prefix, as in "01", leaves the token stable under trimming and lower-casing. */
  lemma PaddedToken(n: nat)
    ensures Token("0" + NatToString(n)) == "0" + NatToString(n)
  {
    var token := "0" + NatToString(n);
    StripIdentity(token);
    LowerIdentity(token);
  }

  /** A token that is "0" followed by a surah number names no fallback entry here, though app.py resolves it. */
  lemma FlexPaddedNumberMisses(n: nat)
    requires 1 <= n <= 114
    ensures FlexResolve("0" + NatToString(n), FallbackTable()) == Ok(None)
    ensures ResolveSurah(Some("0" + NatToString(n)), FallbackTable()) == Some(NatToString(n))
  {
    var token := "0" + NatToString(n);
    PaddedToken(n);
    var t := FallbackTable();
    forall j | 0 <= j < |t| ensures Complete(t[j].1) && !Names(token, t[j].0, t[j].1) {
      FallbackEntry(j);
      PaddedMissesEntry(token, j + 1);
    }
    AppResolvesPadded(n, t);
  }

  lemma AppResolvesPadded(n: nat, table: SurahTable)
    requires 1 <= n <= 114
    ensures ResolveSurah(Some("0" + NatToString(n)), table) == Some(NatToString(n))
  {
    PaddedToken(n);
    ParseLeadingZero(NatToString(n));
    ParseNatToString(n);
  }

  /** The haa spelling "السوره n" names no fallback entry here, though app.py's normalisation resolves it. */
  lemma FlexNoNormalisation(n: nat)
    requires 1 <= n <= 114
    ensures FlexResolve("السوره " + NatToString(n), FallbackTable()) == Ok(None)
    ensures ResolveSurah(Some("السوره " + NatToString(n)), FallbackTable()) == Some(NatToString(n))
  {
    var token := "السوره " + NatToString(n);
    ArabicToken("السوره ", n);
    var t := FallbackTable();
    forall j | 0 <= j < |t| ensures Complete(t[j].1) && !Names(token, t[j].0, t[j].1) {
      FallbackEntry(j);
      TaaVariantMissesEntry(n, j + 1);
    }
    FallbackResolvesArabicVariant(n);
  }

  /** Any digit key the table holds is returned, in range or not, where app.py range-checks numbers. */
  lemma FlexNoRangeCheck(names: SurahNames)
    requires Complete(names)
    ensures FlexResolve("200", [("200", names)]) == Ok(Some(200))
    ensures ResolveSurah(Some("200"), [("200", names)]) == None
  {
    StripIdentity("200");
    LowerIdentity("200");
    assert Token("200") == "200";
    assert ParseDigits("200") == 200 by {
      assert "200"[..2] == "20" && "20"[..1] == "2" && "2"[..0] == "";
    }
  }

  // ---------------------------------------------------------------------------
  // get_tafsir
  // ---------------------------------------------------------------------------

  /** The message `get_tafsir` returns in place of a tafsir when reading or decoding fails. */
  function ReadError(message: string): string {
    "⚠️ خطأ أثناء قراءة الملف: " + message
  }

  /**
   * `get_tafsir`: the surah's file, read as a dict, at key `str(ayah_number)`.
   * A missing file or key gives None; a failed read gives the error message.
   */
  function FlexGetTafsir(file: FileState<Dict<string>>, ayahKey: string): (r: Option<string>)
    ensures r.None? <==> file.Missing? || (file.Loaded? && ayahKey !in Keys(file.content))
    ensures file.Unreadable? ==> r == Some(ReadError(file.message))
    ensures file.Loaded? && r.Some? ==> (ayahKey, r.value) in file.content
  {
    match file
    case Missing => None
    case Unreadable(message) => Some(ReadError(message))
    case Loaded(data) => Get(data, ayahKey)
  }

  /** With distinct keys, the value returned is the one stored beside the key. */
  lemma FlexGetTafsirStored(data: Dict<string>, i: int)
    requires DistinctKeys(data) && 0 <= i < |data|
    ensures FlexGetTafsir(Loaded(data), data[i].0) == Some(data[i].1)
  {
    GetAt(data, i);
  }
}
