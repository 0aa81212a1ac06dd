# QuranoMind tafsir tools, modelled in Dafny

QuranoMind looks up verses of the Quran and their commentaries (tafsir). It has a Flask
web page (`app.py`) and a set of small command-line scripts. The scripts search tafsir text
files, convert them to JSON, repair broken JSON files, number new tafsir files and sort
files into one folder per commentator. This project models the logic of those pieces and
proves what each one promises:

- **`app.py`.** Surah lookup by number or by Arabic or English name, with Arabic
  normalisation (`surah_resolver.dfy`). The local corpus lookups (`local_corpus.dfy`).
  The keyword search over every local tafsir file (`tafsir_search.dfy`). The favourites
  list kept in `favorites.json` (`favorites.dfy`).
- **Command-line scripts.** `tafsir_flex.dfy`, `add_tafsir.dfy`, `fix_and_load_json.dfy`,
  `fix_json_strong.dfy`, `search_all_tafasir.dfy`, `search_tafsir_txt.dfy`,
  `ai_quran_interpreter.dfy`, `txt_to_json.dfy`, `smart_txt_to_json.dfy`,
  `organize_tafasir.dfy` and `tafsir_simple.dfy`. Each models the script of the same name.
- **Shared modules.** These model the pieces of Python the scripts rely on:
  - `wrappers.dfy`: `Option`, a `Result` whose error names the Python exception raised,
    and `FileState`, which is what opening and decoding a file yields (missing,
    unreadable or undecodable, or loaded).
  - `pytext.dfy`: the `str` methods used (`strip`, `lower`, `isdigit`, `int`/`str` on
    naturals, `in`, `find`, `replace`, `split`, `join`, `readlines`) and list
    comprehensions with a filter.
  - `pydict.dfy`: an insertion-ordered `dict` as a sequence of pairs with distinct keys.

The file system, the console and the clock are parameters. A folder listing is a
sequence of (file name, contents) pairs in `os.listdir` order. A file to be read is a
`FileState`. `json.loads` is a function parameter (`parses` or `decode`). `md5` is a
function parameter. Loops that update variables are methods with loop invariants, each
proved equal to a specification function. The favourites file, which `add_favorite` and
`remove_favorite` rewrite, is a class whose field the methods update.

## Model

| member | source | states |
|---|---|---|
| SurahResolver.StripTashkeel | app.py:69 | no diacritic (U+064B..U+0652) is left in the result |
| SurahResolver.UnifyAlef | app.py:71 | same length; no hamza-bearing alef is left, and each changed character was one and became bare alef |
| SurahResolver.UnifyTaaMarbuta | app.py:72 | same length; no taa marbuta is left, and each changed character was one and became haa |
| SurahResolver.NormalizeArabic | app.py:67-73 | the result is no longer than the input and holds no diacritic, hamza alef or taa marbuta |
| SurahResolver.NormalizeIsOnePass | app.py:67-73 | the three regex passes equal one left-to-right pass that drops diacritics and folds each letter |
| SurahResolver.UnifyAppend | app.py:71-72 | the two letter substitutions together distribute over concatenation |
| SurahResolver.UnifyAlefAppend | app.py:71 | the alef substitution distributes over concatenation |
| SurahResolver.UnifyTaaMarbutaAppend | app.py:72 | the taa marbuta substitution distributes over concatenation |
| SurahResolver.NormalizeAppend | app.py:67-73 | normalisation distributes over concatenation |
| SurahResolver.NormalizeIdentity | app.py:67-73 | a string already free of the three classes is left unchanged |
| SurahResolver.NormalizeIdempotent | app.py:67-73 | normalising twice is normalising once |
| SurahResolver.FallbackTable | app.py:48 | the fallback table has 114 entries |
| SurahResolver.FallbackTableShape | app.py:48 | the fallback keys are distinct, and the i-th key is `str(i + 1)` |
| SurahResolver.LoadSurahNames | app.py:44-55 | a loaded file gives its own table; a missing or undecodable file gives the fallback table |
| SurahResolver.Token | app.py:65 | the input as compared: `strip()` then `lower()`; `EnglishPlaceholderToken`, `ArabicToken` and `NatToStringToken` give its value on the inputs the lookups rely on |
| SurahResolver.FindByName | app.py:81-88 | the name loop over the table; `FindByNameFirst` states it returns the first matching key and None only when nothing matches |
| SurahResolver.FindByNameFirst | app.py:81-88 | the name loop yields None exactly when no entry matches, and otherwise the key of the first entry that does |
| SurahResolver.ResolveSurah | app.py:60-88 | empty input gives None; a numeric answer always lies in 1..114 |
| SurahResolver.ParseLeadingZero | app.py:78 | `int()` ignores a leading zero |
| SurahResolver.NatToStringToken | app.py:65 | a decimal numeral is unchanged by strip and lower |
| SurahResolver.ResolveNumber | app.py:77-79 | every number resolves to itself when in 1..114 and to None otherwise, whatever the table holds |
| SurahResolver.ResolvePaddedNumber | app.py:77-79 | a zero-padded number in 1..114 resolves to its unpadded form |
| SurahResolver.ResolveDigits | app.py:77-79 | any input whose token is digits worth 1..114 resolves to that number written without leading zeros, whatever the table holds |
| SurahResolver.ResolveByName | app.py:81-88 | a non-numeric input resolves to the key of the first entry whose name, or normalised Arabic name, it matches |
| SurahResolver.ResolveUnknownName | app.py:81-88 | a non-numeric input that names no entry resolves to None |
| SurahResolver.EnglishPlaceholderToken | app.py:65 | "Surah n" is compared as "surah n" |
| SurahResolver.ArabicToken | app.py:65 | either spelling of the Arabic placeholder is unchanged by strip and lower |
| SurahResolver.NormalizeStem | app.py:67-73 | the stem of the Arabic placeholder word is already normal |
| SurahResolver.NormalizePlaceholderPrefix | app.py:67-73 | both spellings of the Arabic placeholder prefix normalise to the haa spelling |
| SurahResolver.NormalizeThree | app.py:67-73 | normalisation distributes over a three-part concatenation |
| SurahResolver.NormalizeSpace | app.py:67-73 | a space is left alone |
| SurahResolver.NormalizeFinalLetter | app.py:72 | taa marbuta and haa both normalise to haa |
| SurahResolver.NormalizePlaceholder | app.py:67-73 | "السورة n" and "السوره n" normalise to the same string |
| SurahResolver.FallbackEntry | app.py:48 | entry j of the fallback table is `str(j + 1)` with its two placeholder names |
| SurahResolver.EnglishNamesOnlyItsSurah | app.py:85 | "surah n" names fallback entry m exactly when m = n |
| SurahResolver.ArabicVariantNamesOnlyItsSurah | app.py:86 | the haa spelling "السوره n" names fallback entry m exactly when m = n |
| SurahResolver.FallbackResolvesEnglish | app.py:48-88 | with the fallback table, "Surah n" resolves to n for every n in 1..114 |
| SurahResolver.FallbackResolvesArabicVariant | app.py:48-88 | with the fallback table, the haa spelling resolves to n through normalisation |
| LocalCorpus.GetAyahText | app.py:104-108 | None exactly when the surah or the ayah is absent; otherwise the stored verse |
| LocalCorpus.TotalAyahs | app.py:110-113 | an absent surah counts zero ayahs |
| LocalCorpus.TotalAyahsZero | app.py:104-113 | the count is zero exactly when no ayah of the surah can be looked up |
| LocalCorpus.TafsirDataLocal | app.py:116-127 | a loaded file gives its dict; a missing or undecodable file gives the empty dict |
| TafsirSearch.DisplayName | app.py:204 | the surah's Arabic name, or "السورة n" when there is none; `HitsSound` states every record carries it |
| TafsirSearch.Hits | app.py:206-216 | the records of one tafsir dict; `HitsStep`, `HitsSound`, `HitsInOrder` and `HitsCount` characterise it |
| TafsirSearch.SurahHits | app.py:199-216 | the records of one surah, none for a surah without a tafsir file; `SurahHitsSound` and `SurahHitsInOrder` characterise it |
| TafsirSearch.Search | app.py:191-217 | the results over surahs 1..114; `SearchSound`, `SearchOrdered` and `SearchExactlyOnce` characterise it |
| TafsirSearch.HitsStep | app.py:206-216 | one more dict entry adds its record exactly when its text matches the query |
| TafsirSearch.SearchInTafasirLocal | app.py:191-217 | the nested loops return exactly the search specification |
| TafsirSearch.HitsSound | app.py:206-216 | every record of a surah is a matching entry of that surah's dict, with its verse, name and fingerprint |
| TafsirSearch.SurahHitsSound | app.py:198-216 | every record a surah contributes is a hit of that surah |
| TafsirSearch.SearchSound | app.py:191-217 | every record's tafsir contains the query ignoring case and comes from a surah in 1..114 of the corpus |
| TafsirSearch.SearchOrdered | app.py:198 | records never go back to an earlier surah |
| TafsirSearch.SearchOrderedUpTo | app.py:198 | the same ordering for the records of surahs 1..m |
| TafsirSearch.PairsAppend | app.py:209 | the (ayah, tafsir) pairs of concatenated results are the concatenated pairs |
| TafsirSearch.HitsInOrder | app.py:206-216 | the records of a run over a dict are exactly its matching entries, in dict order |
| TafsirSearch.SurahHitsInOrder | app.py:199-216 | the records of one surah are exactly the matching entries of its tafsir file, in order |
| TafsirSearch.CountHitsAppend | app.py:209 | record counts add up over concatenation |
| TafsirSearch.HitsCount | app.py:206-216 | a matching (ayah, tafsir) entry is recorded once; any other entry is not recorded |
| TafsirSearch.GetDropLast | app.py:206 | a lookup in a dict with distinct keys reads the last entry or else the entries before it |
| TafsirSearch.GetAppendLast | app.py:206 | a lookup after appending a new key reads that entry for its key and the old dict otherwise |
| TafsirSearch.OtherSurahsCountZero | app.py:198 | surahs 1..m record nothing under a later surah number |
| TafsirSearch.SurahHitsForeignCount | app.py:211 | a surah records nothing under another surah's number |
| TafsirSearch.HitsForeignCount | app.py:211 | a run records nothing under another surah's number |
| TafsirSearch.LaterSurahsCount | app.py:198-216 | across surahs 1..m, the records of surah n come only from surah n |
| TafsirSearch.SearchExactlyOnce | app.py:191-217 | a matching (surah, ayah) entry appears in the results exactly once, and any other pair never |
| Favorites.AnyHash | app.py:1352 | the hash test agrees with membership when every record has a hash; True means present, False means absent; a record without "hash" reached before any match raises KeyError |
| Favorites.AddToList | app.py:1352-1367 | an already present hash leaves the list alone; a new hash appends the record; a fully hashed list never fails |
| Favorites.WithoutHash | app.py:1383 | the result is no longer than the list and holds no record with the hash |
| Favorites.AddIdempotent | app.py:1352-1367 | adding the same record twice is adding it once |
| Favorites.AddNewAppendsOne | app.py:1352-1367 | a new hash adds exactly one record carrying it, at the end, and the page then shows it as favourited |
| Favorites.AddFailsOnUnhashedRecord | app.py:1352 | a first record without "hash" makes the test, and so the add, raise KeyError |
| Favorites.RemoveKeepsOthers | app.py:1383 | a record survives removal exactly when it was there and carries another hash |
| Favorites.RemoveOrder | app.py:1383 | removal distributes over concatenation, so survivors keep their order |
| Favorites.RemoveShrinksIff | app.py:1383-1385 | the list shrinks exactly when some record had the hash, and is otherwise unchanged |
| Favorites.RemoveAfterAdd | app.py:1352-1383 | removing a hash just added restores the list |
| Favorites.FallbackHashMatchesSearch | app.py:1346-1347 | a form without `ayah_hash` gets the fingerprint the search gave that result |
| Favorites.FavoritesFile.constructor | app.py:219-242 | the object holds the given file state |
| Favorites.FavoritesFile.Load | app.py:219-233 | a loaded file gives its list; a missing or undecodable file gives the empty list |
| Favorites.FavoritesFile.Save | app.py:235-242 | a save that goes through leaves the file holding the list; a failed one is only reported and leaves the file as it was |
| Favorites.FavoritesFile.AddFavorite | app.py:1333-1368 | a KeyError leaves the file alone; a present hash leaves it alone; otherwise the outcome is `Added` whether or not the save goes through, and the file holds the list with the new record appended exactly when it does |
| Favorites.FavoritesFile.RemoveFavorite | app.py:1380-1391 | reports removal exactly when the hash was present, whether or not the save goes through; the file holds the filtered list when something was removed and saved, and is unchanged otherwise |
| TafsirFlex.FlexResolve | tafsir_flex.py:15-20 | `FlexScan` run on the stripped, lower-cased input; `FlexFirstWins`, `FlexMissingArabicName`, `FlexPaddedNumberMisses`, `FlexNoNormalisation` and `FlexNoRangeCheck` characterise it |
| TafsirFlex.EntryMatches | tafsir_flex.py:18 | a test that does not raise says whether the token is the key or a trimmed, lower-cased name; a complete entry never raises; a failure is KeyError |
| TafsirFlex.FlexScan | tafsir_flex.py:16-20 | None means no entry is named; over complete entries nothing raises; a number comes from a named entry with no earlier match |
| TafsirFlex.FlexFirstWins | tafsir_flex.py:17-19 | over complete entries, the first entry named wins and its key is converted with `int` |
| TafsirFlex.FlexMissingArabicName | tafsir_flex.py:18 | a first entry without an Arabic name, and not named by its key, raises KeyError |
| TafsirFlex.FallbackTokens | tafsir_flex.py:18 | the placeholder names compare as "السورة n" and "surah n" |
| TafsirFlex.PaddedMissesEntry | tafsir_flex.py:18 | a token starting with '0' names no placeholder entry |
| TafsirFlex.TaaVariantMissesEntry | tafsir_flex.py:18 | the haa spelling names no placeholder entry |
| TafsirFlex.PaddedToken | tafsir_flex.py:16 | "0n" is unchanged by strip and lower |
| TafsirFlex.FlexPaddedNumberMisses | tafsir_flex.py:15-20 | "0n" is not found here, although app.py resolves it to n |
| TafsirFlex.AppResolvesPadded | app.py:77-79 | app.py resolves "0n" to n for n in 1..114 |
| TafsirFlex.FlexNoNormalisation | tafsir_flex.py:15-20 | the haa spelling is not found here, although app.py resolves it |
| TafsirFlex.FlexNoRangeCheck | tafsir_flex.py:19 | the key "200" is returned here, while app.py rejects it as out of range |
| TafsirFlex.FlexGetTafsir | tafsir_flex.py:23-32 | None exactly for a missing file or an absent ayah; an unreadable file gives the error message; a found tafsir is stored under the ayah |
| TafsirFlex.FlexGetTafsirStored | tafsir_flex.py:30 | with distinct keys, the value returned is the one stored beside the key |
| AddTafsir.Stem | add_tafsir.py:12-14 | the name with every ".json" deleted; `FileNameStem` states a written `<n>.json` has stem n |
| AddTafsir.StemEntry | add_tafsir.py:12-15 | a name contributes one number exactly when it ends in ".json" and its stem is all digits |
| AddTafsir.Stems | add_tafsir.py:11-15 | at most one number per name |
| AddTafsir.StemsMembership | add_tafsir.py:11-15 | a number is listed exactly when some considered name has it as stem |
| AddTafsir.StemsAppend | add_tafsir.py:11-15 | the comprehension distributes over concatenation of listings |
| AddTafsir.Max | add_tafsir.py:16 | the maximum is an element and no element exceeds it |
| AddTafsir.NextSurahNumber | add_tafsir.py:10-16 | the next number is positive |
| AddTafsir.NextAboveEveryStem | add_tafsir.py:10-16 | the next number is above every number in use |
| AddTafsir.StemsEmptyIff | add_tafsir.py:11-15 | the comprehension is empty exactly when no name is considered |
| AddTafsir.NextDefaultOrAttained | add_tafsir.py:16 | with no numbered file the next number is 4; otherwise it is one more than a number in use |
| AddTafsir.FileNameStem | add_tafsir.py:19 | a written name `<n>.json` is considered again, with stem n |
| AddTafsir.SingleFile | add_tafsir.py:10-16 | a folder holding only `<k>.json` gives k + 1 |
| AddTafsir.NextAfterSave | add_tafsir.py:10-22 | after saving the next file, the number after that is one higher |
| AddTafsir.AccumulateInput | add_tafsir.py:28-33 | the reading loop yields the lines concatenated, with no separator |
| AddTafsir.AccumulateTwo | add_tafsir.py:31 | two typed lines run together |
| AddTafsir.AddTafsirSession | add_tafsir.py:24-39 | a file is saved exactly when the accumulated text decodes, and it is named by the next number |
| FixAndLoadJson.Clean | scripts/fix_and_load_json.py:20 | no longer than the input, and no character of the class is left |
| FixAndLoadJson.CleanKeeps | scripts/fix_and_load_json.py:20 | a character survives exactly when it was present and is outside the class |
| FixAndLoadJson.CleanIdempotent | scripts/fix_and_load_json.py:20 | cleaning twice is cleaning once |
| FixAndLoadJson.CleanIdentityIff | scripts/fix_and_load_json.py:20 | cleaning changes nothing exactly when no control character is present |
| FixAndLoadJson.CleanDropsLayout | scripts/fix_and_load_json.py:20 | this cleaner deletes tab and line feed, which the fix_json_strong sanitiser keeps |
| FixAndLoadJson.LoadAndFix | scripts/fix_and_load_json.py:5-34 | returned as is exactly when the text decodes, with its data; repaired exactly when only the cleaned text decodes and writing it back succeeds, with the cleaned data; gives up exactly when the cleaned text does not decode or cannot be written; an unreadable file propagates |
| FixAndLoadJson.CleanFileNeverRewritten | scripts/fix_and_load_json.py:20-27 | a text without control characters is never rewritten |
| FixJsonStrong.Sanitize | scripts/fix_json_strong.py:16-23 | the three steps in source order; `SanitizeClean` and `SanitizeKeepsEssential` characterise it |
| FixJsonStrong.RemoveControl | scripts/fix_json_strong.py:18 | no longer than the input, and no character of the class is left |
| FixJsonStrong.RemoveControlKeeps | scripts/fix_json_strong.py:18 | a character survives exactly when present and outside the class; tab, line feed and carriage return always survive |
| FixJsonStrong.ReplaceChar | scripts/fix_json_strong.py:20 | same length, and each position is replaced exactly when it held the pattern character |
| FixJsonStrong.ReplaceAllChar | scripts/fix_json_strong.py:20 | `replace` with one-character strings is that pointwise substitution |
| FixJsonStrong.NormalizeQuotes | scripts/fix_json_strong.py:20 | the four `replace` calls in order; `NormalizeQuotesPointwise` states the pointwise result |
| FixJsonStrong.NormalizeQuotesPointwise | scripts/fix_json_strong.py:20 | the four replacements straighten each curly quote, one for one, and change nothing else |
| FixJsonStrong.SpaceRun | scripts/fix_json_strong.py:22 | a greedy `\s*` consumes no more than the text |
| FixJsonStrong.SpaceRunSpec | scripts/fix_json_strong.py:22 | the run is all whitespace and stops at the first other character |
| FixJsonStrong.DigitRun | scripts/fix_json_strong.py:40 | a greedy `\d+` consumes no more than the text |
| FixJsonStrong.DigitRunSpec | scripts/fix_json_strong.py:40 | the run is all digits and stops at the first other character |
| FixJsonStrong.SpaceRunPrefix | scripts/fix_json_strong.py:22 | the run over whitespace followed by another character ends where the whitespace does |
| FixJsonStrong.DigitRunPrefix | scripts/fix_json_strong.py:40 | the run over digits followed by another character ends where the digits do |
| FixJsonStrong.DropTrailingCommas | scripts/fix_json_strong.py:22 | no longer than the input, and adds no character (what it deletes: `DropIsKept`) |
| FixJsonStrong.MatchShift | scripts/fix_json_strong.py:22 | a comma-then-closer occurrence reads the same in a suffix, shifted |
| FixJsonStrong.DeletedShift | scripts/fix_json_strong.py:22 | where no occurrence straddles the cut, a position is deleted in the text exactly when it is in the suffix |
| FixJsonStrong.KeptShift | scripts/fix_json_strong.py:22 | the kept characters from a position are the same in the text and in a suffix that no occurrence straddles |
| FixJsonStrong.KeptSkip | scripts/fix_json_strong.py:22 | deleted positions contribute nothing to what is kept |
| FixJsonStrong.MatchFirst | scripts/fix_json_strong.py:22 | a comma, whitespace and a closer at the front form an occurrence that deletes the comma and the whitespace |
| FixJsonStrong.MatchAtZero | scripts/fix_json_strong.py:22 | an occurrence that starts at the front ends at the first character after the whitespace run |
| FixJsonStrong.NoMatchFirst | scripts/fix_json_strong.py:22 | when the front is not a comma before whitespace and a closer, no occurrence starts there |
| FixJsonStrong.DropIsKept | scripts/fix_json_strong.py:22 | the substitution's output is the input with exactly the deleted positions removed: each comma, and the whitespace after it, that stands before `}` or `]` |
| FixJsonStrong.KeptFromAll | scripts/fix_json_strong.py:22 | keeping from a position gives at most the rest of the text, all of it exactly when nothing there is deleted |
| FixJsonStrong.DropIdentityIff | scripts/fix_json_strong.py:22 | the substitution leaves the text unchanged exactly when no comma is followed by optional whitespace and a closer |
| FixJsonStrong.EssentialAppend | scripts/fix_json_strong.py:22 | the characters other than commas and whitespace distribute over concatenation |
| FixJsonStrong.EssentialOfSpaces | scripts/fix_json_strong.py:22 | whitespace carries no such character |
| FixJsonStrong.CommaRunEssential | scripts/fix_json_strong.py:22 | a comma, whitespace and a closing bracket carry only the bracket |
| FixJsonStrong.DropKeepsEssential | scripts/fix_json_strong.py:22 | the comma step deletes only commas and whitespace, keeping every other character in order |
| FixJsonStrong.DropWithoutComma | scripts/fix_json_strong.py:22 | text without a comma is unchanged |
| FixJsonStrong.DropNonComma | scripts/fix_json_strong.py:22 | a first character other than a comma is kept |
| FixJsonStrong.DropCommaCloser | scripts/fix_json_strong.py:22 | a comma right before a closer is dropped and the closer kept |
| FixJsonStrong.DropInsideString | scripts/fix_json_strong.py:22 | a comma before `}` inside a string literal is deleted too |
| FixJsonStrong.DropIsOnePass | scripts/fix_json_strong.py:22 | one pass over ", ,}" leaves a trailing comma that a second pass removes |
| FixJsonStrong.SanitizeClean | scripts/fix_json_strong.py:16-23 | the sanitised text is no longer than the input and holds no stripped control and no curly quote |
| FixJsonStrong.SanitizeKeepsEssential | scripts/fix_json_strong.py:16-23 | sanitising keeps every character that is not a stripped control, comma or whitespace, with quotes straightened |
| FixJsonStrong.SpacesFrom | scripts/fix_json_strong.py:40 | a `\s*` run from an index stays inside the text |
| FixJsonStrong.DigitsFrom | scripts/fix_json_strong.py:40 | a `\d+` run from an index stays inside the text |
| FixJsonStrong.QuoteFrom | scripts/fix_json_strong.py:40 | the quote found lies at or after the index |
| FixJsonStrong.SpacesFromExact | scripts/fix_json_strong.py:40 | a maximal whitespace run of length n is counted as n |
| FixJsonStrong.DigitsFromExact | scripts/fix_json_strong.py:40 | a maximal digit run of length n is counted as n |
| FixJsonStrong.DigitsFromSpec | scripts/fix_json_strong.py:40 | the characters counted are digits |
| FixJsonStrong.QuoteFromSpec | scripts/fix_json_strong.py:40 | the quote found is a quote, with no quote or line feed before it |
| FixJsonStrong.QuoteFromExact | scripts/fix_json_strong.py:40 | the first quote after a stretch free of quotes and line feeds is found |
| FixJsonStrong.MatchAt | scripts/fix_json_strong.py:40 | a match ends after its start and inside the text |
| FixJsonStrong.KeyAt | scripts/fix_json_strong.py:40 | a match from the key's closing quote ends after it |
| FixJsonStrong.ColonAt | scripts/fix_json_strong.py:40 | a match from the colon keeps the key and ends after the colon |
| FixJsonStrong.OpeningAt | scripts/fix_json_strong.py:40 | a match from the value's opening quote keeps the key and ends after it |
| FixJsonStrong.ValueAt | scripts/fix_json_strong.py:40 | the lazy value group keeps the key and ends after its start |
| FixJsonStrong.ValueAtWellFormed | scripts/fix_json_strong.py:40 | the value group is never empty and never holds a line feed |
| FixJsonStrong.ColonAtWellFormed | scripts/fix_json_strong.py:40 | a match from the colon has a non-empty one-line value |
| FixJsonStrong.KeyAtWellFormed | scripts/fix_json_strong.py:40 | a match after a digit run has a digit key and a non-empty one-line value |
| FixJsonStrong.MatchAtWellFormed | scripts/fix_json_strong.py:40 | every match has a digit key and a non-empty one-line value |
| FixJsonStrong.FindAllFromWellFormed | scripts/fix_json_strong.py:40 | every pair recovered from an index on is well formed |
| FixJsonStrong.FindAllWellFormed | scripts/fix_json_strong.py:40 | every recovered pair has a digit key and a non-empty one-line value |
| FixJsonStrong.FindAllFrom | scripts/fix_json_strong.py:40 | findall from an index: try the pattern, resume after a match or one character on; `FindAllFromWellFormed`, `FindAllFromSound` and `FindAllFromEntries` characterise it |
| FixJsonStrong.FindAll | scripts/fix_json_strong.py:40 | findall over the whole text; `FindAllWellFormed`, `FindAllSound` and `RecoverDump` characterise it |
| FixJsonStrong.BuildDict | scripts/fix_json_strong.py:44 | the dict built has distinct keys |
| FixJsonStrong.BuildDictGet | scripts/fix_json_strong.py:44 | each key reads as the value of its last occurrence; keys never recovered are absent |
| FixJsonStrong.SpacesFromSpec | scripts/fix_json_strong.py:40 | the characters a `\s*` run counts are whitespace |
| FixJsonStrong.OpeningAtSound | scripts/fix_json_strong.py:40 | a match from the value's opening quote keeps the key and captures the quoted text that follows |
| FixJsonStrong.ColonAtSound | scripts/fix_json_strong.py:40 | a match from the colon reads a colon and whitespace before the value's quote |
| FixJsonStrong.KeyAtSound | scripts/fix_json_strong.py:40 | a match from the key's closing quote reads a quote and whitespace before the colon |
| FixJsonStrong.LaidOutFromParts | scripts/fix_json_strong.py:40 | the quoted key, whitespace, colon, whitespace and quoted value checked in turn form a laid-out pair |
| FixJsonStrong.ColonAtLaidOut | scripts/fix_json_strong.py:40 | after a quoted key and whitespace, a match from the colon is a pair written in the text |
| FixJsonStrong.KeyAtLaidOut | scripts/fix_json_strong.py:40 | after an opening quote, a match from the key's closing quote is a pair written in the text |
| FixJsonStrong.MatchAtSound | scripts/fix_json_strong.py:40 | every match reads `"k"`, whitespace, a colon, whitespace and `"v"` in the text |
| FixJsonStrong.FindAllFromSound | scripts/fix_json_strong.py:40 | every pair recovered from an index on is written in the text in that shape |
| FixJsonStrong.FindAllSound | scripts/fix_json_strong.py:40 | recovery invents no pair: each one is written in the text as `"k"`, whitespace, `:`, whitespace, `"v"` |
| FixJsonStrong.DumpEntries | scripts/fix_json_strong.py:46 | the entries of the dump separated by ",\n  ", then the closing text; `EntryLayout` and `FindAllFromEntries` characterise it |
| FixJsonStrong.Dump | scripts/fix_json_strong.py:45-46 | "{}" for an empty dict, otherwise the indented entries; `RecoverDump` states findall reads it back |
| FixJsonStrong.EntryLayout | scripts/fix_json_strong.py:46 | the layout of a `"k": "v"` entry as `json.dump` writes it, character by character |
| FixJsonStrong.SliceOfSuffix | scripts/fix_json_strong.py:40 | a slice of a suffix is a slice of the text |
| FixJsonStrong.EntryAt | scripts/fix_json_strong.py:46 | where a text holds a written entry, its key, value and punctuation stand at fixed offsets |
| FixJsonStrong.MatchAtDigits | scripts/fix_json_strong.py:40 | after a quote and a maximal digit run, matching hands over to the key's closing quote |
| FixJsonStrong.KeyAtColon | scripts/fix_json_strong.py:40 | a closing quote and a colon hand over to the colon step |
| FixJsonStrong.ColonAtSpace | scripts/fix_json_strong.py:40 | a colon, a space and a quote hand over to the opening quote |
| FixJsonStrong.OpeningAtQuote | scripts/fix_json_strong.py:40 | the value starts right after its opening quote |
| FixJsonStrong.ValueAtQuote | scripts/fix_json_strong.py:40 | the value ends at the first quote, with no line feed before it |
| FixJsonStrong.MatchAtEntry | scripts/fix_json_strong.py:40 | the pattern matches an entry `json.dump` wrote, capturing its key and value |
| FixJsonStrong.FindAllFromMatch | scripts/fix_json_strong.py:40 | a match contributes its pair and scanning resumes after it |
| FixJsonStrong.FindAllFromSkip | scripts/fix_json_strong.py:40 | characters other than a quote cannot start a match |
| FixJsonStrong.SuffixAfter | scripts/fix_json_strong.py:40 | a suffix that is a concatenation has the second part after the first |
| FixJsonStrong.FindAllFromQuoteless | scripts/fix_json_strong.py:40 | text without a quote yields no pair |
| FixJsonStrong.FindAllFromSeparator | scripts/fix_json_strong.py:46 | the comma, line feed and indent between two written entries start no match |
| FixJsonStrong.FindAllFromEntries | scripts/fix_json_strong.py:40-46 | scanning the entries `json.dump` wrote reads them back in order |
| FixJsonStrong.FindAllFromFollowing | scripts/fix_json_strong.py:40-46 | the same for the entries after the first, each behind its separator |
| FixJsonStrong.AllRecoverableTail | scripts/fix_json_strong.py:46 | the pairs after the first of a recoverable dict are recoverable |
| FixJsonStrong.RecoverDump | scripts/fix_json_strong.py:40-46 | recovery reads back, in order, every pair of a dict `json.dump(indent=2, ensure_ascii=False)` wrote, when keys are digits and values need no escape |
| FixJsonStrong.FixJsonFile | scripts/fix_json_strong.py:25-51 | already valid exactly when the file is read and its sanitised text decodes; rewritten exactly when it is read, does not decode, some pair is recovered and the dump succeeds, storing the recovered dict (non-empty); fatal exactly when the file cannot be read, nothing is recovered from undecodable text, or the dump fails, whose message it then reports |
| SearchAllTafasir.Context | search_all_tafasir.py:9 | for an inner line, the stripped previous, current and next lines joined by a bar; for the first or last line, the stripped line alone; `LineHitsSound` states every match carries it |
| SearchAllTafasir.LineEntry | search_all_tafasir.py:8-10 | a line contributes at most one match |
| SearchAllTafasir.LineHits | search_all_tafasir.py:7-10 | at most one match per line |
| SearchAllTafasir.SearchInFile | search_all_tafasir.py:3-11 | the loop returns exactly the matches of the file's lines, in order |
| SearchAllTafasir.LineHitsSound | search_all_tafasir.py:7-10 | every match is a line containing the keyword, with its 1-based number and its context |
| SearchAllTafasir.LineHitsComplete | search_all_tafasir.py:7-10 | every line containing the keyword is reported |
| SearchAllTafasir.LineHitsOrdered | search_all_tafasir.py:7 | line numbers strictly increase |
| SearchAllTafasir.EmptyKeywordEveryLine | search_all_tafasir.py:8 | an empty keyword reports every line |
| SearchAllTafasir.FileHits | search_all_tafasir.py:16-19 | a ".txt" file's matches, nothing for another entry; `AllHitsInclude` characterises it |
| SearchAllTafasir.AllHits | search_all_tafasir.py:13-20 | the matches of the listing's ".txt" files in order; `AllHitsSound` and `AllHitsComplete` characterise it |
| SearchAllTafasir.SearchAllTxt | search_all_tafasir.py:13-20 | the loop returns exactly the matches of the ".txt" files, in listing order |
| SearchAllTafasir.AllHitsSound | search_all_tafasir.py:13-20 | every result names a ".txt" file of the listing and a line of it containing the keyword |
| SearchAllTafasir.AllHitsInclude | search_all_tafasir.py:19 | what a file contributes stays among the results |
| SearchAllTafasir.AllHitsComplete | search_all_tafasir.py:13-20 | every line of a ".txt" file containing the keyword is reported |
| SearchTafsirTxt.BlocksFrom | search_tafsir_txt.py:24 | the non-overlapping lazy matches from an index on; `FirstBlock` and `BlocksFromAreBlocks` characterise it |
| SearchTafsirTxt.Blocks | search_tafsir_txt.py:24 | the blocks of the whole text; `BlocksAreBlocks`, `BlocksNonEmptyIff` and `NoHeaderNoBlocks` characterise it |
| SearchTafsirTxt.CutIsBlock | search_tafsir_txt.py:24 | the text from a header to the first footer after it is a block |
| SearchTafsirTxt.FirstBlock | search_tafsir_txt.py:24 | a non-empty result begins with the block from the first header to the first footer after it, and the search goes on after that footer |
| SearchTafsirTxt.BlocksFromAreBlocks | search_tafsir_txt.py:24 | every block found from a given index on starts with the header, ends with the footer and holds no other footer |
| SearchTafsirTxt.BlocksAreBlocks | search_tafsir_txt.py:24 | every block found starts with the header, ends with the footer and holds no other footer |
| SearchTafsirTxt.FoundIsBlock | search_tafsir_txt.py:24 | the text between the header and the footer that `find` locates is a block |
| SearchTafsirTxt.BlocksNonEmptyIff | search_tafsir_txt.py:24 | a block is found exactly when a header is followed somewhere by a footer |
| SearchTafsirTxt.NoHeaderNoBlocks | search_tafsir_txt.py:24 | a text without a header has no block |
| SearchTafsirTxt.SearchFile | search_tafsir_txt.py:18-31 | the inner loop prints exactly the file's reports, and flags a find exactly when it printed one |
| SearchTafsirTxt.SearchListing | search_tafsir_txt.py:17-31 | the outer loop prints exactly the reports of the listing, flagging a find exactly when it printed one |
| SearchTafsirTxt.SearchEntry | search_tafsir_txt.py:18-31 | a ".txt" entry prints its file's reports, any other entry nothing, flagging a find exactly when it printed one |
| SearchTafsirTxt.SearchTafsirTxt | search_tafsir_txt.py:6-33 | the script prints the reports for the stripped, lower-cased query, flagging a find exactly when it printed one |
| SearchTafsirTxt.BlockReportsSound | search_tafsir_txt.py:26-31 | every report carries a stripped block that contains the query |
| SearchTafsirTxt.FileReportsSound | search_tafsir_txt.py:18-31 | every report of a file names a ".txt" file and a block of it containing the query |
| SearchTafsirTxt.ReportsSound | search_tafsir_txt.py:17-31 | every report names a ".txt" file of the listing and a block of it containing the query |
| SearchTafsirTxt.BlockReportsComplete | search_tafsir_txt.py:26-31 | every block containing the query is reported |
| SearchTafsirTxt.ReportsInclude | search_tafsir_txt.py:17-31 | what a file contributes stays among the reports |
| SearchTafsirTxt.ReportsComplete | search_tafsir_txt.py:17-31 | every block of a ".txt" file containing the query is reported |
| SearchTafsirTxt.FoundIff | search_tafsir_txt.py:28-33 | the not-found message appears exactly when no block of any ".txt" file contains the query |
| AiQuranInterpreter.LineFindings | ai_quran_interpreter.py:24-31 | the findings of a file's first n lines; `LineFindingsSound`, `LineFindingsComplete` and `LineFindingsOrdered` characterise it |
| AiQuranInterpreter.Findings | ai_quran_interpreter.py:16-31 | the findings of the listing's ".txt" files in order; `FindingsPrefix` and `OnlyTextFiles` characterise it |
| AiQuranInterpreter.Warnings | ai_quran_interpreter.py:32-33 | the names of ".txt" files whose read failed, in order; `WarningsIff` characterises it |
| AiQuranInterpreter.WarningsIff | ai_quran_interpreter.py:18-33 | a name is warned about exactly when it is a listed ".txt" file whose read failed |
| AiQuranInterpreter.Interpret | ai_quran_interpreter.py:7-33 | the script collects exactly the findings of the ".txt" files for the stripped term, and warns exactly about those whose reading failed |
| AiQuranInterpreter.ScanFile | ai_quran_interpreter.py:18-33 | one entry gives the findings of a ".txt" file, and a warning exactly when its reading failed |
| AiQuranInterpreter.ScanLines | ai_quran_interpreter.py:24-31 | the inner loop collects exactly the findings of the file's lines |
| AiQuranInterpreter.LineFindingsSound | ai_quran_interpreter.py:24-31 | every finding is a line containing the term, numbered from 1, stored stripped |
| AiQuranInterpreter.LineFindingsComplete | ai_quran_interpreter.py:24-31 | every line containing the term is recorded |
| AiQuranInterpreter.LineFindingsOrdered | ai_quran_interpreter.py:24 | line numbers strictly increase within a file |
| AiQuranInterpreter.LineFindingsAtMost | ai_quran_interpreter.py:24-31 | at most one finding per line |
| AiQuranInterpreter.EmptyTermEveryLine | ai_quran_interpreter.py:26 | a blank term records every line |
| AiQuranInterpreter.FindingsPrefix | ai_quran_interpreter.py:16-31 | findings only accumulate: those of an earlier point are a prefix of later ones |
| PyText.PrefixAppend | ai_quran_interpreter.py:27 | appending keeps earlier results as a prefix |
| AiQuranInterpreter.OnlyTextFiles | ai_quran_interpreter.py:18 | an entry that is not a ".txt" file contributes no finding and no warning |
| AiQuranInterpreter.FailureKeepsEarlierLines | ai_quran_interpreter.py:20-33 | a read that fails part way keeps the findings of the lines read before it |
| PyText.NonSpaceSurvivesStrip | txt_to_json.py:14 | a non-whitespace character survives strip |
| TxtToJson.ParseLine | txt_to_json.py:13-17 | one line's (verse, tafsir), or nothing; `ParseLineSound` and `ParseLineRoundTrip` characterise it |
| TxtToJson.Entries | txt_to_json.py:12-18 | the dict the loop builds; `EntriesDistinct`, `LastAssignmentWins`, `OtherVerseKept` and `UnassignedAbsent` characterise it |
| TxtToJson.SplitOnce | txt_to_json.py:14 | the two halves surround the first colon |
| TxtToJson.Convert | txt_to_json.py:12-21 | the loop dumps the surah name mapped to the entries of the lines |
| TxtToJson.ParseLineRoundTrip | txt_to_json.py:13-18 | a line "verse: tafsir" parses back to (verse, tafsir) |
| PyText.FirstAfter | txt_to_json.py:14 | the first colon of `a + ":" + b` is the one after `a` when `a` has none |
| PyText.SplitAtFirst | txt_to_json.py:14 | cutting at the first colon is unique |
| PyText.StripKeepsOut | txt_to_json.py:15-16 | strip adds no character |
| TxtToJson.ParseLineSound | txt_to_json.py:13-17 | a line without a colon is skipped; a parsed line has a non-empty, stripped verse without a colon and a non-empty, stripped tafsir |
| TxtToJson.NoColonIgnored | txt_to_json.py:13 | a line without a colon leaves the dict unchanged |
| TxtToJson.EntriesDistinct | txt_to_json.py:18 | verse keys stay distinct |
| TxtToJson.LastAssignmentWins | txt_to_json.py:12-18 | a verse's value is the tafsir of the last line that assigns it |
| TxtToJson.OtherVerseKept | txt_to_json.py:18 | a line that does not assign a verse leaves that verse's value alone |
| TxtToJson.UnassignedAbsent | txt_to_json.py:12-18 | a verse no line assigns is not a key |
| SmartTxtToJson.IsHeader | smart_txt_to_json.py:16 | the header test; `DigitHeaders` and `FirstTwo` characterise its digit branch |
| SmartTxtToJson.Step | smart_txt_to_json.py:12-22 | one iteration of the loop; `StepConsistent`, `FirstHeaderTakesPreamble` and `HeaderStoresPrevious` characterise it |
| SmartTxtToJson.Run | smart_txt_to_json.py:11-22 | the loop over all lines; `RunConsistent`, `BlankLinesIgnored` and `Preamble` characterise it |
| SmartTxtToJson.Finish | smart_txt_to_json.py:25-26 | the final store; `LastHeaderStored`, `LastHeaderWithoutText` and `OutputKeysAreHeaders` characterise it |
| SmartTxtToJson.FirstTwo | smart_txt_to_json.py:16 | `line[:2]` is a prefix of at most two characters, exactly two when the line is long enough |
| SmartTxtToJson.JoinSpaces | smart_txt_to_json.py:18 | joining nothing gives "", and joining one part gives that part |
| SmartTxtToJson.Convert | smart_txt_to_json.py:10-26 | the loop dumps the surah name mapped to the finished grouping of the lines |
| SmartTxtToJson.DigitHeaders | smart_txt_to_json.py:16 | a line of one digit or starting with two digits is a header; a digit then a non-digit is not |
| SmartTxtToJson.BlankLinesIgnored | smart_txt_to_json.py:12-14 | the run over all lines equals the run over the non-blank ones |
| SmartTxtToJson.StepConsistent | smart_txt_to_json.py:12-22 | one iteration keeps the current verse a header or empty, and the stored keys distinct headers |
| SmartTxtToJson.RunConsistent | smart_txt_to_json.py:11-22 | the loop stays consistent over any lines |
| SmartTxtToJson.OutputKeysAreHeaders | smart_txt_to_json.py:10-26 | every output key is a stripped header line, and keys are distinct |
| SmartTxtToJson.Preamble | smart_txt_to_json.py:11-22 | before the first header every non-blank line is kept as text, and nothing is stored |
| SmartTxtToJson.FirstHeaderTakesPreamble | smart_txt_to_json.py:16-20 | the first header keeps the text that preceded it as its own |
| SmartTxtToJson.HeaderStoresPrevious | smart_txt_to_json.py:16-20 | a header stores the previous verse with its joined text (possibly ""), and starts afresh |
| SmartTxtToJson.LastHeaderStored | smart_txt_to_json.py:25-26 | the last header is stored with its text when it has some |
| SmartTxtToJson.LastHeaderWithoutText | smart_txt_to_json.py:25-26 | a new last header with no text after it is not stored |
| OrganizeTafasir.Destination | organize_tafasir.py:9-13 | the (folder, surah) a name is moved to, or nothing; `GuardNeverRejects`, `DestinationParts` and `FirstWordOnly` characterise it |
| OrganizeTafasir.MoveOf | organize_tafasir.py:15-21 | the move for one name; `TargetPath` characterises it |
| OrganizeTafasir.Moves | organize_tafasir.py:8-21 | the moves for the listing in order; `MovesCount` and `MovesSound` characterise it |
| OrganizeTafasir.PathJoin | organize_tafasir.py:15 | joining a relative name onto a folder without a trailing "/" inserts one "/" |
| OrganizeTafasir.Organize | organize_tafasir.py:8-22 | the loop makes exactly the moves of the listing, in order |
| PyText.SplitNoSeparator | organize_tafasir.py:10 | a string without "_" splits into itself |
| PyText.SplitAtSeparator | organize_tafasir.py:10 | the text before the first "_" is the first part, and the rest splits on |
| PyText.SplitFirstPart | organize_tafasir.py:12 | the first part is the text before the first "_" |
| PyText.SplitLastPart | organize_tafasir.py:13 | with two parts or more, the last part ends the name right after a "_" |
| OrganizeTafasir.GuardNeverRejects | organize_tafasir.py:9-11 | a destination exists exactly for ".json" names holding "_": the length guard never rejects |
| OrganizeTafasir.DestinationParts | organize_tafasir.py:12-13 | the folder is the text before the first "_"; the surah is the last part with ".json" removed |
| OrganizeTafasir.SplitThree | organize_tafasir.py:10 | three "_"-free words joined by "_" split back into them |
| OrganizeTafasir.ThreeWords | organize_tafasir.py:9-13 | a three-word name goes to the first word's folder, under the last word without ".json" |
| OrganizeTafasir.SameFirstWordSameTarget | organize_tafasir.py:12-13 | names differing only in the middle word go to the same place, so one move overwrites the other |
| OrganizeTafasir.FirstWordOnly | organize_tafasir.py:12-13 | "ibn_katheer_2.json" goes to folder "ibn" as "2", not to "ibn_katheer" |
| OrganizeTafasir.MovesCount | organize_tafasir.py:8-21 | one move per moved name |
| OrganizeTafasir.MovesSound | organize_tafasir.py:8-21 | every move comes from a moved name of the listing |
| OrganizeTafasir.ReplaceAllKeepsOut | organize_tafasir.py:13 | deleting ".json" adds no character |
| OrganizeTafasir.NoSlashInParts | organize_tafasir.py:12-13 | folder and surah taken from a listed name hold no "/" |
| OrganizeTafasir.JoinTwice | organize_tafasir.py:15-19 | joining a folder and then a name onto the base gives "base/folder/name" |
| OrganizeTafasir.TargetPath | organize_tafasir.py:15-21 | a file moves from "base/file" into "base/interpreter" as "base/interpreter/surah.json" |
| TafsirSimple.GetTafsir | tafsir_simple.py:1-9 | "ar" gives the Arabic sentence and "en" the English one |
| TafsirSimple.OnlyArabicAndEnglish | tafsir_simple.py:1-9 | the unsupported message is returned exactly for languages other than "ar" and "en", and each sentence exactly for its language |
| TafsirSimple.AskTafsir | tafsir_simple.py:11-16 | the language typed is stripped and lower-cased before choosing the sentence |
| TafsirSimple.NamesAyahAndSurah | tafsir_simple.py:2-7 | the answer names the ayah and the surah at fixed places |
| TafsirSimple.AnswerDeterminesNumbers | tafsir_simple.py:2-7 | for numeric ayahs, equal answers mean equal ayah and surah |
| TafsirSimple.Unframe | tafsir_simple.py:2-7 | the fixed words around a digit string and a free string can be taken off again |
| TafsirSimple.DigitsThenWord | tafsir_simple.py:4 | a digit string followed by a non-digit splits a string uniquely |
| TafsirSimple.LeadingDigits | tafsir_simple.py:4 | the count of leading digits stays inside the string and covers only digits |
| TafsirSimple.LeadingDigitsOf | tafsir_simple.py:4 | digits followed by a non-digit: the leading digits are exactly those |
| TafsirSimple.AskTafsirIgnoresCaseAndPadding | tafsir_simple.py:2-12 | any case of "ar", padded, selects Arabic at the prompt, while `get_tafsir` itself accepts only "ar" |
| PyText.StripSpec | ai_quran_interpreter.py:7 | strip removes the surrounding whitespace and nothing else |
| PyText.StripIdempotent | txt_to_json.py:14-16 | stripping twice is stripping once |
| PyText.LowerIdempotent | app.py:65 | lower-casing twice is lower-casing once |
| PyText.ParseNatToString | app.py:78 | `int(str(n)) == n` |
| PyText.NatToStringInjective | app.py:79 | `str` is injective on naturals |
| PyText.FindFromFirst | search_tafsir_txt.py:24 | the occurrence found from an index on is the first one there, and none is reported only when there is none |
| PyText.SplitJoin | organize_tafasir.py:10 | joining the parts of a split with the separator gives the string back |
| PyText.SplitCount | organize_tafasir.py:9-11 | the separator occurs exactly when split gives two parts or more |
| PyText.SplitLinesConcat | search_all_tafasir.py:6 | `readlines` loses nothing: the lines concatenate to the text |
| PyText.SplitLinesShape | search_all_tafasir.py:6 | every line is non-empty, and holds a line feed only as its last character, which every line but the last has |
| PyText.FilterMembership | app.py:1383 | an element survives a comprehension filter exactly when it was there and passes |
| PyDict.Put | txt_to_json.py:18 | assignment keeps an existing key's place with the new value, and puts a new key last |
| PyDict.PutGet | txt_to_json.py:18 | after `d[k] = v` the key reads as v and every other key as before |
| PyDict.GetAt | app.py:108 | with distinct keys, `get` reads the value stored beside the key |

## Left out

- The Flask routes and templates, the Gemini calls, text-to-speech and Google translation
  are not part of this model. They are network services or rendering.
- Reading files, listing folders and the console are not modelled as effects. A listing is
  a sequence of (name, contents) pairs in `os.listdir` order. A file is a `FileState`.
  Typed input is a parameter.
- `json.load`/`json.loads` are a function parameter, so the model says nothing about which
  texts decode.
- `FixJsonStrong.Dump` writes `json.dump(indent=2, ensure_ascii=False)` only for dicts whose
  keys are digits and whose values need no escape; `FixJsonStrong.RecoverDump` holds for
  those. A value holding a quote, a backslash, a tab or another control character is
  written escaped, and that is not modelled.
- `FixJsonStrong.DropTrailingCommas`: its own contract states only that the text does not
  grow and gains no new character; `FixJsonStrong.DropIsKept` and `FixJsonStrong.DropIdentityIff` state which characters
  it drops.
- `Favorites.FavoritesFile.Save`: a failed save is a `saved` flag that leaves the file as it
  was. A write that fails part way through `json.dump`, after `open(..., 'w')` has emptied
  the file, is not modelled. The same holds for the write in
  `FixAndLoadJson.LoadAndFix` (the `written` flag) and in `FixJsonStrong.FixJsonFile`
  (`writeError`).
- `hashlib.md5` and `datetime.now()` are parameters.
- Printed messages, colours and the clipboard are left out. `backup_file` in
  `scripts/fix_json_strong.py` is left out, because it only copies a file.
- `os.makedirs` and `shutil.move` become `Move` records. Overwriting an existing
  destination is not modelled beyond `OrganizeTafasir.SameFirstWordSameTarget`, which shows
  that two names share a destination.
- `os.path.join` is modelled with POSIX rules. `os.path.basename` is the listed name itself.
- `PyText.Lower` folds ASCII letters only. Python's full Unicode case mapping is left out;
  Arabic letters have no case.
- `PyText.IsDigitChar` accepts ASCII digits and the Arabic-Indic and extended Arabic-Indic
  digits, not every Unicode decimal digit. `int()` of a sign or surrounding whitespace is
  not modelled; the callers strip first or test `isdigit()` first.
- `PyText.SplitLines` splits at line feeds only. Universal-newline translation of "\r\n"
  and "\r" is left out.
- `AiQuranInterpreter.FailureKeepsEarlierLines`: a read that fails part way is a
  `Reading` with the whole lines read before the error. A failure inside a line is not
  modelled.
- `TafsirFlex.FlexScan`: `int(number)` is modelled only for all-digit keys. A non-digit key
  that is named raises `ValueError` in the model, whatever its form.
- `Favorites.AnyHash`: a "hash" key holding JSON `null` or a non-string value is not
  represented; a record's hash is either a string or absent.
- JSON `null` is not represented in the other stored records either. In a `SurahNames` entry
  of the names table, a name is a string or absent. In a tafsir dict, a value is a string.
  A `null` name or tafsir makes `.strip()` or `.lower()` raise `AttributeError` in the
  source, and the model has no such case.
- `AddTafsir.AddTafsirSession`: `save_tafsir_file` (add_tafsir.py:18-21) does not catch
  errors, so a failed `open` or `json.dump` ends the script. The model assumes the save
  succeeds once the text decodes.
- `SearchTafsirTxt.SearchTafsirTxt`: the script opens each ".txt" file as strict UTF-8
  (search_tafsir_txt.py:20), so a file that is not valid UTF-8 ends it with
  `UnicodeDecodeError`. The model takes every file's contents as already decoded text.
- `TafsirSimple.GetTafsir`: its own contract states only which sentence starts the answer;
  the full content is stated by `TafsirSimple.NamesAyahAndSurah` and
  `TafsirSimple.OnlyArabicAndEnglish`.
- `TafsirFlex` reads `surahs.json` without a fallback, so a missing names file raises before
  any lookup; the model takes the table as given.
- `add_tafsir.py` does not always number a new file from 4: `max(existing, default=3) + 1`
  gives 2 for a folder holding only "1.json" (`AddTafsir.SingleFile`). The comment at
  `add_tafsir.py:16` says 4 only for a folder with no numbered file, which agrees.
- The comment at `organize_tafasir.py:12` gives `ibn_katheer` as an interpreter name, but
  the code takes only the text before the first "_", here `ibn`
  (`OrganizeTafasir.FirstWordOnly`).
