/**
 * tafsir_simple.py: a placeholder lookup that answers with a sentence naming
 * the ayah and the surah, in Arabic or English, and refuses any other language.
 */
module TafsirSimple {
  import opened PyText

  /** The three fixed pieces of the Arabic sentence, around the ayah and the surah. */
  const ArabicOpening: string := "تفسير الآية "
  const ArabicMiddle: string := " من السورة "
  const ArabicClosing: string := " بالعربية."

  /** The three fixed pieces of the English sentence. */
  const EnglishOpening: string := "Tafsir of Ayah "
  const EnglishMiddle: string := " from Surah "
  const EnglishClosing: string := " in English."

  /** The answer for any language other than "ar" and "en". */
  const Unsupported: string := "اللغة غير مدعومة."

  /**
   * `get_tafsir(lang, surah, ayah)`: the language test is exact, so "AR" or
   * " ar" is refused; the function is total and never raises.
   */
  function GetTafsir(lang: string, surah: string, ayah: string): (r: string)
    ensures lang == "ar" ==> StartsWith(r, ArabicOpening)
    ensures lang == "en" ==> StartsWith(r, EnglishOpening)
  {
    if lang == "ar" then ArabicOpening + ayah + ArabicMiddle + surah + ArabicClosing
    else if lang == "en" then EnglishOpening + ayah + EnglishMiddle + surah + EnglishClosing
    else Unsupported
  }

  /**
   * The three answers are told apart by their first character, so the refusal
   * comes back exactly for the languages other than "ar" and "en", and each
   * sentence opens with its own language's words only for that language.
   */
  lemma OnlyArabicAndEnglish(lang: string, surah: string, ayah: string)
    ensures GetTafsir(lang, surah, ayah) == Unsupported <==> lang != "ar" && lang != "en"
    ensures StartsWith(GetTafsir(lang, surah, ayah), ArabicOpening) <==> lang == "ar"
    ensures StartsWith(GetTafsir(lang, surah, ayah), EnglishOpening) <==> lang == "en"
  {
    var r := GetTafsir(lang, surah, ayah);
    assert ArabicOpening[0] != EnglishOpening[0] && ArabicOpening[0] != Unsupported[0] && EnglishOpening[0] != Unsupported[0];
    if lang == "ar" {
      assert r[0] == ArabicOpening[0];
    } else if lang == "en" {
      assert r[0] == EnglishOpening[0];
    } else {
      assert r == Unsupported;
    }
  }

  /**
   * `main()`: the three answers are stripped and the language is lower-cased
   * before the lookup; the prompts and the final print are I/O.
   */
  function AskTafsir(langRaw: string, surahRaw: string, ayahRaw: string): (r: string)
    ensures Lower(Strip(langRaw)) == "ar" ==> StartsWith(r, ArabicOpening)
    ensures Lower(Strip(langRaw)) == "en" ==> StartsWith(r, EnglishOpening)
  {
    GetTafsir(Lower(Strip(langRaw)), Strip(surahRaw), Strip(ayahRaw))
  }

  /**
   * A supported answer names the ayah and then the surah, each at the place
   * right after the fixed words that introduce it.
   */
  lemma NamesAyahAndSurah(lang: string, surah: string, ayah: string)
    requires lang == "ar" || lang == "en"
    ensures var opening := if lang == "ar" then ArabicOpening else EnglishOpening;
            var middle := if lang == "ar" then ArabicMiddle else EnglishMiddle;
            && OccursAt(GetTafsir(lang, surah, ayah), ayah, |opening|)
            && OccursAt(GetTafsir(lang, surah, ayah), surah, |opening| + |ayah| + |middle|)
    ensures Contains(GetTafsir(lang, surah, ayah), ayah) && Contains(GetTafsir(lang, surah, ayah), surah)
  {
    var opening := if lang == "ar" then ArabicOpening else EnglishOpening;
    var middle := if lang == "ar" then ArabicMiddle else EnglishMiddle;
    var closing := if lang == "ar" then ArabicClosing else EnglishClosing;
    var r := GetTafsir(lang, surah, ayah);
    assert r == opening + ayah + middle + surah + closing;
    var i := |opening|;
    var j := |opening| + |ayah| + |middle|;
    assert r[i..i + |ayah|] == ayah;
    assert r[j..j + |surah|] == surah;
    OccursAtContains(r, ayah, i);
    OccursAtContains(r, surah, j);
  }

  /**
   * Within one language the answer determines the ayah and the surah when the
   * ayah is a string of digits: the digits end where the fixed middle words begin.
   */
  lemma AnswerDeterminesNumbers(lang: string, surah: string, ayah: string, surah': string, ayah': string)
    requires lang == "ar" || lang == "en"
    requires IsDigits(ayah) && IsDigits(ayah')
    requires GetTafsir(lang, surah, ayah) == GetTafsir(lang, surah', ayah')
    ensures ayah == ayah' && surah == surah'
  {
    if lang == "ar" {
      Unframe(ArabicOpening, ArabicMiddle, ArabicClosing, surah, ayah, surah', ayah');
    } else {
      Unframe(EnglishOpening, EnglishMiddle, EnglishClosing, surah, ayah, surah', ayah');
    }
  }

  /** Fixed words around a digit string and a free string can be taken off again. */
  lemma Unframe(opening: string, middle: string, closing: string, surah: string, ayah: string, surah': string, ayah': string)
    requires middle != [] && !IsDigitChar(middle[0])
    requires AllDigits(ayah) && AllDigits(ayah')
    requires opening + ayah + middle + surah + closing == opening + ayah' + middle + surah' + closing
    ensures ayah == ayah' && surah == surah'
  {
    var r := opening + ayah + middle + surah + closing;
    var r' := opening + ayah' + middle + surah' + closing;
    var o := |opening|;
    assert r[o..] == ayah + (middle + surah + closing);
    assert r'[o..] == ayah' + (middle + surah' + closing);
    DigitsThenWord(ayah, ayah', middle + surah + closing, middle + surah' + closing);
    assert (middle + surah + closing)[|middle|..|middle| + |surah|] == surah;
    assert (middle + surah' + closing)[|middle|..|middle| + |surah'|] == surah';
  }

  /** Two digit strings, each followed by text that starts with a non-digit, split a string the same way. */
  lemma DigitsThenWord(a: string, a': string, b: string, b': string)
    requires AllDigits(a) && AllDigits(a') && a + b == a' + b'
    requires b != [] && !IsDigitChar(b[0]) && b' != [] && !IsDigitChar(b'[0])
    ensures a == a' && b == b'
  {
    LeadingDigitsOf(a, b);
    LeadingDigitsOf(a', b');
    assert a == (a + b)[..|a|] && b == (a + b)[|a|..];
    assert a' == (a' + b')[..|a'|] && b' == (a' + b')[|a'|..];
  }

  /** The number of digits `s` starts with. */
  function LeadingDigits(s: string): (n: nat)
    ensures n <= |s| && AllDigits(s[..n])
  {
    if s != [] && IsDigitChar(s[0]) then
      var n := 1 + LeadingDigits(s[1..]);
      assert s[..n] == [s[0]] + s[1..][..n - 1];
      n
    else 0
  }

  /** A digit string followed by a non-digit: the leading digits are exactly the digit string. */
  lemma {:induction false} LeadingDigitsOf(a: string, b: string)
    requires AllDigits(a) && b != [] && !IsDigitChar(b[0])
    ensures LeadingDigits(a + b) == |a|
  {
    if a != [] {
      assert (a + b)[0] == a[0] && (a + b)[1..] == a[1..] + b;
      LeadingDigitsOf(a[1..], b);
    } else {
      assert a + b == b;
    }
  }

  /** Upper-case or padded "ar" typed at the prompt still selects Arabic, because main strips and lower-cases it. */
  lemma AskTafsirIgnoresCaseAndPadding(langRaw: string, surahRaw: string, ayahRaw: string)
    requires Strip(langRaw) == "AR" || Strip(langRaw) == "Ar" || Strip(langRaw) == "aR" || Strip(langRaw) == "ar"
    ensures AskTafsir(langRaw, surahRaw, ayahRaw) == GetTafsir("ar", Strip(surahRaw), Strip(ayahRaw))
    ensures GetTafsir(Strip(langRaw), Strip(surahRaw), Strip(ayahRaw)) == Unsupported <==> Strip(langRaw) != "ar"
  {
    var t := Strip(langRaw);
    assert Lower(t) == [LowerChar(t[0])] + Lower(t[1..]);
    assert Lower(t[1..]) == [LowerChar(t[1])] + Lower(t[2..]);
    assert Lower(t) == "ar";
  }
}
