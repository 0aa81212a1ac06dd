/**
 * The Flask app's read-only lookups over the local verse table (quran.json)
 * and the per-surah tafsir files (tafasir_json/<n>.json).
 */
module LocalCorpus {
  import opened Wrappers
  import opened PyDict

  /** quran.json: surah key to (ayah key to verse text). Only lookups and sizes are used, so order is not kept. */
  type QuranData = map<string, map<string, string>>

  /** `get_ayah_text_from_quran_json`: `quran_data.get(surah_key, {}).get(ayah_key)` */
  function GetAyahText(surahKey: string, ayahKey: string, quran: QuranData): (r: Option<string>)
    ensures r.None? <==> surahKey !in quran || ayahKey !in quran[surahKey]
    ensures r.Some? ==> r.value == quran[surahKey][ayahKey]
  {
    var ayahs := if surahKey in quran then quran[surahKey] else map[];
    if ayahKey in ayahs then Some(ayahs[ayahKey]) else None
  }

  /** `get_total_ayahs_in_surah`: `len(quran_data.get(surah_key, {}))` */
  function TotalAyahs(surahKey: string, quran: QuranData): (n: nat)
    ensures surahKey !in quran ==> n == 0
  {
    if surahKey in quran then |quran[surahKey]| else 0
  }

  /** The count is zero exactly when no verse of the surah can be looked up. */
  lemma TotalAyahsZero(surahKey: string, quran: QuranData)
    ensures TotalAyahs(surahKey, quran) == 0 <==> forall a :: GetAyahText(surahKey, a, quran).None?
  {
    if TotalAyahs(surahKey, quran) != 0 {
      var a :| a in quran[surahKey];
      assert GetAyahText(surahKey, a, quran).Some?;
    }
  }

  /** `get_tafsir_data_local`: a missing file and a file that fails to decode both read as the empty dict. */
  function TafsirDataLocal(file: FileState<Dict<string>>): (d: Dict<string>)
    ensures file.Loaded? ==> d == file.content
    ensures !file.Loaded? ==> d == []
  {
    match file
    case Loaded(content) => content
    case _ => []
  }
}
