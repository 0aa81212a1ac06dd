/**
 * scripts/fix_and_load_json.py: load a JSON file; when it does not decode,
 * strip every control character and, if the cleaned text then decodes,
 * write the data back over the file.
 */
module FixAndLoadJson {
  import opened Wrappers
  import opened PyText
  import FixJsonStrong

  /** The class `[\x00-\x1F\x7F]`: every C0 control, tab and line feed included, and DEL. */
  predicate IsControl(c: char) {
    c as int <= 0x1F || c as int == 0x7F
  }

  /** `re.sub(r'[\x00-\x1F\x7F]', '', raw)` */
  function Clean(raw: string): (r: string)
    ensures |r| <= |raw|
    ensures forall i :: 0 <= i < |r| ==> !IsControl(r[i])
  {
    Filter((c: char) => !IsControl(c), raw)
  }

  /** Cleaning keeps exactly the characters outside the class. */
  lemma CleanKeeps(raw: string, c: char)
    ensures c in Clean(raw) <==> c in raw && !IsControl(c)
  {
    FilterMembership((c: char) => !IsControl(c), raw, c);
  }

  /** Cleaning twice is cleaning once. */
  lemma CleanIdempotent(raw: string)
    ensures Clean(Clean(raw)) == Clean(raw)
  {
    FilterIdempotent((c: char) => !IsControl(c), raw);
  }

  /** Cleaning changes the text exactly when it holds a control character. */
  lemma CleanIdentityIff(raw: string)
    ensures Clean(raw) == raw <==> forall i :: 0 <= i < |raw| ==> !IsControl(raw[i])
  {
    var p := (c: char) => !IsControl(c);
    FilterLength(p, raw);
    if forall i :: 0 <= i < |raw| ==> !IsControl(raw[i]) {
      FilterIdentity(p, raw);
    }
  }

  /** Unlike the sanitiser of fix_json_strong.py, cleaning deletes tab and line feed. */
  lemma CleanDropsLayout()
    ensures Clean("a\tb\n") == "ab"
    ensures FixJsonStrong.RemoveControl("a\tb\n") == "a\tb\n"
  {
    var s := "a\tb\n";
    assert Clean(s) == "ab" by {
      assert s[1..] == "\tb\n" && s[1..][1..] == "b\n" && s[1..][1..][1..] == "\n";
    }
    assert FixJsonStrong.RemoveControl(s) == s by {
      FilterIdentity((c: char) => !FixJsonStrong.IsStrippedControl(c), s);
    }
  }

  /** What `load_and_fix_json` ends with. */
  datatype LoadOutcome<D> =
    | AsIs(data: D)             // the file decoded; it is not written
    | Repaired(data: D)         // the cleaned text decoded and was written back
    | GaveUp                    // None is returned: the cleaned text did not decode or could not be written
    | Propagated(error: string) // the first open failed with something other than a decode error

  /**
   * `load_and_fix_json`, with `decode` standing for `json.loads` (None when it
   * raises a decode error) and `written` for whether writing the cleaned data
   * back succeeds. Only `Repaired` writes the file.
   */
  function LoadAndFix<D>(file: FileState<string>, decode: string -> Option<D>, written: bool): (r: LoadOutcome<D>)
    ensures r.AsIs? <==> file.Loaded? && decode(file.content).Some?
    ensures r.AsIs? ==> r.data == decode(file.content).value
    ensures r.Repaired? <==>
              file.Loaded? && decode(file.content).None? && decode(Clean(file.content)).Some? && written
    ensures r.Repaired? ==> r.data == decode(Clean(file.content)).value
    ensures r.GaveUp? <==>
              file.Loaded? && decode(file.content).None? && (decode(Clean(file.content)).None? || !written)
    ensures r.Propagated? <==> !file.Loaded?
  {
    match file
    case Missing => Propagated("No such file or directory")
    case Unreadable(message) => Propagated(message)
    case Loaded(raw) =>
      match decode(raw)
      case Some(data) => AsIs(data)
      case None =>
        match decode(Clean(raw))
        case Some(data) => if written then Repaired(data) else GaveUp
        case None => GaveUp
  }

  /** A file with no control character is never rewritten: if it does not decode, cleaning cannot help. */
  lemma CleanFileNeverRewritten<D>(raw: string, decode: string -> Option<D>, written: bool)
    requires forall i :: 0 <= i < |raw| ==> !IsControl(raw[i])
    ensures !LoadAndFix(Loaded(raw), decode, written).Repaired?
  {
    CleanIdentityIff(raw);
  }
}
