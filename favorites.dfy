/**
 * The favourites list of the Flask app (favorites.json): a list of saved
 * tafsir records identified by an md5 `hash`. `add_favorite` appends a record
 * unless one with the same hash is present; `remove_favorite` keeps every
 * record whose hash differs; the page marks a tafsir as favourited when some
 * record carries its hash.
 */
module Favorites {
  import opened Wrappers
  import opened PyText
  import TafsirSearch

  /**
   * One stored record. Every field is a form value, absent (`None`) when the
   * form did not send it; `hash` is `None` when the JSON object has no "hash" key.
   */
  datatype Favorite = Favorite(
    surahName: Option<string>,
    surahNumber: Option<string>,
    ayahNumber: Option<string>,
    ayahText: Option<string>,
    tafsir: Option<string>,
    lang: Option<string>,
    interpreter: Option<string>,
    translated: Option<string>,
    timestamp: string,
    hash: Option<string>)

  /** The fields `add_favorite` reads from the posted form (`request.form.get`). */
  datatype FavoriteForm = FavoriteForm(
    surahNumber: Option<string>,
    ayahNumber: Option<string>,
    tafsir: Option<string>,
    ayahText: Option<string>,
    surahName: Option<string>,
    lang: Option<string>,
    interpreter: Option<string>,
    translated: Option<string>,
    ayahHash: Option<string>)

  /** What one call of `add_favorite` did to the list. */
  datatype AddOutcome = Added | AlreadyPresent | Failed(kind: string)

  /** Some record carries hash `h`. */
  predicate HasHash(favs: seq<Favorite>, h: string) {
    exists i :: 0 <= i < |favs| && favs[i].hash == Some(h)
  }

  /** Every record has a "hash" key. */
  predicate AllHashed(favs: seq<Favorite>) {
    forall i :: 0 <= i < |favs| ==> favs[i].hash.Some?
  }

  /**
   * `any(fav['hash'] == h for fav in favorites)`: scans in order and stops at
   * the first equal hash; a record without a "hash" key reached before that
   * raises KeyError.
   */
  function AnyHash(favs: seq<Favorite>, h: string): (r: Result<bool>)
    ensures AllHashed(favs) ==> r == Ok(HasHash(favs, h))
    ensures r == Ok(true) ==> HasHash(favs, h)
    ensures r == Ok(false) ==> AllHashed(favs) && !HasHash(favs, h)
    ensures r.Raised? ==> r.kind == "KeyError" && !AllHashed(favs)
  {
    if favs == [] then Ok(false)
    else if favs[0].hash.None? then Raised("KeyError")
    else if favs[0].hash.value == h then Ok(true)
    else
      var rest := AnyHash(favs[1..], h);
      assert HasHash(favs, h) <==> HasHash(favs[1..], h) by {
        if HasHash(favs, h) {
          var i :| 0 <= i < |favs| && favs[i].hash == Some(h);
          assert favs[1..][i - 1] == favs[i];
        }
        if HasHash(favs[1..], h) {
          var i :| 0 <= i < |favs[1..]| && favs[1..][i].hash == Some(h);
          assert favs[i + 1] == favs[1..][i];
        }
      }
      assert AllHashed(favs) <==> AllHashed(favs[1..]) by {
        if AllHashed(favs[1..]) {
          forall i | 0 <= i < |favs| ensures favs[i].hash.Some? {
            if i > 0 { assert favs[i] == favs[1..][i - 1]; }
          }
        }
      }
      rest
  }

  /** The hash `add_favorite` files the record under: the form's `ayah_hash`, or md5 of "surah-ayah-tafsir" when it is missing or empty. */
  function FormHash(form: FavoriteForm, md5: string -> string): string {
    if form.ayahHash.Some? && form.ayahHash.value != "" then form.ayahHash.value
    else md5(TafsirSearch.HashInput(FormText(form.surahNumber), FormText(form.ayahNumber), FormText(form.tafsir)))
  }

  /** How an f-string renders a form value: an absent one prints as "None". */
  function FormText(v: Option<string>): string {
    if v.Some? then v.value else "None"
  }

  /** The record `add_favorite` appends. */
  function NewRecord(form: FavoriteForm, h: string, now: string): Favorite {
    Favorite(form.surahName, form.surahNumber, form.ayahNumber, form.ayahText, form.tafsir,
             form.lang, form.interpreter, form.translated, now, Some(h))
  }

  /** The list after `add_favorite`'s decision: unchanged when the hash is present, one record longer otherwise. */
  function AddToList(favs: seq<Favorite>, rec: Favorite): (r: Result<seq<Favorite>>)
    requires rec.hash.Some?
    ensures r.Ok? && HasHash(favs, rec.hash.value) ==> r.value == favs
    ensures r.Ok? && !HasHash(favs, rec.hash.value) ==> r.value == favs + [rec]
    ensures AllHashed(favs) ==> r.Ok?
  {
    match AnyHash(favs, rec.hash.value)
    case Raised(kind) => Raised(kind)
    case Ok(present) => if present then Ok(favs) else Ok(favs + [rec])
  }

  /** `remove_favorite`'s comprehension: keep the records whose `.get('hash')` differs from `h`. */
  function WithoutHash(favs: seq<Favorite>, h: string): (r: seq<Favorite>)
    ensures |r| <= |favs|
    ensures !HasHash(r, h)
  {
    Filter((fav: Favorite) => fav.hash != Some(h), favs)
  }

  /** Adding twice is adding once. */
  lemma AddIdempotent(favs: seq<Favorite>, rec: Favorite)
    requires rec.hash.Some?
    requires AddToList(favs, rec).Ok?
    ensures AddToList(AddToList(favs, rec).value, rec) == AddToList(favs, rec)
  {
    var h := rec.hash.value;
    var f1 := AddToList(favs, rec).value;
    if !HasHash(favs, h) {
      assert f1[|favs|] == rec;
      assert AllHashed(f1) by {
        forall i | 0 <= i < |f1| ensures f1[i].hash.Some? {
          if i < |favs| { assert f1[i] == favs[i]; }
        }
      }
      assert HasHash(f1, h);
    }
  }

  /** A new hash adds exactly one record carrying it, at the end, and the page then shows it as favourited. */
  lemma AddNewAppendsOne(favs: seq<Favorite>, rec: Favorite)
    requires rec.hash.Some? && AllHashed(favs) && !HasHash(favs, rec.hash.value)
    ensures AddToList(favs, rec) == Ok(favs + [rec])
    ensures |Filter((fav: Favorite) => fav.hash == Some(rec.hash.value), favs + [rec])| == 1
    ensures AnyHash(favs + [rec], rec.hash.value) == Ok(true)
  {
    var h := rec.hash.value;
    var p := (fav: Favorite) => fav.hash == Some(h);
    FilterAppend(p, favs, [rec]);
    assert Filter(p, favs) == [] by {
      if Filter(p, favs) != [] {
        FilterMembership(p, favs, Filter(p, favs)[0]);
        assert false;
      }
    }
    assert Filter(p, [rec]) == [rec];
    var f1 := favs + [rec];
    assert f1[|favs|] == rec;
    assert AllHashed(f1) by {
      forall i | 0 <= i < |f1| ensures f1[i].hash.Some? {
        if i < |favs| { assert f1[i] == favs[i]; }
      }
    }
  }

  /** A record without a "hash" key ahead of every match makes the membership test fail. */
  lemma AddFailsOnUnhashedRecord(favs: seq<Favorite>, rec: Favorite)
    requires rec.hash.Some? && favs != [] && favs[0].hash.None?
    ensures AddToList(favs, rec) == Raised("KeyError")
    ensures AnyHash(favs, rec.hash.value) == Raised("KeyError")
  {
  }

  /** Removing drops exactly the records with that hash and keeps the rest, in order. */
  lemma RemoveKeepsOthers(favs: seq<Favorite>, h: string, x: Favorite)
    ensures x in WithoutHash(favs, h) <==> x in favs && x.hash != Some(h)
  {
    FilterMembership((fav: Favorite) => fav.hash != Some(h), favs, x);
  }

  /** Removal distributes over concatenation, so the survivors keep their relative order. */
  lemma RemoveOrder(a: seq<Favorite>, b: seq<Favorite>, h: string)
    ensures WithoutHash(a + b, h) == WithoutHash(a, h) + WithoutHash(b, h)
  {
    FilterAppend((fav: Favorite) => fav.hash != Some(h), a, b);
  }

  /** The list shrinks, and is saved, exactly when some record carried the hash. */
  lemma RemoveShrinksIff(favs: seq<Favorite>, h: string)
    ensures |WithoutHash(favs, h)| < |favs| <==> HasHash(favs, h)
    ensures !HasHash(favs, h) ==> WithoutHash(favs, h) == favs
  {
    var p := (fav: Favorite) => fav.hash != Some(h);
    FilterLength(p, favs);
    if !HasHash(favs, h) {
      FilterIdentity(p, favs);
    }
  }

  /** Removing a hash just added restores the list. */
  lemma RemoveAfterAdd(favs: seq<Favorite>, rec: Favorite)
    requires rec.hash.Some? && !HasHash(favs, rec.hash.value)
    ensures WithoutHash(favs + [rec], rec.hash.value) == favs
  {
    var h := rec.hash.value;
    RemoveOrder(favs, [rec], h);
    RemoveShrinksIff(favs, h);
    assert WithoutHash([rec], h) == [];
  }

  /**
   * A record saved from a search result without its `ayah_hash` gets the same
   * fingerprint the search gave it, so the result then shows as favourited.
   */
  lemma FallbackHashMatchesSearch(r: TafsirSearch.SearchResult, form: FavoriteForm, md5: string -> string)
    requires r.hash == md5(TafsirSearch.HashInput(r.surahNumber, r.ayahNumber, r.tafsir))
    requires form.surahNumber == Some(r.surahNumber) && form.ayahNumber == Some(r.ayahNumber)
    requires form.tafsir == Some(r.tafsir) && (form.ayahHash.None? || form.ayahHash == Some(""))
    ensures FormHash(form, md5) == r.hash
  {
  }

  /** favorites.json, read by `load_favorites` and written by `save_favorites`. */
  class FavoritesFile {
    var file: FileState<seq<Favorite>>

    constructor (file: FileState<seq<Favorite>>)
      ensures this.file == file
    {
      this.file := file;
    }

    /** `load_favorites`: a missing file, or one that does not decode, reads as the empty list. */
    function Load(): (favs: seq<Favorite>)
      reads this
      ensures file.Loaded? ==> favs == file.content
      ensures !file.Loaded? ==> favs == []
    {
      if file.Loaded? then file.content else []
    }

    /**
     * `save_favorites`: `saved` says whether opening and dumping succeed. A
     * failure is logged and flashed, and the file keeps its old state.
     */
    method Save(favs: seq<Favorite>, saved: bool)
      modifies this
      ensures saved ==> file == Loaded(favs)
      ensures !saved ==> file == old(file)
    {
      if saved {
        file := Loaded(favs);
      }
    }

    /**
     * `add_favorite`: load, test the hash, append in place and save. The route
     * reports success whether or not the save went through.
     */
    method AddFavorite(form: FavoriteForm, md5: string -> string, now: string, saved: bool) returns (outcome: AddOutcome)
      modifies this
      ensures var rec := NewRecord(form, FormHash(form, md5), now);
              match AddToList(old(Load()), rec)
              case Raised(kind) => outcome == Failed(kind) && file == old(file)
              case Ok(favs) =>
                if favs == old(Load()) then outcome == AlreadyPresent && file == old(file)
                else outcome == Added && file == (if saved then Loaded(favs) else old(file))
    {
      var ayahHash := form.ayahHash;
      if ayahHash.None? || ayahHash.value == "" {
        ayahHash := Some(md5(TafsirSearch.HashInput(FormText(form.surahNumber), FormText(form.ayahNumber), FormText(form.tafsir))));
      }
      var favorites := Load();
      var present := AnyHash(favorites, ayahHash.value);
      if present.Raised? {
        outcome := Failed(present.kind);
      } else if present.value {
        outcome := AlreadyPresent;
      } else {
        favorites := favorites + [NewRecord(form, ayahHash.value, now)];
        Save(favorites, saved);
        outcome := Added;
      }
    }

    /** `remove_favorite`: filter, and save only when something was dropped. */
    method RemoveFavorite(h: string, saved: bool) returns (removed: bool)
      modifies this
      ensures removed <==> HasHash(old(Load()), h)
      ensures removed && saved ==> file == Loaded(WithoutHash(old(Load()), h))
      ensures !removed || !saved ==> file == old(file)
    {
      var favorites := Load();
      var newFavorites := WithoutHash(favorites, h);
      RemoveShrinksIff(favorites, h);
      if |newFavorites| < |favorites| {
        Save(newFavorites, saved);
        removed := true;
      } else {
        removed := false;
      }
    }
  }
}
