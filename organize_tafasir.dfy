/**
 * organize_tafasir.py: move each `<interpreter>_..._<surah>.json` file of the
 * folder into a sub-folder named after the interpreter, as `<surah>.json`.
 */
module OrganizeTafasir {
  import opened Wrappers
  import opened PyText

  /** `os.path.join(a, b)` on POSIX, for two components. */
  function PathJoin(a: string, b: string): (r: string)
    ensures !StartsWith(b, "/") && a != [] && !EndsWith(a, "/") ==> r == a + "/" + b
  {
    if StartsWith(b, "/") then b
    else if a == [] || EndsWith(a, "/") then a + b
    else a + "/" + b
  }

  /** The names the script moves (line 9). */
  predicate IsMoved(file: string) {
    EndsWith(file, ".json") && '_' in file
  }

  /** Lines 9-13: the interpreter folder and the surah name a file goes to, when the script moves it. */
  function Destination(file: string): Option<(string, string)> {
    if EndsWith(file, ".json") && '_' in file then
      var parts := Split(file, '_');
      if |parts| >= 2 then Some((parts[0], ReplaceAll(parts[|parts| - 1], ".json", []))) else None
    else None
  }

  /** One `shutil.move`: from `source` into `folder` (created first) under the path `target`. */
  datatype Move = Move(source: string, folder: string, target: string)

  /** Lines 15-19 for one file of the folder `base`. */
  function MoveOf(base: string, file: string): Option<Move> {
    match Destination(file)
    case None => None
    case Some((interpreter, surah)) =>
      var folder := PathJoin(base, interpreter);
      Some(Move(PathJoin(base, file), folder, PathJoin(folder, surah + ".json")))
  }

  /** The moves the loop makes over the listing `files`, in listing order. */
  function Moves(base: string, files: seq<string>): seq<Move> {
    if files == [] then []
    else
      Moves(base, files[..|files| - 1]) +
      match MoveOf(base, files[|files| - 1])
      case None => []
      case Some(move) => [move]
  }

  /** The script over the listing of `base`: the moves it makes (the directory creation, the moves and the messages are I/O). */
  method Organize(base: string, files: seq<string>) returns (moves: seq<Move>)
    ensures moves == Moves(base, files)
  {
    moves := [];
    var k := 0;
    while k < |files|
      invariant 0 <= k <= |files|
      invariant moves == Moves(base, files[..k])
    {
      assert files[..k + 1][..k] == files[..k];
      var file := files[k];
      if EndsWith(file, ".json") && '_' in file {
        var parts := Split(file, '_');
        if |parts| >= 2 {
          var mufassir := parts[0];
          var surahNum := ReplaceAll(parts[|parts| - 1], ".json", []);
          var destFolder := PathJoin(base, mufassir);
          var srcPath := PathJoin(base, file);
          var destPath := PathJoin(destFolder, surahNum + ".json");
          moves := moves + [Move(srcPath, destFolder, destPath)];
        }
      }
      k := k + 1;
    }
    assert files[..|files|] == files;
  }

  /** Given the "_", the `len(parts) >= 2` guard never rejects: exactly the ".json" names with a "_" are moved. */
  lemma GuardNeverRejects(file: string)
    ensures Destination(file).Some? <==> IsMoved(file)
  {
    SplitCount(file, '_');
  }

  /**
   * The interpreter folder is the text before the FIRST "_", without any "_";
   * the surah name is the text after the LAST "_" with ".json" taken out, and
   * nothing checks that it is a number.
   */
  lemma DestinationParts(file: string, interpreter: string, surah: string)
    requires Destination(file) == Some((interpreter, surah))
    ensures interpreter == file[..IndexOfChar(file, '_')] && '_' !in interpreter
    ensures exists last :: '_' !in last && EndsWith(file, "_" + last) && surah == ReplaceAll(last, ".json", [])
  {
    var parts := Split(file, '_');
    assert interpreter == parts[0];
    SplitFirstPart(file, '_');
    SplitLastPart(file, '_');
    var last := parts[|parts| - 1];
    assert ['_'] + last == "_" + last;
    assert '_' !in last && EndsWith(file, "_" + last) && surah == ReplaceAll(last, ".json", []);
  }

  /** Three words without the separator, joined by it, split back into the three words. */
  lemma SplitThree(a: string, b: string, c: string, sep: char)
    requires sep !in a && sep !in b && sep !in c
    ensures Split(a + [sep] + b + [sep] + c, sep) == [a, b, c]
  {
    assert a + [sep] + b + [sep] + c == a + [sep] + (b + [sep] + c);
    SplitAtSeparator(a, sep, b + [sep] + c);
    SplitAtSeparator(b, sep, c);
    SplitNoSeparator(c, sep);
  }

  /** A name made of three "_"-free words, the last one a ".json" name, goes to the first word's folder. */
  lemma ThreeWords(a: string, b: string, c: string, file: string)
    requires '_' !in a && '_' !in b && '_' !in c && EndsWith(c, ".json")
    requires file == a + ['_'] + b + ['_'] + c
    ensures Destination(file) == Some((a, ReplaceAll(c, ".json", [])))
  {
    SplitThree(a, b, c, '_');
    assert file[|a|] == '_';
    assert file[|file| - 5..] == c[|c| - 5..];
  }

  /**
   * Interpreters are told apart by their first word only: the files of two
   * interpreters whose names share it, for the same surah, get the same
   * destination, so the second move replaces the first file.
   */
  lemma SameFirstWordSameTarget(a: string, b: string, b': string, c: string)
    requires '_' !in a && '_' !in b && '_' !in b' && '_' !in c && EndsWith(c, ".json")
    ensures Destination(a + "_" + b + "_" + c) == Destination(a + "_" + b' + "_" + c)
  {
    ThreeWords(a, b, c, a + "_" + b + "_" + c);
    ThreeWords(a, b', c, a + "_" + b' + "_" + c);
  }

  /** "ibn_katheer_2.json" goes to the folder "ibn", not "ibn_katheer", under the name "2". */
  lemma FirstWordOnly(file: string)
    requires file == "ibn_katheer_2.json"
    ensures Destination(file) == Some(("ibn", "2"))
  {
    var two := "2";
    ReplaceAllSuffix(two, ".json");
    assert "ibn" + ['_'] + "katheer" + ['_'] + (two + ".json") == file;
    ThreeWords("ibn", "katheer", two + ".json", file);
  }

  /** One move per moved name: the other names of the listing are left where they are. */
  lemma {:induction false} MovesCount(base: string, files: seq<string>)
    ensures |Moves(base, files)| == |Filter(IsMoved, files)|
  {
    if files != [] {
      var init := files[..|files| - 1];
      var last := files[|files| - 1];
      assert files == init + [last];
      MovesCount(base, init);
      FilterAppend(IsMoved, init, [last]);
      assert [last][1..] == [];
      GuardNeverRejects(last);
    }
  }

  /** `move` is made for the file `file`. */
  predicate MovedFrom(base: string, files: seq<string>, move: Move) {
    exists i :: 0 <= i < |files| && MoveOf(base, files[i]) == Some(move)
  }

  /** Every move comes from a name of the listing. */
  lemma {:induction false} MovesSound(base: string, files: seq<string>)
    ensures forall move :: move in Moves(base, files) ==> MovedFrom(base, files, move)
  {
    if files != [] {
      var n := |files|;
      var init := files[..n - 1];
      var prev := Moves(base, init);
      var here := match MoveOf(base, files[n - 1]) case None => [] case Some(move) => [move];
      assert Moves(base, files) == prev + here;
      MovesSound(base, init);
      forall move | move in prev + here ensures MovedFrom(base, files, move) {
        if move in prev {
          var i :| 0 <= i < |init| && MoveOf(base, init[i]) == Some(move);
          assert init[i] == files[i];
        } else {
          assert MoveOf(base, files[n - 1]) == Some(move);
        }
      }
    }
  }

  /** Deleting a pattern adds no character. */
  lemma {:induction false} ReplaceAllKeepsOut(s: string, pat: string, c: char)
    requires |pat| > 0 && c !in s
    ensures c !in ReplaceAll(s, pat, [])
    decreases |s|
  {
    if |s| >= |pat| {
      if s[..|pat|] == pat {
        ReplaceAllKeepsOut(s[|pat|..], pat, c);
      } else {
        ReplaceAllKeepsOut(s[1..], pat, c);
      }
    }
  }

  /** A name from a directory listing holds no "/", and neither do the interpreter and surah taken from it. */
  lemma NoSlashInParts(file: string, interpreter: string, surah: string)
    requires '/' !in file && Destination(file) == Some((interpreter, surah))
    ensures '/' !in interpreter && '/' !in surah
  {
    var parts := Split(file, '_');
    var last := parts[|parts| - 1];
    SplitFirstPart(file, '_');
    SplitLastPart(file, '_');
    assert last == file[|file| - |last|..];
    ReplaceAllKeepsOut(last, ".json", '/');
  }

  /** Joining a folder name and then a file name onto `base`. */
  lemma JoinTwice(base: string, folder: string, name: string)
    requires base != [] && !EndsWith(base, "/") && '/' !in folder && name != [] && name[0] != '/'
    ensures PathJoin(PathJoin(base, folder), name) ==
              if folder == [] then base + "/" + name else base + "/" + folder + "/" + name
  {
    assert !StartsWith(name, "/");
    if folder == [] {
      assert PathJoin(base, folder) == base + "/";
    } else {
      assert !StartsWith(folder, "/");
      var f := base + "/" + folder;
      assert f[|f| - 1] == folder[|folder| - 1];
      assert !EndsWith(f, "/");
    }
  }

  /**
   * The destination is `<base>/<interpreter>/<surah>.json`, and a name that
   * starts with "_" has an empty interpreter and stays in `<base>` as `<surah>.json`.
   * Names from a directory listing hold no "/".
   */
  lemma TargetPath(base: string, file: string, interpreter: string, surah: string)
    requires base != [] && !EndsWith(base, "/") && '/' !in file
    requires Destination(file) == Some((interpreter, surah))
    ensures MoveOf(base, file) == Some(Move(base + "/" + file, PathJoin(base, interpreter),
              if interpreter == [] then base + "/" + (surah + ".json") else base + "/" + interpreter + "/" + (surah + ".json")))
  {
    NoSlashInParts(file, interpreter, surah);
    var name := surah + ".json";
    assert name[0] == if surah == [] then '.' else surah[0];
    JoinTwice(base, interpreter, name);
    assert MoveOf(base, file) == Some(Move(PathJoin(base, file), PathJoin(base, interpreter), PathJoin(PathJoin(base, interpreter), name)));
    assert !StartsWith(file, "/") by {
      assert file != [] ==> file[0] in file;
    }
  }
}
