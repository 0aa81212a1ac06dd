/**
 * scripts/fix_json_strong.py: sanitise the text of a damaged tafsir file
 * (drop control characters, straighten curly quotes, drop trailing commas)
 * and, when it still does not parse, recover every `"digits": "text"` pair
 * into a fresh dict that replaces the file.
 */
module FixJsonStrong {
  import opened Wrappers
  import opened PyText
  import opened PyDict

  // ---------------------------------------------------------------------------
  // sanitize_json_text
  // ---------------------------------------------------------------------------

  /** The class `[\x00-\x08\x0b-\x0c\x0e-\x1f]`: C0 controls except tab, line feed and carriage return. */
  predicate IsStrippedControl(c: char) {
    c as int <= 0x08 || c as int == 0x0B || c as int == 0x0C || 0x0E <= c as int <= 0x1F
  }

  /** The first substitution: every character of the class is deleted. */
  function RemoveControl(s: string): (r: string)
    ensures |r| <= |s|
    ensures forall i :: 0 <= i < |r| ==> !IsStrippedControl(r[i])
  {
    Filter((c: char) => !IsStrippedControl(c), s)
  }

  /** Tab, line feed and carriage return, and every other character outside the class, survive. */
  lemma RemoveControlKeeps(s: string, c: char)
    ensures c in RemoveControl(s) <==> c in s && !IsStrippedControl(c)
    ensures c == '\t' || c == '\n' || c == '\r' ==> (c in RemoveControl(s) <==> c in s)
  {
    FilterMembership((c: char) => !IsStrippedControl(c), s, c);
  }

  /** `s.replace(a, b)` for one character by one character. */
  function ReplaceChar(s: string, a: char, b: char): (r: string)
    ensures |r| == |s|
    ensures forall i :: 0 <= i < |s| ==> r[i] == if s[i] == a then b else s[i]
  {
    if s == [] then [] else [if s[0] == a then b else s[0]] + ReplaceChar(s[1..], a, b)
  }

  /** For a one-character pattern, `str.replace` is that pointwise substitution. */
  lemma {:induction false} ReplaceAllChar(s: string, a: char, b: char)
    ensures ReplaceAll(s, [a], [b]) == ReplaceChar(s, a, b)
  {
    if s != [] {
      ReplaceAllChar(s[1..], a, b);
      assert s[..1] == [s[0]];
    }
  }

  const LeftDouble: char := '\U{201C}'
  const RightDouble: char := '\U{201D}'
  const LeftSingle: char := '\U{2018}'
  const RightSingle: char := '\U{2019}'

  /** The quote a curly quote becomes. */
  function StraightQuote(c: char): char {
    if c == LeftDouble || c == RightDouble then '"'
    else if c == LeftSingle || c == RightSingle then '\''
    else c
  }

  /** The chain of four `replace` calls on the curly quotes. */
  function NormalizeQuotes(s: string): string {
    var t := ReplaceAll(s, [LeftDouble], ['"']);
    var u := ReplaceAll(t, [RightDouble], ['"']);
    var v := ReplaceAll(u, [LeftSingle], ['\'']);
    ReplaceAll(v, [RightSingle], ['\''])
  }

  /** The chain replaces each curly quote by its straight quote, one for one, and changes nothing else. */
  lemma NormalizeQuotesPointwise(s: string)
    ensures |NormalizeQuotes(s)| == |s|
    ensures forall i :: 0 <= i < |s| ==> NormalizeQuotes(s)[i] == StraightQuote(s[i])
  {
    var t := ReplaceAll(s, [LeftDouble], ['"']);
    ReplaceAllChar(s, LeftDouble, '"');
    var u := ReplaceAll(t, [RightDouble], ['"']);
    ReplaceAllChar(t, RightDouble, '"');
    var v := ReplaceAll(u, [LeftSingle], ['\'']);
    ReplaceAllChar(u, LeftSingle, '\'');
    ReplaceAllChar(v, RightSingle, '\'');
  }

  /** The number of leading whitespace characters of `t`: what a greedy `\s*` consumes. */
  function SpaceRun(t: string): (n: nat)
    ensures n <= |t|
  {
    if t == [] || !IsSpace(t[0]) then 0 else 1 + SpaceRun(t[1..])
  }

  /** The run is all whitespace and stops at the first other character. */
  lemma {:induction false} SpaceRunSpec(t: string)
    ensures forall i :: 0 <= i < SpaceRun(t) ==> IsSpace(t[i])
    ensures SpaceRun(t) < |t| ==> !IsSpace(t[SpaceRun(t)])
  {
    if t != [] && IsSpace(t[0]) {
      SpaceRunSpec(t[1..]);
      assert forall i :: 1 <= i < |t| ==> t[i] == t[1..][i - 1];
    }
  }

  /** The number of leading digits of `t`: what a greedy `\d+` consumes. */
  function DigitRun(t: string): (n: nat)
    ensures n <= |t|
  {
    if t == [] || !IsDigitChar(t[0]) then 0 else 1 + DigitRun(t[1..])
  }

  /** The run is all digits and stops at the first other character. */
  lemma {:induction false} DigitRunSpec(t: string)
    ensures forall i :: 0 <= i < DigitRun(t) ==> IsDigitChar(t[i])
    ensures DigitRun(t) < |t| ==> !IsDigitChar(t[DigitRun(t)])
  {
    if t != [] && IsDigitChar(t[0]) {
      DigitRunSpec(t[1..]);
      assert forall i :: 1 <= i < |t| ==> t[i] == t[1..][i - 1];
    }
  }

  /** A whitespace run over `a + b`, where `a` is all whitespace and `b` starts with something else, stops at `|a|`. */
  lemma {:induction false} SpaceRunPrefix(a: string, b: string)
    requires forall i :: 0 <= i < |a| ==> IsSpace(a[i])
    requires b != [] && !IsSpace(b[0])
    ensures SpaceRun(a + b) == |a|
  {
    if a != [] {
      assert (a + b)[1..] == a[1..] + b;
      SpaceRunPrefix(a[1..], b);
    } else {
      assert a + b == b;
    }
  }

  /** A digit run over `a + b`, where `a` is all digits and `b` starts with something else, stops at `|a|`. */
  lemma {:induction false} DigitRunPrefix(a: string, b: string)
    requires forall i :: 0 <= i < |a| ==> IsDigitChar(a[i])
    requires b != [] && !IsDigitChar(b[0])
    ensures DigitRun(a + b) == |a|
  {
    if a != [] {
      assert (a + b)[1..] == a[1..] + b;
      DigitRunPrefix(a[1..], b);
    } else {
      assert a + b == b;
    }
  }

  predicate IsCloser(c: char) {
    c == '}' || c == ']'
  }

  /**
   * `re.sub(r",\s*([}\]])", r"\1", text)`: scanning left to right, a comma,
   * the whitespace after it and a closing bracket become the bracket; the scan
   * resumes after the bracket, so the replacement is a single pass.
   */
  function DropTrailingCommas(s: string): (r: string)
    ensures |r| <= |s|
    ensures forall i :: 0 <= i < |r| ==> r[i] in s
    decreases |s|
  {
    if s == [] then []
    else
      var k := SpaceRun(s[1..]);
      if s[0] == ',' && 1 + k < |s| && IsCloser(s[1 + k]) then
        var rest := DropTrailingCommas(s[2 + k..]);
        assert forall i :: 0 <= i < |rest| ==> rest[i] in s by {
          forall i | 0 <= i < |rest| ensures rest[i] in s {
            var j :| 0 <= j < |s[2 + k..]| && s[2 + k..][j] == rest[i];
            assert s[2 + k + j] == rest[i];
          }
        }
        [s[1 + k]] + rest
      else
        var rest := DropTrailingCommas(s[1..]);
        assert forall i :: 0 <= i < |rest| ==> rest[i] in s by {
          forall i | 0 <= i < |rest| ensures rest[i] in s {
            var j :| 0 <= j < |s[1..]| && s[1..][j] == rest[i];
            assert s[1 + j] == rest[i];
          }
        }
        [s[0]] + rest
  }

  /** `s[i..c + 1]` is a match of `,\s*[}\]]`: a comma, only whitespace, then a closing bracket at `c`. */
  predicate TrailingCommaMatch(s: string, i: int, c: int) {
    0 <= i < c < |s| && s[i] == ',' && IsCloser(s[c]) && forall m :: i < m < c ==> IsSpace(s[m])
  }

  /** The text holds a match of `,\s*[}\]]` somewhere. */
  ghost predicate HasTrailingComma(s: string) {
    exists i, c :: TrailingCommaMatch(s, i, c)
  }

  /** Position `j` lies in a match before its closing bracket: the part the substitution deletes. */
  ghost predicate Deleted(s: string, j: int) {
    exists i, c :: i <= j < c && TrailingCommaMatch(s, i, c)
  }

  /** The characters at positions `j` and later that no match deletes, in order. */
  ghost function KeptFrom(s: string, j: nat): string
    requires j <= |s|
    decreases |s| - j
  {
    if j == |s| then [] else (if Deleted(s, j) then [] else [s[j]]) + KeptFrom(s, j + 1)
  }

  /** A match lies wholly at or after `d` exactly when its shifted copy is a match in `s[d..]`. */
  lemma MatchShift(s: string, d: nat, i: int, c: int)
    requires d <= i && d <= |s|
    ensures TrailingCommaMatch(s, i, c) <==> TrailingCommaMatch(s[d..], i - d, c - d)
  {
    var t := s[d..];
    if i < c < |s| {
      assert forall m :: i - d < m < c - d ==> t[m] == s[m + d];
      if forall m :: i < m < c ==> IsSpace(s[m]) {
        forall m | i - d < m < c - d ensures IsSpace(t[m]) {
          assert IsSpace(s[m + d]);
        }
      }
      if forall m :: i - d < m < c - d ==> IsSpace(t[m]) {
        forall m | i < m < c ensures IsSpace(s[m]) {
          assert IsSpace(t[m - d]);
        }
      }
    }
  }

  /** When no match starts before `d` and ends at or after it, deletion in `s[d..]` is deletion in `s`, shifted. */
  lemma DeletedShift(s: string, d: nat, p: nat)
    requires d <= p < |s|
    requires forall i, c :: TrailingCommaMatch(s, i, c) && i < d ==> c < d
    ensures Deleted(s, p) <==> Deleted(s[d..], p - d)
  {
    if Deleted(s, p) {
      var i, c :| i <= p < c && TrailingCommaMatch(s, i, c);
      MatchShift(s, d, i, c);
      assert i - d <= p - d < c - d && TrailingCommaMatch(s[d..], i - d, c - d);
    }
    if Deleted(s[d..], p - d) {
      var i, c :| i <= p - d < c && TrailingCommaMatch(s[d..], i, c);
      MatchShift(s, d, i + d, c + d);
      assert i + d <= p < c + d && TrailingCommaMatch(s, i + d, c + d);
    }
  }

  /** What survives from `j` on is what survives in `s[d..]` from `j - d` on, when deletion agrees after `d`. */
  lemma {:induction false} KeptShift(s: string, d: nat, j: nat)
    requires d <= j <= |s|
    requires forall p :: d <= p < |s| ==> (Deleted(s, p) <==> Deleted(s[d..], p - d))
    ensures KeptFrom(s, j) == KeptFrom(s[d..], j - d)
    decreases |s| - j
  {
    if j < |s| {
      KeptShift(s, d, j + 1);
      assert s[d..][j - d] == s[j];
    }
  }

  /** Deleted positions contribute nothing. */
  lemma {:induction false} KeptSkip(s: string, j: nat, e: nat)
    requires j <= e <= |s|
    requires forall p :: j <= p < e ==> Deleted(s, p)
    ensures KeptFrom(s, j) == KeptFrom(s, e)
    decreases e - j
  {
    if j < e {
      KeptSkip(s, j + 1, e);
    }
  }

  /** Where the scan matches at 0, the comma and whitespace go, the bracket stays, and no match straddles the bracket. */
  lemma MatchFirst(s: string, k: nat)
    requires s != [] && k == SpaceRun(s[1..]) && s[0] == ',' && 1 + k < |s| && IsCloser(s[1 + k])
    ensures forall p :: 0 <= p <= k ==> Deleted(s, p)
    ensures !Deleted(s, 1 + k)
    ensures forall i, c :: TrailingCommaMatch(s, i, c) && i < 2 + k ==> c < 2 + k
  {
    SpaceRunSpec(s[1..]);
    forall m | 0 < m < 1 + k ensures IsSpace(s[m]) {
      assert s[m] == s[1..][m - 1];
    }
    assert TrailingCommaMatch(s, 0, 1 + k);
    forall p | 0 <= p <= k ensures Deleted(s, p) {
      assert 0 <= p < 1 + k && TrailingCommaMatch(s, 0, 1 + k);
    }
    forall i, c | TrailingCommaMatch(s, i, c) && i < 2 + k ensures c < 2 + k {
      assert i == 0 || IsSpace(s[i]) || i == 1 + k;
    }
  }

  /** A match starting at 0 ends where the whitespace run after the comma ends. */
  lemma MatchAtZero(s: string)
    requires s != []
    ensures forall c :: TrailingCommaMatch(s, 0, c) ==> c == 1 + SpaceRun(s[1..])
  {
    var k := SpaceRun(s[1..]);
    SpaceRunSpec(s[1..]);
    assert forall x :: 0 <= x < |s| - 1 ==> s[1..][x] == s[x + 1];
  }

  /** Where the scan does not match at 0, no match starts there, so `s[0]` stays. */
  lemma NoMatchFirst(s: string, k: nat)
    requires s != [] && k == SpaceRun(s[1..])
    requires !(s[0] == ',' && 1 + k < |s| && IsCloser(s[1 + k]))
    ensures forall i, c :: TrailingCommaMatch(s, i, c) && i < 1 ==> c < 1
    ensures !Deleted(s, 0)
  {
    MatchAtZero(s);
  }

  /**
   * The comma step is `s` with exactly the deleted positions removed: every
   * comma followed by whitespace and a closing bracket goes, with that
   * whitespace, and nothing else does.
   */
  lemma {:induction false} DropIsKept(s: string)
    ensures DropTrailingCommas(s) == KeptFrom(s, 0)
    decreases |s|
  {
    if s != [] {
      var k := SpaceRun(s[1..]);
      if s[0] == ',' && 1 + k < |s| && IsCloser(s[1 + k]) {
        var d := 2 + k;
        MatchFirst(s, k);
        forall p | d <= p < |s| ensures Deleted(s, p) <==> Deleted(s[d..], p - d) {
          DeletedShift(s, d, p);
        }
        KeptSkip(s, 0, 1 + k);
        KeptShift(s, d, d);
        DropIsKept(s[d..]);
      } else {
        NoMatchFirst(s, k);
        forall p | 1 <= p < |s| ensures Deleted(s, p) <==> Deleted(s[1..], p - 1) {
          DeletedShift(s, 1, p);
        }
        KeptShift(s, 1, 1);
        DropIsKept(s[1..]);
      }
    }
  }

  /** Without a deleted position from `j` on, everything from `j` on survives; with one, something is lost. */
  lemma {:induction false} KeptFromAll(s: string, j: nat)
    requires j <= |s|
    ensures |KeptFrom(s, j)| <= |s| - j
    ensures (forall p :: j <= p < |s| ==> !Deleted(s, p)) ==> KeptFrom(s, j) == s[j..]
    ensures (exists p :: j <= p < |s| && Deleted(s, p)) ==> |KeptFrom(s, j)| < |s| - j
    decreases |s| - j
  {
    if j < |s| {
      KeptFromAll(s, j + 1);
      assert s[j..] == [s[j]] + s[j + 1..];
    }
  }

  /** The comma step leaves the text unchanged exactly when it holds no match of `,\s*[}\]]`. */
  lemma DropIdentityIff(s: string)
    ensures DropTrailingCommas(s) == s <==> !HasTrailingComma(s)
  {
    DropIsKept(s);
    KeptFromAll(s, 0);
    forall p | 0 <= p < |s| && Deleted(s, p) ensures HasTrailingComma(s) {
      var i, c :| i <= p < c && TrailingCommaMatch(s, i, c);
    }
    forall i, c | TrailingCommaMatch(s, i, c) ensures Deleted(s, i) {
      assert i <= i < c;
    }
  }

  /** The characters the comma step can never delete. */
  predicate IsEssential(c: char) {
    c != ',' && !IsSpace(c)
  }

  /** What the text says once commas and whitespace are ignored. */
  function Essential(s: string): string {
    Filter(IsEssential, s)
  }

  lemma EssentialAppend(a: string, b: string)
    ensures Essential(a + b) == Essential(a) + Essential(b)
  {
    FilterAppend(IsEssential, a, b);
  }

  lemma {:induction false} EssentialOfSpaces(w: string)
    requires forall i :: 0 <= i < |w| ==> IsSpace(w[i])
    ensures Essential(w) == []
  {
    if w != [] {
      EssentialOfSpaces(w[1..]);
    }
  }

  /** A comma, whitespace and a closing bracket say only the bracket. */
  lemma CommaRunEssential(s: string, k: nat)
    requires 1 + k < |s| && s[0] == ',' && IsCloser(s[1 + k])
    requires forall i :: 1 <= i <= k ==> IsSpace(s[i])
    ensures Essential(s) == [s[1 + k]] + Essential(s[2 + k..])
  {
    var w := s[1..1 + k];
    EssentialOfSpaces(w);
    assert s == ([','] + w) + ([s[1 + k]] + s[2 + k..]);
    EssentialAppend([','] + w, [s[1 + k]] + s[2 + k..]);
    EssentialAppend([','], w);
    EssentialAppend([s[1 + k]], s[2 + k..]);
  }

  /** The comma step deletes only commas and whitespace: every other character stays, in order. */
  lemma {:induction false} DropKeepsEssential(s: string)
    ensures Essential(DropTrailingCommas(s)) == Essential(s)
    decreases |s|
  {
    if s != [] {
      var k := SpaceRun(s[1..]);
      if s[0] == ',' && 1 + k < |s| && IsCloser(s[1 + k]) {
        var rest := s[2 + k..];
        SpaceRunSpec(s[1..]);
        DropKeepsEssential(rest);
        CommaRunEssential(s, k);
        assert DropTrailingCommas(s) == [s[1 + k]] + DropTrailingCommas(rest);
        EssentialAppend([s[1 + k]], DropTrailingCommas(rest));
      } else {
        DropKeepsEssential(s[1..]);
        assert DropTrailingCommas(s) == [s[0]] + DropTrailingCommas(s[1..]);
        assert s == [s[0]] + s[1..];
        EssentialAppend([s[0]], s[1..]);
        EssentialAppend([s[0]], DropTrailingCommas(s[1..]));
      }
    }
  }

  /** Text without a comma passes the comma step unchanged. */
  lemma {:induction false} DropWithoutComma(s: string)
    requires ',' !in s
    ensures DropTrailingCommas(s) == s
    decreases |s|
  {
    if s != [] {
      assert s[0] != ',';
      DropWithoutComma(s[1..]);
    }
  }

  /** A first character that is not a comma is kept. */
  lemma DropNonComma(s: string)
    requires s != [] && s[0] != ','
    ensures DropTrailingCommas(s) == [s[0]] + DropTrailingCommas(s[1..])
  {
  }

  /** A comma right before a closer goes. */
  lemma DropCommaCloser(s: string)
    requires |s| >= 2 && s[0] == ',' && IsCloser(s[1])
    ensures DropTrailingCommas(s) == [s[1]] + DropTrailingCommas(s[2..])
  {
    assert s[1..][0] == s[1];
  }

  /** A comma before `}` is dropped even inside a string literal. */
  lemma DropInsideString()
    ensures DropTrailingCommas("\"a,}\"") == "\"a}\""
  {
    var s := "\"a,}\"";
    assert s[1..] == "a,}\"" && s[2..] == ",}\"" && s[4..] == "\"";
    DropNonComma(s);
    DropNonComma(s[1..]);
    assert s[1..][1..] == s[2..];
    DropCommaCloser(s[2..]);
    assert s[2..][2..] == s[4..];
    DropNonComma(s[4..]);
    assert s[4..][1..] == [];
  }

  lemma DropIsOnePass()
    ensures DropTrailingCommas(", ,}") == ", }"
    ensures DropTrailingCommas(", }") == "}"
  {
    var s := ", ,}";
    assert s[1..] == " ,}" && s[2..] == ",}" && s[3..] == "}";
    assert SpaceRun(s[1..]) == 1;
    assert SpaceRun(s[2..]) == 0;
    assert SpaceRun(s[3..]) == 0;
    assert DropTrailingCommas(s[3..]) == "}" by {
      assert s[3..][1..] == [];
    }
    assert DropTrailingCommas(s[2..]) == "}" by {
      assert s[2..][1..] == s[3..];
      assert s[2..][2..] == [];
    }
    var t := ", }";
    assert t[1..] == " }" && t[1..][1..] == "}";
    assert SpaceRun(t[1..]) == 1;
    assert t[3..] == [];
  }

  /** `sanitize_json_text` */
  function Sanitize(text: string): string {
    DropTrailingCommas(NormalizeQuotes(RemoveControl(text)))
  }

  /** After sanitising, no stripped control character and no curly quote remains, and the text is no longer than before. */
  lemma SanitizeClean(text: string)
    ensures |Sanitize(text)| <= |text|
    ensures forall i :: 0 <= i < |Sanitize(text)| ==>
              var c := Sanitize(text)[i];
              !IsStrippedControl(c) && c != LeftDouble && c != RightDouble && c != LeftSingle && c != RightSingle
  {
    var a := RemoveControl(text);
    var b := NormalizeQuotes(a);
    NormalizeQuotesPointwise(a);
    forall i | 0 <= i < |Sanitize(text)|
      ensures var c := Sanitize(text)[i];
              !IsStrippedControl(c) && c != LeftDouble && c != RightDouble && c != LeftSingle && c != RightSingle
    {
      var c := Sanitize(text)[i];
      assert c in b;
      var j :| 0 <= j < |b| && b[j] == c;
      assert c == StraightQuote(a[j]);
    }
  }

  /** Sanitising keeps every character that is neither a stripped control, a comma nor whitespace, up to straightening of quotes. */
  lemma SanitizeKeepsEssential(text: string)
    ensures Essential(Sanitize(text)) == Essential(NormalizeQuotes(RemoveControl(text)))
  {
    DropKeepsEssential(NormalizeQuotes(RemoveControl(text)));
  }

  // ---------------------------------------------------------------------------
  // The recovery path of fix_json_file: re.findall(r'"(\d+)"\s*:\s*"(.+?)"', text)
  // ---------------------------------------------------------------------------

  /** How many whitespace characters `s` holds from index `i` on: what a greedy `\s*` consumes there. */
  function SpacesFrom(s: string, i: nat): (n: nat)
    requires i <= |s|
    ensures i + n <= |s|
    decreases |s| - i
  {
    if i == |s| || !IsSpace(s[i]) then 0 else 1 + SpacesFrom(s, i + 1)
  }

  /** How many digits `s` holds from index `i` on: what a greedy `\d+` consumes there. */
  function DigitsFrom(s: string, i: nat): (n: nat)
    requires i <= |s|
    ensures i + n <= |s|
    decreases |s| - i
  {
    if i == |s| || !IsDigitChar(s[i]) then 0 else 1 + DigitsFrom(s, i + 1)
  }

  /**
   * The index of the first `"` at or after `i`, provided no line feed comes
   * first: where the lazy `.+?"` stops, since `.` never matches a line feed.
   */
  function QuoteFrom(s: string, i: nat): (r: Option<nat>)
    requires i <= |s|
    ensures r.Some? ==> i <= r.value < |s|
    decreases |s| - i
  {
    if i == |s| then None
    else if s[i] == '"' then Some(i)
    else if s[i] == '\n' then None
    else QuoteFrom(s, i + 1)
  }

  /** A run of exactly `n` whitespace characters from `i` is what `SpacesFrom` counts. */
  lemma {:induction false} SpacesFromExact(s: string, i: nat, n: nat)
    requires i + n <= |s|
    requires forall j :: i <= j < i + n ==> IsSpace(s[j])
    requires i + n == |s| || !IsSpace(s[i + n])
    ensures SpacesFrom(s, i) == n
    decreases n
  {
    if n > 0 {
      SpacesFromExact(s, i + 1, n - 1);
    }
  }

  /** A run of exactly `n` digits from `i` is what `DigitsFrom` counts. */
  lemma {:induction false} DigitsFromExact(s: string, i: nat, n: nat)
    requires i + n <= |s|
    requires forall j :: i <= j < i + n ==> IsDigitChar(s[j])
    requires i + n == |s| || !IsDigitChar(s[i + n])
    ensures DigitsFrom(s, i) == n
    decreases n
  {
    if n > 0 {
      DigitsFromExact(s, i + 1, n - 1);
    }
  }

  /** The digits counted are digits. */
  lemma {:induction false} DigitsFromSpec(s: string, i: nat)
    requires i <= |s|
    ensures forall j :: i <= j < i + DigitsFrom(s, i) ==> IsDigitChar(s[j])
    decreases |s| - i
  {
    if i < |s| && IsDigitChar(s[i]) {
      DigitsFromSpec(s, i + 1);
    }
  }

  /** The quote found is a quote, and nothing before it from `i` on is a quote or a line feed. */
  lemma {:induction false} QuoteFromSpec(s: string, i: nat)
    requires i <= |s|
    ensures QuoteFrom(s, i).Some? ==> s[QuoteFrom(s, i).value] == '"'
    ensures QuoteFrom(s, i).Some? ==> forall j :: i <= j < QuoteFrom(s, i).value ==> s[j] != '"' && s[j] != '\n'
    decreases |s| - i
  {
    if i < |s| && s[i] != '"' && s[i] != '\n' {
      QuoteFromSpec(s, i + 1);
    }
  }

  /** Conversely, the first quote after a stretch free of quotes and line feeds is the one found. */
  lemma {:induction false} QuoteFromExact(s: string, i: nat, e: nat)
    requires i <= e < |s| && s[e] == '"'
    requires forall j :: i <= j < e ==> s[j] != '"' && s[j] != '\n'
    ensures QuoteFrom(s, i) == Some(e)
    decreases e - i
  {
    if i < e {
      QuoteFromExact(s, i + 1, e);
    }
  }

  /** One match of the pattern: its two groups and the index just past its closing quote. */
  datatype PairMatch = PairMatch(key: string, value: string, end: nat)

  /** The pattern tried at index `i` of `s`: `"` then `(\d+)`, whose closing quote must stand where the digits stop. */
  function MatchAt(s: string, i: nat): (m: Option<PairMatch>)
    requires i <= |s|
    ensures m.Some? ==> i < m.value.end <= |s|
  {
    if i == |s| || s[i] != '"' then None
    else KeyAt(s, i, i + 1 + DigitsFrom(s, i + 1))
  }

  /** `"\s*` after the key `s[i + 1..q]`: the colon must stand where the whitespace stops. */
  function KeyAt(s: string, i: nat, q: nat): (m: Option<PairMatch>)
    requires i < q <= |s|
    ensures m.Some? ==> q < m.value.end <= |s|
  {
    if q == i + 1 || q == |s| || s[q] != '"' then None
    else ColonAt(s, s[i + 1..q], q + 1 + SpacesFrom(s, q + 1))
  }

  /** `:\s*`: the value's opening quote must stand where the whitespace stops. */
  function ColonAt(s: string, key: string, c: nat): (m: Option<PairMatch>)
    requires c <= |s|
    ensures m.Some? ==> m.value.key == key && c < m.value.end <= |s|
  {
    if c == |s| || s[c] != ':' then None
    else OpeningAt(s, key, c + 1 + SpacesFrom(s, c + 1))
  }

  /** The value's opening `"`. */
  function OpeningAt(s: string, key: string, o: nat): (m: Option<PairMatch>)
    requires o <= |s|
    ensures m.Some? ==> m.value.key == key && o < m.value.end <= |s|
  {
    if o == |s| || s[o] != '"' then None
    else ValueAt(s, key, o + 1)
  }

  /** `(.+?)"` from index `v`: one character other than a line feed, then up to the first quote. */
  function ValueAt(s: string, key: string, v: nat): (m: Option<PairMatch>)
    requires v <= |s|
    ensures m.Some? ==> m.value.key == key && v < m.value.end <= |s|
  {
    if v == |s| || s[v] == '\n' then None
    else
      match QuoteFrom(s, v + 1)
      case None => None
      case Some(e) => Some(PairMatch(key, s[v..e], e + 1))
  }

  /** What a match captures: a digit key and a non-empty value on one line. */
  predicate WellFormedPair(key: string, value: string) {
    IsDigits(key) && |value| > 0 && '\n' !in value
  }

  /** The value group never holds a line feed and is never empty. */
  lemma ValueAtWellFormed(s: string, key: string, v: nat)
    requires v <= |s|
    ensures ValueAt(s, key, v).Some? ==> |ValueAt(s, key, v).value.value| > 0 && '\n' !in ValueAt(s, key, v).value.value
  {
    if v < |s| && s[v] != '\n' && QuoteFrom(s, v + 1).Some? {
      var e := QuoteFrom(s, v + 1).value;
      QuoteFromSpec(s, v + 1);
      var value := s[v..e];
      forall j | 0 <= j < |value| ensures value[j] != '\n' {
        assert value[j] == s[v + j];
      }
    }
  }

  /** A match from the colon on has a non-empty one-line value. */
  lemma ColonAtWellFormed(s: string, key: string, c: nat)
    requires c <= |s| && ColonAt(s, key, c).Some?
    ensures |ColonAt(s, key, c).value.value| > 0 && '\n' !in ColonAt(s, key, c).value.value
  {
    ColonAtSound(s, key, c);
    var o := c + 1 + SpacesFrom(s, c + 1);
    assert OpeningAt(s, key, o) == ValueAt(s, key, o + 1);
    ValueAtWellFormed(s, key, o + 1);
  }

  /** Every match has the shape its groups allow. */
  lemma MatchAtWellFormed(s: string, i: nat)
    requires i <= |s|
    ensures MatchAt(s, i).Some? ==> WellFormedPair(MatchAt(s, i).value.key, MatchAt(s, i).value.value)
  {
    if MatchAt(s, i).Some? {
      var q := i + 1 + DigitsFrom(s, i + 1);
      assert MatchAt(s, i) == KeyAt(s, i, q);
      DigitsFromSpec(s, i + 1);
      KeyAtWellFormed(s, i, q);
    }
  }

  /** A match from the key's closing quote on, after digits, is well formed. */
  lemma KeyAtWellFormed(s: string, i: nat, q: nat)
    requires i < q <= |s| && KeyAt(s, i, q).Some?
    requires forall j :: i + 1 <= j < q ==> IsDigitChar(s[j])
    ensures WellFormedPair(KeyAt(s, i, q).value.key, KeyAt(s, i, q).value.value)
  {
    var c := q + 1 + SpacesFrom(s, q + 1);
    var key := s[i + 1..q];
    KeyAtSound(s, i, q);
    forall j | 0 <= j < |key| ensures IsDigitChar(key[j]) {
      assert key[j] == s[i + 1 + j];
    }
    ColonAtWellFormed(s, key, c);
  }

  /** `re.findall` from index `i`: non-overlapping matches, left to right. */
  function FindAllFrom(s: string, i: nat): seq<(string, string)>
    requires i <= |s|
    decreases |s| - i
  {
    if i == |s| then []
    else
      match MatchAt(s, i)
      case Some(m) => [(m.key, m.value)] + FindAllFrom(s, m.end)
      case None => FindAllFrom(s, i + 1)
  }

  /** `re.findall` over the whole text. */
  function FindAll(s: string): seq<(string, string)> {
    FindAllFrom(s, 0)
  }

  /** Every recovered pair has a digit key and a non-empty one-line value. */
  lemma {:induction false} FindAllFromWellFormed(s: string, i: nat)
    requires i <= |s|
    ensures forall n :: 0 <= n < |FindAllFrom(s, i)| ==> WellFormedPair(FindAllFrom(s, i)[n].0, FindAllFrom(s, i)[n].1)
    decreases |s| - i
  {
    if i < |s| {
      MatchAtWellFormed(s, i);
      match MatchAt(s, i)
      case Some(m) =>
        FindAllFromWellFormed(s, m.end);
        var rest := FindAllFrom(s, m.end);
        assert forall n :: 1 <= n < 1 + |rest| ==> ([(m.key, m.value)] + rest)[n] == rest[n - 1];
      case None =>
        FindAllFromWellFormed(s, i + 1);
    }
  }

  lemma FindAllWellFormed(s: string)
    ensures forall n :: 0 <= n < |FindAll(s)| ==> WellFormedPair(FindAll(s)[n].0, FindAll(s)[n].1)
  {
    FindAllFromWellFormed(s, 0);
  }

  /** From `o` the text reads `"v"`. */
  predicate QuotedAt(s: string, o: nat, v: string) {
    o + |v| + 2 <= |s| && s[o] == '"' && s[o + 1..o + 1 + |v|] == v && s[o + 1 + |v|] == '"'
  }

  /**
   * From `i` the text reads `"k"`, optional whitespace, a colon at `c`,
   * optional whitespace and `"v"` whose opening quote is at `o`: the shape
   * the pattern `"(\d+)"\s*:\s*"(.+?)"` describes.
   */
  predicate LaidOutAt(s: string, i: nat, k: string, v: string, c: nat, o: nat) {
    && i + |k| + 2 <= c < o && QuotedAt(s, i, k) && QuotedAt(s, o, v)
    && (forall j :: i + 2 + |k| <= j < c ==> IsSpace(s[j]))
    && s[c] == ':'
    && (forall j :: c < j < o ==> IsSpace(s[j]))
  }

  /** The pair `(k, v)` is written somewhere in the text. */
  ghost predicate PairIn(s: string, k: string, v: string) {
    exists i, c, o :: LaidOutAt(s, i, k, v, c, o)
  }

  lemma {:induction false} SpacesFromSpec(s: string, i: nat)
    requires i <= |s|
    ensures forall j :: i <= j < i + SpacesFrom(s, i) ==> IsSpace(s[j])
    decreases |s| - i
  {
    if i < |s| && IsSpace(s[i]) {
      SpacesFromSpec(s, i + 1);
    }
  }

  /** A value match is the quoted text that opens at `o`. */
  lemma OpeningAtSound(s: string, key: string, o: nat)
    requires o <= |s| && OpeningAt(s, key, o).Some?
    ensures OpeningAt(s, key, o).value.key == key && QuotedAt(s, o, OpeningAt(s, key, o).value.value)
  {
    assert OpeningAt(s, key, o) == ValueAt(s, key, o + 1);
    var e := QuoteFrom(s, o + 2).value;
    QuoteFromSpec(s, o + 2);
    assert OpeningAt(s, key, o).value.value == s[o + 1..e];
  }

  /** A match from the colon on: the colon, whitespace, then the quoted value. */
  lemma ColonAtSound(s: string, key: string, c: nat)
    requires c <= |s| && ColonAt(s, key, c).Some?
    ensures var o := c + 1 + SpacesFrom(s, c + 1);
      && c < o <= |s| && s[c] == ':' && (forall j :: c < j < o ==> IsSpace(s[j]))
      && ColonAt(s, key, c) == OpeningAt(s, key, o)
  {
    SpacesFromSpec(s, c + 1);
  }

  /** A match from the key's closing quote on: the quote, whitespace, then the colon. */
  lemma KeyAtSound(s: string, i: nat, q: nat)
    requires i < q <= |s| && KeyAt(s, i, q).Some?
    ensures var c := q + 1 + SpacesFrom(s, q + 1);
      && i + 1 < q < c <= |s| && s[q] == '"'
      && (forall j :: q + 1 <= j < c ==> IsSpace(s[j]))
      && KeyAt(s, i, q) == ColonAt(s, s[i + 1..q], c)
  {
    SpacesFromSpec(s, q + 1);
  }

  /** The parts the matcher checks one after another make up a laid-out pair. */
  lemma LaidOutFromParts(s: string, i: nat, q: nat, c: nat, o: nat, v: string)
    requires i + 1 < q < c < o <= |s| && QuotedAt(s, i, s[i + 1..q]) && QuotedAt(s, o, v) && s[c] == ':'
    requires forall j :: q + 1 <= j < c ==> IsSpace(s[j])
    requires forall j :: c < j < o ==> IsSpace(s[j])
    ensures LaidOutAt(s, i, s[i + 1..q], v, c, o)
  {
  }

  /** After the quoted key and whitespace, a match from the colon on completes a laid-out pair. */
  lemma ColonAtLaidOut(s: string, i: nat, q: nat, c: nat)
    requires i + 1 < q < c <= |s| && QuotedAt(s, i, s[i + 1..q])
    requires forall j :: q + 1 <= j < c ==> IsSpace(s[j])
    requires ColonAt(s, s[i + 1..q], c).Some?
    ensures PairIn(s, s[i + 1..q], ColonAt(s, s[i + 1..q], c).value.value)
  {
    var key := s[i + 1..q];
    ColonAtSound(s, key, c);
    var o := c + 1 + SpacesFrom(s, c + 1);
    OpeningAtSound(s, key, o);
    LaidOutFromParts(s, i, q, c, o, OpeningAt(s, key, o).value.value);
  }

  /** A match is laid out in the text where it was found. */
  lemma MatchAtSound(s: string, i: nat)
    requires i <= |s| && MatchAt(s, i).Some?
    ensures PairIn(s, MatchAt(s, i).value.key, MatchAt(s, i).value.value)
  {
    var q := i + 1 + DigitsFrom(s, i + 1);
    assert MatchAt(s, i) == KeyAt(s, i, q);
    KeyAtLaidOut(s, i, q);
  }

  /** The same from the key's closing quote on, given the opening quote at `i`. */
  lemma KeyAtLaidOut(s: string, i: nat, q: nat)
    requires i < q <= |s| && s[i] == '"' && KeyAt(s, i, q).Some?
    ensures PairIn(s, KeyAt(s, i, q).value.key, KeyAt(s, i, q).value.value)
  {
    var c := q + 1 + SpacesFrom(s, q + 1);
    KeyAtSound(s, i, q);
    ColonAtLaidOut(s, i, q, c);
  }

  /** Every pair the scan from `i` recovers is laid out in the text. */
  lemma {:induction false} FindAllFromSound(s: string, i: nat)
    requires i <= |s|
    ensures forall p :: p in FindAllFrom(s, i) ==> PairIn(s, p.0, p.1)
    decreases |s| - i
  {
    if i < |s| {
      match MatchAt(s, i)
      case Some(m) =>
        MatchAtSound(s, i);
        FindAllFromSound(s, m.end);
      case None =>
        FindAllFromSound(s, i + 1);
    }
  }

  /** Recovery invents nothing: each recovered pair is written in the text. */
  lemma FindAllSound(s: string)
    ensures forall p :: p in FindAll(s) ==> PairIn(s, p.0, p.1)
  {
    FindAllFromSound(s, 0);
  }

  /** `{key: value for key, value in pairs}`: assignment in order, so a later duplicate key overrides the value. */
  function BuildDict(pairs: seq<(string, string)>): (d: Dict<string>)
    ensures DistinctKeys(d)
  {
    if pairs == [] then []
    else
      var last := pairs[|pairs| - 1];
      var init := BuildDict(pairs[..|pairs| - 1]);
      PutDistinct(init, last.0, last.1);
      Put(init, last.0, last.1)
  }

  /** The value of the last pair with key `k`. */
  function LastValue(pairs: seq<(string, string)>, k: string): Option<string> {
    if pairs == [] then None
    else if pairs[|pairs| - 1].0 == k then Some(pairs[|pairs| - 1].1)
    else LastValue(pairs[..|pairs| - 1], k)
  }

  /** Every recovered key reads as the value of its last occurrence; keys never recovered are absent. */
  lemma {:induction false} BuildDictGet(pairs: seq<(string, string)>, k: string)
    ensures Get(BuildDict(pairs), k) == LastValue(pairs, k)
  {
    if pairs != [] {
      var last := pairs[|pairs| - 1];
      BuildDictGet(pairs[..|pairs| - 1], k);
      PutGet(BuildDict(pairs[..|pairs| - 1]), last.0, last.1, k);
    }
  }

  /** One entry as `json.dump` writes a string value that needs no escape, `"k": "v"`, then `rest`. */
  function EntryThen(k: string, v: string, rest: string): string {
    ['"'] + k + ['"'] + ([':', ' ', '"'] + (v + (['"'] + rest)))
  }

  /** The entries of `pairs` in dict order, then `close`. */
  function DumpEntries(pairs: seq<(string, string)>, close: string): string
    decreases |pairs|, 0
  {
    if pairs == [] then close else EntryThen(pairs[0].0, pairs[0].1, DumpFollowing(pairs[1..], close))
  }

  /** Each entry after the first follows a comma, a line feed and an indent of two spaces. */
  function DumpFollowing(pairs: seq<(string, string)>, close: string): string
    decreases |pairs|, 1
  {
    if pairs == [] then close else ",\n  " + DumpEntries(pairs, close)
  }

  /** `json.dump(d, f, indent=2, ensure_ascii=False)` for a dict whose keys and values need no escape. */
  function Dump(d: Dict<string>): string {
    if d == [] then "{}" else "{\n  " + DumpEntries(d, "\n}")
  }

  /**
   * A pair that `json.dump` writes verbatim and the pattern captures whole: a
   * digit key, and a non-empty value without a quote, a backslash or a control
   * character below U+0020 (the ones `json.dump` escapes; a line feed among them).
   */
  predicate Recoverable(k: string, v: string) {
    IsDigits(k) && |v| > 0 && forall j :: 0 <= j < |v| ==> v[j] != '"' && v[j] != '\\' && v[j] >= ' '
  }

  /** The layout of a written entry followed by `rest`, character by character. */
  lemma EntryLayout(k: string, v: string, rest: string)
    ensures var r := EntryThen(k, v, rest);
      && |r| == |k| + |v| + 6 + |rest|
      && r[0] == '"' && r[1 + |k|] == '"' && r[2 + |k|] == ':' && r[3 + |k|] == ' ' && r[4 + |k|] == '"'
      && r[5 + |k| + |v|] == '"'
      && r[1..1 + |k|] == k && r[5 + |k|..5 + |k| + |v|] == v && r[|k| + |v| + 6..] == rest
  {
  }

  /** A slice of a slice is a slice. */
  lemma SliceOfSuffix(s: string, i: nat, lo: nat, hi: nat)
    requires i <= |s| && lo <= hi <= |s| - i
    ensures s[i..][lo..hi] == s[i + lo..i + hi]
  {
  }

  /** The text from `i` on holds a written entry: its characters, where the pattern looks for them. */
  lemma EntryAt(s: string, i: nat, k: string, v: string, rest: string)
    requires i <= |s| && s[i..] == EntryThen(k, v, rest)
    ensures i + |k| + |v| + 6 <= |s|
    ensures s[i] == '"' && s[i + 1 + |k|] == '"' && s[i + 2 + |k|] == ':' && s[i + 3 + |k|] == ' ' && s[i + 4 + |k|] == '"'
    ensures s[i + 5 + |k| + |v|] == '"'
    ensures s[i + 1..i + 1 + |k|] == k && s[i + 5 + |k|..i + 5 + |k| + |v|] == v && s[i + |k| + |v| + 6..] == rest
  {
    var r := s[i..];
    EntryLayout(k, v, rest);
    assert s[i] == r[0] && s[i + 1 + |k|] == r[1 + |k|] && s[i + 2 + |k|] == r[2 + |k|];
    assert s[i + 3 + |k|] == r[3 + |k|] && s[i + 4 + |k|] == r[4 + |k|];
    assert s[i + 5 + |k| + |v|] == r[5 + |k| + |v|];
    SliceOfSuffix(s, i, 1, 1 + |k|);
    SliceOfSuffix(s, i, 5 + |k|, 5 + |k| + |v|);
    SliceOfSuffix(s, i, |k| + |v| + 6, |r|);
  }

  /** A quote followed by exactly the digits up to `q` hands over to the key's closing quote at `q`. */
  lemma MatchAtDigits(s: string, i: nat, q: nat)
    requires i < q < |s| && s[i] == '"' && !IsDigitChar(s[q])
    requires forall j :: i + 1 <= j < q ==> IsDigitChar(s[j])
    ensures MatchAt(s, i) == KeyAt(s, i, q)
  {
    DigitsFromExact(s, i + 1, q - i - 1);
  }

  /** A closing quote after a non-empty key, then a colon straight after it. */
  lemma KeyAtColon(s: string, i: nat, q: nat, key: string, c: nat)
    requires i + 1 < q && c == q + 1 && c < |s| && s[q] == '"' && s[c] == ':' && key == s[i + 1..q]
    ensures KeyAt(s, i, q) == ColonAt(s, key, c)
  {
    SpacesFromExact(s, c, 0);
  }

  /** A colon, one space and the value's opening quote. */
  lemma ColonAtSpace(s: string, c: nat, key: string, o: nat)
    requires o == c + 2 && o < |s| && s[c] == ':' && s[c + 1] == ' ' && s[o] == '"'
    ensures ColonAt(s, key, c) == OpeningAt(s, key, o)
  {
    SpacesFromExact(s, c + 1, 1);
  }

  /** The value starts right after its opening quote. */
  lemma OpeningAtQuote(s: string, key: string, o: nat, start: nat)
    requires start == o + 1 && o < |s| && s[o] == '"'
    ensures OpeningAt(s, key, o) == ValueAt(s, key, start)
  {
  }

  /** A value that starts at `start` and whose first closing quote, with no line feed before it, is at `e`. */
  lemma ValueAtQuote(s: string, key: string, start: nat, e: nat, value: string, end: nat)
    requires start < e < |s| && s[start] != '\n' && s[e] == '"' && value == s[start..e] && end == e + 1
    requires forall j :: start + 1 <= j < e ==> s[j] != '"' && s[j] != '\n'
    ensures ValueAt(s, key, start) == Some(PairMatch(key, value, end))
  {
    QuoteFromExact(s, start + 1, e);
  }

  /** Where `s` holds a written entry at `i`, the pattern matches it there, ending after the value's closing quote. */
  lemma MatchAtEntry(s: string, i: nat, k: string, v: string, rest: string, end: nat)
    requires Recoverable(k, v) && i <= |s| && s[i..] == EntryThen(k, v, rest) && end == i + |k| + |v| + 6
    ensures MatchAt(s, i) == Some(PairMatch(k, v, end))
  {
    EntryAt(s, i, k, v, rest);
    var q := i + 1 + |k|;
    var c := i + 2 + |k|;
    var o := i + 4 + |k|;
    var start := i + 5 + |k|;
    var e := i + 5 + |k| + |v|;
    MatchAtDigits(s, i, q) by {
      forall j | i + 1 <= j < q ensures IsDigitChar(s[j]) {
        assert s[j] == s[i + 1..q][j - i - 1];
      }
    }
    KeyAtColon(s, i, q, k, c);
    ColonAtSpace(s, c, k, o);
    OpeningAtQuote(s, k, o, start);
    ValueAtQuote(s, k, start, e, v, end) by {
      assert s[start] == s[start..e][0];
      forall j | start + 1 <= j < e ensures s[j] != '"' && s[j] != '\n' {
        assert s[j] == s[start..e][j - start];
      }
    }
  }

  /** A match at `i` contributes its pair, and the scan resumes where it ends. */
  lemma FindAllFromMatch(s: string, i: nat, m: PairMatch)
    requires i < |s| && MatchAt(s, i) == Some(m)
    ensures FindAllFrom(s, i) == [(m.key, m.value)] + FindAllFrom(s, m.end)
  {
  }

  /** Characters other than a quote cannot start a match, so the scan passes over them. */
  lemma {:induction false} FindAllFromSkip(s: string, i: nat, j: nat)
    requires i <= j <= |s|
    requires forall x :: i <= x < j ==> s[x] != '"'
    ensures FindAllFrom(s, i) == FindAllFrom(s, j)
    decreases j - i
  {
    if i < j {
      FindAllFromSkip(s, i + 1, j);
    }
  }

  /** Text from `i` on that is `a + b` has `b` from `i + |a|` on, and `a`'s characters before it. */
  lemma SuffixAfter(s: string, i: nat, a: string, b: string)
    requires i <= |s| && s[i..] == a + b
    ensures i + |a| <= |s| && s[i + |a|..] == b
    ensures forall x :: 0 <= x < |a| ==> s[i + x] == a[x]
  {
    assert forall x :: 0 <= x < |a| ==> s[i..][x] == s[i + x];
    assert s[i + |a|..] == s[i..][|a|..];
  }

  /** Text without a quote character. */
  predicate Quoteless(t: string) {
    forall j :: 0 <= j < |t| ==> t[j] != '"'
  }

  /** Text from `i` on without a quote yields no pair. */
  lemma FindAllFromQuoteless(s: string, i: nat, tail: string)
    requires i <= |s| && s[i..] == tail && Quoteless(tail)
    ensures FindAllFrom(s, i) == []
  {
    forall x | i <= x < |s| ensures s[x] != '"' {
      assert s[x] == tail[x - i];
    }
    FindAllFromSkip(s, i, |s|);
  }

  /** The scan passes over the comma, line feed and indent between two entries. */
  lemma FindAllFromSeparator(s: string, i: nat, rest: string)
    requires i <= |s| && s[i..] == ",\n  " + rest
    ensures i + 4 <= |s| && s[i + 4..] == rest
    ensures FindAllFrom(s, i) == FindAllFrom(s, i + 4)
  {
    SuffixAfter(s, i, ",\n  ", rest);
    assert s[i] == ',' && s[i + 1] == '\n' && s[i + 2] == ' ' && s[i + 3] == ' ' by {
      assert s[i + 0] == ",\n  "[0];
      assert s[i + 1] == ",\n  "[1];
      assert s[i + 2] == ",\n  "[2];
      assert s[i + 3] == ",\n  "[3];
    }
    FindAllFromSkip(s, i, i + 4);
  }

  /** Every pair of `pairs` is written verbatim and captured whole. */
  predicate AllRecoverable(pairs: seq<(string, string)>) {
    forall n :: 0 <= n < |pairs| ==> Recoverable(pairs[n].0, pairs[n].1)
  }

  /** Scanning written entries, closed by text without a quote, reads them back in order. */
  lemma {:induction false} FindAllFromEntries(s: string, i: nat, pairs: seq<(string, string)>, close: string)
    requires i <= |s| && s[i..] == DumpEntries(pairs, close) && Quoteless(close) && AllRecoverable(pairs)
    ensures FindAllFrom(s, i) == pairs
    decreases |pairs|, 0
  {
    if pairs == [] {
      FindAllFromQuoteless(s, i, close);
    } else {
      var (k, v) := pairs[0];
      var after := DumpFollowing(pairs[1..], close);
      var end := i + |k| + |v| + 6;
      MatchAtEntry(s, i, k, v, after, end);
      FindAllFromMatch(s, i, PairMatch(k, v, end));
      EntryAt(s, i, k, v, after);
      AllRecoverableTail(pairs);
      FindAllFromFollowing(s, end, pairs[1..], close);
      assert pairs == [pairs[0]] + pairs[1..];
    }
  }

  /** The same, for the entries after the first, each behind its separator. */
  lemma {:induction false} FindAllFromFollowing(s: string, i: nat, pairs: seq<(string, string)>, close: string)
    requires i <= |s| && s[i..] == DumpFollowing(pairs, close) && Quoteless(close) && AllRecoverable(pairs)
    ensures FindAllFrom(s, i) == pairs
    decreases |pairs|, 1
  {
    if pairs == [] {
      FindAllFromQuoteless(s, i, close);
    } else {
      FindAllFromSeparator(s, i, DumpEntries(pairs, close));
      MatchAtEntry(s, i + 4, pairs[0].0, pairs[0].1, DumpFollowing(pairs[1..], close), i + 4 + |pairs[0].0| + |pairs[0].1| + 6);
      FindAllFromEntries(s, i + 4, pairs, close);
    }
  }

  lemma AllRecoverableTail(pairs: seq<(string, string)>)
    requires pairs != [] && AllRecoverable(pairs)
    ensures AllRecoverable(pairs[1..])
  {
    forall n | 0 <= n < |pairs| - 1 ensures Recoverable(pairs[1..][n].0, pairs[1..][n].1) {
      assert pairs[1..][n] == pairs[n + 1];
    }
  }

  /** Recovery reads back, in order, every pair of a dict that `json.dump` wrote with indent 2. */
  lemma RecoverDump(d: Dict<string>)
    requires AllRecoverable(d)
    ensures FindAll(Dump(d)) == d
  {
    var s := Dump(d);
    if d == [] {
      FindAllFromQuoteless(s, 0, "{}");
    } else {
      SuffixAfter(s, 0, "{\n  ", DumpEntries(d, "\n}"));
      assert s[0] == '{' && s[1] == '\n' && s[2] == ' ' && s[3] == ' ';
      FindAllFromSkip(s, 0, 4);
      FindAllFromEntries(s, 4, d, "\n}");
    }
  }

  /** What `fix_json_file` ends with. */
  datatype FixOutcome =
    | AlreadyValid
    | Rewritten(data: Dict<string>)
    | Fatal(message: string)

  /**
   * `fix_json_file`, with `parses` standing for `json.loads` succeeding and
   * `writeError` for what opening the file for writing or `json.dump` raises
   * (None when the dict is written). Only `Rewritten` writes the file, as
   * `Dump(data)`; every failure is caught and reported.
   */
  function FixJsonFile(file: FileState<string>, parses: string -> bool, writeError: Option<string>): (r: FixOutcome)
    ensures r.AlreadyValid? <==> file.Loaded? && parses(Sanitize(file.content))
    ensures r.Rewritten? <==>
              && file.Loaded? && !parses(Sanitize(file.content)) && FindAll(Sanitize(file.content)) != []
              && writeError.None?
    ensures r.Rewritten? ==> r.data == BuildDict(FindAll(Sanitize(file.content))) && |r.data| > 0
    ensures r.Fatal? <==>
              || !file.Loaded?
              || (!parses(Sanitize(file.content)) && (FindAll(Sanitize(file.content)) == [] || writeError.Some?))
    ensures file.Loaded? && !parses(Sanitize(file.content)) && FindAll(Sanitize(file.content)) != [] && writeError.Some? ==>
              r == Fatal(writeError.value)
  {
    match file
    case Missing => Fatal("No such file or directory")
    case Unreadable(message) => Fatal(message)
    case Loaded(original) =>
      var sanitized := Sanitize(original);
      if parses(sanitized) then AlreadyValid
      else
        var found := FindAll(sanitized);
        if found == [] then Fatal("Could not recover any JSON objects.")
        else if writeError.Some? then Fatal(writeError.value)
        else
          BuildDictGet(found, found[|found| - 1].0);
          Rewritten(BuildDict(found))
  }
}
