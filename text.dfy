/** Python string handling used by both core files: `str.strip()`, the
    whitespace collapse `re.sub(r'\s+', ' ', x)`, `str.split(',')` and the
    token split `re.split(r'[,\s\t]+', x)`. */
module Text {

  import opened Collections

  /** Python's Unicode whitespace (`str.isspace`, and `\s` in a `str` pattern). */
  predicate IsSpace(c: char) {
    c == ' ' || ('\t' <= c <= '\r') || ('\U{1C}' <= c <= '\U{1F}')
    || c == '\U{85}' || c == '\U{A0}' || c == '\U{1680}'
    || ('\U{2000}' <= c <= '\U{200A}') || c == '\U{2028}' || c == '\U{2029}'
    || c == '\U{202F}' || c == '\U{205F}' || c == '\U{3000}'
  }

  /** Every character is whitespace (vacuously so for ""). */
  predicate AllSpace(s: string) {
    forall i :: 0 <= i < |s| ==> IsSpace(s[i])
  }

  /** Neither end of `s` is whitespace. */
  predicate NoEdgeSpace(s: string) {
    s == [] || (!IsSpace(s[0]) && !IsSpace(s[|s| - 1]))
  }

  /** Whitespace only as single `' '` characters: what `re.sub(r'\s+', ' ', x)`
      leaves. */
  predicate Collapsed(s: string)
    decreases |s|
  {
    s == [] ||
    ((IsSpace(s[0]) ==> s[0] == ' ' && (|s| > 1 ==> !IsSpace(s[1]))) && Collapsed(s[1..]))
  }

  /** A normalised login or token: collapsed and trimmed. */
  predicate IsNormal(s: string) {
    Collapsed(s) && NoEdgeSpace(s)
  }

  /** `s.lstrip()`. */
  function LStrip(s: string): string
    decreases |s|
  {
    if s != [] && IsSpace(s[0]) then LStrip(s[1..]) else s
  }

  /** `lstrip()` removes the longest all-whitespace prefix. */
  lemma {:induction false} LStripShape(s: string)
    ensures |LStrip(s)| <= |s| && LStrip(s) == s[|s| - |LStrip(s)|..]
    ensures LStrip(s) == [] || !IsSpace(LStrip(s)[0])
    ensures forall i :: 0 <= i < |s| - |LStrip(s)| ==> IsSpace(s[i])
    decreases |s|
  {
    if s != [] && IsSpace(s[0]) {
      LStripShape(s[1..]);
      var r := LStrip(s[1..]);
      assert forall i :: 1 <= i < |s| - |r| ==> s[i] == s[1..][i - 1];
    }
  }

  /** `s.rstrip()`. */
  function RStrip(s: string): string
    decreases |s|
  {
    if s != [] && IsSpace(s[|s| - 1]) then RStrip(s[..|s| - 1]) else s
  }

  /** `rstrip()` removes the longest all-whitespace suffix. */
  lemma {:induction false} RStripShape(s: string)
    ensures |RStrip(s)| <= |s| && RStrip(s) == s[..|RStrip(s)|]
    ensures RStrip(s) == [] || !IsSpace(RStrip(s)[|RStrip(s)| - 1])
    ensures forall i :: |RStrip(s)| <= i < |s| ==> IsSpace(s[i])
    decreases |s|
  {
    if s != [] && IsSpace(s[|s| - 1]) {
      RStripShape(s[..|s| - 1]);
    }
  }

  /** `s.strip()`. */
  function Strip(s: string): string {
    RStrip(LStrip(s))
  }

  /** `strip()` leaves no whitespace at either end, only removes characters,
      and yields "" exactly for all-whitespace input. */
  lemma StripShape(s: string)
    ensures NoEdgeSpace(Strip(s))
    ensures |Strip(s)| <= |s|
    ensures forall c :: c in Strip(s) ==> c in s
    ensures Strip(s) == [] <==> AllSpace(s)
  {
    var l := LStrip(s);
    var r := RStrip(l);
    LStripShape(s);
    RStripShape(l);
    assert forall c :: c in l ==> c in s by {
      assert forall i :: 0 <= i < |l| ==> l[i] == s[|s| - |l| + i];
    }
    assert forall c :: c in r ==> c in l;
  }

  /** Skipping the whitespace run at the front of `s`: what is left is
      shorter, starts with a non-space, holds only characters of `s`, and ends
      as `s` does when `s` ends in a non-space. */
  lemma SkipSpaceRun(s: string)
    requires s != [] && IsSpace(s[0])
    ensures var t := LStrip(s);
      |t| < |s| && (t == [] || !IsSpace(t[0]))
      && (forall c :: c in t ==> c in s)
      && (!IsSpace(s[|s| - 1]) ==> t != [] && t[|t| - 1] == s[|s| - 1])
  {
    LStripShape(s);
    assert LStrip(s) == LStrip(s[1..]);
    LStripShape(s[1..]);
    var t := LStrip(s);
    assert forall i :: 0 <= i < |t| ==> t[i] == s[|s| - |t| + i];
  }

  /** `re.sub(r'\s+', ' ', s)`: every maximal run of whitespace becomes one `' '`. */
  function Collapse(s: string): (r: string)
    ensures Collapsed(r)
    ensures |r| <= |s|
    ensures r == [] <==> s == []
    ensures s != [] && !IsSpace(s[0]) ==> r[0] == s[0]
    ensures s != [] && IsSpace(s[0]) ==> r[0] == ' '
    decreases |s|
  {
    if s == [] then []
    else if IsSpace(s[0]) then
      var t := LStrip(s);
      SkipSpaceRun(s);
      var rest := Collapse(t);
      assert ([' '] + rest)[1..] == rest;
      [' '] + rest
    else
      var rest := Collapse(s[1..]);
      assert ([s[0]] + rest)[1..] == rest;
      [s[0]] + rest
  }

  /** One step of the collapse, named so that proofs need not unfold it. */
  lemma CollapseStep(s: string)
    requires s != []
    ensures IsSpace(s[0]) ==> Collapse(s) == [' '] + Collapse(LStrip(s))
    ensures !IsSpace(s[0]) ==> Collapse(s) == [s[0]] + Collapse(s[1..])
  {
  }

  /** The collapse adds no character but `' '`, and a string that ends in a
      non-space keeps its last character. */
  lemma CollapseChars(s: string)
    ensures forall c :: c in Collapse(s) ==> c in s || c == ' '
    ensures s != [] && !IsSpace(s[|s| - 1]) ==> Collapse(s)[|Collapse(s)| - 1] == s[|s| - 1]
  {
    CollapseAddsOnlySpace(s);
    if s != [] && !IsSpace(s[|s| - 1]) {
      CollapseKeepsLast(s);
    }
  }

  lemma {:induction false} CollapseAddsOnlySpace(s: string)
    ensures forall c :: c in Collapse(s) ==> c in s || c == ' '
    decreases |s|
  {
    if s != [] {
      CollapseStep(s);
      if IsSpace(s[0]) {
        SkipSpaceRun(s);
        CollapseAddsOnlySpace(LStrip(s));
        AppendLast(' ', Collapse(LStrip(s)));
      } else {
        CollapseAddsOnlySpace(s[1..]);
        AppendLast(s[0], Collapse(s[1..]));
        assert forall c :: c in s[1..] ==> c in s;
      }
    }
  }

  lemma {:induction false} CollapseKeepsLast(s: string)
    requires s != [] && !IsSpace(s[|s| - 1])
    ensures Collapse(s)[|Collapse(s)| - 1] == s[|s| - 1]
    decreases |s|
  {
    CollapseStep(s);
    if IsSpace(s[0]) {
      SkipSpaceRun(s);
      var t := LStrip(s);
      CollapseKeepsLast(t);
      AppendLast(' ', Collapse(t));
    } else if |s| > 1 {
      CollapseKeepsLast(s[1..]);
      AppendLast(s[0], Collapse(s[1..]));
    }
  }

  /** Putting a character in front keeps the other characters and the last one. */
  lemma AppendLast(c: char, rest: string)
    ensures forall d :: d in [c] + rest ==> d == c || d in rest
    ensures rest != [] ==> ([c] + rest)[|rest|] == rest[|rest| - 1]
  {
  }

  /** The normalisation applied to every login and every project token:
      `re.sub(r'\s+', ' ', x.strip())`. */
  function Normalize(s: string): (r: string)
  {
    Collapse(Strip(s))
  }

  /** Normalisation always yields a normal string, never longer than its input,
      empty exactly when the input is all whitespace, and with no character
      that was not in the input except `' '`. */
  lemma NormalizeShape(s: string)
    ensures IsNormal(Normalize(s))
    ensures |Normalize(s)| <= |s|
    ensures Normalize(s) == [] <==> AllSpace(s)
    ensures forall c :: c in Normalize(s) ==> c in s || c == ' '
  {
    StripShape(s);
    var t := Strip(s);
    CollapseChars(t);
    var r := Collapse(t);
    assert forall c :: c in r ==> c in s || c == ' ';
  }

  /** A collapsed string is left alone by the collapse. */
  lemma {:induction false} CollapseFixed(s: string)
    requires Collapsed(s)
    ensures Collapse(s) == s
    decreases |s|
  {
    if s != [] {
      CollapseFixed(s[1..]);
      if IsSpace(s[0]) {
        CollapseFixedSpace(s);
      }
    }
  }

  lemma CollapseFixedSpace(s: string)
    requires Collapsed(s) && s != [] && IsSpace(s[0])
    requires Collapse(s[1..]) == s[1..]
    ensures Collapse(s) == s
  {
    assert s[0] == ' ';
    assert s[1..] == [] || !IsSpace(s[1]);
    assert LStrip(s) == s[1..];
  }

  /** A string without whitespace at its ends is left alone by `strip()`. */
  lemma StripFixed(s: string)
    requires NoEdgeSpace(s)
    ensures Strip(s) == s
  {
  }

  /** Normal strings are fixed points of the normalisation. */
  lemma NormalFixed(s: string)
    requires IsNormal(s)
    ensures Normalize(s) == s
  {
    StripFixed(s);
    CollapseFixed(s);
  }

  /** Normalising a login or token twice changes nothing. */
  lemma NormalizeIdempotent(s: string)
    ensures Normalize(Normalize(s)) == Normalize(s)
  {
    NormalizeShape(s);
    NormalFixed(Normalize(s));
  }

  // ---------------------------------------------------------------------
  // The normalisation as words: `' '.join(s.split())`

  /** `s.split()`: the maximal runs of non-whitespace characters, in order. */
  function Words(s: string): (r: seq<string>)
    ensures s != [] && !IsSpace(s[0]) ==> r != []
    ensures forall i :: 0 <= i < |r| ==> r[i] != [] && forall k :: 0 <= k < |r[i]| ==> !IsSpace(r[i][k])
    decreases |s|
  {
    if s == [] then []
    else
      var rest := Words(s[1..]);
      if IsSpace(s[0]) then rest
      else if |s| > 1 && !IsSpace(s[1]) then [[s[0]] + rest[0]] + rest[1..]
      else [[s[0]]] + rest
  }

  /** `' '.join(ws)`. */
  function JoinSpace(ws: seq<string>): string
    decreases |ws|
  {
    if ws == [] then ""
    else if |ws| == 1 then ws[0]
    else ws[0] + " " + JoinSpace(ws[1..])
  }

  /** A character put in front of the first word joins that word. */
  lemma JoinSpaceCons(c: char, ws: seq<string>)
    requires ws != []
    ensures JoinSpace([[c] + ws[0]] + ws[1..]) == [c] + JoinSpace(ws)
  {
    if |ws| > 1 {
      assert ([[c] + ws[0]] + ws[1..])[1..] == ws[1..];
    }
  }

  /** A leading whitespace run holds no word. */
  lemma {:induction false} WordsLStrip(s: string)
    ensures Words(LStrip(s)) == Words(s)
    decreases |s|
  {
    if s != [] && IsSpace(s[0]) {
      WordsLStrip(s[1..]);
    }
  }

  /** A trailing whitespace character holds no word. */
  lemma {:induction false} WordsSnocSpace(s: string, c: char)
    requires IsSpace(c)
    ensures Words(s + [c]) == Words(s)
    decreases |s|
  {
    if s != [] {
      assert (s + [c])[1..] == s[1..] + [c];
      WordsSnocSpace(s[1..], c);
    }
  }

  /** A trailing whitespace run holds no word. */
  lemma {:induction false} WordsRStrip(s: string)
    ensures Words(RStrip(s)) == Words(s)
    decreases |s|
  {
    if s != [] && IsSpace(s[|s| - 1]) {
      var t := s[..|s| - 1];
      assert s == t + [s[|s| - 1]];
      WordsSnocSpace(t, s[|s| - 1]);
      WordsRStrip(t);
    }
  }

  /** The collapse keeps every word and only shortens the whitespace between
      them: `"John  Smith"` and its collapse have the words ["John", "Smith"]. */
  lemma {:induction false} CollapseKeepsWords(s: string)
    ensures Words(Collapse(s)) == Words(s)
    decreases |s|
  {
    if s != [] {
      if IsSpace(s[0]) {
        SkipSpaceRun(s);
        CollapseKeepsWords(LStrip(s));
        WordsLStrip(s);
        assert ([' '] + Collapse(LStrip(s)))[1..] == Collapse(LStrip(s));
      } else {
        var t := s[1..];
        CollapseKeepsWords(t);
        var x := [s[0]] + Collapse(t);
        assert x[1..] == Collapse(t);
      }
    }
  }

  /** The tail of a normal string after a non-space is normal, and when it
      starts with whitespace that is one `' '` followed by a normal string. */
  lemma NormalTail(s: string)
    requires IsNormal(s) && |s| > 1
    ensures IsNormal(s[1..])
      || (s[1] == ' ' && |s| > 2 && !IsSpace(s[2]) && IsNormal(s[2..]))
    ensures !IsSpace(s[1]) ==> IsNormal(s[1..])
  {
    var t := s[1..];
    assert Collapsed(t);
    if IsSpace(t[0]) {
      assert t[1..] == s[2..];
      assert Collapsed(s[2..]);
    }
  }

  /** The words of a string that starts with a non-space. */
  lemma WordsFront(s: string)
    requires |s| > 1 && !IsSpace(s[0])
    ensures !IsSpace(s[1]) ==> Words(s) == [[s[0]] + Words(s[1..])[0]] + Words(s[1..])[1..]
    ensures IsSpace(s[1]) ==> Words(s) == [[s[0]]] + Words(s[2..])
  {
    if IsSpace(s[1]) {
      assert s[1..][1..] == s[2..];
    }
  }

  /** A one-character word before a non-empty list is followed by a space. */
  lemma JoinSpaceGap(c: char, ws: seq<string>)
    requires ws != []
    ensures JoinSpace([[c]] + ws) == [c] + " " + JoinSpace(ws)
  {
    assert ([[c]] + ws)[1..] == ws;
  }

  /** A normal string is its words joined by single spaces. */
  lemma {:induction false} NormalIsJoinedWords(s: string)
    requires IsNormal(s)
    ensures JoinSpace(Words(s)) == s
    decreases |s|
  {
    if |s| > 1 {
      NormalTail(s);
      WordsFront(s);
      if IsSpace(s[1]) {
        var u := s[2..];
        NormalIsJoinedWords(u);
        JoinSpaceGap(s[0], Words(u));
        assert s == [s[0]] + " " + u;
      } else {
        var t := s[1..];
        NormalIsJoinedWords(t);
        JoinSpaceCons(s[0], Words(t));
        assert s == [s[0]] + t;
      }
    }
  }

  /** The normalisation is `' '.join(s.split())`: the words of `s`, in order,
      separated by one space each. */
  lemma NormalizeIsJoinedWords(s: string)
    ensures Normalize(s) == JoinSpace(Words(s))
    ensures Words(Normalize(s)) == Words(s)
  {
    WordsLStrip(s);
    WordsRStrip(LStrip(s));
    CollapseKeepsWords(Strip(s));
    NormalizeShape(s);
    NormalIsJoinedWords(Normalize(s));
  }

  // ---------------------------------------------------------------------
  // str.split(',')

  /** `s.split(',')`: the pieces between commas, empty ones included. */
  function SplitComma(s: string): (r: seq<string>)
    ensures |r| >= 1
    ensures forall i :: 0 <= i < |r| ==> ',' !in r[i]
    decreases |s|
  {
    if s == [] then [""]
    else
      var rest := SplitComma(s[1..]);
      if s[0] == ',' then [""] + rest
      else [[s[0]] + rest[0]] + rest[1..]
  }

  /** `','.join(ps)`. */
  function JoinComma(ps: seq<string>): string
    decreases |ps|
  {
    if ps == [] then ""
    else if |ps| == 1 then ps[0]
    else ps[0] + "," + JoinComma(ps[1..])
  }

  /** Joining the pieces with commas gives the input back. */
  lemma {:induction false} JoinSplitComma(s: string)
    ensures JoinComma(SplitComma(s)) == s
    decreases |s|
  {
    if s != [] {
      var rest := SplitComma(s[1..]);
      JoinSplitComma(s[1..]);
      if s[0] != ',' {
        if |rest| > 1 {
          assert JoinComma(rest) == rest[0] + "," + JoinComma(rest[1..]);
          assert [[s[0]] + rest[0]] + rest[1..] == [[s[0]] + rest[0]] + rest[1..];
          assert ([[s[0]] + rest[0]] + rest[1..])[1..] == rest[1..];
        }
      }
    }
  }

  /** Splitting comma-free pieces joined with commas gives the pieces back. */
  lemma {:induction false} SplitJoinComma(ps: seq<string>)
    requires |ps| >= 1
    requires forall i :: 0 <= i < |ps| ==> ',' !in ps[i]
    ensures SplitComma(JoinComma(ps)) == ps
    decreases |ps|, |ps[0]|
  {
    if |ps| == 1 {
      SplitCommaFree(ps[0]);
    } else if ps[0] == [] {
      SplitJoinComma(ps[1..]);
      assert JoinComma(ps) == [','] + JoinComma(ps[1..]);
      assert JoinComma(ps)[1..] == JoinComma(ps[1..]);
    } else {
      var q := [ps[0][1..]] + ps[1..];
      assert ',' !in ps[0][1..] by {
        assert forall c :: c in ps[0][1..] ==> c in ps[0];
      }
      SplitJoinComma(q);
      assert q[1..] == ps[1..];
      assert JoinComma(ps) == [ps[0][0]] + JoinComma(q);
      assert JoinComma(ps)[1..] == JoinComma(q);
      assert ps[0][0] != ',';
      assert q[0] == ps[0][1..];
      assert [ps[0][0]] + ps[0][1..] == ps[0];
      assert [ps[0]] + ps[1..] == ps;
    }
  }

  /** A comma-free string is one piece. */
  lemma {:induction false} SplitCommaFree(s: string)
    requires ',' !in s
    ensures SplitComma(s) == [s]
    decreases |s|
  {
    if s != [] {
      assert s[0] != ',';
      assert ',' !in s[1..] by {
        assert forall c :: c in s[1..] ==> c in s;
      }
      SplitCommaFree(s[1..]);
      assert [s[0]] + s[1..] == s;
    }
  }

  // ---------------------------------------------------------------------
  // re.split(r'[,\s\t]+', s)

  /** A character of the class `[,\s\t]`. */
  predicate IsSep(c: char) {
    c == ',' || IsSpace(c)
  }

  /** No separator character occurs in `s`. */
  predicate SepFree(s: string) {
    forall i :: 0 <= i < |s| ==> !IsSep(s[i])
  }

  /** `re.split(r'[,\s\t]+', s)`: the pieces between maximal separator runs; a
      leading or trailing run gives an empty first or last piece. */
  function SplitSeps(s: string): (r: seq<string>)
    ensures |r| >= 1
    ensures forall i :: 0 <= i < |r| ==> SepFree(r[i])
    decreases |s|
  {
    if s == [] then [""]
    else
      var rest := SplitSeps(s[1..]);
      if IsSep(s[0]) then
        if |s| > 1 && IsSep(s[1]) then rest else [""] + rest
      else
        [[s[0]] + rest[0]] + rest[1..]
  }

  /** The characters of `s` that are not separators, in order. */
  function NonSeps(s: string): (r: string)
    decreases |s|
  {
    if s == [] then [] else (if IsSep(s[0]) then [] else [s[0]]) + NonSeps(s[1..])
  }

  /** The pieces hold exactly the non-separator characters of the input, in order. */
  lemma {:induction false} SplitSepsCovers(s: string)
    ensures Flatten(SplitSeps(s)) == NonSeps(s)
    decreases |s|
  {
    if s != [] {
      var rest := SplitSeps(s[1..]);
      SplitSepsCovers(s[1..]);
      if !IsSep(s[0]) {
        var r := [[s[0]] + rest[0]] + rest[1..];
        assert r[1..] == rest[1..];
        assert Flatten(rest) == rest[0] + Flatten(rest[1..]);
      } else if !(|s| > 1 && IsSep(s[1])) {
        assert ([""] + rest)[1..] == rest;
      }
    }
  }

  /** The project-token list comprehension: strip-empty pieces dropped, the
      rest normalised. */
  function CleanTokens(ps: seq<string>): (r: seq<string>)
    decreases |ps|
  {
    if ps == [] then []
    else (if Strip(ps[0]) != [] then [Normalize(ps[0])] else []) + CleanTokens(ps[1..])
  }

  /** The project tokens of a preference cell (`[]` for an empty cell). */
  function ProjectTokens(field: string): (r: seq<string>)
  {
    if field == "" then [] else CleanTokens(SplitSeps(field))
  }

  /** The non-empty pieces of `ps`, in order. */
  function NonEmpty(ps: seq<string>): (r: seq<string>)
    decreases |ps|
  {
    if ps == [] then [] else (if ps[0] != [] then [ps[0]] else []) + NonEmpty(ps[1..])
  }

  /** A string with no separator character is already normal. */
  lemma {:induction false} SepFreeNormal(s: string)
    requires SepFree(s)
    ensures IsNormal(s)
    decreases |s|
  {
    if s != [] {
      assert SepFree(s[1..]) by {
        assert forall i :: 0 <= i < |s[1..]| ==> s[1..][i] == s[i + 1];
      }
      SepFreeNormal(s[1..]);
    }
  }

  lemma {:induction false} CleanSepFree(ps: seq<string>)
    requires forall i :: 0 <= i < |ps| ==> SepFree(ps[i])
    ensures CleanTokens(ps) == NonEmpty(ps)
    decreases |ps|
  {
    if ps != [] {
      var p := ps[0];
      SepFreeNormal(p);
      StripFixed(p);
      NormalFixed(p);
      CleanSepFree(ps[1..]);
    }
  }

  lemma {:induction false} FlattenNonEmpty(ps: seq<string>)
    ensures Flatten(NonEmpty(ps)) == Flatten(ps)
    ensures forall i :: 0 <= i < |NonEmpty(ps)| ==> NonEmpty(ps)[i] in ps && NonEmpty(ps)[i] != []
    decreases |ps|
  {
    if ps != [] {
      FlattenNonEmpty(ps[1..]);
      var h: seq<string> := if ps[0] != [] then [ps[0]] else [];
      FlattenAppend(h, NonEmpty(ps[1..]));
    }
  }

  /** Project tokens are non-empty, hold no comma and no whitespace, are
      unchanged by normalisation, and together spell out exactly the
      non-separator characters of the cell. */
  lemma ProjectTokensShape(field: string)
    ensures forall i :: 0 <= i < |ProjectTokens(field)| ==>
      ProjectTokens(field)[i] != [] && SepFree(ProjectTokens(field)[i])
      && Normalize(ProjectTokens(field)[i]) == ProjectTokens(field)[i]
    ensures Flatten(ProjectTokens(field)) == NonSeps(field)
  {
    if field != "" {
      var ps := SplitSeps(field);
      CleanSepFree(ps);
      FlattenNonEmpty(ps);
      SplitSepsCovers(field);
      var toks := NonEmpty(ps);
      forall i | 0 <= i < |toks|
        ensures toks[i] != [] && SepFree(toks[i]) && Normalize(toks[i]) == toks[i]
      {
        var t := toks[i];
        assert t in ps;
        SepFreeNormal(t);
        NormalFixed(t);
      }
    }
  }

  // ---------------------------------------------------------------------
  // The login cell

  /** The normalised, non-empty pieces of `ps`, in order (the append loop of
      `_parse_team_row` and `_collect_students_info`). */
  function NormalizedNonEmpty(ps: seq<string>): (r: seq<string>)
    decreases |ps|
  {
    if ps == [] then []
    else
      var last := Normalize(ps[|ps| - 1]);
      NormalizedNonEmpty(ps[..|ps| - 1]) + (if last != [] then [last] else [])
  }

  /** The team members named by a login cell. */
  lemma NormalizedNonEmptyStep(ps: seq<string>, j: int)
    requires 0 <= j < |ps|
    ensures Elems(NormalizedNonEmpty(ps[..j + 1]))
      == Elems(NormalizedNonEmpty(ps[..j])) + (if Normalize(ps[j]) != "" then {Normalize(ps[j])} else {})
  {
    assert ps[..j + 1][..j] == ps[..j];
    var a := NormalizedNonEmpty(ps[..j]);
    if Normalize(ps[j]) != "" {
      assert Elems(a + [Normalize(ps[j])]) == Elems(a) + {Normalize(ps[j])};
    }
  }

  function Logins(field: string): seq<string> {
    NormalizedNonEmpty(SplitComma(field))
  }

  /** Every member is a non-empty normal string without a comma, and each comes
      from one comma-separated piece. */
  lemma {:induction false} NormalizedNonEmptyShape(ps: seq<string>)
    requires forall i :: 0 <= i < |ps| ==> ',' !in ps[i]
    ensures |NormalizedNonEmpty(ps)| <= |ps|
    ensures forall m :: m in NormalizedNonEmpty(ps) ==>
      m != [] && IsNormal(m) && ',' !in m && exists p :: p in ps && m == Normalize(p)
    decreases |ps|
  {
    if ps != [] {
      var p := ps[|ps| - 1];
      NormalizedNonEmptyShape(ps[..|ps| - 1]);
      NormalizeShape(p);
      assert forall q :: q in ps[..|ps| - 1] ==> q in ps;
    }
  }

  lemma LoginsShape(field: string)
    ensures forall m :: m in Logins(field) ==> m != [] && IsNormal(m) && ',' !in m
  {
    NormalizedNonEmptyShape(SplitComma(field));
  }
}
