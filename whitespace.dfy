/** Normalisation of a rule string before tokenising: every run of whitespace
    becomes a single space, then leading and trailing whitespace is removed
    (`replace(/\s+/g, ' ').trim()` in `RuleEngine.parseRule`). */
module Whitespace {

  /** The characters matched by the regular-expression class `\s` and stripped by
      `String.prototype.trim`: ECMAScript WhiteSpace and LineTerminator. */
  predicate IsSpace(c: char) {
    || c == ' ' || c == '\t' || c == '\n' || c == '\r'
    || c == '\U{000B}' || c == '\U{000C}' || c == '\U{00A0}' || c == '\U{1680}'
    || ('\U{2000}' <= c <= '\U{200A}')
    || c == '\U{2028}' || c == '\U{2029}' || c == '\U{202F}' || c == '\U{205F}'
    || c == '\U{3000}' || c == '\U{FEFF}'
  }

  predicate NoSpace(w: string) {
    forall i :: 0 <= i < |w| ==> !IsSpace(w[i])
  }

  /** No two whitespace characters are adjacent. */
  ghost predicate SingleSpaced(r: string) {
    forall i, j :: 0 <= i < j < |r| && j == i + 1 && IsSpace(r[i]) ==> !IsSpace(r[j])
  }

  /** The shape of a normalised string: the only whitespace is a single ' '
      standing strictly between two non-whitespace characters. */
  ghost predicate Normalized(r: string) {
    && (forall i :: 0 <= i < |r| && IsSpace(r[i]) ==> r[i] == ' ' && 0 < i < |r| - 1)
    && SingleSpaced(r)
  }

  /** `replace(/\s+/g, ' ')`: each maximal run of whitespace becomes one ' '. */
  function CollapseRuns(s: string): (r: string)
    ensures |r| == 0 <==> |s| == 0
    ensures s != [] ==> (IsSpace(r[0]) <==> IsSpace(s[0]))
    ensures forall i :: 0 <= i < |r| && IsSpace(r[i]) ==> r[i] == ' '
    ensures SingleSpaced(r)
  {
    if s == [] then []
    else if IsSpace(s[0]) && |s| > 1 && IsSpace(s[1]) then CollapseRuns(s[1..])
    else if IsSpace(s[0]) then " " + CollapseRuns(s[1..])
    else [s[0]] + CollapseRuns(s[1..])
  }

  /** Leading whitespace removed: the result is the longest suffix of `s` that
      does not start with whitespace. */
  function TrimStart(s: string): (r: string)
    ensures |r| <= |s| && r == s[|s| - |r|..]
    ensures r == [] || !IsSpace(r[0])
    ensures forall i :: 0 <= i < |s| - |r| ==> IsSpace(s[i])
  {
    if s != [] && IsSpace(s[0]) then TrimStart(s[1..]) else s
  }

  /** Trailing whitespace removed: the result is the longest prefix of `s` that
      does not end with whitespace. */
  function TrimEnd(s: string): (r: string)
    ensures |r| <= |s| && r == s[..|r|]
    ensures r == [] || !IsSpace(r[|r| - 1])
    ensures forall i :: |r| <= i < |s| ==> IsSpace(s[i])
  {
    if s != [] && IsSpace(s[|s| - 1]) then TrimEnd(s[..|s| - 1]) else s
  }

  /** `String.prototype.trim`. */
  function Trim(s: string): string {
    TrimEnd(TrimStart(s))
  }

  /** Every whitespace character is a lone ' '. */
  ghost predicate LoneSpaces(c: string) {
    && (forall i :: 0 <= i < |c| && IsSpace(c[i]) ==> c[i] == ' ')
    && SingleSpaced(c)
  }

  /** Any stretch of a string whose whitespace is lone ' ' characters has only
      lone ' ' characters as whitespace. */
  lemma LoneSpacesSlice(c: string, lo: nat, hi: nat)
    requires lo <= hi <= |c| && LoneSpaces(c)
    ensures LoneSpaces(c[lo..hi])
  {
    var r := c[lo..hi];
    forall i | 0 <= i < |r| ensures r[i] == c[lo + i] {
    }
  }

  /** A string whose whitespace is lone ' ' characters, and which neither starts
      nor ends with whitespace, is normalised. */
  lemma LoneSpacesInsideNormalized(r: string)
    requires LoneSpaces(r)
    requires r == [] || (!IsSpace(r[0]) && !IsSpace(r[|r| - 1]))
    ensures Normalized(r)
  {
  }

  /** Removing leading whitespace keeps the whitespace lone ' ' characters. */
  lemma TrimStartKeepsLoneSpaces(c: string)
    requires LoneSpaces(c)
    ensures LoneSpaces(TrimStart(c))
  {
    var t := TrimStart(c);
    LoneSpacesSlice(c, |c| - |t|, |c|);
    assert t == c[|c| - |t|..|c|];
  }

  /** Removing trailing whitespace keeps the whitespace lone ' ' characters. */
  lemma TrimEndKeepsLoneSpaces(t: string)
    requires LoneSpaces(t)
    ensures LoneSpaces(TrimEnd(t))
  {
    var r := TrimEnd(t);
    LoneSpacesSlice(t, 0, |r|);
    assert r == t[0..|r|];
  }

  /** Trimming a string whose whitespace is lone ' ' characters normalises it. */
  lemma TrimmedIsNormalized(c: string)
    requires LoneSpaces(c)
    ensures Normalized(Trim(c))
  {
    TrimStartKeepsLoneSpaces(c);
    TrimEndKeepsLoneSpaces(TrimStart(c));
    LoneSpacesInsideNormalized(Trim(c));
  }

  /** The normalisation applied by `parseRule` before tokenising. */
  function Normalize(s: string): (r: string)
    ensures Normalized(r)
  {
    TrimmedIsNormalized(CollapseRuns(s));
    Trim(CollapseRuns(s))
  }

  /** The reference meaning of normalisation: the maximal whitespace-free runs of
      `s`, in order. */
  function Words(s: string): (ws: seq<string>)
    ensures forall j :: 0 <= j < |ws| ==> ws[j] != [] && NoSpace(ws[j])
    ensures s != [] && !IsSpace(s[0]) ==> ws != [] && ws[0][0] == s[0]
  {
    if s == [] then []
    else if IsSpace(s[0]) then Words(s[1..])
    else
      var rest := Words(s[1..]);
      if |s| == 1 || IsSpace(s[1]) then [[s[0]]] + rest
      else [[s[0]] + rest[0]] + rest[1..]
  }

  /** The words separated by single spaces. */
  function Join(ws: seq<string>): string {
    if ws == [] then []
    else if |ws| == 1 then ws[0]
    else ws[0] + " " + Join(ws[1..])
  }

  lemma {:induction false} WordsOfCollapseRuns(s: string)
    ensures Words(CollapseRuns(s)) == Words(s)
  {
    if s == [] {
    } else if IsSpace(s[0]) && |s| > 1 && IsSpace(s[1]) {
      WordsOfCollapseRuns(s[1..]);
    } else {
      WordsOfCollapseRuns(s[1..]);
      var c := CollapseRuns(s);
      assert c[1..] == CollapseRuns(s[1..]);
    }
  }

  lemma {:induction false} WordsOfTrimStart(s: string)
    ensures Words(TrimStart(s)) == Words(s)
  {
    if s != [] && IsSpace(s[0]) {
      WordsOfTrimStart(s[1..]);
    }
  }

  /** Appending whitespace does not change the words. */
  lemma {:induction false} WordsSnocSpace(s: string, c: char)
    requires IsSpace(c)
    ensures Words(s + [c]) == Words(s)
  {
    if s == [] {
      assert [c][1..] == [];
    } else {
      var t := s + [c];
      assert t[1..] == s[1..] + [c];
      WordsSnocSpace(s[1..], c);
    }
  }

  lemma {:induction false} WordsOfTrimEnd(s: string)
    ensures Words(TrimEnd(s)) == Words(s)
  {
    if s != [] && IsSpace(s[|s| - 1]) {
      WordsOfTrimEnd(s[..|s| - 1]);
      assert s == s[..|s| - 1] + [s[|s| - 1]];
      WordsSnocSpace(s[..|s| - 1], s[|s| - 1]);
    }
  }

  /** A normalised string is exactly its words joined by single spaces. */
  lemma {:induction false} NormalizedIsJoin(r: string)
    requires Normalized(r)
    ensures Join(Words(r)) == r
  {
    if r != [] {
      var r' := r[1..];
      if r' == [] {
      } else if IsSpace(r'[0]) {
        var r'' := r[2..];
        assert Normalized(r'') by {
          forall i | 0 <= i < |r''| && IsSpace(r''[i])
            ensures r''[i] == ' ' && 0 < i < |r''| - 1 && !IsSpace(r''[i + 1])
          {
            assert r''[i] == r[i + 2];
          }
        }
        NormalizedIsJoin(r'');
        assert r'[1..] == r'';
        assert Words(r') == Words(r'');
      } else {
        assert Normalized(r') by {
          forall i | 0 <= i < |r'| && IsSpace(r'[i])
            ensures r'[i] == ' ' && 0 < i < |r'| - 1 && !IsSpace(r'[i + 1])
          {
            assert r'[i] == r[i + 1];
          }
        }
        NormalizedIsJoin(r');
        var w := Words(r');
        if |w| > 1 {
          assert Join(w) == w[0] + " " + Join(w[1..]);
        }
      }
    }
  }

  /** Normalisation keeps exactly the words of the input, in order. */
  lemma WordsOfNormalize(s: string)
    ensures Words(Normalize(s)) == Words(s)
  {
    var c := CollapseRuns(s);
    WordsOfCollapseRuns(s);
    WordsOfTrimStart(c);
    WordsOfTrimEnd(TrimStart(c));
  }

  /** Normalisation keeps exactly the words of the input, in order, and puts a
      single space between consecutive words. */
  lemma NormalizeIsJoinOfWords(s: string)
    ensures Normalize(s) == Join(Words(s))
  {
    WordsOfNormalize(s);
    NormalizedIsJoin(Normalize(s));
  }

  /** Normalising twice is normalising once. */
  lemma NormalizeIdempotent(s: string)
    ensures Normalize(Normalize(s)) == Normalize(s)
  {
    NormalizeIsJoinOfWords(s);
    NormalizeIsJoinOfWords(Normalize(s));
    WordsOfNormalize(s);
  }
}
