/** The tokenizer of `RuleEngine.tokenize`: one global, left-to-right scan with
    the pattern

      ( [()[\]] | \bAND\b | \bOR\b | [<>=]=? | \w+ | '[^']*' | \d+ )

    returning every match in order, or `null` when nothing matches. At each
    position the alternatives are tried in that order and the first that matches
    wins; when none matches the scan moves on by one character, so such a
    character is silently dropped. */
module Lexer {
  import opened Wrappers

  /** JavaScript `\w` (no `u` flag): ASCII letters, digits and underscore. */
  predicate IsWordChar(c: char) {
    ('a' <= c <= 'z') || ('A' <= c <= 'Z') || ('0' <= c <= '9') || c == '_'
  }

  predicate IsDigit(c: char) {
    '0' <= c <= '9'
  }

  predicate IsBracket(c: char) {
    c == '(' || c == ')' || c == '[' || c == ']'
  }

  predicate IsComparatorChar(c: char) {
    c == '<' || c == '>' || c == '='
  }

  /** A non-empty run of `\w` characters. */
  predicate IsWordToken(t: string) {
    |t| > 0 && forall i :: 0 <= i < |t| ==> IsWordChar(t[i])
  }

  /** `[<>=]=?` */
  predicate IsComparatorToken(t: string) {
    (|t| == 1 || (|t| == 2 && t[1] == '=')) && IsComparatorChar(t[0])
  }

  /** `'[^']*'`: a quote, any characters but a quote, a quote. */
  predicate IsQuotedLiteral(t: string) {
    |t| >= 2 && t[0] == '\'' && t[|t| - 1] == '\'' && forall i :: 0 < i < |t| - 1 ==> t[i] != '\''
  }

  /** The shapes a token can take. */
  predicate TokenShape(t: string) {
    || (|t| == 1 && IsBracket(t[0]))
    || IsComparatorToken(t)
    || IsWordToken(t)
    || IsQuotedLiteral(t)
  }

  /** Position `p` is a word boundary or a place where no word continues. */
  predicate Boundary(s: string, p: nat)
    requires p <= |s|
  {
    p == 0 || p == |s| || !IsWordChar(s[p - 1]) || !IsWordChar(s[p])
  }

  /** No alternative of the pattern matches at `p`: the scan drops `s[p]`. */
  predicate Skippable(s: string, p: nat)
    requires p < |s|
  {
    && !IsBracket(s[p])
    && !IsComparatorChar(s[p])
    && !IsWordChar(s[p])
    && (s[p] == '\'' ==> forall k :: p < k < |s| ==> s[k] != '\'')
  }

  /** `\bAND\b` at `p`. */
  predicate AndAt(s: string, p: nat) {
    && p + 3 <= |s|
    && s[p] == 'A' && s[p + 1] == 'N' && s[p + 2] == 'D'
    && (p == 0 || !IsWordChar(s[p - 1]))
    && (p + 3 == |s| || !IsWordChar(s[p + 3]))
  }

  /** `\bOR\b` at `p`. */
  predicate OrAt(s: string, p: nat) {
    && p + 2 <= |s|
    && s[p] == 'O' && s[p + 1] == 'R'
    && (p == 0 || !IsWordChar(s[p - 1]))
    && (p + 2 == |s| || !IsWordChar(s[p + 2]))
  }

  /** The end of the maximal run of `\w` characters starting at `i`. */
  function WordRunEnd(s: string, i: nat): (j: nat)
    requires i <= |s|
    ensures i <= j <= |s|
    ensures forall k :: i <= k < j ==> IsWordChar(s[k])
    ensures j == |s| || !IsWordChar(s[j])
    decreases |s| - i
  {
    if i < |s| && IsWordChar(s[i]) then WordRunEnd(s, i + 1) else i
  }

  /** The first quote at or after `i`, if any. */
  function NextQuote(s: string, i: nat): (r: Option<nat>)
    requires i <= |s|
    ensures r.Some? ==> i <= r.value < |s| && s[r.value] == '\''
    ensures forall k :: i <= k < (if r.Some? then r.value else |s|) ==> s[k] != '\''
    decreases |s| - i
  {
    if i == |s| then None
    else if s[i] == '\'' then Some(i)
    else NextQuote(s, i + 1)
  }

  /** The end of the maximal run of decimal digits starting at `i`. */
  function DigitRunEnd(s: string, i: nat): (j: nat)
    requires i <= |s|
    ensures i <= j <= |s|
    ensures forall k :: i <= k < j ==> IsDigit(s[k])
    ensures j == |s| || !IsDigit(s[j])
    decreases |s| - i
  {
    if i < |s| && IsDigit(s[i]) then DigitRunEnd(s, i + 1) else i
  }

  /** The length of the match of the pattern at `p`, 0 when nothing matches
      there. The alternatives are tried in the pattern's order and the first
      that matches wins: `[()[\]]`, `\bAND\b`, `\bOR\b`, `[<>=]=?` (greedy),
      `\w+` (greedy), `'[^']*'`. The last alternative, `\d+`, never gets a
      turn (DigitAlternativeUnreachable). */
  function MatchLength(s: string, p: nat): (k: nat)
    requires p < |s|
    ensures p + k <= |s|
  {
    if IsBracket(s[p]) then 1
    else if AndAt(s, p) then 3
    else if OrAt(s, p) then 2
    else if IsComparatorChar(s[p]) then (if p + 1 < |s| && s[p + 1] == '=' then 2 else 1)
    else if IsWordChar(s[p]) then WordRunEnd(s, p) - p
    else if s[p] == '\'' && NextQuote(s, p + 1).Some? then NextQuote(s, p + 1).value + 1 - p
    else 0
  }

  /** No match at `p` exactly where no alternative can match there. */
  lemma MatchNoneIffSkippable(s: string, p: nat)
    requires p < |s|
    ensures MatchLength(s, p) == 0 <==> Skippable(s, p)
  {
  }

  /** A match at `p` has one of the token shapes. */
  lemma MatchShape(s: string, p: nat)
    requires p < |s| && MatchLength(s, p) > 0
    ensures TokenShape(s[p..p + MatchLength(s, p)])
  {
  }

  /** A match ends at a word boundary, and a match that starts with a `\w`
      character is the whole run of `\w` characters from there. */
  lemma MatchEndsAtBoundary(s: string, p: nat)
    requires p < |s| && MatchLength(s, p) > 0
    ensures Boundary(s, p + MatchLength(s, p))
    ensures IsWordChar(s[p]) ==> var e := p + MatchLength(s, p);
              IsWordToken(s[p..e]) && (e == |s| || !IsWordChar(s[e]))
  {
  }

  /** `[<>=]=?` is greedy: a one-character comparator match is not followed by
      `=`. */
  lemma MatchComparatorGreedy(s: string, p: nat)
    requires p < |s| && IsComparatorChar(s[p]) && MatchLength(s, p) == 1
    ensures p + 1 == |s| || s[p + 1] != '='
  {
  }

  /** A match that starts with a quote ends at the next quote. */
  lemma MatchQuotedToNextQuote(s: string, p: nat)
    requires p < |s| && s[p] == '\'' && MatchLength(s, p) > 0
    ensures NextQuote(s, p + 1) == Some(p + MatchLength(s, p) - 1)
  {
  }

  /** The trailing `\d+` alternative never decides a match: wherever a digit
      stands it would match, but `\w+` comes first and matches the whole word
      run, which contains the digit run. */
  lemma DigitAlternativeUnreachable(s: string, p: nat)
    requires p < |s| && IsDigit(s[p])
    ensures DigitRunEnd(s, p) > p
    ensures MatchLength(s, p) == WordRunEnd(s, p) - p > 0
  {
  }

  /** The match length at every position of the string. */
  function MatchTable(s: string): (t: seq<nat>)
    ensures |t| == |s|
    ensures forall q :: 0 <= q < |s| ==> t[q] == MatchLength(s, q)
  {
    seq(|s|, q requires 0 <= q < |s| => MatchLength(s, q))
  }

  /** `t` gives a match length for each position of `s`, and no match runs
      past the end. */
  predicate Fits(s: string, t: seq<nat>) {
    |t| == |s| && forall q :: 0 <= q < |t| ==> q + t[q] <= |t|
  }

  lemma MatchTableFits(s: string)
    ensures Fits(s, MatchTable(s))
  {
    var t := MatchTable(s);
    forall q | 0 <= q < |t| ensures q + t[q] <= |t| {
      assert t[q] == MatchLength(s, q);
    }
  }

  /** A match found by the scan: where it starts and the text it covers. */
  datatype Lexeme = Lexeme(start: nat, text: string)

  function End(l: Lexeme): nat {
    l.start + |l.text|
  }

  /** The global scan from position `p` over the match lengths `t`: every
      match in order, with the characters where nothing matches skipped one at
      a time, and the scan resuming right after each match. */
  function Scan(s: string, t: seq<nat>, p: nat): (lx: seq<Lexeme>)
    requires Fits(s, t) && p <= |s|
    ensures |lx| <= |s| - p
    decreases |s| - p
  {
    if p == |s| then []
    else if t[p] == 0 then Scan(s, t, p + 1)
    else [Lexeme(p, s[p..p + t[p]])] + Scan(s, t, p + t[p])
  }

  /** The lexeme is the match recorded in `t` at its start position. */
  predicate InTable(s: string, t: seq<nat>, l: Lexeme)
    requires Fits(s, t)
  {
    && l.start < |s|
    && |l.text| > 0
    && t[l.start] == |l.text|
    && s[l.start..End(l)] == l.text
  }

  /** Lexeme `j` of the scan from `p` is the match recorded at its own start,
      which is at or after `p`, and it ends before lexeme `j + 1` begins. */
  lemma {:induction false} ScanLexeme(s: string, t: seq<nat>, p: nat, j: nat)
    requires Fits(s, t) && p <= |s| && j < |Scan(s, t, p)|
    ensures p <= Scan(s, t, p)[j].start && InTable(s, t, Scan(s, t, p)[j])
    ensures j + 1 < |Scan(s, t, p)| ==> End(Scan(s, t, p)[j]) <= Scan(s, t, p)[j + 1].start
    decreases |s| - p
  {
    var lx := Scan(s, t, p);
    if t[p] == 0 {
      ScanLexeme(s, t, p + 1, j);
    } else {
      var k := t[p];
      var rest := Scan(s, t, p + k);
      assert lx == [Lexeme(p, s[p..p + k])] + rest;
      if j == 0 {
        if 1 < |lx| {
          ScanLexeme(s, t, p + k, 0);
          assert lx[1] == rest[0];
        }
      } else {
        ScanLexeme(s, t, p + k, j - 1);
        assert lx[j] == rest[j - 1];
        if j + 1 < |lx| {
          assert lx[j + 1] == rest[j];
        }
      }
    }
  }

  /** Every position from `p` on where a match is recorded lies inside a
      lexeme of the scan: the one `CoveringLexeme` returns. */
  lemma {:induction false} CoveringLexeme(s: string, t: seq<nat>, p: nat, i: nat) returns (j: nat)
    requires Fits(s, t) && p <= i < |s| && t[i] > 0
    ensures j < |Scan(s, t, p)| && Scan(s, t, p)[j].start <= i < End(Scan(s, t, p)[j])
    decreases |s| - p
  {
    var lx := Scan(s, t, p);
    if t[p] == 0 {
      j := CoveringLexeme(s, t, p + 1, i);
    } else {
      var k := t[p];
      var rest := Scan(s, t, p + k);
      assert lx == [Lexeme(p, s[p..p + k])] + rest;
      if i < p + k {
        j := 0;
      } else {
        var j' := CoveringLexeme(s, t, p + k, i);
        j := j' + 1;
        assert lx[j] == rest[j'];
      }
    }
  }

  /** With no match recorded from `p` on, the scan finds nothing. */
  lemma {:induction false} ScanOfNoMatch(s: string, t: seq<nat>, p: nat)
    requires Fits(s, t) && p <= |s|
    requires forall i :: p <= i < |s| ==> t[i] == 0
    ensures Scan(s, t, p) == []
    decreases |s| - p
  {
    if p < |s| {
      ScanOfNoMatch(s, t, p + 1);
    }
  }

  /** Word boundaries survive the scan: no `\w` character is skipped, and
      every match ends at a boundary. */
  predicate BoundarySafe(s: string, t: seq<nat>)
    requires Fits(s, t)
  {
    forall q {:trigger t[q]} :: 0 <= q < |s| ==> if t[q] == 0 then !IsWordChar(s[q]) else Boundary(s, q + t[q])
  }

  /** A lexeme that begins with a `\w` character does not continue a word of
      the input. */
  predicate StartsWholeWord(s: string, l: Lexeme) {
    l.text == [] || !IsWordChar(l.text[0]) || l.start == 0 || (l.start <= |s| && !IsWordChar(s[l.start - 1]))
  }

  /** From a boundary on, every lexeme of the scan begins at a word boundary. */
  lemma {:induction false} ScanWordsStartAtBoundary(s: string, t: seq<nat>, p: nat)
    requires Fits(s, t) && BoundarySafe(s, t) && p <= |s| && Boundary(s, p)
    ensures forall j :: 0 <= j < |Scan(s, t, p)| ==> StartsWholeWord(s, Scan(s, t, p)[j])
    decreases |s| - p
  {
    if p < |s| {
      var lx := Scan(s, t, p);
      if t[p] == 0 {
        ScanWordsStartAtBoundary(s, t, p + 1);
      } else {
        var k := t[p];
        var head := Lexeme(p, s[p..p + k]);
        var rest := Scan(s, t, p + k);
        assert lx == [head] + rest;
        assert StartsWholeWord(s, head) by {
          assert head.text[0] == s[p];
        }
        ScanWordsStartAtBoundary(s, t, p + k);
        forall j | 0 <= j < |lx| ensures StartsWholeWord(s, lx[j]) {
          if j > 0 {
            assert lx[j] == rest[j - 1];
          }
        }
      }
    }
  }

  /** The lexemes of `ruleString.match(regex)`. */
  function Lexemes(s: string): (lx: seq<Lexeme>)
    ensures |lx| <= |s|
  {
    MatchTableFits(s);
    Scan(s, MatchTable(s), 0)
  }

  function Texts(lx: seq<Lexeme>): (ts: seq<string>)
    ensures |ts| == |lx| && forall j :: 0 <= j < |lx| ==> ts[j] == lx[j].text
  {
    if lx == [] then [] else [lx[0].text] + Texts(lx[1..])
  }

  /** `ruleString.match(regex)`: the matched texts, or `null` (`None`) when
      there is no match at all. */
  function Tokenize(s: string): (r: Option<seq<string>>)
    ensures r.Some? ==> |r.value| == |Lexemes(s)| > 0
    ensures r.Some? ==> forall j :: 0 <= j < |r.value| ==> r.value[j] == Lexemes(s)[j].text
  {
    var lx := Lexemes(s);
    if lx == [] then None else Some(Texts(lx))
  }

  /** The lexeme is the match of the pattern at its start position. */
  predicate MatchedAt(s: string, l: Lexeme) {
    && l.start < |s|
    && |l.text| > 0
    && MatchLength(s, l.start) == |l.text|
    && s[l.start..End(l)] == l.text
  }

  /** Each lexeme is the match of the pattern at its own start, and the
      lexemes are in order without overlap. */
  lemma LexemeMatched(s: string, j: nat)
    requires j < |Lexemes(s)|
    ensures MatchedAt(s, Lexemes(s)[j])
    ensures j + 1 < |Lexemes(s)| ==> End(Lexemes(s)[j]) <= Lexemes(s)[j + 1].start
  {
    MatchTableFits(s);
    var t := MatchTable(s);
    ScanLexeme(s, t, 0, j);
    assert t[Lexemes(s)[j].start] == MatchLength(s, Lexemes(s)[j].start);
  }

  ghost predicate Covered(lx: seq<Lexeme>, i: nat) {
    exists j :: 0 <= j < |lx| && lx[j].start <= i < End(lx[j])
  }

  /** Every character at which some alternative matches lies inside a token:
      only characters where nothing matches are dropped. */
  lemma ScanDropsOnlySkippable(s: string)
    ensures forall i :: 0 <= i < |s| && !Covered(Lexemes(s), i) ==> Skippable(s, i)
  {
    MatchTableFits(s);
    var t := MatchTable(s);
    forall i | 0 <= i < |s| && !Skippable(s, i) ensures Covered(Lexemes(s), i) {
      MatchNoneIffSkippable(s, i);
      assert t[i] == MatchLength(s, i);
      var j := CoveringLexeme(s, t, 0, i);
    }
  }

  /** `match` returns `null` exactly when no character of the string can start a
      match; otherwise a non-empty list. */
  lemma TokenizeNullIff(s: string)
    ensures Tokenize(s).None? <==> forall i :: 0 <= i < |s| ==> Skippable(s, i)
  {
    MatchTableFits(s);
    var t := MatchTable(s);
    if forall i :: 0 <= i < |s| ==> Skippable(s, i) {
      forall i | 0 <= i < |s| ensures t[i] == 0 {
        MatchNoneIffSkippable(s, i);
      }
      ScanOfNoMatch(s, t, 0);
    } else {
      ScanDropsOnlySkippable(s);
    }
  }

  /** The match lengths of the pattern keep word boundaries. */
  lemma MatchTableBoundarySafe(s: string)
    ensures Fits(s, MatchTable(s)) && BoundarySafe(s, MatchTable(s))
  {
    MatchTableFits(s);
    var t := MatchTable(s);
    forall q | 0 <= q < |s| ensures if t[q] == 0 then !IsWordChar(s[q]) else Boundary(s, q + t[q]) {
      MatchNoneIffSkippable(s, q);
      if t[q] > 0 {
        MatchEndsAtBoundary(s, q);
      }
    }
  }

  /** `AND`, `OR` and every other word token are whole words of the input:
      neither the character before nor the one after is a `\w` character. */
  lemma WordTokensAreWholeWords(s: string)
    ensures forall j :: 0 <= j < |Lexemes(s)| && IsWordToken(Lexemes(s)[j].text) ==>
              var l := Lexemes(s)[j];
              && End(l) <= |s|
              && (l.start == 0 || !IsWordChar(s[l.start - 1]))
              && (End(l) == |s| || !IsWordChar(s[End(l)]))
  {
    MatchTableBoundarySafe(s);
    ScanWordsStartAtBoundary(s, MatchTable(s), 0);
    var lx := Lexemes(s);
    forall j | 0 <= j < |lx| && IsWordToken(lx[j].text)
      ensures End(lx[j]) <= |s| && (lx[j].start == 0 || !IsWordChar(s[lx[j].start - 1])) && (End(lx[j]) == |s| || !IsWordChar(s[End(lx[j])]))
    {
      LexemeMatched(s, j);
      assert StartsWholeWord(s, lx[j]);
      assert s[lx[j].start] == lx[j].text[0];
      MatchEndsAtBoundary(s, lx[j].start);
    }
  }

  /** Every token has one of the shapes of the pattern's alternatives. */
  lemma TokensHaveShape(s: string)
    ensures Tokenize(s).Some? ==> forall j :: 0 <= j < |Tokenize(s).value| ==> TokenShape(Tokenize(s).value[j])
  {
    var lx := Lexemes(s);
    forall j | 0 <= j < |lx| ensures TokenShape(lx[j].text) {
      LexemeMatched(s, j);
      MatchShape(s, lx[j].start);
    }
  }

  /** Every token the tokenizer produces has at least one character. */
  lemma TokensNonEmpty(t: string)
    requires Tokenize(t).Some?
    ensures forall i :: 0 <= i < |Tokenize(t).value| ==> Tokenize(t).value[i] != ""
  {
    var tokens := Tokenize(t).value;
    TokensHaveShape(t);
    forall i | 0 <= i < |tokens| ensures tokens[i] != "" {
      assert TokenShape(tokens[i]);
    }
  }

  /** `>=` and `<=` are never split: a one-character comparator token is never
      followed by `=` in the input. */
  lemma ComparatorsAreMaximal(s: string)
    ensures forall j :: 0 <= j < |Lexemes(s)| && |Lexemes(s)[j].text| == 1 && IsComparatorChar(Lexemes(s)[j].text[0]) ==>
              End(Lexemes(s)[j]) <= |s| && (End(Lexemes(s)[j]) == |s| || s[End(Lexemes(s)[j])] != '=')
  {
    var lx := Lexemes(s);
    forall j | 0 <= j < |lx| && |lx[j].text| == 1 && IsComparatorChar(lx[j].text[0])
      ensures End(lx[j]) <= |s| && (End(lx[j]) == |s| || s[End(lx[j])] != '=')
    {
      LexemeMatched(s, j);
      assert s[lx[j].start] == lx[j].text[0];
      MatchComparatorGreedy(s, lx[j].start);
    }
  }

  /** A token that starts with a quote runs to the very next quote, whatever lies
      between (spaces included), and keeps both quotes. */
  lemma QuotedLiteralsAreWhole(s: string)
    ensures forall j :: 0 <= j < |Lexemes(s)| && |Lexemes(s)[j].text| > 0 && Lexemes(s)[j].text[0] == '\'' ==>
              var l := Lexemes(s)[j];
              && IsQuotedLiteral(l.text)
              && End(l) <= |s|
              && NextQuote(s, l.start + 1) == Some(End(l) - 1)
  {
    var lx := Lexemes(s);
    forall j | 0 <= j < |lx| && |lx[j].text| > 0 && lx[j].text[0] == '\''
      ensures IsQuotedLiteral(lx[j].text) && End(lx[j]) <= |s| && NextQuote(s, lx[j].start + 1) == Some(End(lx[j]) - 1)
    {
      LexemeMatched(s, j);
      assert s[lx[j].start] == lx[j].text[0];
      MatchShape(s, lx[j].start);
      MatchQuotedToNextQuote(s, lx[j].start);
    }
  }
}
