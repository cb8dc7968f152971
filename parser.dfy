/** `RuleEngine.buildAST` and `RuleEngine.parseRule`. The parser is one
    recursive routine over a cursor `position` that it advances with
    `position++`; it checks no token except for the `(` that opens a group, and
    fails (in JavaScript: throws) only when the tokens run out under an operand's
    value. */
module RuleParser {
  import opened Wrappers
  import opened RuleAst
  import Whitespace
  import Lexer

  /** `tokens[i]`: `undefined` (`None`) past the end. */
  function Lookup(tokens: seq<string>, i: nat): (t: Option<string>)
    ensures t.Some? <==> i < |tokens|
    ensures t.Some? ==> t.value == tokens[i]
  {
    if i < |tokens| then Some(tokens[i]) else None
  }

  /** How many tokens are left from the cursor on. */
  function Remaining(tokens: seq<string>, pos: nat): nat {
    if pos < |tokens| then |tokens| - pos else 0
  }

  /** `parseExpression` started with the cursor at `pos`: the tree it returns and
      the cursor it leaves, or `None` where it throws. A group is `(`, a left
      subexpression, the combinator token, a right subexpression and one more
      token that is skipped unread; anything else is a comparison of three
      tokens whose value loses its quotes. */
  function ParseAt(tokens: seq<string>, pos: nat): (r: Option<(Node, nat)>)
    ensures r.Some? ==> pos < r.value.1
    decreases Remaining(tokens, pos)
  {
    if pos < |tokens| && tokens[pos] == "(" then
      var left := ParseAt(tokens, pos + 1);
      if left.None? then None
      else
        var right := ParseAt(tokens, left.value.1 + 1);
        if right.None? then None
        else Some((Operator(tokens[left.value.1], left.value.0, right.value.0), right.value.1 + 1))
    else if pos + 2 < |tokens| then
      Some((Operand(tokens[pos], tokens[pos + 1], StripQuotes(tokens[pos + 2])), pos + 3))
    else
      None
  }

  /** The grammar the parser accepts, as a relation: the tokens from `pos` on
      spell the tree `n`. A comparison is three tokens whose first is not `(`;
      a group is `(`, its left part, its combinator and its right part. The
      token after the right part, meant to be `)`, is not part of the
      relation: it may be anything or missing. */
  predicate Derives(tokens: seq<string>, pos: nat, n: Node)
    decreases n
  {
    match n
    case Operand(f, c, v) =>
      pos + 2 < |tokens| && tokens[pos] != "("
      && f == tokens[pos] && c == tokens[pos + 1] && v == StripQuotes(tokens[pos + 2])
    case Operator(op, l, r) =>
      pos < |tokens| && tokens[pos] == "(" && Derives(tokens, pos + 1, l)
      && pos + 1 + Span(l) < |tokens| && tokens[pos + 1 + Span(l)] == op
      && Derives(tokens, pos + 2 + Span(l), r)
  }

  /** One past the last token a derivation of `n` from `pos` reads: the end of
      its last comparison. The tokens that close its groups are not read. */
  function ReadEnd(n: Node, pos: nat): nat
    decreases n
  {
    match n
    case Operand(_, _, _) => pos + 3
    case Operator(_, l, r) => ReadEnd(r, pos + 2 + Span(l))
  }

  /** `tokens` and `other` hold the same tokens from `lo` up to `hi`. */
  predicate Agree(tokens: seq<string>, other: seq<string>, lo: nat, hi: nat) {
    hi <= |tokens| && hi <= |other| && forall i :: lo <= i < hi ==> other[i] == tokens[i]
  }

  /** A derivation reads its first comparison and stops within its span, short
      of the span's end exactly when it has groups to close. */
  lemma {:induction false} ReadEndWithinSpan(n: Node, pos: nat)
    ensures pos + 2 < ReadEnd(n, pos) <= pos + Span(n)
    ensures n.Operator? ==> ReadEnd(n, pos) < pos + Span(n)
    decreases n
  {
    match n
    case Operand(_, _, _) =>
    case Operator(_, l, r) =>
      ReadEndWithinSpan(r, pos + 2 + Span(l));
  }

  /** Soundness: what the parser returns is derived by the grammar, and the
      cursor stops right after its span. */
  lemma {:induction false} ParseAtSound(tokens: seq<string>, pos: nat)
    requires ParseAt(tokens, pos).Some?
    ensures Derives(tokens, pos, ParseAt(tokens, pos).value.0)
    ensures ParseAt(tokens, pos).value.1 == pos + Span(ParseAt(tokens, pos).value.0)
    decreases Remaining(tokens, pos)
  {
    if pos < |tokens| && tokens[pos] == "(" {
      ParseAtSound(tokens, pos + 1);
      ParseAtSound(tokens, ParseAt(tokens, pos + 1).value.1 + 1);
    }
  }

  /** Completeness: whatever the grammar derives, the parser returns. */
  lemma {:induction false} ParseAtComplete(tokens: seq<string>, pos: nat, n: Node)
    requires Derives(tokens, pos, n)
    ensures ParseAt(tokens, pos) == Some((n, pos + Span(n)))
    decreases n
  {
    match n
    case Operand(_, _, _) =>
    case Operator(_, l, r) =>
      ParseAtComplete(tokens, pos + 1, l);
      ParseAtComplete(tokens, pos + 2 + Span(l), r);
  }

  /** The parser computes exactly the grammar relation. */
  lemma ParseAtIffDerives(tokens: seq<string>, pos: nat, n: Node, q: nat)
    ensures ParseAt(tokens, pos) == Some((n, q)) <==> Derives(tokens, pos, n) && q == pos + Span(n)
  {
    if ParseAt(tokens, pos) == Some((n, q)) {
      ParseAtSound(tokens, pos);
    }
    if Derives(tokens, pos, n) {
      ParseAtComplete(tokens, pos, n);
    }
  }

  /** A derived tree carries no quote in its values, is a group exactly when
      its first token is `(`, and reads no token past the end. */
  lemma {:induction false} DerivesFacts(tokens: seq<string>, pos: nat, n: Node)
    requires Derives(tokens, pos, n)
    ensures QuoteFree(n)
    ensures n.Operator? <==> tokens[pos] == "("
    ensures ReadEnd(n, pos) <= |tokens|
    decreases n
  {
    match n
    case Operand(_, _, _) =>
    case Operator(_, l, r) =>
      DerivesFacts(tokens, pos + 1, l);
      DerivesFacts(tokens, pos + 2 + Span(l), r);
  }

  /** A derivation depends only on the tokens it reads. */
  lemma {:induction false} DerivesReadsOnly(tokens: seq<string>, other: seq<string>, pos: nat, n: Node)
    requires Derives(tokens, pos, n)
    requires Agree(tokens, other, pos, ReadEnd(n, pos))
    ensures Derives(other, pos, n)
    decreases n
  {
    match n
    case Operand(_, _, _) =>
      assert other[pos] == tokens[pos] && other[pos + 1] == tokens[pos + 1] && other[pos + 2] == tokens[pos + 2];
    case Operator(_, l, r) =>
      ReadEndWithinSpan(l, pos + 1);
      ReadEndWithinSpan(r, pos + 2 + Span(l));
      assert other[pos] == tokens[pos] && other[pos + 1 + Span(l)] == tokens[pos + 1 + Span(l)];
      DerivesReadsOnly(tokens, other, pos + 1, l);
      DerivesReadsOnly(tokens, other, pos + 2 + Span(l), r);
  }

  /** `buildAST(tokens)`: the tree parsed from the first token on; tokens left
      over after it are not looked at. */
  function Parse(tokens: seq<string>): (r: Option<Node>)
    ensures r.Some? ==> Derives(tokens, 0, r.value)
    ensures r.Some? <==> ParseAt(tokens, 0).Some?
  {
    match ParseAt(tokens, 0)
    case None => None
    case Some((n, _)) =>
      ParseAtSound(tokens, 0);
      Some(n)
  }

  /** `parseRule(ruleString)`: normalise, tokenise, parse. A string without any
      token makes `match` return `null`, and indexing it throws. */
  function ParseRule(ruleString: string): (r: Option<Node>)
    ensures r.Some? ==> QuoteFree(r.value)
  {
    match Lexer.Tokenize(Whitespace.Normalize(ruleString))
    case None => None
    case Some(tokens) =>
      var p := Parse(tokens);
      if p.Some? then DerivesFacts(tokens, 0, p.value); p else p
  }

  /** The closure of `buildAST`: the token list and the shared cursor that
      `parseExpression` advances. */
  class AstBuilder {
    const tokens: seq<string>
    var position: nat

    constructor (tokens: seq<string>)
      ensures this.tokens == tokens && position == 0
    {
      this.tokens := tokens;
      position := 0;
    }

    /** `parseExpression`: the cursor only moves forward, and the tree and the
        final cursor are those of `ParseAt`. */
    method ParseExpression() returns (r: Option<Node>)
      modifies this
      ensures position >= old(position)
      ensures ParseAt(tokens, old(position)).None? ==> r.None?
      ensures ParseAt(tokens, old(position)).Some? ==>
                r == Some(ParseAt(tokens, old(position)).value.0) && position == ParseAt(tokens, old(position)).value.1
      decreases Remaining(tokens, position)
    {
      ghost var p0 := position;
      if position < |tokens| && tokens[position] == "(" {
        position := position + 1;
        var left := ParseExpression();
        if left.None? {
          return None;
        }
        ghost var ql := position;
        var operator := Lookup(tokens, position);
        position := position + 1;
        var right := ParseExpression();
        if right.None? {
          return None;
        }
        ghost var qr := position;
        assert ParseAt(tokens, p0) == Some((Operator(tokens[ql], left.value, right.value), qr + 1));
        position := position + 1;
        return Some(Operator(operator.value, left.value, right.value));
      } else {
        var field := Lookup(tokens, position);
        position := position + 1;
        var operator := Lookup(tokens, position);
        position := position + 1;
        var value := Lookup(tokens, position);
        position := position + 1;
        if value.None? {
          return None;
        }
        return Some(Operand(field.value, operator.value, StripQuotes(value.value)));
      }
    }
  }

  /** `buildAST` run on a fresh cursor computes `Parse`. */
  method BuildAst(tokens: seq<string>) returns (r: Option<Node>)
    ensures r == Parse(tokens)
  {
    var builder := new AstBuilder(tokens);
    r := builder.ParseExpression();
  }

  /** Two token lists that agree on the tokens a parse reads parse alike. */
  lemma ParseReadsOnly(tokens: seq<string>, other: seq<string>, pos: nat, n: Node, q: nat)
    requires ParseAt(tokens, pos) == Some((n, q))
    requires Agree(tokens, other, pos, ReadEnd(n, pos))
    ensures ParseAt(other, pos) == Some((n, q))
  {
    ParseAtSound(tokens, pos);
    DerivesReadsOnly(tokens, other, pos, n);
    ParseAtComplete(other, pos, n);
  }

  /** Tokens left over after the top-level expression are ignored. */
  lemma ParseIgnoresLeftover(tokens: seq<string>, more: seq<string>)
    requires Parse(tokens).Some?
    ensures Parse(tokens + more) == Parse(tokens)
  {
    var (n, q) := ParseAt(tokens, 0).value;
    ParseAtSound(tokens, 0);
    DerivesFacts(tokens, 0, n);
    ParseReadsOnly(tokens, tokens + more, 0, n, q);
  }

  /** The tokens that close groups are skipped without a check: any token in
      place of the last one, or none of them at all, gives the same tree and
      cursor. */
  lemma ClosingTokenUnchecked(tokens: seq<string>, pos: nat, n: Node, q: nat, t: string)
    requires ParseAt(tokens, pos) == Some((n, q)) && n.Operator?
    ensures q - 1 < |tokens| ==> ParseAt(tokens[q - 1 := t], pos) == Some((n, q))
    ensures ReadEnd(n, pos) < q && ReadEnd(n, pos) <= |tokens|
    ensures ParseAt(tokens[..ReadEnd(n, pos)], pos) == Some((n, q))
  {
    ParseAtSound(tokens, pos);
    DerivesFacts(tokens, pos, n);
    ReadEndWithinSpan(n, pos);
    if q - 1 < |tokens| {
      ParseReadsOnly(tokens, tokens[q - 1 := t], pos, n, q);
    }
    ParseReadsOnly(tokens, tokens[..ReadEnd(n, pos)], pos, n, q);
  }

  /** The printed tokens of `n` stand in `tokens` from `pos` on. */
  ghost predicate PrintedAt(tokens: seq<string>, pos: nat, n: Node) {
    && pos + |Print(n)| <= |tokens|
    && forall i, j :: 0 <= i < |Print(n)| && j == pos + i ==> tokens[j] == Print(n)[i]
  }

  /** The printed tokens of a group start with `(` and the left part. */
  lemma PrintedAtLeft(tokens: seq<string>, pos: nat, op: string, l: Node, r: Node)
    requires PrintedAt(tokens, pos, Operator(op, l, r))
    ensures tokens[pos] == "("
    ensures PrintedAt(tokens, pos + 1, l)
  {
    var p, pl := Print(Operator(op, l, r)), Print(l);
    assert tokens[pos] == p[0];
    forall i, j | 0 <= i < |pl| && j == pos + 1 + i ensures tokens[j] == pl[i] {
      assert tokens[j] == p[1 + i];
    }
  }

  /** After the left part, the printed tokens of a group go on with the
      combinator and the right part. */
  lemma PrintedAtRight(tokens: seq<string>, pos: nat, op: string, l: Node, r: Node)
    requires PrintedAt(tokens, pos, Operator(op, l, r))
    ensures tokens[pos + 1 + |Print(l)|] == op
    ensures PrintedAt(tokens, pos + 2 + |Print(l)|, r)
  {
    var p, pl, pr := Print(Operator(op, l, r)), Print(l), Print(r);
    var front := ["("] + pl + [op];
    assert tokens[pos + 1 + |pl|] == p[1 + |pl|] == front[1 + |pl|];
    forall i, j | 0 <= i < |pr| && j == pos + 2 + |pl| + i ensures tokens[j] == pr[i] {
      assert p[|front| + i] == (front + pr)[|front| + i];
      assert tokens[j] == p[|front| + i];
    }
  }

  /** The printed tokens of a printable tree, wherever they stand and whatever
      follows them, derive that tree. */
  lemma {:induction false} PrintedDerives(tokens: seq<string>, pos: nat, n: Node)
    requires Printable(n) && PrintedAt(tokens, pos, n)
    ensures Derives(tokens, pos, n)
    decreases n
  {
    match n
    case Operand(f, c, v) =>
      var p := Print(n);
      assert tokens[pos] == p[0] && tokens[pos + 1] == p[1] && tokens[pos + 2] == p[2];
    case Operator(op, l, r) =>
      PrintedAtLeft(tokens, pos, op, l, r);
      PrintedAtRight(tokens, pos, op, l, r);
      PrintedDerives(tokens, pos + 1, l);
      PrintedDerives(tokens, pos + 2 + Span(l), r);
  }

  /** Round trip: a printable tree is what `buildAST` makes of its printed
      tokens, whatever tokens follow them. */
  lemma ParseOfPrint(n: Node, rest: seq<string>)
    requires Printable(n)
    ensures Parse(Print(n) + rest) == Some(n)
  {
    PrintedDerives(Print(n) + rest, 0, n);
    ParseAtComplete(Print(n) + rest, 0, n);
  }

  /** Normalising the rule text first changes nothing: `parseRule` gives the
      same tree for a string and for its normal form. */
  lemma ParseRuleOfNormalized(s: string)
    ensures ParseRule(Whitespace.Normalize(s)) == ParseRule(s)
  {
    Whitespace.NormalizeIdempotent(s);
  }
}
