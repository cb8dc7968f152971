/** The in-memory tree built by `RuleEngine.buildAST`, and the token sequence a
    tree is printed back to. */
module RuleAst {

  /** `{type: 'operator', operator, left, right}` or
      `{type: 'operand', field, operator, value}`. The parser puts whatever token
      stands in a position into the node, so every field is a plain string. */
  datatype Node =
    | Operator(op: string, left: Node, right: Node)
    | Operand(field: string, op: string, value: string)

  /** The number of comparisons (operand nodes) in a tree. */
  function Leaves(n: Node): (k: nat)
    ensures k >= 1
  {
    match n
    case Operand(_, _, _) => 1
    case Operator(_, l, r) => Leaves(l) + Leaves(r)
  }

  /** The number of tokens a tree spans when every group is written with its
      opening and closing token: three per comparison and three per group. */
  function Span(n: Node): nat {
    6 * Leaves(n) - 3
  }

  predicate NoQuote(v: string) {
    forall i :: 0 <= i < |v| ==> v[i] != '\''
  }

  /** `value.replace(/'/g, '')`: every quote removed, everything else kept in
      order. */
  function StripQuotes(v: string): (r: string)
    ensures NoQuote(r)
    ensures |r| <= |v|
    ensures NoQuote(v) ==> r == v
  {
    if v == [] then []
    else if v[0] == '\'' then StripQuotes(v[1..])
    else [v[0]] + StripQuotes(v[1..])
  }

  /** Stripping the quotes off a quoted literal gives back what was between
      them. */
  lemma StripQuotesOfLiteral(x: string)
    requires NoQuote(x)
    ensures StripQuotes("'" + x + "'") == x
  {
    var q := "'" + x + "'";
    assert q[1..] == x + "'";
    StripQuotesAppend(x, "'");
  }

  lemma {:induction false} StripQuotesAppend(a: string, b: string)
    ensures StripQuotes(a + b) == StripQuotes(a) + StripQuotes(b)
  {
    if a != [] {
      assert (a + b)[0] == a[0];
      assert (a + b)[1..] == a[1..] + b;
      StripQuotesAppend(a[1..], b);
      if a[0] != '\'' {
        assert [a[0]] + StripQuotes(a[1..]) + StripQuotes(b) == [a[0]] + (StripQuotes(a[1..]) + StripQuotes(b));
      }
    } else {
      assert a + b == b;
    }
  }

  /** Every operand value of the tree is free of quotes. */
  predicate QuoteFree(n: Node) {
    match n
    case Operand(_, _, v) => NoQuote(v)
    case Operator(_, l, r) => QuoteFree(l) && QuoteFree(r)
  }

  /** The trees that the token sequence `Print` gives back: an operand whose
      field token were `(` would be read as the start of a group. */
  predicate Printable(n: Node) {
    match n
    case Operand(f, _, v) => f != "(" && NoQuote(v)
    case Operator(_, l, r) => Printable(l) && Printable(r)
  }

  /** The fully parenthesised token sequence of a tree: a group is `(`, the left
      subexpression, the combinator, the right subexpression and `)`; a
      comparison is its field, comparator and value. */
  function Print(n: Node): (ts: seq<string>)
    ensures |ts| == Span(n)
  {
    match n
    case Operand(f, c, v) => [f, c, v]
    case Operator(op, l, r) => ["("] + Print(l) + [op] + Print(r) + [")"]
  }
}
