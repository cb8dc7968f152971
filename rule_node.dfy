/** The `RuleNode` document schema: the paths a stored node has and the
    validation each path gets before a node is saved. A node refers to its
    children by id, not by nesting. */
module RuleNodeModel {
  import opened Wrappers
  import opened RuleAst
  import RuleParser
  import Lexer
  import Whitespace

  /** The id of another stored node. */
  type Id = nat

  /** A stored node; every path may be absent. The parser only ever puts a
      string under `value`, so `value` holds a string here. */
  datatype StoredNode = StoredNode(
    kind: Option<string>,
    operator: Option<string>,
    field: Option<string>,
    value: Option<string>,
    left: Option<Id>,
    right: Option<Id>)

  const Kinds: set<string> := {"operator", "operand"}

  const Operators: set<string> := {"AND", "OR", ">", "<", "=", ">=", "<="}

  /** `required` on a `String` path: present and not the empty string. */
  predicate RequiredString(v: Option<string>) {
    v.Some? && v.value != ""
  }

  /** `enum` on a `String` path: absent, or one of the listed values. */
  predicate InEnum(v: Option<string>, allowed: set<string>) {
    v.None? || v.value in allowed
  }

  /** The validation of `ruleNodeSchema`. `type` is required and enumerated;
      `operator` is enumerated and required for operator nodes only; `field`
      and `value` are required for operand nodes only, `value` being `Mixed`,
      for which only absence fails; `left` and `right` are free. */
  predicate SchemaValid(r: StoredNode) {
    && RequiredString(r.kind) && InEnum(r.kind, Kinds)
    && InEnum(r.operator, Operators)
    && (r.kind == Some("operator") ==> RequiredString(r.operator))
    && (r.kind == Some("operand") ==> RequiredString(r.field))
    && (r.kind == Some("operand") ==> r.value.Some?)
  }

  /** The schema pins the kind of a valid node to exactly one of the two, and
      an operator node always carries an operator from the list. */
  lemma ValidKind(r: StoredNode)
    requires SchemaValid(r)
    ensures r.kind == Some("operator") || r.kind == Some("operand")
    ensures r.kind == Some("operator") ==> r.operator.Some? && r.operator.value in Operators
  {
  }

  /** What the schema leaves open: an operand without a comparator, an operand
      with an empty value, and an operator node without children, or with
      children and a combinator in operand position, all validate. */
  lemma SchemaLeavesOpen(f: string, v: string, c: string, l: Option<Id>, r: Option<Id>)
    requires f != "" && c in Operators
    ensures SchemaValid(StoredNode(Some("operand"), None, Some(f), Some(v), l, r))
    ensures SchemaValid(StoredNode(Some("operand"), Some(c), Some(f), Some(""), None, None))
    ensures SchemaValid(StoredNode(Some("operator"), Some(c), None, None, l, r))
  {
  }

  /** The document a node of the parsed tree is stored as, given the ids its
      children were stored under. */
  function Store(n: Node, left: Option<Id>, right: Option<Id>): (r: StoredNode)
    ensures SchemaValid(r) <==> n.op in Operators && (n.Operand? ==> n.field != "")
  {
    match n
    case Operator(op, _, _) => StoredNode(Some("operator"), Some(op), None, None, left, right)
    case Operand(f, c, v) => StoredNode(Some("operand"), Some(c), Some(f), Some(v), None, None)
  }

  /** The schema does not look at the child ids. */
  lemma ValidityIgnoresChildIds(n: Node, left: Option<Id>, right: Option<Id>)
    ensures SchemaValid(Store(n, left, right)) == SchemaValid(Store(n, None, None))
  {
  }

  /** Every node of the tree validates (whatever ids its children get). */
  predicate Conforms(n: Node) {
    SchemaValid(Store(n, None, None)) && (n.Operator? ==> Conforms(n.left) && Conforms(n.right))
  }

  /** Every combinator and comparator of the tree is one of the seven listed
      operators. */
  predicate OperatorsListed(n: Node) {
    n.op in Operators && (n.Operator? ==> OperatorsListed(n.left) && OperatorsListed(n.right))
  }

  /** Every comparison of the tree names a non-empty field. */
  predicate FieldsNonEmpty(n: Node) {
    match n
    case Operand(f, _, _) => f != ""
    case Operator(_, l, r) => FieldsNonEmpty(l) && FieldsNonEmpty(r)
  }

  /** A tree with non-empty fields validates exactly when its operators are
      listed. */
  lemma {:induction false} ConformsIffListed(n: Node)
    requires FieldsNonEmpty(n)
    ensures Conforms(n) <==> OperatorsListed(n)
  {
    match n
    case Operand(_, _, _) =>
      assert SchemaValid(Store(n, None, None)) <==> n.op in Operators;
    case Operator(_, l, r) =>
      ConformsIffListed(l);
      ConformsIffListed(r);
      assert SchemaValid(Store(n, None, None)) <==> n.op in Operators;
  }

  /** A derivation from non-empty tokens has non-empty fields. */
  lemma {:induction false} DerivedFieldsNonEmpty(tokens: seq<string>, pos: nat, n: Node)
    requires forall i :: 0 <= i < |tokens| ==> tokens[i] != ""
    requires RuleParser.Derives(tokens, pos, n)
    ensures FieldsNonEmpty(n)
    decreases n
  {
    match n
    case Operand(_, _, _) =>
      assert n.field == tokens[pos];
    case Operator(_, l, r) =>
      DerivedFieldsNonEmpty(tokens, pos + 1, l);
      DerivedFieldsNonEmpty(tokens, pos + 2 + Span(l), r);
  }

  /** A tree built by `parseRule` passes the schema at every node exactly when
      each of its combinators and comparators is one of the seven listed: the
      tokens are never empty, so fields always are present. */
  lemma ParsedRuleConforms(s: string)
    requires RuleParser.ParseRule(s).Some?
    ensures Conforms(RuleParser.ParseRule(s).value) <==> OperatorsListed(RuleParser.ParseRule(s).value)
  {
    var t := Whitespace.Normalize(s);
    var tokens := Lexer.Tokenize(t).value;
    Lexer.TokensNonEmpty(t);
    RuleParser.ParseAtSound(tokens, 0);
    DerivedFieldsNonEmpty(tokens, 0, RuleParser.ParseRule(s).value);
    ConformsIffListed(RuleParser.ParseRule(s).value);
  }
}
