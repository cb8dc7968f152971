/** `RuleEngine.evaluateRule`: a rule tree evaluated against one record. A
    comparison looks the field up in the record and compares it with the
    literal of the rule; the combinators `AND` and `OR` short-circuit as in
    JavaScript. Evaluation is a function of the tree and the record: it changes
    neither. */
module RuleEvaluator {
  import opened Wrappers
  import opened RuleAst
  import Whitespace
  import Lexer

  /** A value of the record: a JSON number (integers only) or a JSON string. */
  datatype Val = Num(n: int) | Str(s: string)

  /** The record: field name to value. A name that is not a key reads as
      `undefined`. */
  type Record = map<string, Val>

  /** `data[field]`: `None` stands for `undefined`. */
  function Lookup(data: Record, field: string): (v: Option<Val>)
    ensures v.Some? <==> field in data
    ensures v.Some? ==> v.value == data[field]
  {
    if field in data then Some(data[field]) else None
  }

  predicate AllDigits(t: string) {
    forall i :: 0 <= i < |t| ==> Lexer.IsDigit(t[i])
  }

  /** The value of a string of decimal digits, most significant first. */
  function DigitsValue(t: string): nat
    requires AllDigits(t)
    decreases |t|
  {
    if t == [] then 0 else 10 * DigitsValue(t[..|t| - 1]) + (t[|t| - 1] as int - '0' as int)
  }

  /** `Number(s)` on a string, for integer literals: whitespace around the
      literal is ignored, a blank string is 0, an optional `+` or `-` followed
      by decimal digits is that integer, and anything else is NaN (`None`). */
  function StringToNumber(s: string): (r: Option<int>)
    ensures r.Some? && Whitespace.Trim(s) != [] ==>
              forall i :: 0 < i < |Whitespace.Trim(s)| ==> Lexer.IsDigit(Whitespace.Trim(s)[i])
    ensures r.Some? && Whitespace.Trim(s) != [] ==>
              || Lexer.IsDigit(Whitespace.Trim(s)[0])
              || ((Whitespace.Trim(s)[0] == '+' || Whitespace.Trim(s)[0] == '-') && |Whitespace.Trim(s)| > 1)
    ensures r.Some? && Whitespace.Trim(s) != [] && Lexer.IsDigit(Whitespace.Trim(s)[0]) ==>
              AllDigits(Whitespace.Trim(s)) && r.value == DigitsValue(Whitespace.Trim(s))
    ensures r.Some? && r.value < 0 ==> Whitespace.Trim(s) != [] && Whitespace.Trim(s)[0] == '-'
    ensures Whitespace.Trim(s) == [] ==> r == Some(0)
    ensures var t := Whitespace.Trim(s); t != [] && AllDigits(t) ==> r == Some(DigitsValue(t))
    ensures var t := Whitespace.Trim(s);
              |t| > 1 && (t[0] == '+' || t[0] == '-') && AllDigits(t[1..]) ==>
              r == Some(if t[0] == '-' then -(DigitsValue(t[1..]) as int) else DigitsValue(t[1..]) as int)
  {
    var t := Whitespace.Trim(s);
    if t == [] then Some(0)
    else if (t[0] == '+' || t[0] == '-') && |t| > 1 && AllDigits(t[1..]) then
      var m: int := DigitsValue(t[1..]);
      Some(if t[0] == '-' then -m else m)
    else if AllDigits(t) then Some(DigitsValue(t))
    else None
  }

  /** The number a record value is converted to when it is compared with a
      number: `undefined` is NaN, a string goes through `Number`. */
  function ToNumber(v: Option<Val>): Option<int> {
    match v
    case None => None
    case Some(Num(k)) => Some(k)
    case Some(Str(s)) => StringToNumber(s)
  }

  /** `x < y` on numbers that may be NaN: false whenever either one is. */
  predicate Less(x: Option<int>, y: Option<int>) {
    x.Some? && y.Some? && x.value < y.value
  }

  /** `x <= y` on numbers that may be NaN: false whenever either one is. */
  predicate AtMost(x: Option<int>, y: Option<int>) {
    x.Some? && y.Some? && x.value <= y.value
  }

  /** The comparison of an operand node: the record value against
      `Number(literal)` for the four relational comparators, strict equality
      with the literal string for `=`, and false for any other comparator. */
  predicate Holds(comparator: string, value: Option<Val>, literal: string)
    ensures Holds(comparator, value, literal) ==>
              value.Some? && comparator in {">", "<", "=", ">=", "<="}
  {
    if comparator == ">" then Less(StringToNumber(literal), ToNumber(value))
    else if comparator == "<" then Less(ToNumber(value), StringToNumber(literal))
    else if comparator == "=" then value == Some(Str(literal))
    else if comparator == ">=" then AtMost(StringToNumber(literal), ToNumber(value))
    else if comparator == "<=" then AtMost(ToNumber(value), StringToNumber(literal))
    else false
  }

  /** `evaluateRule(node, data)`. A rule holds only when one of its
      comparisons does. */
  predicate Eval(n: Node, data: Record)
    ensures Eval(n, data) ==> exists m :: m in Operands(n) && m.Operand? && Holds(m.op, Lookup(data, m.field), m.value)
  {
    match n
    case Operand(f, c, v) => Holds(c, Lookup(data, f), v)
    case Operator(op, l, r) =>
      if op == "AND" then Eval(l, data) && Eval(r, data)
      else if op == "OR" then Eval(l, data) || Eval(r, data)
      else false
  }

  /** The comparisons of a tree, left to right. */
  function Operands(n: Node): (ms: seq<Node>)
    ensures |ms| == Leaves(n)
    ensures forall i :: 0 <= i < |ms| ==> ms[i].Operand?
  {
    match n
    case Operand(_, _, _) => [n]
    case Operator(_, l, r) => Operands(l) + Operands(r)
  }

  /** The comparisons `evaluateRule` visits, in order: the right operand of
      `AND` only when the left one held, of `OR` only when it did not, and
      nothing below a node with another combinator. */
  function Trace(n: Node, data: Record): (t: seq<Node>)
    ensures forall i :: 0 <= i < |t| ==> t[i] in Operands(n)
  {
    match n
    case Operand(_, _, _) => [n]
    case Operator(op, l, r) =>
      if op == "AND" then Trace(l, data) + (if Eval(l, data) then Trace(r, data) else [])
      else if op == "OR" then Trace(l, data) + (if Eval(l, data) then [] else Trace(r, data))
      else []
  }

  /** Two records hold the same value, or are both missing, at each field
      compared by `ms`. */
  predicate SameFields(ms: seq<Node>, data: Record, other: Record)
    requires forall i :: 0 <= i < |ms| ==> ms[i].Operand?
  {
    forall i :: 0 <= i < |ms| ==> Lookup(data, ms[i].field) == Lookup(other, ms[i].field)
  }

  /** Agreement on a concatenation of visits is agreement on each part. */
  lemma SameFieldsSplit(ms: seq<Node>, ns: seq<Node>, data: Record, other: Record)
    requires forall i :: 0 <= i < |ms| ==> ms[i].Operand?
    requires forall i :: 0 <= i < |ns| ==> ns[i].Operand?
    requires SameFields(ms + ns, data, other)
    ensures SameFields(ms, data, other) && SameFields(ns, data, other)
  {
    var t := ms + ns;
    forall i | 0 <= i < |ms| ensures Lookup(data, ms[i].field) == Lookup(other, ms[i].field) {
      assert t[i] == ms[i];
    }
    forall i | 0 <= i < |ns| ensures Lookup(data, ns[i].field) == Lookup(other, ns[i].field) {
      assert t[|ms| + i] == ns[i];
    }
  }

  /** Evaluation reads nothing but the fields of the comparisons it visits:
      a record that agrees on those gives the same result and the same visit.
      In particular the right subtree of an `AND` whose left side failed, or of
      an `OR` whose left side held, has no influence. */
  lemma {:induction false} EvalReadsOnlyTrace(n: Node, data: Record, other: Record)
    requires SameFields(Trace(n, data), data, other)
    ensures Eval(n, other) == Eval(n, data)
    ensures Trace(n, other) == Trace(n, data)
  {
    match n
    case Operand(_, _, _) =>
      assert Trace(n, data)[0] == n;
    case Operator(op, l, r) =>
      if op == "AND" || op == "OR" {
        var tl := Trace(l, data);
        var rest := Trace(n, data)[|tl|..];
        assert Trace(n, data) == tl + rest;
        SameFieldsSplit(tl, rest, data, other);
        EvalReadsOnlyTrace(l, data, other);
        if (op == "AND" && Eval(l, data)) || (op == "OR" && !Eval(l, data)) {
          assert rest == Trace(r, data);
          EvalReadsOnlyTrace(r, data, other);
        }
      }
  }

  /** `AND` with a failing left side is false and visits only the left side. */
  lemma AndShortCircuits(l: Node, r: Node, data: Record)
    requires !Eval(l, data)
    ensures !Eval(Operator("AND", l, r), data)
    ensures Trace(Operator("AND", l, r), data) == Trace(l, data)
  {
  }

  /** `OR` with a holding left side is true and visits only the left side. */
  lemma OrShortCircuits(l: Node, r: Node, data: Record)
    requires Eval(l, data)
    ensures Eval(Operator("OR", l, r), data)
    ensures Trace(Operator("OR", l, r), data) == Trace(l, data)
  {
  }

  /** A combinator other than `AND` and `OR`, and a comparator other than the
      five known ones, make the node false whatever the record. */
  lemma UnknownOperatorIsFalse(n: Node, data: Record)
    requires n.Operator? ==> n.op != "AND" && n.op != "OR"
    requires n.Operand? ==> n.op !in {">", "<", "=", ">=", "<="}
    ensures !Eval(n, data)
  {
  }

  /** A relational comparison is false whenever either side converts to NaN:
      a missing field, a non-numeric string, or a non-numeric literal. */
  lemma RelationalFalseOnNaN(c: string, value: Option<Val>, literal: string)
    requires c in {">", "<", ">=", "<="}
    requires ToNumber(value).None? || StringToNumber(literal).None?
    ensures !Holds(c, value, literal)
  {
  }

  /** When both sides are numbers the four relational comparators are each
      other's complements, as on integers; `=` is strict and never holds for a
      numeric record value. */
  lemma RelationalOnNumbers(value: Option<Val>, literal: string)
    requires ToNumber(value).Some? && StringToNumber(literal).Some?
    ensures var x, y := ToNumber(value).value, StringToNumber(literal).value;
      && (Holds(">", value, literal) <==> x > y)
      && (Holds("<", value, literal) <==> x < y)
      && (Holds(">=", value, literal) <==> x >= y)
      && (Holds("<=", value, literal) <==> x <= y)
      && (Holds(">", value, literal) <==> !Holds("<=", value, literal))
      && (Holds("<", value, literal) <==> !Holds(">=", value, literal))
  {
  }

  /** `=` holds exactly for a string value equal to the literal: a number, or
      a missing field, never equals. */
  lemma EqualsIsStrict(f: string, literal: string, data: Record)
    ensures Eval(Operand(f, "=", literal), data) <==> f in data && data[f] == Str(literal)
    ensures f in data && data[f].Num? ==> !Eval(Operand(f, "=", literal), data)
  {
  }

  /** The digit character of a value below ten. */
  function DigitChar(d: nat): (c: char)
    requires d < 10
    ensures Lexer.IsDigit(c) && c as int - '0' as int == d
  {
    ('0' as int + d) as char
  }

  /** The decimal numeral of a natural number, without leading zeros. */
  function NatToString(k: nat): (t: string)
    ensures t != [] && AllDigits(t) && DigitsValue(t) == k
    ensures Lexer.IsDigit(t[0]) && Lexer.IsDigit(t[|t| - 1])
    decreases k
  {
    if k < 10 then [DigitChar(k)]
    else
      var front := NatToString(k / 10);
      var t := front + [DigitChar(k % 10)];
      assert t[..|t| - 1] == front;
      t
  }

  /** The numeral of an integer: a `-` before the numeral of a negative one. */
  function IntToString(i: int): string {
    if i < 0 then "-" + NatToString(-i) else NatToString(i)
  }

  lemma TrimOfUnpadded(t: string)
    requires t != [] && !Whitespace.IsSpace(t[0]) && !Whitespace.IsSpace(t[|t| - 1])
    ensures Whitespace.Trim(t) == t
  {
  }

  /** `Number` reads back every integer numeral. */
  lemma NumberOfNumeral(i: int)
    ensures StringToNumber(IntToString(i)) == Some(i)
  {
    var t := IntToString(i);
    var digits := NatToString(if i < 0 then -i else i);
    TrimOfUnpadded(t);
    if i < 0 {
      assert t[1..] == digits;
    }
  }

  /** The form submits every field as a string: a numeral compares exactly as
      the number it spells, under every relational comparator. */
  lemma NumeralComparesAsNumber(c: string, i: int, literal: string)
    requires c in {">", "<", ">=", "<="}
    ensures Holds(c, Some(Str(IntToString(i))), literal) == Holds(c, Some(Num(i)), literal)
  {
    NumberOfNumeral(i);
  }

  /** An empty or blank string converts to 0, so an empty form field compares as
      the number 0 under every relational comparator. */
  lemma BlankComparesAsZero(c: string, s: string, literal: string)
    requires c in {">", "<", ">=", "<="}
    requires forall i :: 0 <= i < |s| ==> Whitespace.IsSpace(s[i])
    ensures Holds(c, Some(Str(s)), literal) == Holds(c, Some(Num(0)), literal)
  {
    assert Whitespace.TrimStart(s) == [];
  }
}
