/** The operator tables of classes/utils/operators.js. */
module OperatorTables {
  import opened Js

  /** `binaryOperators`: operator name to symbol. */
  function BinaryOperators(): map<string, string> {
    map["PLUS" := "+", "DIV" := "/", "MULT" := "*", "MINUS" := "-",
        "NOT_EQUAL" := "!=", "EQUAL_EQUAL" := "==", "GTE" := ">=", "LTE" := "<=",
        "GT" := ">", "LT" := "<", "AND" := "&&", "OR" := "||"]
  }

  /** `unaryOperators`: the single unary operator. */
  function UnaryOperators(): map<string, string> {
    map["NOT" := "!"]
  }

  /** `operators = { ...binaryOperators, ...unaryOperators }`. */
  function Operators(): map<string, string> {
    BinaryOperators() + UnaryOperators()
  }

  /** `operatorsPriority`. Its keys are written `[operators.NAME]` in the
      source; they evaluate to the symbols below (`PriorityKeys`). */
  function OperatorsPriority(): map<string, nat> {
    map["+" := 2, "-" := 2, "/" := 1, "*" := 1,
        "!=" := 3, "==" := 3, ">=" := 3, "<=" := 3, ">" := 3, "<" := 3,
        "&&" := 4, "||" := 4, "!" := 0]
  }

  /** `inverseBinaryOperators = invert(binaryOperators)`. */
  ghost function InverseBinaryOperators(): map<string, string> {
    InvertMap(BinaryOperators())
  }

  /** `inverseUnaryOperators = invert(unaryOperators)`. */
  ghost function InverseUnaryOperators(): map<string, string> {
    InvertMap(UnaryOperators())
  }

  /** `inverseOperators = { ...inverseBinaryOperators, ...inverseUnaryOperators }`. */
  ghost function InverseOperators(): map<string, string> {
    InverseBinaryOperators() + InverseUnaryOperators()
  }

  /** The symbols of the binary operators. */
  const BinarySymbols: set<string> := {"+", "/", "*", "-", "!=", "==", ">=", "<=", ">", "<", "&&", "||"}
}

/** Properties of the operator tables. */
module OperatorFacts {
  import opened Js
  import opened OperatorTables

  /** `inverseBinaryOperators` as the object the fold builds; in
      particular no two binary operators share a symbol. */
  lemma InverseBinaryOperatorsObject()
    ensures Injective(BinaryOperators())
    ensures InverseBinaryOperators() == map["+" := "PLUS", "/" := "DIV", "*" := "MULT", "-" := "MINUS",
      "!=" := "NOT_EQUAL", "==" := "EQUAL_EQUAL", ">=" := "GTE", "<=" := "LTE",
      ">" := "GT", "<" := "LT", "&&" := "AND", "||" := "OR"]
  {
    InvertMapIs(BinaryOperators(), map["+" := "PLUS", "/" := "DIV", "*" := "MULT", "-" := "MINUS",
      "!=" := "NOT_EQUAL", "==" := "EQUAL_EQUAL", ">=" := "GTE", "<=" := "LTE",
      ">" := "GT", "<" := "LT", "&&" := "AND", "||" := "OR"]);
  }

  /** The binary symbols are the twelve listed, and `!` is not one of
      them (`!=` is not `!`). */
  lemma BinarySymbolsExclude()
    ensures BinaryOperators().Values == BinarySymbols && "!" !in BinarySymbols
  {
    InverseBinaryOperatorsObject();
  }

  /** `inverseOperators` as the object the two folds and the spread build. */
  lemma InverseOperatorsObject()
    ensures InverseOperators() == map["+" := "PLUS", "/" := "DIV", "*" := "MULT", "-" := "MINUS",
      "!=" := "NOT_EQUAL", "==" := "EQUAL_EQUAL", ">=" := "GTE", "<=" := "LTE",
      ">" := "GT", "<" := "LT", "&&" := "AND", "||" := "OR", "!" := "NOT"]
  {
    InverseBinaryOperatorsObject();
    InvertMapIs(UnaryOperators(), map["!" := "NOT"]);
  }

  /** `operators` as the object the spread builds. */
  lemma OperatorsObject()
    ensures Operators() == map["PLUS" := "+", "DIV" := "/", "MULT" := "*", "MINUS" := "-",
      "NOT_EQUAL" := "!=", "EQUAL_EQUAL" := "==", "GTE" := ">=", "LTE" := "<=",
      "GT" := ">", "LT" := "<", "AND" := "&&", "OR" := "||", "NOT" := "!"]
  {
  }

  /** Because the binary and unary symbols are disjoint, merging the two
      inverses loses nothing: `inverseOperators` is `invert(operators)`. */
  lemma InverseOperatorsInvertOperators()
    ensures Injective(Operators()) && InverseOperators() == InvertMap(Operators())
  {
    InverseBinaryOperatorsObject();
    BinarySymbolsExclude();
    OperatorsIsUnion();
    InvertMapIs(UnaryOperators(), map["!" := "NOT"]);
    assert BinaryOperators().Values !! UnaryOperators().Values;
    InvertMapUnion(BinaryOperators(), UnaryOperators());
  }

  /** The operator symbols: the binary ones and `!`. */
  lemma OperatorSymbols()
    ensures Operators().Values == BinarySymbols + {"!"}
  {
    InverseOperatorsObject();
    InverseOperatorsInvertOperators();
  }

  /** `operators` is exactly the union of `binaryOperators` and
      `unaryOperators`, whose names are disjoint. */
  lemma OperatorsIsUnion()
    ensures Operators().Keys == BinaryOperators().Keys + UnaryOperators().Keys
    ensures BinaryOperators().Keys !! UnaryOperators().Keys
    ensures forall k | k in Operators() :: Operators()[k] == if k in UnaryOperators() then UnaryOperators()[k] else BinaryOperators()[k]
  {
  }

  /** `inverseOperators` round-trips with `operators`, in both directions. */
  lemma InverseOperatorsRoundTrip()
    ensures forall k | k in Operators() :: Operators()[k] in InverseOperators() && InverseOperators()[Operators()[k]] == k
    ensures forall v | v in InverseOperators() :: InverseOperators()[v] in Operators() && Operators()[InverseOperators()[v]] == v
  {
    InverseOperatorsInvertOperators();
    forall k | k in Operators() ensures Operators()[k] in InverseOperators() && InverseOperators()[Operators()[k]] == k {
      InvertMapAt(Operators(), k);
    }
  }

  /** The computed keys `[operators.NAME]` of `operatorsPriority`, in
      the order the source lists them. */
  lemma PriorityKeys()
    ensures var o := Operators();
      [KeyOf(o, "PLUS"), KeyOf(o, "MINUS"), KeyOf(o, "DIV"), KeyOf(o, "MULT"), KeyOf(o, "NOT_EQUAL"),
       KeyOf(o, "EQUAL_EQUAL"), KeyOf(o, "GTE"), KeyOf(o, "LTE"), KeyOf(o, "GT"), KeyOf(o, "LT"),
       KeyOf(o, "AND"), KeyOf(o, "OR"), KeyOf(o, "NOT")]
      == ["+", "-", "/", "*", "!=", "==", ">=", "<=", ">", "<", "&&", "||", "!"]
  {
  }

  /** Every operator symbol has a priority, and nothing else has one. */
  lemma EveryOperatorHasPriority()
    ensures OperatorsPriority().Keys == Operators().Values
  {
    InverseOperatorsObject();
    InverseOperatorsInvertOperators();
  }

  /** `!` binds tightest, then `*` and `/`, then `+` and `-`. */
  lemma PriorityOfArithmetic()
    ensures var p := OperatorsPriority();
      && "!" in p && "*" in p && "/" in p && "+" in p && "-" in p
      && p["!"] == 0 && p["*"] == p["/"] == 1 && p["+"] == p["-"] == 2
  {
  }

  /** The relational operators share rank 3, below `+` and `-`. */
  lemma PriorityOfRelational()
    ensures var p := OperatorsPriority();
      && "!=" in p && "==" in p && ">=" in p && "<=" in p && ">" in p && "<" in p
      && p["!="] == p["=="] == p[">="] == p["<="] == p[">"] == p["<"] == 3
  {
  }

  /** `&&` and `||` bind loosest, with rank 4. */
  lemma PriorityOfLogical()
    ensures var p := OperatorsPriority();
      && "&&" in p && "||" in p && p["&&"] == p["||"] == 4
  {
  }
}
