/** The binary compatibility cube of classes/utils/compatibility/binary.js:
    for two operand types and a binary operator, the type of the result,
    or `None` (JS `null`) when the combination is not allowed. */
module BinaryCompat {
  import opened Js
  import opened Outcomes
  import opened Types
  import opened OperatorTables
  import opened SymmetricFold

  /** One cell of the cube: operator symbol to result type. */
  type Cell = map<string, Option<string>>

  const Int: Option<string> := Some("int")
  const Float: Option<string> := Some("float")
  const Char: Option<string> := Some("char")
  const Bool: Option<string> := Some("boolean")

  /** The operator names the module destructures from `binaryOperators`
      (lines 6-21). EQUAL is one of them although `binaryOperators` has no
      such entry. */
  const DestructuredNames: set<string> :=
    {"PLUS", "DIV", "MULT", "MINUS", "NOT_EQUAL", "EQUAL_EQUAL", "GTE", "LTE",
     "GT", "LT", "AND", "OR", "EQUAL"}

  /** `...missing`: the entries of the operator table left over by the
      destructuring. */
  function Missing(ops: map<string, string>): (missing: map<string, string>)
    ensures forall k :: k in missing <==> k in ops && k !in DestructuredNames
    ensures forall k | k in missing :: missing[k] == ops[k]
  {
    map k | k in ops && k !in DestructuredNames :: ops[k]
  }

  /** The load-time assertion of lines 23-25: it throws when an operator
      is left over. */
  function LoadCheck(ops: map<string, string>): Outcome {
    if |Missing(ops).Keys| > 0 then Fail(UnusedOperator) else Pass
  }

  /** The assertion passes exactly when every operator of the table is
      destructured, that is, has a place in the cells. */
  lemma LoadCheckPassesIff(ops: map<string, string>)
    ensures LoadCheck(ops) == Pass <==> ops.Keys <= DestructuredNames
    ensures LoadCheck(ops) != Pass ==> LoadCheck(ops) == Fail(UnusedOperator)
  {
    if !(ops.Keys <= DestructuredNames) {
      var k :| k in ops && k !in DestructuredNames;
      assert k in Missing(ops).Keys;
    }
  }

  /** The operator table of the repository passes the assertion. */
  lemma LoadCheckPasses()
    ensures LoadCheck(BinaryOperators()) == Pass
  {
    LoadCheckPassesIff(BinaryOperators());
  }

  /** The computed keys of a cell, `[PLUS]` … `[EQUAL]`, in the order the
      source writes them: EQUAL is undefined, so its entry sits under the
      key "undefined". */
  lemma CellKeys()
    ensures var o := BinaryOperators();
      [KeyOf(o, "PLUS"), KeyOf(o, "DIV"), KeyOf(o, "MULT"), KeyOf(o, "MINUS"), KeyOf(o, "NOT_EQUAL"),
       KeyOf(o, "EQUAL_EQUAL"), KeyOf(o, "GTE"), KeyOf(o, "LTE"), KeyOf(o, "GT"), KeyOf(o, "LT"),
       KeyOf(o, "AND"), KeyOf(o, "OR"), KeyOf(o, "EQUAL")]
      == ["+", "/", "*", "-", "!=", "==", ">=", "<=", ">", "<", "&&", "||", "undefined"]
  {
  }

  /** The computed keys `[INT]` … `[BOOLEAN]` of rows and columns. */
  lemma TypeKeys()
    ensures var t := ValueTypes();
      [KeyOf(t, "INT"), KeyOf(t, "FLOAT"), KeyOf(t, "CHAR"), KeyOf(t, "BOOLEAN")]
      == ["int", "float", "char", "boolean"]
  {
  }

  /** A cell as the source writes it: the four arithmetic operators share
      a result, as do `!=` and `==`, the four orderings, `&&` and `||`;
      the last entry is the assignment `[EQUAL]`. */
  function CellOf(arith: Option<string>, eq: Option<string>, ord: Option<string>,
                  logic: Option<string>, assign: Option<string>): Cell
  {
    map["+" := arith, "/" := arith, "*" := arith, "-" := arith,
        "!=" := eq, "==" := eq, ">=" := ord, "<=" := ord, ">" := ord, "<" := ord,
        "&&" := logic, "||" := logic, "undefined" := assign]
  }

  /** The cell whose every entry is `null`. */
  function NullCell(): Cell {
    CellOf(None, None, None, None, None)
  }

  /** The row `[INT]` (lines 28-88). */
  function IntRow(): map<string, Cell> {
    map["int" := CellOf(Int, Bool, Bool, None, Int),
        "float" := CellOf(Float, Bool, Bool, None, Float),
        "char" := CellOf(Int, Bool, Bool, None, Int),
        "boolean" := NullCell()]
  }

  /** The row `[FLOAT]` (lines 90-135). */
  function FloatRow(): map<string, Cell> {
    map["float" := CellOf(Float, Bool, Bool, None, Float),
        "char" := CellOf(Float, Bool, Bool, None, Float),
        "boolean" := NullCell()]
  }

  /** The row `[CHAR]` (lines 137-167). */
  function CharRow(): map<string, Cell> {
    map["char" := CellOf(Int, Bool, Bool, None, Char),
        "boolean" := NullCell()]
  }

  /** The row `[BOOLEAN]` (lines 169-185). */
  function BooleanRow(): map<string, Cell> {
    map["boolean" := CellOf(None, Bool, None, Bool, Bool)]
  }

  /** `binaryPrecube` (lines 27-186): each pair of types is declared once,
      in the row of the type listed first. */
  function BinaryPrecube(): Precube<string, Cell> {
    [("int", IntRow()), ("float", FloatRow()), ("char", CharRow()), ("boolean", BooleanRow())]
  }

  /** `binaryCube`: the precube with every declared cell mirrored
      (`LoadBinaryCube` shows the fold builds it). */
  function BinaryCube(): Cube<string, Cell> {
    Closure(BinaryPrecube())
  }

  /** Row `i` of the precube declares its own diagonal and otherwise
      only types whose rows follow. */
  lemma PrecubeRowDeclaresLater(i: nat)
    requires i < 4
    ensures DeclaresLater(BinaryPrecube(), i)
  {
    var pre := BinaryPrecube();
    assert pre[0].0 == "int" && pre[1].0 == "float" && pre[2].0 == "char" && pre[3].0 == "boolean";
  }

  /** The precube declares each pair once, in the row visited first, as
      the fold needs. */
  lemma PrecubeUpperTriangular()
    ensures UpperTriangular(BinaryPrecube())
  {
    forall i | 0 <= i < |BinaryPrecube()| ensures DeclaresLater(BinaryPrecube(), i) {
      PrecubeRowDeclaresLater(i);
    }
  }

  /** The fold of lines 190-202 run on `binaryPrecube` builds `binaryCube`. */
  method LoadBinaryCube() returns (cube: Cube<string, Cell>)
    ensures cube == BinaryCube()
  {
    PrecubeUpperTriangular();
    cube := BuildCube(BinaryPrecube());
  }

  const NumericTypeNames: set<string> := {"int", "float", "char"}
  const ArithmeticSymbols: set<string> := {"+", "/", "*", "-"}
  const EqualitySymbols: set<string> := {"!=", "=="}
  const OrderingSymbols: set<string> := {">=", "<=", ">", "<"}
  const LogicalSymbols: set<string> := {"&&", "||"}

  /** The key of the assignment column (`[EQUAL]` with EQUAL undefined). */
  const AssignKey: string := "undefined"

  /** The keys of every cell. */
  const CellSymbols: set<string> := ArithmeticSymbols + EqualitySymbols + OrderingSymbols + LogicalSymbols + {AssignKey}

  /** The typing rules the cube encodes, stated by kind of operator:
      arithmetic on int, float and char yields float when either side is
      float and int otherwise; comparisons of those yield boolean;
      booleans compare for (in)equality and combine with `&&` and `||`;
      the assignment column yields the wider of the two types, char only
      for two chars. Everything else, and any mix of boolean with another
      type, is not allowed. */
  function TypingRule(op: string, a: string, b: string): Option<string> {
    if a in NumericTypeNames && b in NumericTypeNames then
      if op in ArithmeticSymbols then (if a == "float" || b == "float" then Float else Int)
      else if op in EqualitySymbols || op in OrderingSymbols then Bool
      else if op == AssignKey then
        (if a == "float" || b == "float" then Float else if a == "char" && b == "char" then Char else Int)
      else None
    else if a == "boolean" && b == "boolean" then
      if op in EqualitySymbols || op in LogicalSymbols || op == AssignKey then Bool else None
    else None
  }

  /** The rules do not depend on the order of the operands. */
  lemma TypingRuleSymmetric(op: string, a: string, b: string)
    ensures TypingRule(op, a, b) == TypingRule(op, b, a)
  {
  }

  /** The cell the rules give a pair of types. */
  function RuleCell(a: string, b: string): Cell {
    CellOf(TypingRule("+", a, b), TypingRule("==", a, b), TypingRule("<", a, b),
           TypingRule("&&", a, b), TypingRule(AssignKey, a, b))
  }

  /** The operator `op` of a cell built by `CellOf` reads the argument
      of its kind. */
  lemma CellOfAt(arith: Option<string>, eq: Option<string>, ord: Option<string>,
                 logic: Option<string>, assign: Option<string>, op: string)
    requires op in CellSymbols
    ensures var cell := CellOf(arith, eq, ord, logic, assign);
      op in cell && cell[op] == if op in ArithmeticSymbols then arith else if op in EqualitySymbols then eq
        else if op in OrderingSymbols then ord else if op in LogicalSymbols then logic else assign
  {
  }

  /** A cell built by `CellOf` has an entry for every operator and the
      assignment, and no other. */
  lemma CellOfKeys(arith: Option<string>, eq: Option<string>, ord: Option<string>,
                   logic: Option<string>, assign: Option<string>)
    ensures CellOf(arith, eq, ord, logic, assign).Keys == CellSymbols
  {
  }

  /** The rules depend only on the kind of the operator. */
  lemma TypingRuleByKind(op: string, a: string, b: string)
    requires op in CellSymbols
    ensures TypingRule(op, a, b) ==
      if op in ArithmeticSymbols then TypingRule("+", a, b) else if op in EqualitySymbols then TypingRule("==", a, b)
      else if op in OrderingSymbols then TypingRule("<", a, b) else if op in LogicalSymbols then TypingRule("&&", a, b)
      else TypingRule(AssignKey, a, b)
  {
  }

  /** `RuleCell` holds the rules for every operator of a cell, and
      nothing else. */
  lemma RuleCellFollowsRules(a: string, b: string)
    ensures RuleCell(a, b).Keys == CellSymbols
    ensures forall op | op in CellSymbols :: RuleCell(a, b)[op] == TypingRule(op, a, b)
  {
    forall op | op in CellSymbols ensures RuleCell(a, b)[op] == TypingRule(op, a, b) {
      CellOfAt(TypingRule("+", a, b), TypingRule("==", a, b), TypingRule("<", a, b),
               TypingRule("&&", a, b), TypingRule(AssignKey, a, b), op);
      TypingRuleByKind(op, a, b);
    }
    CellOfKeys(TypingRule("+", a, b), TypingRule("==", a, b), TypingRule("<", a, b),
               TypingRule("&&", a, b), TypingRule(AssignKey, a, b));
  }

  /** The cells of `[INT]` follow the rules. */
  lemma IntRowFollowsRules()
    ensures forall c | c in IntRow() :: IntRow()[c] == RuleCell("int", c)
  {
  }

  /** The cells of `[FLOAT]` follow the rules. */
  lemma FloatRowFollowsRules()
    ensures forall c | c in FloatRow() :: FloatRow()[c] == RuleCell("float", c)
  {
  }

  /** The cells of `[CHAR]` follow the rules. */
  lemma CharRowFollowsRules()
    ensures forall c | c in CharRow() :: CharRow()[c] == RuleCell("char", c)
  {
  }

  /** The cell of `[BOOLEAN]` follows the rules. */
  lemma BooleanRowFollowsRules()
    ensures forall c | c in BooleanRow() :: BooleanRow()[c] == RuleCell("boolean", c)
  {
  }

  /** The rule cell of a pair does not depend on its order. */
  lemma RuleCellSymmetric(a: string, b: string)
    ensures RuleCell(a, b) == RuleCell(b, a)
  {
    TypingRuleSymmetric("+", a, b);
    TypingRuleSymmetric("==", a, b);
    TypingRuleSymmetric("<", a, b);
    TypingRuleSymmetric("&&", a, b);
    TypingRuleSymmetric(AssignKey, a, b);
  }

  /** The position of a type's row in the precube. */
  function RowIndex(t: string): nat
    requires t in ValueTypeNames
  {
    if t == "int" then 0 else if t == "float" then 1 else if t == "char" then 2 else 3
  }

  /** The row of `a` declares `b` when `a` comes first, and its cell
      follows the rules. */
  lemma DeclaredCell(a: string, b: string)
    requires a in ValueTypeNames && b in ValueTypeNames && RowIndex(a) <= RowIndex(b)
    ensures var (k, row) := BinaryPrecube()[RowIndex(a)];
      k == a && b in row && a in row && row[b] == RuleCell(a, b)
  {
    if a == "int" {
      IntRowFollowsRules();
    } else if a == "float" {
      FloatRowFollowsRules();
    } else if a == "char" {
      CharRowFollowsRules();
    } else {
      BooleanRowFollowsRules();
    }
  }

  /** Every pair of value types has a cell in the cube, and it is the
      cell the rules give, whichever of the two rows declared it. */
  lemma CubeCellFollowsRules(a: string, b: string)
    requires a in ValueTypeNames && b in ValueTypeNames
    ensures a in BinaryCube() && b in BinaryCube()[a]
    ensures BinaryCube()[a][b] == RuleCell(a, b)
  {
    var pre := BinaryPrecube();
    PrecubeUpperTriangular();
    if RowIndex(a) <= RowIndex(b) {
      DeclaredCell(a, b);
      ClosureKeepsDeclared(pre, RowIndex(a), b);
    } else {
      DeclaredCell(b, a);
      DeclaredCell(a, a);
      ClosureKeepsDeclared(pre, RowIndex(b), a);
      ClosureKeepsDeclared(pre, RowIndex(a), a);
      ClosureSymmetric(pre, b, a);
      RuleCellSymmetric(a, b);
    }
  }

  /** `binaryCube` has a row for each value type, a cell for each pair of
      them, and nothing else. */
  lemma BinaryCubeCoversEveryPair()
    ensures BinaryCube().Keys == ValueTypeNames
    ensures forall a | a in BinaryCube() :: BinaryCube()[a].Keys == ValueTypeNames
  {
    PrecubeKeys();
    ClosureKeys(BinaryPrecube());
    forall a | a in BinaryCube() ensures BinaryCube()[a].Keys == ValueTypeNames {
      forall b | b in ValueTypeNames ensures b in BinaryCube()[a] {
        CubeCellFollowsRules(a, b);
      }
    }
  }

  /** The rows of the precube are the value types. */
  lemma PrecubeKeys()
    ensures KeySet(BinaryPrecube()) == ValueTypeNames
  {
    var pre := BinaryPrecube();
    assert pre[0].0 == "int" && pre[1].0 == "float" && pre[2].0 == "char" && pre[3].0 == "boolean";
  }

  /** Every cell of `binaryCube` is given by the typing rules: the result
      type of `a op b`, or `None` where the source has `null`. */
  lemma BinaryCubeFollowsRules(a: string, b: string, op: string)
    requires a in ValueTypeNames && b in ValueTypeNames && op in CellSymbols
    ensures a in BinaryCube() && b in BinaryCube()[a] && op in BinaryCube()[a][b]
    ensures BinaryCube()[a][b][op] == TypingRule(op, a, b)
  {
    CubeCellFollowsRules(a, b);
    RuleCellFollowsRules(a, b);
  }
}
