/** The opcode tables of classes/utils/opcodes.js. */
module OpcodeTables {
  import opened Js
  import opened Outcomes
  import opened OperatorTables

  /** `OPCODES`: every opcode of the intermediate code, under its own name. */
  function Opcodes(): map<string, string> {
    map["SUM" := "SUM", "SUB" := "SUB", "MULT" := "MULT", "DIV" := "DIV",
        "EQ" := "EQ", "NEQ" := "NEQ", "GTE" := "GTE", "LTE" := "LTE", "GT" := "GT", "LT" := "LT",
        "AND" := "AND", "OR" := "OR", "NOT" := "NOT",
        "EQUAL" := "EQUAL", "READ" := "READ", "WRITE" := "WRITE", "GOTO" := "GOTO", "GOTOF" := "GOTOF",
        "ERA" := "ERA", "PARAM" := "PARAM", "GOSUB" := "GOSUB", "ENDFUNC" := "ENDFUNC", "RETURN" := "RETURN"]
  }

  /** The names destructured from `operators`, in the order of the keys of
      `operatorToOpcode`. */
  const KeyNames: seq<string> :=
    ["PLUS", "DIV", "MULT", "MINUS", "NOT_EQUAL", "EQUAL_EQUAL", "GTE", "LTE", "GT", "LT", "AND", "OR", "NOT",
     "EQUAL", "READ", "WRITE", "GOTO", "GOTOF", "ERA", "PARAM", "GOSUB", "ENDFUNC", "RETURN"]

  /** `operatorToOpcode`. Each key is written `[NAME]` for a NAME taken from
      `operators`, and evaluates to the string below (`OperatorKeys`,
      `MissingNameKeys`): the ten names `operators` lacks all become the
      key "undefined", so a later entry overwrites an earlier one. Each
      value `OPCODES.X` is the opcode named X (`OpcodesNameThemselves`). */
  function OperatorToOpcode(): map<string, string> {
    map["+" := "SUM", "/" := "DIV", "*" := "MULT", "-" := "SUB",
        "!=" := "NEQ", "==" := "EQ", ">=" := "GTE", "<=" := "LTE", ">" := "GT", "<" := "LT",
        "&&" := "AND", "||" := "OR", "!" := "NOT",
        "undefined" := "EQUAL", "undefined" := "READ", "undefined" := "WRITE", "undefined" := "GOTO",
        "undefined" := "GOTOF", "undefined" := "ERA", "undefined" := "PARAM", "undefined" := "GOSUB",
        "undefined" := "ENDFUNC", "undefined" := "RETURN"]
  }

  /** The load-time assertion: some operator symbol without a truthy
      opcode aborts loading the module. */
  function LoadCheck(): Outcome {
    if exists v | v in Operators().Values :: v !in OperatorToOpcode() || OperatorToOpcode()[v] == ""
    then Fail(UntranslatedOperator)
    else Pass
  }
}

/** Properties of the opcode tables. */
module OpcodeFacts {
  import opened Js
  import opened Outcomes
  import opened OperatorTables
  import opened OperatorFacts
  import opened OpcodeTables

  /** Each `OPCODES` value equals its own key name. */
  lemma OpcodesNameThemselves()
    ensures forall k | k in Opcodes() :: Opcodes()[k] == k
  {
  }

  /** The keys `[PLUS]` … `[NOT]` are the operator symbols. */
  lemma OperatorKeys()
    ensures forall i | 0 <= i < 13 :: KeyOf(Operators(), KeyNames[i]) == ["+", "/", "*", "-", "!=", "==", ">=", "<=", ">", "<", "&&", "||", "!"][i]
  {
    OperatorsObject();
  }

  /** The keys `[EQUAL]` … `[RETURN]` all collapse to "undefined". */
  lemma MissingNameKeys()
    ensures forall i | 13 <= i < |KeyNames| :: KeyOf(Operators(), KeyNames[i]) == "undefined"
  {
    OperatorsObject();
  }

  /** Every opcode the table yields is an `OPCODES` entry. */
  lemma OpcodeValuesAreOpcodes()
    ensures forall v | v in OperatorToOpcode() :: OperatorToOpcode()[v] in Opcodes()
  {
  }

  /** `+ - * /` map to SUM, SUB, MULT and DIV; `== !=` to EQ and NEQ. */
  lemma ArithmeticAndEqualityOpcodes()
    ensures var t := OperatorToOpcode();
      && "+" in t && "-" in t && "*" in t && "/" in t && "==" in t && "!=" in t
      && t["+"] == "SUM" && t["-"] == "SUB" && t["*"] == "MULT" && t["/"] == "DIV"
      && t["=="] == "EQ" && t["!="] == "NEQ"
  {
  }

  /** `>= <= > <` map to GTE, LTE, GT and LT; `&& || !` to AND, OR and NOT. */
  lemma RelationalAndLogicalOpcodes()
    ensures var t := OperatorToOpcode();
      && ">=" in t && "<=" in t && ">" in t && "<" in t && "&&" in t && "||" in t && "!" in t
      && t[">="] == "GTE" && t["<="] == "LTE" && t[">"] == "GT" && t["<"] == "LT"
      && t["&&"] == "AND" && t["||"] == "OR" && t["!"] == "NOT"
  {
  }

  /** The collapse of the missing names: the table has one key besides
      the operator symbols, "undefined", and the last entry written to it
      wins. */
  lemma UndefinedKeyCollapse()
    ensures OperatorToOpcode().Keys == Operators().Values + {"undefined"}
    ensures OperatorToOpcode()["undefined"] == "RETURN"
  {
    EveryOperatorHasPriority();
  }

  /** The load-time assertion holds: every operator has an opcode. */
  lemma LoadCheckPasses()
    ensures LoadCheck() == Pass
    ensures forall v | v in Operators().Values :: v in OperatorToOpcode() && OperatorToOpcode()[v] != ""
  {
    UndefinedKeyCollapse();
    forall v | v in Operators().Values ensures OperatorToOpcode()[v] != "" {
      OpcodeValuesAreOpcodes();
    }
  }

  /** The opcode of an operator symbol names that symbol back. */
  lemma OpcodeDeterminesOperator()
    ensures var t := OperatorToOpcode();
      var back := map["SUM" := "+", "DIV" := "/", "MULT" := "*", "SUB" := "-",
        "NEQ" := "!=", "EQ" := "==", "GTE" := ">=", "LTE" := "<=", "GT" := ">", "LT" := "<",
        "AND" := "&&", "OR" := "||", "NOT" := "!"];
      forall a | a in BinarySymbols + {"!"} :: a in t && t[a] in back && back[t[a]] == a
  {
    ArithmeticAndEqualityOpcodes();
    RelationalAndLogicalOpcodes();
  }

  /** The thirteen operators map to thirteen distinct opcodes. */
  lemma OperatorOpcodesDistinct()
    ensures forall a, b | a in Operators().Values && b in Operators().Values && a != b ::
      a in OperatorToOpcode() && b in OperatorToOpcode() && OperatorToOpcode()[a] != OperatorToOpcode()[b]
  {
    OperatorSymbols();
    OpcodeDeterminesOperator();
  }
}
