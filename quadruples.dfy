/** The operator stack of classes/quadruples.js: an operator table, its
    inverse, and a push that only accepts operators the inverse knows. */
module QuadruplesModel {
  import opened Js
  import opened Outcomes
  import opened OperatorTables
  import OperatorFacts

  /** `this.operators` as written (lines 14-30), in insertion order.
      NOT_EQUAL is "!" and EQUAL_EQUAL is "!=", so no entry is "==". */
  function OperatorEntries(): seq<(string, string)> {
    [("PLUS", "+"), ("DIV", "/"), ("MULT", "*"), ("MINUS", "-"),
     ("NOT_EQUAL", "!"), ("EQUAL_EQUAL", "!="), ("GTE", ">="), ("LTE", "<="),
     ("GT", ">"), ("LT", "<"), ("AND", "&&"), ("OR", "||"), ("NOT", "!"),
     ("OPEN_PARENTHESIS", "("), ("CLOSE_PARENTHESIS", ")")]
  }

  /** The table with NOT_EQUAL and EQUAL_EQUAL bound to the symbols that
      classes/utils/operators.js gives them. */
  function CorrectedOperatorEntries(): seq<(string, string)> {
    [("PLUS", "+"), ("DIV", "/"), ("MULT", "*"), ("MINUS", "-"),
     ("NOT_EQUAL", "!="), ("EQUAL_EQUAL", "=="), ("GTE", ">="), ("LTE", "<="),
     ("GT", ">"), ("LT", "<"), ("AND", "&&"), ("OR", "||"), ("NOT", "!"),
     ("OPEN_PARENTHESIS", "("), ("CLOSE_PARENTHESIS", ")")]
  }

  /** The grouping symbols the table adds to the operators. */
  const Parentheses: set<string> := {"(", ")"}

  class Quadruples {
    var intermediateCode: seq<string>
    var tmps: seq<string>
    var operatorsStack: seq<string>
    var operationsStack: seq<string>
    var typesStack: seq<string>
    /** `this.operators`: name to symbol. */
    var operators: map<string, string>
    /** `this.inverseOperators`: symbol to the last name bearing it. */
    var inverseOperators: map<string, string>

    /** The constructor (lines 4-39) over a given operator table: empty
        stacks, the table, and its inverse built by the `reduce` of
        lines 32-38. */
    constructor(entries: seq<(string, string)>)
      ensures intermediateCode == [] && tmps == [] && operatorsStack == [] && operationsStack == [] && typesStack == []
      ensures operators == ToMap(entries) && inverseOperators == Invert(entries)
    {
      intermediateCode := [];
      tmps := [];
      operatorsStack := [];
      operationsStack := [];
      typesStack := [];
      operators := ToMap(entries);
      inverseOperators := Invert(entries);
    }

    /** `validateOperator` (line 46): `!!this.inverseOperators[operator]`;
        every name in the table is a non-empty string. */
    predicate ValidateOperator(operator: string)
      reads this
    {
      operator in inverseOperators && inverseOperators[operator] != ""
    }

    /** `pushToOperatorsStack` (lines 48-55): a valid operator becomes the
        new top; an invalid one throws and leaves the stack as it was.
        No other field changes. */
    method PushToOperatorsStack(operator: string) returns (r: Outcome)
      modifies this`operatorsStack
      ensures r == Pass <==> old(ValidateOperator(operator))
      ensures r != Pass ==> r == Fail(InvalidOperator) && operatorsStack == old(operatorsStack)
      ensures r == Pass ==> operatorsStack == old(operatorsStack) + [operator]
    {
      if !ValidateOperator(operator) {
        return Fail(InvalidOperator);
      }
      operatorsStack := operatorsStack + [operator];
      return Pass;
    }
  }

  /** The symbols the inverse of a table knows are its values: an
      operator is valid exactly when some name of the table bears it. */
  lemma ValidOperatorsAreTableValues(entries: seq<(string, string)>, operator: string)
    requires forall i | 0 <= i < |entries| :: entries[i].0 != ""
    ensures operator in Invert(entries) && Invert(entries)[operator] != "" <==> operator in ValueSet(entries)
  {
    if operator in ValueSet(entries) {
      var i :| 0 <= i < |entries| && entries[i].1 == operator;
      var j := LastWith(entries, i);
      InvertLastWins(entries, j);
    }
  }

  /** The last position of the table whose symbol is that of position `i`. */
  function LastWith(entries: seq<(string, string)>, i: nat): (j: nat)
    requires i < |entries|
    ensures i <= j < |entries| && entries[j].1 == entries[i].1
    ensures forall k | j < k < |entries| :: entries[k].1 != entries[i].1
    decreases |entries| - i
  {
    if exists k :: i < k < |entries| && entries[k].1 == entries[i].1 then
      var k :| i < k < |entries| && entries[k].1 == entries[i].1;
      LastWith(entries, k)
    else i
  }

  /** The symbols the as-written table bears. */
  lemma EntrySymbols(symbol: string)
    ensures symbol in ValueSet(OperatorEntries()) <==>
      symbol in {"+", "/", "*", "-", "!", "!=", ">=", "<=", ">", "<", "&&", "||", "(", ")"}
  {
    var es := OperatorEntries();
    assert es[0].1 == "+" && es[1].1 == "/" && es[2].1 == "*" && es[3].1 == "-" && es[4].1 == "!";
    assert es[5].1 == "!=" && es[6].1 == ">=" && es[7].1 == "<=" && es[8].1 == ">" && es[9].1 == "<";
    assert es[10].1 == "&&" && es[11].1 == "||" && es[13].1 == "(" && es[14].1 == ")";
  }

  /** The symbols and names the corrected table bears. */
  lemma CorrectedEntrySymbols(symbol: string)
    ensures symbol in ValueSet(CorrectedOperatorEntries()) <==>
      symbol in {"+", "/", "*", "-", "!=", "==", ">=", "<=", ">", "<", "&&", "||", "!", "(", ")"}
    ensures forall i | 0 <= i < |CorrectedOperatorEntries()| :: CorrectedOperatorEntries()[i].0 != ""
  {
    var es := CorrectedOperatorEntries();
    assert es[0].1 == "+" && es[1].1 == "/" && es[2].1 == "*" && es[3].1 == "-" && es[4].1 == "!=";
    assert es[5].1 == "==" && es[6].1 == ">=" && es[7].1 == "<=" && es[8].1 == ">" && es[9].1 == "<";
    assert es[10].1 == "&&" && es[11].1 == "||" && es[12].1 == "!" && es[13].1 == "(" && es[14].1 == ")";
  }

  /** As written, the table's symbols are the operators of
      classes/utils/operators.js other than "==", and the parentheses. */
  lemma TableSymbolsAsWritten(symbol: string)
    ensures symbol in ValueSet(OperatorEntries()) <==>
      (symbol in Operators().Values && symbol != "==") || symbol in Parentheses
  {
    EntrySymbols(symbol);
    OperatorFacts.OperatorSymbols();
  }

  /** As written, pushing "==" throws: the table binds no name to it. */
  lemma EqualEqualRejectedAsWritten()
    ensures "==" !in Invert(OperatorEntries())
  {
    EntrySymbols("==");
  }

  /** The corrected table's symbols are exactly the operators of
      classes/utils/operators.js and the parentheses. */
  lemma CorrectedTableSymbols(symbol: string)
    ensures symbol in ValueSet(CorrectedOperatorEntries()) <==>
      symbol in Operators().Values || symbol in Parentheses
  {
    CorrectedEntrySymbols(symbol);
    OperatorFacts.OperatorSymbols();
  }

  /** With the corrected table every operator of
      classes/utils/operators.js is accepted, and only they and the
      parentheses are. */
  lemma CorrectedTableAcceptsOperators(operator: string)
    ensures operator in Invert(CorrectedOperatorEntries()) && Invert(CorrectedOperatorEntries())[operator] != ""
      <==> operator in Operators().Values || operator in Parentheses
  {
    CorrectedEntrySymbols(operator);
    CorrectedTableSymbols(operator);
    ValidOperatorsAreTableValues(CorrectedOperatorEntries(), operator);
  }

  /** `!` is borne by NOT_EQUAL and by NOT; the later entry wins, so the
      inverse maps it to NOT. */
  lemma NotMapsToNot()
    ensures "!" in Invert(OperatorEntries()) && Invert(OperatorEntries())["!"] == "NOT"
  {
    InvertLastWins(OperatorEntries(), 12);
  }
}
