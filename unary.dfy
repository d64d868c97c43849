/** The unary compatibility table of classes/utils/compatibility/unary.js:
    for an operand type and a unary operator, the type of the result, or
    `None` (JS `null`) when it is not allowed. */
module UnaryCompat {
  import opened Js
  import opened Outcomes
  import opened Types
  import opened OperatorTables

  /** `unaryCube` (lines 8-21). Its keys are written `[INT]` … and
      `[NOT]`; they evaluate to the names below (`UnaryKeys`). */
  function UnaryCube(): map<string, map<string, Option<string>>> {
    map["int" := map["!" := None], "float" := map["!" := None],
        "char" := map["!" := None], "boolean" := map["!" := Some("boolean")]]
  }

  /** The computed keys of the table. */
  lemma UnaryKeys()
    ensures var t := ValueTypes();
      [KeyOf(t, "INT"), KeyOf(t, "FLOAT"), KeyOf(t, "CHAR"), KeyOf(t, "BOOLEAN"), KeyOf(UnaryOperators(), "NOT")]
      == ["int", "float", "char", "boolean", "!"]
  {
  }

  /** Every value type has an entry for every unary operator, and
      nothing else has one. */
  lemma UnaryCubeCoversEveryType()
    ensures UnaryCube().Keys == ValueTypes().Values
    ensures forall t | t in UnaryCube() :: UnaryCube()[t].Keys == UnaryOperators().Values
  {
    Types.TypesAreTheValueTypes();
    assert UnaryOperators()["NOT"] == "!";
  }

  /** `!` applies to booleans only, and yields a boolean. */
  lemma NotOnlyOnBooleans(t: string)
    requires t in UnaryCube()
    ensures "!" in UnaryCube()[t]
    ensures UnaryCube()[t]["!"] == if t == "boolean" then Some("boolean") else None
  {
  }
}
