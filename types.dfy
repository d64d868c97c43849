/** The type-name tables of classes/utils/types.js. */
module Types {
  import opened Js

  /** `types`: the four value types, key name to type name. */
  function ValueTypes(): map<string, string> {
    map["INT" := "int", "FLOAT" := "float", "CHAR" := "char", "BOOLEAN" := "boolean"]
  }

  /** `genericTypes = { PROGRAM, CLASS, VOID, ...types }`. There is no
      STRING key. */
  function GenericTypes(): map<string, string> {
    map["PROGRAM" := "program", "CLASS" := "class", "VOID" := "void"] + ValueTypes()
  }

  /** `inverseTypes`: type name to key name. */
  ghost function InverseTypes(): map<string, string> {
    InvertMap(ValueTypes())
  }

  /** `inverseGenericTypes`: type name to key name. */
  ghost function InverseGenericTypes(): map<string, string> {
    InvertMap(GenericTypes())
  }

  /** The type names a value can have. */
  const ValueTypeNames: set<string> := {"int", "float", "char", "boolean"}

  /** The type names that are generic but not value types. */
  const StructuralTypeNames: set<string> := {"program", "class", "void"}

  /** `inverseTypes` as the object the fold builds. */
  lemma InverseTypesObject()
    ensures Injective(ValueTypes())
    ensures InverseTypes() == map["int" := "INT", "float" := "FLOAT", "char" := "CHAR", "boolean" := "BOOLEAN"]
  {
    InvertMapIs(ValueTypes(), map["int" := "INT", "float" := "FLOAT", "char" := "CHAR", "boolean" := "BOOLEAN"]);
  }

  /** `inverseGenericTypes` as the object the fold builds. */
  lemma InverseGenericTypesObject()
    ensures Injective(GenericTypes())
    ensures InverseGenericTypes() == map["program" := "PROGRAM", "class" := "CLASS", "void" := "VOID",
      "int" := "INT", "float" := "FLOAT", "char" := "CHAR", "boolean" := "BOOLEAN"]
  {
    InvertMapIs(GenericTypes(), map["program" := "PROGRAM", "class" := "CLASS", "void" := "VOID",
      "int" := "INT", "float" := "FLOAT", "char" := "CHAR", "boolean" := "BOOLEAN"]);
  }

  /** The type names of `types` are exactly int, float, char and boolean. */
  lemma TypesAreTheValueTypes()
    ensures ValueTypes().Values == ValueTypeNames
  {
    InverseTypesObject();
  }

  /** `genericTypes` is `types` plus PROGRAM, CLASS and VOID, and has no
      STRING entry (memory.js destructures one nonetheless). */
  lemma GenericTypesExtendTypes()
    ensures GenericTypes().Keys == ValueTypes().Keys + {"PROGRAM", "CLASS", "VOID"}
    ensures forall k | k in ValueTypes() :: k in GenericTypes() && GenericTypes()[k] == ValueTypes()[k]
    ensures "STRING" !in GenericTypes()
  {
  }

  /** `inverseTypes[v] == k` exactly when `types[k] == v`. */
  lemma InverseTypesInvert()
    ensures forall k, v :: (v in InverseTypes() && InverseTypes()[v] == k) <==> (k in ValueTypes() && ValueTypes()[k] == v)
  {
    InverseTypesObject();
    InvertMapIsInverse(ValueTypes());
  }

  /** `inverseGenericTypes[v] == k` exactly when `genericTypes[k] == v`. */
  lemma InverseGenericTypesInvert()
    ensures forall k, v :: (v in InverseGenericTypes() && InverseGenericTypes()[v] == k) <==> (k in GenericTypes() && GenericTypes()[k] == v)
  {
    InverseGenericTypesObject();
    InvertMapIsInverse(GenericTypes());
  }

  /** Every value type is generic, under the same key name. */
  lemma ValueTypesAreGeneric()
    ensures forall t | t in InverseTypes() :: t in InverseGenericTypes() && InverseGenericTypes()[t] == InverseTypes()[t]
  {
    InverseTypesObject();
    InverseGenericTypesObject();
  }

  /** Program, class and void are generic types but not value types. */
  lemma StructuralTypesAreNotValueTypes()
    ensures forall t | t in StructuralTypeNames :: t in InverseGenericTypes() && t !in InverseTypes()
  {
    InverseTypesObject();
    InverseGenericTypesObject();
  }
}
