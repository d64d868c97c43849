# Compile-time core of the Team++ compiler, in Dafny

This project models the half of the Team++ compiler that runs while a
program is parsed. It covers these parts of the JavaScript repository:

- the address allocator (classes/memory.js);
- the constant tables of types, operators and opcodes (classes/utils/types.js,
  operators.js, opcodes.js);
- the type-compatibility cubes for binary and unary operators
  (classes/utils/compatibility/binary.js, unary.js);
- the operator stack of the quadruple generator (classes/quadruples.js);
- the scope and symbol table (classes/semantics.js);
- the two earlier versions of that table (utils/semantics.js and utils/grammar.js).

How the model is built:

- A constant JS object is a Dafny `map`. An object whose entry order matters is a
  sequence of entries. A computed key such as `[operators.EQUAL]` is the string it
  evaluates to, "undefined" included.
- Each `throw` becomes an `Outcome`/`Result` error carrying an `ErrorKind`. The
  message text is dropped.
- Objects that the source updates in place become Dafny classes with the same
  fields: `Memory`, `Quadruples`, `Semantics`, `LegacySemantics` and `Grammar`.
- Directory objects refer to one another. A function is its own scope and contains
  itself, and the directory stack holds the same objects. So the directories live
  in an arena (`records`) and are referred to by handles.

Files:

| file | module | models |
|---|---|---|
| outcomes.dfy | `Outcomes` | `Option`, `Result`, `Outcome`, the kinds of error |
| js.dfy | `Js` | computed keys, `invert` and the object an entry list builds |
| types.dfy | `Types` | classes/utils/types.js |
| operators.dfy | `OperatorTables`, `OperatorFacts` | classes/utils/operators.js |
| opcodes.dfy | `OpcodeTables`, `OpcodeFacts` | classes/utils/opcodes.js |
| cube.dfy | `SymmetricFold` | the `reduce` that builds `binaryCube`, over any precube |
| binary.dfy | `BinaryCompat` | classes/utils/compatibility/binary.js |
| unary.dfy | `UnaryCompat` | classes/utils/compatibility/unary.js |
| memory.dfy | `MemoryModel` | classes/memory.js |
| quadruples.dfy | `QuadruplesModel` | classes/quadruples.js |
| semantics.dfy | `ScopeModel` | classes/semantics.js |
| legacy_semantics.dfy | `LegacyScopeModel` | utils/semantics.js |
| grammar.dfy | `GrammarModel` | utils/grammar.js |

## Model

| member | source | states |
|---|---|---|
| Js.InvertMap | classes/utils/operators.js:41-45 | the fold over an object with distinct values yields a map whose keys are the object's values and that sends each value back to a key bearing it |
| Js.InvertMapAt | classes/utils/operators.js:41-45 | `invert` round-trips: `inverse[obj[k]] == k` for every key of an injective object |
| Js.InvertMapIsInverse | classes/utils/operators.js:41-45 | for an injective object, `inverse[v] == k` exactly when `obj[k] == v` |
| Js.InvertMapIs | classes/utils/operators.js:41-45 | a map that undoes the object in both directions proves the object injective and is what the fold builds |
| Js.InvertMapUnion | classes/utils/operators.js:47-50 | the spread of the inverses of two objects with disjoint values is the inverse of their spread |
| Js.ToMap | classes/quadruples.js:14-30 | the object built from an entry list has exactly the keys of the entries |
| Js.Invert | classes/quadruples.js:32-38 | the `reduce` inverse of an entry list has exactly the entries' values as keys |
| Js.ToMapLastWins | classes/quadruples.js:14-30 | a property lookup sees the last entry that assigns the key |
| Js.InvertLastWins | classes/quadruples.js:32-38 | the inverse maps a value to the last key bearing it |
| Js.ToMapValues | classes/utils/compatibility/binary.js:190 | with distinct keys, the object's values are exactly the entries' values |
| Types.InverseTypesObject | classes/utils/types.js:15-18 | `types` is injective and `inverseTypes` is the object int→INT, float→FLOAT, char→CHAR, boolean→BOOLEAN |
| Types.InverseGenericTypesObject | classes/utils/types.js:20-26 | `genericTypes` is injective and its inverse has the seven type names as keys |
| Types.TypesAreTheValueTypes | classes/utils/types.js:1-6 | the values of `types` are exactly int, float, char and boolean |
| Types.GenericTypesExtendTypes | classes/utils/types.js:8-13 | `genericTypes` is `types` plus PROGRAM, CLASS and VOID, with the same values, and has no STRING key |
| Types.InverseTypesInvert | classes/utils/types.js:15-18 | `inverseTypes[v] == k` if and only if `types[k] == v` |
| Types.InverseGenericTypesInvert | classes/utils/types.js:20-26 | `inverseGenericTypes[v] == k` if and only if `genericTypes[k] == v` |
| Types.ValueTypesAreGeneric | classes/utils/types.js:15-26 | every value type is a generic type, under the same key |
| Types.StructuralTypesAreNotValueTypes | classes/utils/types.js:8-26 | program, class and void are generic types but not value types |
| OperatorFacts.InverseBinaryOperatorsObject | classes/utils/operators.js:1-47 | the binary symbols are pairwise distinct, and `inverseBinaryOperators` is the twelve-entry object symbol→name |
| OperatorFacts.BinarySymbolsExclude | classes/utils/operators.js:1-18 | the binary symbols are the twelve listed, and `!` is not one of them |
| OperatorFacts.InverseOperatorsObject | classes/utils/operators.js:47-50 | the merged inverse is the thirteen-entry object, with `!` → NOT |
| OperatorFacts.OperatorsObject | classes/utils/operators.js:20-23 | `operators` is the thirteen-entry object the spread builds |
| OperatorFacts.InverseOperatorsInvertOperators | classes/utils/operators.js:20-50 | `operators` is injective, and merging the two inverses equals inverting `operators` |
| OperatorFacts.OperatorSymbols | classes/utils/operators.js:1-23 | the symbols of `operators` are the binary symbols and `!` |
| OperatorFacts.OperatorsIsUnion | classes/utils/operators.js:20-23 | `operators` is exactly the union of the disjoint binary and unary tables |
| OperatorFacts.InverseOperatorsRoundTrip | classes/utils/operators.js:41-50 | `inverseOperators` and `operators` undo each other in both directions |
| OperatorFacts.PriorityKeys | classes/utils/operators.js:25-39 | the computed keys `[operators.X]` of `operatorsPriority` are the thirteen symbols |
| OperatorFacts.EveryOperatorHasPriority | classes/utils/operators.js:25-39 | the symbols with a priority are exactly the operator symbols |
| OperatorFacts.PriorityOfArithmetic | classes/utils/operators.js:26-38 | `!` has rank 0, `*` and `/` rank 1, `+` and `-` rank 2 |
| OperatorFacts.PriorityOfRelational | classes/utils/operators.js:30-35 | the six relational operators share rank 3 |
| OperatorFacts.PriorityOfLogical | classes/utils/operators.js:36-37 | `&&` and `\|\|` have rank 4 |
| OpcodeFacts.OpcodesNameThemselves | classes/utils/opcodes.js:29-53 | each `OPCODES` value equals its own key name |
| OpcodeFacts.OperatorKeys | classes/utils/opcodes.js:55-68 | the keys `[PLUS]` … `[NOT]` evaluate to the thirteen operator symbols |
| OpcodeFacts.MissingNameKeys | classes/utils/opcodes.js:69-78 | the ten names `operators` lacks (EQUAL … RETURN) all evaluate to the key "undefined" |
| OpcodeFacts.OpcodeValuesAreOpcodes | classes/utils/opcodes.js:55-79 | every opcode in `operatorToOpcode` is an `OPCODES` entry |
| OpcodeFacts.ArithmeticAndEqualityOpcodes | classes/utils/opcodes.js:56-61 | `+ - * /` map to SUM, SUB, MULT, DIV and `== !=` to EQ, NEQ |
| OpcodeFacts.RelationalAndLogicalOpcodes | classes/utils/opcodes.js:62-68 | `>= <= > <` map to GTE, LTE, GT, LT and `&& \|\| !` to AND, OR, NOT |
| OpcodeFacts.UndefinedKeyCollapse | classes/utils/opcodes.js:69-78 | the table's keys are the operator symbols plus "undefined", whose entry is the last one written (RETURN) |
| OpcodeFacts.LoadCheckPasses | classes/utils/opcodes.js:81-83 | the load-time assertion passes: every operator symbol has a non-empty opcode |
| OpcodeFacts.OpcodeDeterminesOperator | classes/utils/opcodes.js:56-68 | the opcode of each operator symbol names that symbol back |
| OpcodeFacts.OperatorOpcodesDistinct | classes/utils/opcodes.js:56-68 | the thirteen operators map to thirteen distinct opcodes |
| SymmetricFold.BuildCube | classes/utils/compatibility/binary.js:190-202 | the `reduce` with its nested `forEach`, run on a precube that declares each pair once (in the row visited first), builds the symmetric closure of the precube |
| SymmetricFold.ClosureKeepsDeclared | classes/utils/compatibility/binary.js:188-202 | every declared cell survives the fold: `cube[a][b] == precube[a][b]` |
| SymmetricFold.ClosureSymmetric | classes/utils/compatibility/binary.js:188-202 | `cube[a][b]` exists exactly when `cube[b][a]` does, and they are the same cell |
| SymmetricFold.ClosureKeys | classes/utils/compatibility/binary.js:190-202 | the cube has a row for each row of the precube, and its cells name only rows |
| SymmetricFold.DeclaredOnce | classes/utils/compatibility/binary.js:188-189 | in such a precube no pair of distinct rows is declared in both of them |
| BinaryCompat.Missing | classes/utils/compatibility/binary.js:6-21 | `...missing` holds exactly the operators not destructured, with their symbols |
| BinaryCompat.LoadCheckPassesIff | classes/utils/compatibility/binary.js:23-25 | the assertion passes if and only if every operator name is destructured, and otherwise fails as an unused operator |
| BinaryCompat.LoadCheckPasses | classes/utils/compatibility/binary.js:6-25 | `binaryOperators` passes the assertion |
| BinaryCompat.CellKeys | classes/utils/compatibility/binary.js:6-21 | the computed keys of a cell are the twelve binary symbols and "undefined" for the missing EQUAL |
| BinaryCompat.TypeKeys | classes/utils/compatibility/binary.js:4-29 | the row and column keys `[INT]` … `[BOOLEAN]` are the four type names |
| BinaryCompat.PrecubeUpperTriangular | classes/utils/compatibility/binary.js:27-186 | `binaryPrecube` declares each pair of types once, in the row listed first, as the fold needs |
| BinaryCompat.LoadBinaryCube | classes/utils/compatibility/binary.js:190-202 | the fold run on `binaryPrecube` builds `binaryCube` |
| BinaryCompat.TypingRuleSymmetric | classes/utils/compatibility/binary.js:188-189 | the typing rules do not depend on the order of the operands |
| BinaryCompat.IntRowFollowsRules | classes/utils/compatibility/binary.js:28-88 | every cell of the INT row is the cell the typing rules give |
| BinaryCompat.FloatRowFollowsRules | classes/utils/compatibility/binary.js:90-135 | every cell of the FLOAT row is the cell the typing rules give |
| BinaryCompat.CharRowFollowsRules | classes/utils/compatibility/binary.js:137-167 | every cell of the CHAR row is the cell the typing rules give |
| BinaryCompat.BooleanRowFollowsRules | classes/utils/compatibility/binary.js:169-185 | the BOOLEAN cell is the cell the typing rules give |
| BinaryCompat.CubeCellFollowsRules | classes/utils/compatibility/binary.js:27-202 | every pair of value types has a cell in `binaryCube`, and it is the rule cell, whichever row declared it |
| BinaryCompat.BinaryCubeCoversEveryPair | classes/utils/compatibility/binary.js:27-202 | `binaryCube` has a row for each value type and, in each, a cell for each value type, and nothing else |
| BinaryCompat.BinaryCubeFollowsRules | classes/utils/compatibility/binary.js:27-202 | `binaryCube[a][b][op]` is the typing rule's result: arithmetic gives float if either side is float and int otherwise; comparisons of int, float and char give boolean; booleans allow `== != && \|\|` and assignment only; a mix of boolean with another type is null |
| UnaryCompat.UnaryKeys | classes/utils/compatibility/unary.js:1-8 | the computed keys of `unaryCube` are the four type names and `!` |
| UnaryCompat.UnaryCubeCoversEveryType | classes/utils/compatibility/unary.js:4-21 | the keys are exactly the four value types, each with exactly the unary operator `!` |
| UnaryCompat.NotOnlyOnBooleans | classes/utils/compatibility/unary.js:9-20 | `!` yields boolean on a boolean and null on int, float and char |
| MemoryModel.Block | classes/memory.js:14-160 | a block is 5000 addresses wide, starting at 5000·n, with its pointer at the bottom |
| MemoryModel.Memory.constructor | classes/memory.js:5-161 | an empty `addresses` map and the initial range table |
| MemoryModel.Memory.GetAddress | classes/memory.js:170-180 | a missing (segment, type) pair is a TypeError and changes nothing; otherwise the old pointer is handed out, the pointer moves on by `advance` even when the range then overflows (failing with TooManyVariables), and no other range and not `addresses` changes |
| MemoryModel.RangeKeys | classes/memory.js:2-15 | the computed keys of the table are the five segment names and the type names, STRING being "undefined" |
| MemoryModel.BumpWithinRange | classes/memory.js:170-179 | an allocation succeeds exactly when the block fits; the address is the old pointer, with `low <= address` and `address + advance <= high` (so with `advance == 1` the address `high` is never handed out); otherwise it fails as too many variables |
| MemoryModel.SuccessiveBlocksDisjoint | classes/memory.js:172-174 | two successive successful allocations from one range return adjacent, increasing, non-overlapping blocks |
| MemoryModel.OverflowIsFinal | classes/memory.js:174-177 | once a range has overflowed, every later allocation from it fails |
| MemoryModel.RangeIsItsBlock | classes/memory.js:14-160 | every range of the table is the block whose place in the layout is its own (segment, type) |
| MemoryModel.InitialRangesLayout | classes/memory.js:14-160 | initially every pointer is at `low`; each range is 5000 wide and lies within 5000..139999 |
| MemoryModel.InitialRangesDisjoint | classes/memory.js:14-160 | ranges of different (segment, type) pairs do not overlap |
| MemoryModel.VoidOnlyInLocalAndStack | classes/memory.js:42-104 | VOID has a range only in LOCAL and STACK; every segment has one for each value type and for STRING |
| QuadruplesModel.Quadruples.constructor | classes/quadruples.js:4-39 | empty stacks, the operator table, and its inverse built by the `reduce` |
| QuadruplesModel.Quadruples.PushToOperatorsStack | classes/quadruples.js:46-55 | a push succeeds exactly when the inverse table knows the operator, and then the operator is the new top; otherwise it fails as an invalid operator with the stack unchanged; no other field changes |
| QuadruplesModel.ValidOperatorsAreTableValues | classes/quadruples.js:14-46 | with non-empty names, an operator is valid exactly when it is a symbol of the table |
| QuadruplesModel.LastWith | classes/quadruples.js:32-38 | the last position of the table bearing a given symbol |
| QuadruplesModel.TableSymbolsAsWritten | classes/quadruples.js:14-30 | as written, the table's symbols are the operators of operators.js other than `==`, plus the parentheses |
| QuadruplesModel.EqualEqualRejectedAsWritten | classes/quadruples.js:19-20 | as written, no name bears `==`, so pushing it fails |
| QuadruplesModel.CorrectedTableSymbols | classes/quadruples.js:14-30 | with NOT_EQUAL as `!=` and EQUAL_EQUAL as `==`, the symbols are exactly the operators of operators.js and the parentheses |
| QuadruplesModel.CorrectedTableAcceptsOperators | classes/quadruples.js:14-46 | with the corrected table, an operator is accepted if and only if it is an operator of operators.js or a parenthesis |
| QuadruplesModel.NotMapsToNot | classes/quadruples.js:19-38 | `!` is borne by NOT_EQUAL and by NOT, and the inverse maps it to NOT, the later one |
| ScopeModel.ScopeChain | classes/semantics.js:456-469 | the directories searched: the given one, then the stack from its top to its bottom |
| ScopeModel.FindIsInnermost | classes/semantics.js:456-469 | the search finds an entry exactly when some directory before the first undefined one declares the identifier, and then it is the entry of the first such directory |
| ScopeModel.FindInArena | classes/semantics.js:456-469 | a found entry is a handle of the arena |
| ScopeModel.IdCheck | classes/semantics.js:173-208 | a successful lookup yields a handle of the arena |
| ScopeModel.IdCheckIsInnermost | classes/semantics.js:173-208 | `validateId` accepts `h` if and only if the current directory is defined, `h` is the innermost visible declaration, it is a function when one is expected, and it has the expected type when one is given |
| ScopeModel.UndeclaredIsNowhere | classes/semantics.js:173-192 | `validateId` reports an undeclared identifier exactly when no visible directory declares it |
| ScopeModel.Admission | classes/semantics.js:53-86 | the member map a new symbol may start with only holds handles of the arena |
| ScopeModel.AdmissionMeaning | classes/semantics.js:53-86 | a declaration is admitted exactly when the identifier is new to the directory and either the type is generic (no members) or it resolves to a symbol of type "class", whose members are copied |
| ScopeModel.RedeclarationFails | classes/semantics.js:57-86 | redeclaring an identifier in the same directory always fails, as a duplicate declaration when the type is generic and the existing entry is not a parameter being re-added |
| ScopeModel.AllocationMeaning | classes/semantics.js:88-96 | only a value type gets an address: the next free one of its range in STACK for a function and in LOCAL otherwise; void, class and missing types get none and leave the table alone |
| ScopeModel.DeclareArena | classes/semantics.js:98-114 | storing a new symbol that refers only to the arena and to itself keeps the arena closed |
| ScopeModel.DeclareResolves | classes/semantics.js:98-114 | after a declaration the identifier resolves, from its directory, to the new symbol, whatever the stack |
| ScopeModel.DeclareKeepsOthers | classes/semantics.js:98-114 | a declaration changes the resolution of no other identifier |
| ScopeModel.RevisitHarmless | classes/semantics.js:359-365 | searching again a directory that was pushed before being re-entered changes no result |
| ScopeModel.ValidateReturn | classes/semantics.js:479-488 | a return passes if and only if its type is the function's type, else it is a return type mismatch |
| ScopeModel.VariableCheck | classes/semantics.js:267-288 | a successful variable lookup yields a handle of the arena |
| ScopeModel.MemberAccessIsLocal | classes/semantics.js:267-288 | after a point, member access depends only on the current variable and finds exactly its members |
| ScopeModel.LocalAdvancedOneMore | classes/semantics.js:88-96 | for successive local allocations of one type: taking no address leaves the range table as it was, taking one more after `i` is taking `i + 1`, and that one is the range's pointer plus `i` |
| ScopeModel.DeclaredOneMore | classes/semantics.js:239-250 | declaring the next buffered name, at the next handle and local address, keeps the earlier ones declared as they were |
| ScopeModel.PendingAddedOneMore | classes/semantics.js:239-250 | declaring the next buffered name adds exactly that name to the directory and leaves every other directory as it was |
| ScopeModel.PendingRecordsAdded | classes/semantics.js:239-250 | declaring buffered names that are distinct and new to the directory, one after the other, adds exactly them at consecutive handles and local addresses |
| ScopeModel.ClassCheckAfterPending | classes/semantics.js:68-80 | once some buffered names are declared, the class check of the type fails if one of them is the type's name (a variable, not a class) and otherwise decides as before |
| ScopeModel.PendingAdmissibleOneMore | classes/semantics.js:239-250 | once the first `i` buffered names are declared, the next one is admitted and gets a local address exactly when the first `i + 1` names are admissible |
| ScopeModel.PendingAdmissibleNext | classes/semantics.js:239-250 | one more buffered name is admissible exactly when it is new to the directory and distinct from the earlier names, the type passes the class check and no earlier name shadows it, and the local range has room for one more |
| ScopeModel.AdmittedPlain | classes/semantics.js:53-80 | a declaration that is not a parameter is admitted exactly when its name is new to the directory and its type passes the class check |
| ScopeModel.AdmissionAfterPending | classes/semantics.js:53-78 | after some buffered names are declared, the next admitted name gets the member map of its type: empty for a generic type, else the map of the class found before, which includes the names declared so far when that class is the current directory |
| ScopeModel.PendingRecordsSymbols | classes/semantics.js:98-107 | every symbol added for a buffered name is the one `addVar` builds: the name, the type, its dimensions, the class's member map, an empty `params`, not a function, not a parameter, and its local address |
| ScopeModel.ProgressComplete | classes/semantics.js:239-250 | after the `forEach` has declared every buffered name, exactly those names were added, each symbol is the one `addVar` builds, the buffer was admissible and the local range advanced by one address per name |
| ScopeModel.ProgressAdvances | classes/semantics.js:240-246 | a successful declaration of the next buffered name adds it with the member map of its type, so one more name is declared |
| ScopeModel.ProgressRefutes | classes/semantics.js:240-246 | a failed declaration of the next buffered name shows that the whole buffer was not admissible |
| ScopeModel.ProgressStep | classes/semantics.js:240-246 | one turn of the `forEach`: the declaration succeeds exactly as `addVar` decides and then one more name is declared; when it fails the whole buffer was not admissible |
| ScopeModel.Semantics.constructor | classes/semantics.js:11-33 | `main` is the only directory and is current; every buffer and stack is empty; the operator stack uses the corrected operator table (see "## Left out") |
| ScopeModel.Semantics.CheckOnPreviousScope | classes/semantics.js:456-469 | the do-while returns the innermost entry, searching the directory and then the stack downward, stopping at an undefined directory |
| ScopeModel.Semantics.ValidateId | classes/semantics.js:173-208 | the method decides as `IdCheck` |
| ScopeModel.Semantics.Admit | classes/semantics.js:53-86 | the checks made before anything changes decide as `Admission` |
| ScopeModel.Semantics.AdvanceToDirectory | classes/semantics.js:359-365 | pushes the current directory and enters the directory found under the name |
| ScopeModel.Semantics.BackDirectory | classes/semantics.js:255-257 | pops the top of the stack into the current directory; an empty stack leaves it undefined |
| ScopeModel.Semantics.AddVar | classes/semantics.js:45-125 | every throw and what it leaves changed: an undefined directory, a failed admission, an address overflow (range advanced), a parameter added to `main` (symbol stored); on success the symbol is stored, appended to `params`, entered; nothing else changes |
| ScopeModel.Semantics.Allocate | classes/semantics.js:88-96 | the range table and address afterwards are those of `Allocation` |
| ScopeModel.Semantics.Install | classes/semantics.js:98-124 | the new symbol is stored, appended to `params` (a TypeError on `main`), and entered with `addNextLevel` |
| ScopeModel.Semantics.AddFunction | classes/semantics.js:153-161 | throws exactly as `addVar` of a function with the current type does, with the same state after each throw; on success `id` is bound in the enclosing directory to a new function symbol (current type, next instruction as target, the next STACK address for a value type), no other directory changes, the symbol is entered, and `currentType` is reset; other fields are unchanged |
| ScopeModel.Semantics.PushToPendingVars | classes/semantics.js:230-232 | appends the name with no dimensions |
| ScopeModel.Semantics.AddDimensionToLastPendingVar | classes/semantics.js:130-132 | the last buffered name gains one dimension; an empty buffer is a TypeError |
| ScopeModel.Semantics.AddPendingVars | classes/semantics.js:239-250 | succeeds exactly when the whole buffer is admissible from the start: a defined directory, distinct names new to it, a type that passes the class check and that no name but the last shadows, and room in the local range for every name; on success the current directory gains exactly the buffered names, all distinct, at the next handles with the type, their dimensions and consecutive local addresses; each new symbol is the one `addVar` builds, with an empty `params`, not a function and not a parameter, and the member map of its type: empty for a generic type, else the class's map, which includes the names buffered before it when that class is the current directory (lines 53, 68-78, 98-107); no other directory changes and the buffer is emptied; on failure the buffer is kept; the directories, the type and the other fields never change |
| ScopeModel.Semantics.DeclarePending | classes/semantics.js:240-246 | the `forEach` succeeds exactly when the whole buffer is admissible, and then the directory has gained exactly the buffered names, each as the symbol `addVar` builds, with the local range advanced by one address per name; an empty buffer changes nothing; the directories never change |
| ScopeModel.Semantics.DeclareInOrder | classes/semantics.js:240-246 | the loop of the `forEach` stops either with every buffered name declared in turn or with the buffer not admissible; the directories never change |
| ScopeModel.Semantics.AddPendingAt | classes/semantics.js:240-246 | one turn of the `forEach`: one more name is declared, or the buffer was not admissible |
| ScopeModel.Semantics.AddPendingVar | classes/semantics.js:240-246 | succeeds exactly when the directory is defined, the name is admitted and the type's local range, if any, has room; on success the name, new to the current directory, is bound there to the next handle with the type, its dimensions and the next local address, and no other directory changes; a failure changes no directory; the other fields never change |
| ScopeModel.Semantics.ValidateCurrentVariable | classes/semantics.js:267-288 | the method decides as `VariableCheck` |
| ScopeModel.Semantics.SetCurrentVariable | classes/semantics.js:297-324 | a found variable is pushed with no dimensions to check, or after a point replaces the top keeping its count (a function base fails); the flag is cleared |
| ScopeModel.Semantics.SearchForSubvariable | classes/semantics.js:336-339 | sets the point flag and counts one more point |
| ScopeModel.Semantics.AddDimensionToCheck | classes/semantics.js:345-347 | the top variable's count grows by one; an empty stack is a TypeError |
| ScopeModel.Semantics.ValidateCurrentVariableFunction | classes/semantics.js:214-223 | passes exactly when the top variable's function flag is the one asked for |
| ScopeModel.Semantics.ValidateParam | classes/semantics.js:370-398 | a callee that does not resolve or has no `params` is a TypeError; then too many arguments, then an argument type other than the parameter's fail; otherwise the pointer moves to the next parameter, and only then does it move |
| ScopeModel.Semantics.ResetParamPointer | classes/semantics.js:414-426 | fails with too few arguments while `paramPointer` is below the length of the current directory's `params`, and otherwise resets the pointer to 0 |
| ScopeModel.Semantics.SetConstant | classes/semantics.js:433-442 | an interned value reuses its address; a new one gets the next GLOBAL address of its type, recorded in the constants map and the memory's `addresses` |
| LegacyScopeModel.ValidateId | utils/semantics.js:117-145 | a successful lookup yields a handle of the arena |
| LegacyScopeModel.ValidateIdSearchesTwoScopes | utils/semantics.js:117-145 | `validateId` finds an identifier in the current directory, which wins, or else the global one, and nowhere else; it reports it undeclared exactly when both exist and neither declares it |
| LegacyScopeModel.AdmissionMeaning | utils/semantics.js:43-56 | an admitted identifier is new to its directory, and a non-generic type resolves to a symbol of type "class"; a generic type and an existing name give a duplicate |
| LegacyScopeModel.DeclareArena | utils/semantics.js:58-65 | storing a new symbol with an empty member map keeps the arena closed |
| LegacyScopeModel.DeclaredOneMore | utils/semantics.js:161-172 | declaring the next buffered name keeps the earlier ones declared as they were |
| LegacyScopeModel.PendingAddedOneMore | utils/semantics.js:161-172 | declaring the next buffered name adds exactly that name to the directory and leaves every other directory as it was |
| LegacyScopeModel.PendingRecordsAdded | utils/semantics.js:161-172 | declaring buffered names that are distinct and new to the directory, one after the other, adds exactly them at consecutive handles |
| LegacyScopeModel.ClassCheckAfterPending | utils/semantics.js:43-50 | once some buffered names are declared, the class check of the type fails if one of them is the type's name and otherwise decides as before |
| LegacyScopeModel.PendingAdmissibleOneMore | utils/semantics.js:161-172 | once the first `i` buffered names are declared, the next one is admitted exactly when the first `i + 1` names are admissible |
| LegacyScopeModel.LegacySemantics.constructor | utils/semantics.js:4-24 | `main` is the only directory and is current; no global directory, empty buffers |
| LegacyScopeModel.LegacySemantics.AddVar | utils/semantics.js:35-77 | an undefined directory or a failed admission changes nothing; otherwise the symbol is stored with an empty member map and entered with `addNextLevel`; `isGlobal` sets the global directory once and fails the second time; the global directory, once set, never changes |
| LegacyScopeModel.LegacySemantics.AddFunction | utils/semantics.js:99-107 | throws exactly as `addVar` of a function with the current type does, changing nothing; on success `id` is bound in the enclosing directory to a new function entry with the current type, no other directory changes, the entry is entered, and `currentType` is reset; the global directory never changes |
| LegacyScopeModel.LegacySemantics.PushToPendingVars | utils/semantics.js:152-154 | appends the name with no dimensions |
| LegacyScopeModel.LegacySemantics.AddDimensionToLastPendingVar | utils/semantics.js:82-84 | the last buffered name gains one dimension; an empty buffer is a TypeError |
| LegacyScopeModel.LegacySemantics.AddPendingVars | utils/semantics.js:161-172 | succeeds exactly when the whole buffer is admissible from the start: a defined directory, distinct names new to it, and a type that passes the class check and that no name but the last shadows; on success the current directory gains exactly the buffered names, all distinct, at the next handles with the type and their dimensions; no other directory changes and the buffer is emptied; on failure the buffer is kept; the directories, the type and the global directory never change |
| LegacyScopeModel.LegacySemantics.BackDirectory | utils/semantics.js:177-179 | pops the top of the stack into the current directory; an empty stack leaves it undefined |
| GrammarModel.GetAndValidateVarMeaning | utils/grammar.js:78-98 | the corrected lookup passes exactly when the innermost of the current and the global directory declaring the identifier gives it the expected type, and reports it undeclared exactly when neither declares it |
| GrammarModel.AsWrittenIgnoresCurrentDirectory | utils/grammar.js:79-85 | as written, an identifier that is not a property name of a directory object is looked up as if the global directory were current |
| GrammarModel.AsWrittenMissesLocalVariable | utils/grammar.js:79-91 | as written, a variable declared in the current function is reported undeclared, while the corrected lookup accepts it |
| GrammarModel.NamesAdmissibleOneMore | utils/grammar.js:114-124 | once the first `i` buffered names are declared, the next one can be declared exactly when the first `i + 1` names are distinct and new to the directory |
| GrammarModel.Grammar.constructor | utils/grammar.js:2-19 | `main` is the only directory and is current; no global directory, empty buffers |
| GrammarModel.Grammar.AddVar | utils/grammar.js:30-52 | an undefined directory or a duplicate changes nothing; otherwise the entry is stored with an empty member map and entered with `addNextLevel`; `isGlobal` stores the current directory's member map once and fails the second time; it never changes afterwards |
| GrammarModel.Grammar.AddFunction | utils/grammar.js:59-67 | succeeds exactly for a new identifier in a defined directory, else a TypeError or a duplicate that changes nothing; on success `id` is bound in the enclosing directory to a new function entry with the current type, no other directory changes, the entry is entered and `currentType` is reset; the global member map never changes |
| GrammarModel.Grammar.PushToPendingVars | utils/grammar.js:105-107 | appends the name |
| GrammarModel.Grammar.AddPendingVars | utils/grammar.js:114-124 | succeeds exactly when the buffer is empty or the directory is defined and the names are distinct and new to it, and otherwise fails with a TypeError or a duplicate; on success the current directory gains exactly the buffered names, all distinct, at the next handles with the type; no other directory changes and the buffer is emptied; on failure the buffer is kept; the directories, the type and the global member map never change |
| GrammarModel.Grammar.DeclarePending | utils/grammar.js:115-120 | the `forEach` succeeds exactly when the buffer is empty or the directory is defined and the names are distinct and new to it; on success the directory gained exactly those names, and an empty buffer changes nothing; a failure is a TypeError or a duplicate; the buffer, the directories, the type and the global member map never change |
| GrammarModel.Grammar.AddPendingVar | utils/grammar.js:30-52 | a plain `addVar` of one name: an undefined directory is a TypeError; otherwise it succeeds exactly when the name is new to the directory, storing an entry with the type and an empty member map under the next handle, and a duplicate changes nothing |
| GrammarModel.Grammar.BackDirectory | utils/grammar.js:129-131 | pops the top of the stack into the current directory; an empty stack leaves it undefined |

## Left out

- The entry points and the build (index.js, build.js, webpack.config.js) read files and build the parser. The virtual machine (classes/virtual-machine.js) is an empty class. None of them is modelled.
- Error messages, their colouring and the line numbers they report are dropped. Each throw is only its `ErrorKind`.
- Quadruple-generator methods that classes/quadruples.js does not define are not modelled. These are `pushToOperationsStack`, `getLastOperation`, `checkOperation`, `jumpStack`, `operators.PARAM` and `GOSUB`.
  - `ScopeModel.Semantics.SetConstant` stops after the memory write; the push of the address onto the operand stack is left out.
  - `ScopeModel.Semantics.ValidateParam` stops after `paramPointer` moves on. The argument's type is a parameter, because `getLastOperation` does not exist.
  - `addGoSub` (classes/semantics.js:471-477) is left out.
- `ScopeModel.Semantics.ValidateParam` takes the callee's name as a parameter. The source reads `this.callingVariable`, which is never initialised, so its key would always be "undefined".
- `ScopeModel.Semantics.constructor`: the operator stack is built over the corrected operator table (`CorrectedOperatorEntries`, NOT_EQUAL `!=` and EQUAL_EQUAL `==`), not over the table classes/quadruples.js:14-30 writes, which rejects `==` (see "## Findings"). The behaviour as written is `QuadruplesModel.EqualEqualRejectedAsWritten`.
- `ScopeModel.Semantics.AddPendingVars`, `LegacyScopeModel.LegacySemantics.AddPendingVars`, `GrammarModel.Grammar.AddPendingVars`: after a failure, the names declared before the failing one stay declared, as in the source, but the contract does not state which they are.
- The `grammar` argument of the classes/semantics.js constructor is not kept. It is only used for error line numbers.
- `MemoryModel.Memory.GetAddress` takes `advance` as a natural number. Its only callers pass the default, 1.
- Keys inherited from `Object.prototype` (`constructor`, `toString`, …) are not modelled. In the source they would make `varsDirectory[id]` truthy for an undeclared `id`.
- Constant values are strings, and interning compares them as strings.
- A symbol's type is `None` when the source passes `null`. An undefined type is not distinguished from `null`, except for `expectedType` in utils/grammar.js.
- `LegacyScopeModel.ValidateId`: a type mismatch gives a ReferenceError, as written. The error message names `lithis`, which does not exist (utils/semantics.js:136).
- `ScopeModel.Semantics.ValidateCurrentVariableFunction`: a wrong function flag gives a ReferenceError, as written. The message names an undefined `id` (classes/semantics.js:219).
- utils/semantics.js and utils/grammar.js have no BOOLEAN among their generic types. A boolean declaration there goes through the class check, as written.
- `SymmetricFold.BuildCube` is specified only for precubes that declare each pair once, in the row visited first. The repository's precube is one (`BinaryCompat.PrecubeUpperTriangular`). The result of the fold on other precubes is not stated.
- Nothing here is concurrent. Every operation is a single synchronous call.

## Findings

| source | as written | input that shows it | evidently intended | confidence | as-written member | corrected member |
|---|---|---|---|---|---|---|
| classes/quadruples.js:19-20 | NOT_EQUAL is bound to `!` and EQUAL_EQUAL to `!=`, so no entry bears `==` | `pushToOperatorsStack({ operator: "==" })` fails as an invalid operator | NOT_EQUAL is `!=` and EQUAL_EQUAL is `==`, as in classes/utils/operators.js, so every operator is accepted | high (not executed) | QuadruplesModel.EqualEqualRejectedAsWritten | QuadruplesModel.CorrectedTableAcceptsOperators |
| utils/grammar.js:79 | `this.currentDirectory[id]` reads a property of the directory object, not its member map | inside function `f`, which declares `x: int`, with `main` global, `getAndValidateVar({ id: "x", expectedType: "int" })` throws "not declared" | `this.currentDirectory.varsDirectory[id]`: the current directory's member map first, then the global one | high (not executed) | GrammarModel.AsWrittenMissesLocalVariable | GrammarModel.GetAndValidateVarMeaning |
