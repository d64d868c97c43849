/** The scope and symbol table of classes/semantics.js.

    Every directory is a JS object that other objects point to: a function
    symbol is entered as a scope and contains itself, the stack of
    previous directories and the current-variable stack hold the same
    objects. The model keeps the objects in an arena `records` and every
    reference is an index into it (a handle). `main` is the record the
    constructor creates; it has no name, no type and no `params`. */
module ScopeModel {
  import opened Outcomes
  import opened Types
  import opened MemoryModel
  import opened QuadruplesModel
  import Js

  /** A directory object: `main`, or a symbol built by `addVar`
      (lines 98-107). `vars` is its `varsDirectory`, from identifiers to
      handles; `params` is absent on `main`. */
  datatype Symbol = Symbol(
    name: Option<string>,
    typeName: Option<string>,
    isFunction: bool,
    dimensions: nat,
    vars: map<string, nat>,
    address: Option<int>,
    params: Option<seq<nat>>,
    isParam: bool,
    target: Option<nat>)

  /** `this.main = { varsDirectory: {} }`. */
  const Main: Symbol := Symbol(None, None, false, 0, map[], None, None, false, None)

  /** The property key a type denotes: `null` reads as "null". */
  function TypeKey(t: Option<string>): string {
    if t.Some? then t.value else "null"
  }

  /** A JS value other than undefined, null and "" is truthy. */
  predicate Truthy(s: Option<string>) {
    s.Some? && s.value != ""
  }

  /** `validateGenericType` (line 139): `!!inverseGenericTypes[type]`. */
  predicate ValidateGenericType(t: Option<string>) {
    TypeKey(t) in ValueTypeNames + StructuralTypeNames
  }

  /** `validateType` (line 146): `!!inverseTypes[type]`. */
  predicate ValidateType(t: Option<string>) {
    TypeKey(t) in ValueTypeNames
  }

  /** Every handle a symbol holds lies in an arena of `n` records. */
  predicate Closed(s: Symbol, n: nat) {
    && (forall id | id in s.vars :: s.vars[id] < n)
    && (s.params.Some? ==> forall k | 0 <= k < |s.params.value| :: s.params.value[k] < n)
  }

  predicate Arena(records: seq<Symbol>) {
    forall d | 0 <= d < |records| :: Closed(records[d], |records|)
  }

  predicate InArena(d: Option<nat>, n: nat) {
    d.Some? ==> d.value < n
  }

  /** Directory `d` is defined and declares `id`. */
  predicate Holds(records: seq<Symbol>, d: Option<nat>, id: string) {
    d.Some? && d.value < |records| && id in records[d.value].vars
  }

  /** The directories `checkOnPreviousScope` visits from `directory`:
      itself, then the stack from its top down to its bottom. */
  function ScopeChain(directory: Option<nat>, stack: seq<Option<nat>>): (chain: seq<Option<nat>>)
    ensures |chain| == |stack| + 1 && chain[0] == directory
    ensures forall k | 1 <= k < |chain| :: chain[k] == stack[|stack| - k]
  {
    [directory] + seq(|stack|, k requires 0 <= k < |stack| => stack[|stack| - 1 - k])
  }

  /** The entry of `id` in the first directory of `chain` that declares
      it; the search ends at the first undefined directory. */
  function Find(records: seq<Symbol>, chain: seq<Option<nat>>, id: string): Option<nat>
    decreases |chain|
  {
    if chain == [] || chain[0].None? then None
    else if Holds(records, chain[0], id) then Some(records[chain[0].value].vars[id])
    else Find(records, chain[1..], id)
  }

  /** Position `k` of `chain` declares `id`, and every directory before
      it is defined and does not. */
  predicate FirstHolder(records: seq<Symbol>, chain: seq<Option<nat>>, id: string, k: nat) {
    && k < |chain|
    && Holds(records, chain[k], id)
    && forall j | 0 <= j < k :: chain[j].Some? && !Holds(records, chain[j], id)
  }

  /** `Find` is the innermost declaration: it finds an entry exactly when
      some directory before the first undefined one declares `id`, and
      then it is the entry of the first such directory. */
  lemma {:induction false} FindIsInnermost(records: seq<Symbol>, chain: seq<Option<nat>>, id: string)
    ensures Find(records, chain, id).Some? <==> exists k: nat :: FirstHolder(records, chain, id, k)
    ensures forall k: nat | FirstHolder(records, chain, id, k) ::
      Find(records, chain, id) == Some(records[chain[k].value].vars[id])
    decreases |chain|
  {
    if chain == [] || chain[0].None? {
      forall k: nat ensures !FirstHolder(records, chain, id, k) {
        if 0 < k < |chain| {
          assert chain[0].None?;
        }
      }
    } else if Holds(records, chain[0], id) {
      assert FirstHolder(records, chain, id, 0);
      forall k: nat | 0 < k ensures !FirstHolder(records, chain, id, k) {
        assert Holds(records, chain[0], id);
      }
    } else {
      var rest := chain[1..];
      FindIsInnermost(records, rest, id);
      forall k: nat | FirstHolder(records, chain, id, k) ensures 1 <= k && FirstHolder(records, rest, id, k - 1) {
        forall j | 0 <= j < k - 1 ensures rest[j].Some? && !Holds(records, rest[j], id) {
          assert rest[j] == chain[j + 1];
        }
      }
      forall k: nat | FirstHolder(records, rest, id, k) ensures FirstHolder(records, chain, id, k + 1) {
        forall j | 0 <= j < k + 1 ensures chain[j].Some? && !Holds(records, chain[j], id) {
          if j > 0 {
            assert chain[j] == rest[j - 1];
          }
        }
      }
    }
  }

  /** An entry found in an arena is a handle of the arena. */
  lemma {:induction false} FindInArena(records: seq<Symbol>, chain: seq<Option<nat>>, id: string)
    requires Arena(records)
    ensures Find(records, chain, id).Some? ==> Find(records, chain, id).value < |records|
    decreases |chain|
  {
    if chain != [] && chain[0].Some? && !Holds(records, chain[0], id) {
      FindInArena(records, chain[1..], id);
    } else if chain != [] && chain[0].Some? {
      assert Closed(records[chain[0].value], |records|);
    }
  }

  /** What `validateId` (lines 173-208) decides: reading `name` of an
      undefined current directory throws; then, in order, an identifier
      found nowhere, a non-function where a function is expected, and a
      type other than a truthy `expectedType` are errors. */
  function IdCheck(records: seq<Symbol>, current: Option<nat>, stack: seq<Option<nat>>, id: string,
                   expectedType: Option<string>, expectFunction: bool): (r: Result<nat>)
    requires Arena(records)
    ensures r.Ok? ==> r.value < |records|
  {
    if current.None? then Err(TypeError)
    else
      var found := Find(records, ScopeChain(current, stack), id);
      FindInArena(records, ScopeChain(current, stack), id);
      if found.None? then Err(UndeclaredIdentifier)
      else if expectFunction && !records[found.value].isFunction then Err(NotAFunction)
      else if Truthy(expectedType) && records[found.value].typeName != expectedType then Err(TypeMismatch)
      else Ok(found.value)
  }

  /** `validateId` accepts exactly the innermost declaration of `id`
      visible from a defined current directory, when it is a function if
      one is expected and has the expected type if one is given. */
  lemma IdCheckIsInnermost(records: seq<Symbol>, current: Option<nat>, stack: seq<Option<nat>>, id: string,
                           expectedType: Option<string>, expectFunction: bool, h: nat)
    requires Arena(records)
    ensures IdCheck(records, current, stack, id, expectedType, expectFunction) == Ok(h) <==>
      && current.Some?
      && (exists k: nat :: FirstHolder(records, ScopeChain(current, stack), id, k)
            && records[ScopeChain(current, stack)[k].value].vars[id] == h)
      && h < |records|
      && (expectFunction ==> records[h].isFunction)
      && (Truthy(expectedType) ==> records[h].typeName == expectedType)
  {
    if current.Some? {
      FindIsInnermost(records, ScopeChain(current, stack), id);
      FindInArena(records, ScopeChain(current, stack), id);
    }
  }

  /** `validateId` reports an undeclared identifier exactly when no
      directory visible from the defined current directory declares it. */
  lemma UndeclaredIsNowhere(records: seq<Symbol>, current: Option<nat>, stack: seq<Option<nat>>, id: string,
                            expectedType: Option<string>, expectFunction: bool)
    requires Arena(records)
    ensures IdCheck(records, current, stack, id, expectedType, expectFunction) == Err(UndeclaredIdentifier) <==>
      current.Some? && forall k: nat :: !FirstHolder(records, ScopeChain(current, stack), id, k)
  {
    if current.Some? {
      FindIsInnermost(records, ScopeChain(current, stack), id);
    }
  }

  /** The steps of `addVar` before anything changes (lines 53-86) in a
      defined current directory `current`: a parameter declared twice; for
      a type that is not generic, the `validateId` of the type as a class,
      whose member map the new symbol copies; then an identifier the
      directory already declares. On success, the member map the new
      symbol starts with. */
  function Admission(records: seq<Symbol>, current: nat, stack: seq<Option<nat>>, id: string,
                     typeName: Option<string>, addToParams: bool): (r: Result<map<string, nat>>)
    requires Arena(records) && current < |records|
    ensures r.Ok? ==> forall x | x in r.value :: r.value[x] < |records|
  {
    var declared := records[current].vars;
    if addToParams && id in declared && records[declared[id]].isParam then Err(DuplicateParam)
    else
      var members :=
        if ValidateGenericType(typeName) then Ok(map[])
        else match IdCheck(records, Some(current), stack, TypeKey(typeName), Some("class"), false)
          case Err(e) => Err(e)
          case Ok(h) => Ok(records[h].vars);
      if members.Ok? && id in declared then Err(DuplicateDeclaration) else members
  }

  /** An admitted identifier is new to the directory. A generic type
      starts with no members; any other type must be the innermost visible
      declaration of a symbol of type "class", whose members are copied. */
  lemma AdmissionMeaning(records: seq<Symbol>, current: nat, stack: seq<Option<nat>>, id: string,
                         typeName: Option<string>, addToParams: bool, members: map<string, nat>)
    requires Arena(records) && current < |records|
    ensures Admission(records, current, stack, id, typeName, addToParams) == Ok(members) <==>
      && id !in records[current].vars
      && (ValidateGenericType(typeName) ==> members == map[])
      && (!ValidateGenericType(typeName) ==>
            exists h :: IdCheck(records, Some(current), stack, TypeKey(typeName), Some("class"), false) == Ok(h)
              && records[h].typeName == Some("class") && members == records[h].vars)
  {
  }

  /** A second declaration of an identifier in the same directory always
      fails, as a duplicate parameter or a duplicate declaration unless the
      class check of its type fails first. */
  lemma RedeclarationFails(records: seq<Symbol>, current: nat, stack: seq<Option<nat>>, id: string,
                           typeName: Option<string>, addToParams: bool)
    requires Arena(records) && current < |records|
    requires id in records[current].vars
    ensures Admission(records, current, stack, id, typeName, addToParams).Err?
    ensures ValidateGenericType(typeName) && !(addToParams && records[records[current].vars[id]].isParam) ==>
      Admission(records, current, stack, id, typeName, addToParams) == Err(DuplicateDeclaration)
  {
  }

  /** The segment a new symbol's address comes from (lines 92-94). */
  function SegmentFor(isFunction: bool): string {
    if isFunction then "stack" else "local"
  }

  /** The allocation step of `addVar` (lines 88-96) on a range table: the
      table afterwards and the address, if any. */
  function Allocation(ranges: map<string, map<string, Range>>, typeName: Option<string>, isFunction: bool)
    : (map<string, map<string, Range>>, Result<Option<int>>)
  {
    if !ValidateType(typeName) then (ranges, Ok(None))
    else
      var segment, t := SegmentFor(isFunction), typeName.value;
      if segment !in ranges || t !in ranges[segment] then (ranges, Err(TypeError))
      else
        var (moved, res) := Bump(ranges[segment][t], 1);
        (ranges[segment := ranges[segment][t := moved]], if res.Ok? then Ok(Some(res.value)) else Err(res.error))
  }

  /** Only a value type gets an address, and it is the next free address
      of the type's range in the stack segment for a function and in the
      local segment otherwise; void, class types and a missing type get
      none and leave the table alone. With every value type present in the
      segment the only possible failure is an overflow. */
  lemma AllocationMeaning(ranges: map<string, map<string, Range>>, typeName: Option<string>, isFunction: bool)
    ensures !ValidateType(typeName) ==> Allocation(ranges, typeName, isFunction) == (ranges, Ok(None))
    ensures ValidateType(typeName) <==> typeName.Some? && typeName.value in ValueTypeNames
    ensures Allocation(ranges, typeName, isFunction).1.Ok? && Allocation(ranges, typeName, isFunction).1.value.Some? ==>
      var segment := SegmentFor(isFunction);
      && ValidateType(typeName) && segment in ranges && typeName.value in ranges[segment]
      && Allocation(ranges, typeName, isFunction).1.value.value == ranges[segment][typeName.value].pointer
    ensures ValidateType(typeName) && SegmentFor(isFunction) in ranges && typeName.value in ranges[SegmentFor(isFunction)] ==>
      Allocation(ranges, typeName, isFunction).1 != Err(TypeError)
    ensures ValidateType(typeName) ==> Allocation(ranges, typeName, isFunction).1 != Ok(None)
  {
  }

  /** The symbol `addVar` creates (lines 98-114) under handle `h`: a
      function gets the index of the next instruction as `target` and
      contains itself under its own name. */
  function NewSymbol(id: string, typeName: Option<string>, isFunction: bool, dimensions: nat,
                     members: map<string, nat>, address: Option<int>, isParam: bool, h: nat, next: nat): Symbol
  {
    Symbol(Some(id), typeName, isFunction, dimensions, if isFunction then members[id := h] else members,
           address, Some([]), isParam, if isFunction then Some(next) else None)
  }

  /** The arena after the new symbol `s` is stored under `id` in
      directory `c`: `s` becomes the next handle (line 98). */
  function Declare(records: seq<Symbol>, c: nat, id: string, s: Symbol): seq<Symbol>
    requires c < |records|
  {
    records[c := records[c].(vars := records[c].vars[id := |records|])] + [s]
  }

  /** `params.push` (lines 116-119) of handle `h` on directory `c`. */
  function WithParam(records: seq<Symbol>, c: nat, h: nat): seq<Symbol>
    requires c < |records| && records[c].params.Some?
  {
    records[c := records[c].(params := Some(records[c].params.value + [h]))]
  }

  /** A declaration keeps the arena closed when the new symbol only
      refers to symbols of the arena and to itself. */
  lemma DeclareArena(records: seq<Symbol>, c: nat, id: string, s: Symbol)
    requires Arena(records) && c < |records|
    requires Closed(s, |records| + 1)
    ensures Arena(Declare(records, c, id, s))
  {
    var d := Declare(records, c, id, s);
    forall j | 0 <= j < |d| ensures Closed(d[j], |d|) {
      if j < |records| {
        assert Closed(records[j], |records|);
      }
    }
  }

  /** After a declaration the identifier resolves, from its directory, to
      the new symbol, whatever the stack holds. */
  lemma DeclareResolves(records: seq<Symbol>, c: nat, id: string, s: Symbol, stack: seq<Option<nat>>)
    requires c < |records|
    ensures Find(Declare(records, c, id, s), ScopeChain(Some(c), stack), id) == Some(|records|)
  {
    assert Holds(Declare(records, c, id, s), ScopeChain(Some(c), stack)[0], id);
  }

  /** A declaration changes the resolution of no other identifier along
      a chain of directories of the old arena. */
  lemma {:induction false} DeclareKeepsOthers(records: seq<Symbol>, c: nat, id: string, s: Symbol,
                                              chain: seq<Option<nat>>, other: string)
    requires c < |records| && other != id
    requires forall k | 0 <= k < |chain| :: InArena(chain[k], |records|)
    ensures Find(Declare(records, c, id, s), chain, other) == Find(records, chain, other)
    decreases |chain|
  {
    if chain != [] && chain[0].Some? {
      var d := Declare(records, c, id, s);
      assert Holds(d, chain[0], other) == Holds(records, chain[0], other);
      if !Holds(records, chain[0], other) {
        DeclareKeepsOthers(records, c, id, s, chain[1..], other);
      }
    }
  }

  /** Entering a directory pushes the current one first, so the search
      visits it twice; the second visit changes nothing. */
  lemma RevisitHarmless(records: seq<Symbol>, current: Option<nat>, stack: seq<Option<nat>>, id: string)
    ensures Find(records, ScopeChain(current, stack + [current]), id) == Find(records, ScopeChain(current, stack), id)
  {
    var longer := ScopeChain(current, stack + [current]);
    var shorter := ScopeChain(current, stack);
    assert longer[2..] == shorter[1..];
    if current.Some? && !Holds(records, current, id) {
      assert longer[1..][1..] == longer[2..];
    }
  }

  /** `validateReturn` (lines 479-488): the returned type must be the
      declared type of the function. */
  function ValidateReturn(returnType: Option<string>, func: Symbol): (r: Outcome)
    ensures r == Pass <==> returnType == func.typeName
    ensures r != Pass ==> r == Fail(ReturnTypeMismatch)
  {
    if returnType != func.typeName then Fail(ReturnTypeMismatch) else Pass
  }

  /** The directory symbol of a pending-variable entry is declared in
      directory `current` with the given type and the entry's dimensions. */
  predicate PendingDeclared(records: seq<Symbol>, current: Option<nat>, entry: (string, nat), typeName: Option<string>) {
    && current.Some? && current.value < |records|
    && entry.0 in records[current.value].vars
    && var h := records[current.value].vars[entry.0];
    && h < |records|
    && records[h].name == Some(entry.0) && records[h].typeName == typeName
    && records[h].dimensions == entry.1 && !records[h].isFunction
  }

  /** The lookup of `validateCurrentVariable` (lines 267-288): without a
      pending point it is `validateId`; after `foo.` it looks only in the
      member map of the current variable (an empty stack throws). */
  function VariableCheck(records: seq<Symbol>, current: Option<nat>, stack: seq<Option<nat>>,
                         isPointPending: bool, variables: seq<(nat, nat)>, id: string): (r: Result<nat>)
    requires Arena(records)
    requires forall k | 0 <= k < |variables| :: variables[k].0 < |records|
    ensures r.Ok? ==> r.value < |records|
  {
    if !isPointPending then IdCheck(records, current, stack, id, None, false)
    else if variables == [] then Err(TypeError)
    else
      var base := records[variables[|variables| - 1].0];
      assert Closed(base, |records|);
      if id in base.vars then Ok(base.vars[id]) else Err(UndeclaredMember)
  }

  /** After a point, member access depends on the current variable alone:
      it finds exactly the members of that variable, whatever scopes are
      open. */
  lemma MemberAccessIsLocal(records: seq<Symbol>, current: Option<nat>, stack: seq<Option<nat>>,
                            current': Option<nat>, stack': seq<Option<nat>>, variables: seq<(nat, nat)>, id: string)
    requires Arena(records)
    requires forall k | 0 <= k < |variables| :: variables[k].0 < |records|
    requires variables != []
    ensures VariableCheck(records, current, stack, true, variables, id)
         == VariableCheck(records, current', stack', true, variables, id)
    ensures VariableCheck(records, current, stack, true, variables, id).Ok? <==>
      id in records[variables[|variables| - 1].0].vars
  {
  }

  /** The member map the first `n` buffered names add to a directory:
      each name to its handle, from `start` on. */
  function PendingHandles(entries: seq<(string, nat)>, n: nat, start: nat): map<string, nat>
    requires n <= |entries|
  {
    if n == 0 then map[] else PendingHandles(entries, n - 1, start)[entries[n - 1].0 := start + n - 1]
  }

  /** The names `PendingHandles` binds are the first `n` buffered names. */
  lemma {:induction false} PendingHandlesKeys(entries: seq<(string, nat)>, n: nat, start: nat, x: string)
    requires n <= |entries|
    ensures x in PendingHandles(entries, n, start) <==> exists k :: 0 <= k < n && entries[k].0 == x
  {
    if n > 0 {
      PendingHandlesKeys(entries, n - 1, start, x);
    }
  }

  /** The range table after `n` addresses of `typeName` are taken from
      the local segment; a type without an address takes none. */
  function LocalAdvanced(ranges: map<string, map<string, Range>>, typeName: Option<string>, n: nat)
    : map<string, map<string, Range>>
  {
    if ValidateType(typeName) && "local" in ranges && typeName.value in ranges["local"] then
      var range := ranges["local"][typeName.value];
      ranges["local" := ranges["local"][typeName.value := range.(pointer := range.pointer + n)]]
    else ranges
  }

  /** The address the `k`-th of several local symbols of `typeName`
      receives: the `k`-th after the range's pointer. */
  function LocalAddress(ranges: map<string, map<string, Range>>, typeName: Option<string>, k: nat): Option<int> {
    if ValidateType(typeName) && "local" in ranges && typeName.value in ranges["local"] then
      Some(ranges["local"][typeName.value].pointer + k)
    else None
  }

  /** Taking no local address changes nothing, and taking one more after
      `i` is taking `i + 1`, at the `i`-th address. */
  lemma LocalAdvancedOneMore(ranges: map<string, map<string, Range>>, typeName: Option<string>, i: nat)
    ensures LocalAdvanced(ranges, typeName, 0) == ranges
    ensures LocalAdvanced(LocalAdvanced(ranges, typeName, i), typeName, 1) == LocalAdvanced(ranges, typeName, i + 1)
    ensures LocalAddress(LocalAdvanced(ranges, typeName, i), typeName, 0) == LocalAddress(ranges, typeName, i)
  {
    if ValidateType(typeName) && "local" in ranges && typeName.value in ranges["local"] {
      var t := typeName.value;
      var range := ranges["local"][t];
      assert ranges["local"][t := ranges["local"][t]] == ranges["local"];
      assert ranges["local" := ranges["local"]] == ranges;
      var moved := LocalAdvanced(ranges, typeName, i);
      assert moved["local"][t] == range.(pointer := range.pointer + i);
      assert moved["local"][t := range.(pointer := range.pointer + i + 1)]
          == ranges["local"][t := range.(pointer := range.pointer + i + 1)];
    }
  }

  /** The first `n` buffered names are declared in `current`, with
      distinct names; the `k`-th holds handle `start + k` and the `k`-th
      local address of the table `ranges`. */
  predicate DeclaredSoFar(records: seq<Symbol>, current: Option<nat>, entries: seq<(string, nat)>, n: nat,
                          typeName: Option<string>, start: nat, ranges: map<string, map<string, Range>>)
    requires n <= |entries|
  {
    && (forall k | 0 <= k < n ::
          && PendingDeclared(records, current, entries[k], typeName)
          && records[current.value].vars[entries[k].0] == start + k
          && records[start + k].address == LocalAddress(ranges, typeName, k))
    && (forall j, k | 0 <= j < k < n :: entries[j].0 != entries[k].0)
  }

  /** Declaring the next buffered name, new to directory `c`, under the
      next handle and at the next local address keeps the earlier names
      declared as they were. */
  lemma DeclaredOneMore(before: seq<Symbol>, records: seq<Symbol>, c: nat, entries: seq<(string, nat)>, i: nat,
                        typeName: Option<string>, start: nat, ranges: map<string, map<string, Range>>)
    requires i < |entries| && c < start && |before| == start + i
    requires DeclaredSoFar(before, Some(c), entries, i, typeName, start, ranges)
    requires entries[i].0 !in before[c].vars
    requires |records| == |before| + 1
    requires records[c].vars == before[c].vars[entries[i].0 := |before|]
    requires forall d | 0 <= d < |before| && d != c :: records[d] == before[d]
    requires records[|before|].name == Some(entries[i].0) && records[|before|].typeName == typeName
    requires records[|before|].dimensions == entries[i].1 && !records[|before|].isFunction
    requires records[|before|].address == LocalAddress(ranges, typeName, i)
    ensures DeclaredSoFar(records, Some(c), entries, i + 1, typeName, start, ranges)
  {
    forall k | 0 <= k < i
      ensures PendingDeclared(records, Some(c), entries[k], typeName)
      ensures records[c].vars[entries[k].0] == start + k
      ensures records[start + k].address == LocalAddress(ranges, typeName, k)
      ensures entries[k].0 != entries[i].0
    {
      var h := before[c].vars[entries[k].0];
      assert records[h] == before[h];
    }
  }

  /** Directory `c` of the arena `before` has gained exactly the first
      `n` buffered names, as `DeclaredSoFar` describes them, and no other
      directory of `before` has changed. */
  predicate PendingAdded(before: seq<Symbol>, records: seq<Symbol>, c: nat, entries: seq<(string, nat)>, n: nat,
                         typeName: Option<string>, ranges: map<string, map<string, Range>>)
    requires n <= |entries|
  {
    && c < |before| && |records| == |before| + n
    && records[c] == before[c].(vars := before[c].vars + PendingHandles(entries, n, |before|))
    && (forall d | 0 <= d < |before| && d != c :: records[d] == before[d])
    && DeclaredSoFar(records, Some(c), entries, n, typeName, |before|, ranges)
  }

  /** Nothing is added before the first name. */
  lemma PendingAddedNone(records: seq<Symbol>, c: nat, entries: seq<(string, nat)>, typeName: Option<string>,
                         ranges: map<string, map<string, Range>>)
    requires c < |records|
    ensures PendingAdded(records, records, c, entries, 0, typeName, ranges)
  {
    assert records[c].vars + map[] == records[c].vars;
  }

  /** Declaring the next buffered name, new to `c`, under the next handle
      and at the next local address adds it to what was added. */
  lemma PendingAddedOneMore(start: seq<Symbol>, before: seq<Symbol>, records: seq<Symbol>, c: nat,
                            entries: seq<(string, nat)>, i: nat, typeName: Option<string>,
                            ranges: map<string, map<string, Range>>)
    requires i < |entries|
    requires PendingAdded(start, before, c, entries, i, typeName, ranges)
    requires entries[i].0 !in before[c].vars
    requires |records| == |before| + 1
    requires records[c] == before[c].(vars := before[c].vars[entries[i].0 := |before|])
    requires forall d | 0 <= d < |before| && d != c :: records[d] == before[d]
    requires records[|before|].name == Some(entries[i].0) && records[|before|].typeName == typeName
    requires records[|before|].dimensions == entries[i].1 && !records[|before|].isFunction
    requires records[|before|].address == LocalAddress(ranges, typeName, i)
    ensures PendingAdded(start, records, c, entries, i + 1, typeName, ranges)
  {
    assert start[c].vars + PendingHandles(entries, i + 1, |start|)
        == (start[c].vars + PendingHandles(entries, i, |start|))[entries[i].0 := |before|];
    DeclaredOneMore(before, records, c, entries, i, typeName, |start|, ranges);
  }

  /** The class check of `addVar` (lines 71-80): a type that is not
      generic must be the innermost visible "class". */
  predicate ClassCheck(records: seq<Symbol>, c: nat, stack: seq<Option<nat>>, typeName: Option<string>)
    requires Arena(records)
  {
    ValidateGenericType(typeName) || IdCheck(records, Some(c), stack, TypeKey(typeName), Some("class"), false).Ok?
  }

  /** The local range of a value type has room for `n` more addresses;
      a type without an address needs none. */
  predicate LocalRoom(ranges: map<string, map<string, Range>>, typeName: Option<string>, n: nat) {
    ValidateType(typeName) ==>
      && "local" in ranges && typeName.value in ranges["local"]
      && ranges["local"][typeName.value].pointer + n <= ranges["local"][typeName.value].high
  }

  /** After `i` local allocations, one more succeeds exactly when the
      range had room for `i + 1`. */
  lemma LocalRoomOneMore(ranges: map<string, map<string, Range>>, typeName: Option<string>, i: nat)
    ensures Allocation(LocalAdvanced(ranges, typeName, i), typeName, false).1.Ok? <==> LocalRoom(ranges, typeName, i + 1)
  {
  }

  /** The first `n` buffered names can all be declared in turn: the
      directory is defined, the names are distinct and new to it, the
      type passes the class check, no name but the last shadows the type
      (later class checks would find that variable), and the local range
      has room for all of them. */
  predicate PendingAdmissible(records: seq<Symbol>, current: Option<nat>, stack: seq<Option<nat>>,
                              ranges: map<string, map<string, Range>>, entries: seq<(string, nat)>, n: nat,
                              typeName: Option<string>)
    requires Arena(records) && n <= |entries|
  {
    n > 0 ==>
      && current.Some? && current.value < |records|
      && (forall j, k | 0 <= j < k < n :: entries[j].0 != entries[k].0)
      && (forall k | 0 <= k < n :: entries[k].0 !in records[current.value].vars)
      && ClassCheck(records, current.value, stack, typeName)
      && (!ValidateGenericType(typeName) ==> forall k | 0 <= k < n - 1 :: entries[k].0 != TypeKey(typeName))
      && LocalRoom(ranges, typeName, n)
  }

  /** Admissibility only grows harder with more names. */
  lemma PendingAdmissibleShrinks(records: seq<Symbol>, current: Option<nat>, stack: seq<Option<nat>>,
                                 ranges: map<string, map<string, Range>>, entries: seq<(string, nat)>, m: nat, n: nat,
                                 typeName: Option<string>)
    requires Arena(records) && 0 < m <= n <= |entries|
    requires PendingAdmissible(records, current, stack, ranges, entries, n, typeName)
    ensures PendingAdmissible(records, current, stack, ranges, entries, m, typeName)
  {
  }

  /** Adding names other than `x` to directory `c` changes no search
      for `x` along directories of the old arena. */
  lemma {:induction false} FindAfterPending(start: seq<Symbol>, records: seq<Symbol>, c: nat,
                                            entries: seq<(string, nat)>, i: nat, typeName: Option<string>,
                                            ranges: map<string, map<string, Range>>, chain: seq<Option<nat>>, x: string)
    requires i <= |entries|
    requires PendingAdded(start, records, c, entries, i, typeName, ranges)
    requires x !in PendingHandles(entries, i, |start|)
    requires forall k | 0 <= k < |chain| :: InArena(chain[k], |start|)
    ensures Find(records, chain, x) == Find(start, chain, x)
    decreases |chain|
  {
    if chain != [] && chain[0].Some? {
      var d := chain[0].value;
      assert Holds(records, chain[0], x) == Holds(start, chain[0], x);
      if Holds(start, chain[0], x) {
        assert records[d].vars[x] == start[d].vars[x];
      } else {
        FindAfterPending(start, records, c, entries, i, typeName, ranges, chain[1..], x);
      }
    }
  }

  /** The records after `addVar` has declared the first `n` buffered
      names, one after the other, in directory `c` of `start`: the `k`-th
      symbol starts with the member map `members[k]` its admission
      yielded and takes the `k`-th next local address of `ranges`. */
  function PendingRecords(start: seq<Symbol>, c: nat, entries: seq<(string, nat)>, members: seq<map<string, nat>>,
                          n: nat, typeName: Option<string>, ranges: map<string, map<string, Range>>)
    : (records: seq<Symbol>)
    requires c < |start| && n <= |entries| && n <= |members|
    ensures |records| == |start| + n
  {
    if n == 0 then start
    else
      var e := entries[n - 1];
      Declare(PendingRecords(start, c, entries, members, n - 1, typeName, ranges), c, e.0,
              NewSymbol(e.0, typeName, false, e.1, members[n - 1], LocalAddress(ranges, typeName, n - 1), false, 0, 0))
  }

  /** Only the first `n` member maps matter. */
  lemma {:induction false} PendingRecordsPrefix(start: seq<Symbol>, c: nat, entries: seq<(string, nat)>,
                                                members: seq<map<string, nat>>, m: map<string, nat>, n: nat,
                                                typeName: Option<string>, ranges: map<string, map<string, Range>>)
    requires c < |start| && n <= |entries| && n <= |members|
    ensures PendingRecords(start, c, entries, members + [m], n, typeName, ranges)
         == PendingRecords(start, c, entries, members, n, typeName, ranges)
  {
    if n > 0 {
      PendingRecordsPrefix(start, c, entries, members, m, n - 1, typeName, ranges);
      assert (members + [m])[n - 1] == members[n - 1];
    }
  }

  /** Declaring buffered names that are distinct and new to `c` adds
      exactly them, each under its own handle at its own local address. */
  lemma {:induction false} PendingRecordsAdded(start: seq<Symbol>, c: nat, entries: seq<(string, nat)>,
                                               members: seq<map<string, nat>>, n: nat, typeName: Option<string>,
                                               ranges: map<string, map<string, Range>>)
    requires c < |start| && n <= |entries| && n <= |members|
    requires forall j, k | 0 <= j < k < n :: entries[j].0 != entries[k].0
    requires forall k | 0 <= k < n :: entries[k].0 !in start[c].vars
    ensures PendingAdded(start, PendingRecords(start, c, entries, members, n, typeName, ranges), c, entries, n,
                         typeName, ranges)
  {
    if n == 0 {
      PendingAddedNone(start, c, entries, typeName, ranges);
    } else {
      var before := PendingRecords(start, c, entries, members, n - 1, typeName, ranges);
      PendingRecordsAdded(start, c, entries, members, n - 1, typeName, ranges);
      PendingHandlesKeys(entries, n - 1, |start|, entries[n - 1].0);
      assert entries[n - 1].0 !in before[c].vars;
      PendingAddedOneMore(start, before, PendingRecords(start, c, entries, members, n, typeName, ranges), c, entries,
                          n - 1, typeName, ranges);
    }
  }

  /** A buffered name equal to the type's name, once added, is what the
      class check finds first, and it is a variable, not a class. */
  lemma ClassCheckShadowed(start: seq<Symbol>, records: seq<Symbol>, c: nat, stack: seq<Option<nat>>,
                           entries: seq<(string, nat)>, i: nat, typeName: Option<string>,
                           ranges: map<string, map<string, Range>>, k: nat)
    requires i <= |entries| && Arena(start) && Arena(records)
    requires PendingAdded(start, records, c, entries, i, typeName, ranges)
    requires !ValidateGenericType(typeName) && k < i && entries[k].0 == TypeKey(typeName)
    ensures !ClassCheck(records, c, stack, typeName)
  {
    var x := TypeKey(typeName);
    assert Holds(records, ScopeChain(Some(c), stack)[0], x);
    assert records[records[c].vars[x]].typeName == typeName;
  }

  /** When no added name is the type's name, the class check finds what
      it found before. */
  lemma ClassCheckUnshadowed(start: seq<Symbol>, records: seq<Symbol>, c: nat, stack: seq<Option<nat>>,
                             entries: seq<(string, nat)>, i: nat, typeName: Option<string>,
                             ranges: map<string, map<string, Range>>)
    requires i <= |entries| && Arena(start) && Arena(records)
    requires forall k | 0 <= k < |stack| :: InArena(stack[k], |start|)
    requires PendingAdded(start, records, c, entries, i, typeName, ranges)
    requires TypeKey(typeName) !in PendingHandles(entries, i, |start|)
    ensures ClassCheck(records, c, stack, typeName) == ClassCheck(start, c, stack, typeName)
  {
    var x := TypeKey(typeName);
    var chain := ScopeChain(Some(c), stack);
    FindAfterPending(start, records, c, entries, i, typeName, ranges, chain, x);
    FindInArena(start, chain, x);
    var found := Find(start, chain, x);
    if found.Some? {
      assert records[found.value].typeName == start[found.value].typeName;
    }
  }

  /** After the first `i` names are added, the class check fails if one
      of them is the type's name (a variable, not a class), and otherwise
      decides as it did before. */
  lemma ClassCheckAfterPending(start: seq<Symbol>, records: seq<Symbol>, c: nat, stack: seq<Option<nat>>,
                               entries: seq<(string, nat)>, i: nat, typeName: Option<string>,
                               ranges: map<string, map<string, Range>>)
    requires i <= |entries| && Arena(start) && Arena(records)
    requires forall k | 0 <= k < |stack| :: InArena(stack[k], |start|)
    requires PendingAdded(start, records, c, entries, i, typeName, ranges)
    ensures ClassCheck(records, c, stack, typeName) <==>
      && ClassCheck(start, c, stack, typeName)
      && (!ValidateGenericType(typeName) ==> forall k | 0 <= k < i :: entries[k].0 != TypeKey(typeName))
  {
    if !ValidateGenericType(typeName) {
      var x := TypeKey(typeName);
      PendingHandlesKeys(entries, i, |start|, x);
      if k :| 0 <= k < i && entries[k].0 == x {
        ClassCheckShadowed(start, records, c, stack, entries, i, typeName, ranges, k);
      } else {
        ClassCheckUnshadowed(start, records, c, stack, entries, i, typeName, ranges);
      }
    }
  }

  /** A plain declaration is admitted exactly when its name is new to
      the directory and the type passes the class check. */
  lemma AdmittedPlain(records: seq<Symbol>, c: nat, stack: seq<Option<nat>>, id: string, typeName: Option<string>)
    requires Arena(records) && c < |records|
    ensures Admission(records, c, stack, id, typeName, false).Ok? <==>
      id !in records[c].vars && ClassCheck(records, c, stack, typeName)
  {
  }

  /** Once the first `i` names are added, the next one is admitted and
      gets an address exactly when the first `i + 1` are admissible. */
  lemma PendingAdmissibleOneMore(start: seq<Symbol>, records: seq<Symbol>, c: nat, stack: seq<Option<nat>>,
                                 entries: seq<(string, nat)>, i: nat, typeName: Option<string>,
                                 ranges: map<string, map<string, Range>>)
    requires i < |entries| && Arena(start) && Arena(records)
    requires forall k | 0 <= k < |stack| :: InArena(stack[k], |start|)
    requires PendingAdded(start, records, c, entries, i, typeName, ranges)
    requires PendingAdmissible(start, Some(c), stack, ranges, entries, i, typeName)
    ensures PendingAdmissible(start, Some(c), stack, ranges, entries, i + 1, typeName) <==>
      && Admission(records, c, stack, entries[i].0, typeName, false).Ok?
      && Allocation(LocalAdvanced(ranges, typeName, i), typeName, false).1.Ok?
  {
    var x := entries[i].0;
    PendingAdmissibleNext(start, c, stack, ranges, entries, i, typeName);
    AdmittedPlain(records, c, stack, x, typeName);
    ClassCheckAfterPending(start, records, c, stack, entries, i, typeName, ranges);
    PendingHandlesKeys(entries, i, |start|, x);
    assert x !in records[c].vars <==> x !in start[c].vars && forall k | 0 <= k < i :: entries[k].0 != x;
    LocalRoomOneMore(ranges, typeName, i);
  }

  /** Admissibility of one more name, spelled out over the arena before
      any of them is added. */
  lemma PendingAdmissibleNext(start: seq<Symbol>, c: nat, stack: seq<Option<nat>>,
                              ranges: map<string, map<string, Range>>, entries: seq<(string, nat)>, i: nat,
                              typeName: Option<string>)
    requires Arena(start) && c < |start| && i < |entries|
    requires PendingAdmissible(start, Some(c), stack, ranges, entries, i, typeName)
    ensures PendingAdmissible(start, Some(c), stack, ranges, entries, i + 1, typeName) <==>
      && entries[i].0 !in start[c].vars
      && (forall k | 0 <= k < i :: entries[k].0 != entries[i].0)
      && ClassCheck(start, c, stack, typeName)
      && (!ValidateGenericType(typeName) ==> forall k | 0 <= k < i :: entries[k].0 != TypeKey(typeName))
      && LocalRoom(ranges, typeName, i + 1)
  {
    if i > 0 {
      PendingAdmissibleShrinks(start, Some(c), stack, ranges, entries, i, i, typeName);
    }
  }

  /** The member map the `k`-th buffered name starts with when `addVar`
      declares it in directory `c` (lines 53, 68-78): none for a generic
      type, else a copy of the member map of the class the class check
      finds in the arena `start`. When that class is `c` itself, it has
      gained the first `k` names by then. */
  function ClassMembers(start: seq<Symbol>, c: nat, stack: seq<Option<nat>>, entries: seq<(string, nat)>, k: nat,
                        typeName: Option<string>): map<string, nat>
    requires Arena(start) && c < |start| && k <= |entries|
  {
    if ValidateGenericType(typeName) then map[]
    else match IdCheck(start, Some(c), stack, TypeKey(typeName), Some("class"), false)
      case Err(_) => map[]
      case Ok(h) => if h == c then start[c].vars + PendingHandles(entries, k, |start|) else start[h].vars
  }

  /** The `k`-th of the first `n` member maps is the one `ClassMembers`
      gives the `k`-th buffered name. */
  predicate MembersCopied(start: seq<Symbol>, c: nat, stack: seq<Option<nat>>, entries: seq<(string, nat)>,
                          members: seq<map<string, nat>>, n: nat, typeName: Option<string>)
    requires Arena(start) && c < |start| && n <= |entries| && n <= |members|
  {
    forall k | 0 <= k < n :: members[k] == ClassMembers(start, c, stack, entries, k, typeName)
  }

  /** The `n` symbols added after the arena `start` are, in order, those
      `addVar` builds for the buffered names in directory `c`: the name,
      the type, the entry's dimensions, the class's member map, an empty
      `params`, not a function nor a parameter, and the `k`-th local
      address of `ranges`. */
  predicate PendingSymbols(start: seq<Symbol>, records: seq<Symbol>, c: nat, stack: seq<Option<nat>>,
                           entries: seq<(string, nat)>, n: nat, typeName: Option<string>,
                           ranges: map<string, map<string, Range>>)
    requires Arena(start) && c < |start| && n <= |entries| && |records| == |start| + n
  {
    forall k | 0 <= k < n ::
      records[|start| + k] == NewSymbol(entries[k].0, typeName, false, entries[k].1,
                                        ClassMembers(start, c, stack, entries, k, typeName),
                                        LocalAddress(ranges, typeName, k), false, 0, 0)
  }

  /** Once the first `i` buffered names are added to `c`, an admitted next
      name starts with the member map `ClassMembers` gives it: the class
      check still finds the class it found in `start`, whose member map
      has changed only if it is `c`. */
  lemma AdmissionAfterPending(start: seq<Symbol>, records: seq<Symbol>, c: nat, stack: seq<Option<nat>>,
                              entries: seq<(string, nat)>, i: nat, typeName: Option<string>,
                              ranges: map<string, map<string, Range>>)
    requires i < |entries| && Arena(start) && Arena(records)
    requires forall k | 0 <= k < |stack| :: InArena(stack[k], |start|)
    requires PendingAdded(start, records, c, entries, i, typeName, ranges)
    requires Admission(records, c, stack, entries[i].0, typeName, false).Ok?
    ensures Admission(records, c, stack, entries[i].0, typeName, false).value
         == ClassMembers(start, c, stack, entries, i, typeName)
  {
    if !ValidateGenericType(typeName) {
      var x := TypeKey(typeName);
      var chain := ScopeChain(Some(c), stack);
      ClassCheckAfterPending(start, records, c, stack, entries, i, typeName, ranges);
      PendingHandlesKeys(entries, i, |start|, x);
      FindAfterPending(start, records, c, entries, i, typeName, ranges, chain, x);
      FindInArena(start, chain, x);
      var h := Find(start, chain, x).value;
      assert records[h].typeName == start[h].typeName;
    }
  }

  /** The `k`-th symbol `PendingRecords` adds is the one built for the
      `k`-th name with the member map `members[k]`. */
  lemma {:induction false} PendingRecordsAt(start: seq<Symbol>, c: nat, entries: seq<(string, nat)>,
                                            members: seq<map<string, nat>>, n: nat, typeName: Option<string>,
                                            ranges: map<string, map<string, Range>>, k: nat)
    requires c < |start| && n <= |entries| && n <= |members| && k < n
    ensures PendingRecords(start, c, entries, members, n, typeName, ranges)[|start| + k]
         == NewSymbol(entries[k].0, typeName, false, entries[k].1, members[k], LocalAddress(ranges, typeName, k),
                      false, 0, 0)
  {
    if k < n - 1 {
      PendingRecordsAt(start, c, entries, members, n - 1, typeName, ranges, k);
    }
  }

  /** Records built with the member maps `ClassMembers` gives are the
      symbols `addVar` builds. */
  lemma PendingRecordsSymbols(start: seq<Symbol>, c: nat, stack: seq<Option<nat>>, entries: seq<(string, nat)>,
                              members: seq<map<string, nat>>, n: nat, typeName: Option<string>,
                              ranges: map<string, map<string, Range>>)
    requires Arena(start) && c < |start| && n <= |entries| && |members| == n
    requires MembersCopied(start, c, stack, entries, members, n, typeName)
    ensures PendingSymbols(start, PendingRecords(start, c, entries, members, n, typeName, ranges), c, stack, entries,
                           n, typeName, ranges)
  {
    forall k | 0 <= k < n
      ensures PendingRecords(start, c, entries, members, n, typeName, ranges)[|start| + k]
           == NewSymbol(entries[k].0, typeName, false, entries[k].1,
                        ClassMembers(start, c, stack, entries, k, typeName),
                        LocalAddress(ranges, typeName, k), false, 0, 0)
    {
      PendingRecordsAt(start, c, entries, members, n, typeName, ranges, k);
    }
  }

  /** The state `addPendingVars` has reached after its first `i` names,
      from the records `start` and the range table `ranges` it began
      with, the `k`-th name having been admitted with the member map
      `members[k]`: the arena `records`, the directory `current` and the
      stack `stack` it declares in, and the range table `moved`. */
  ghost predicate Progress(start: seq<Symbol>, members: seq<map<string, nat>>, ranges: map<string, map<string, Range>>,
                           i: nat, typeName: Option<string>, entries: seq<(string, nat)>, records: seq<Symbol>,
                           current: Option<nat>, stack: seq<Option<nat>>, moved: map<string, map<string, Range>>)
  {
    && i <= |entries| && |members| == i && Arena(start)
    && moved == LocalAdvanced(ranges, typeName, i)
    && (current.None? ==> i == 0 && records == start)
    && (current.Some? ==>
          && current.value < |start|
          && records == PendingRecords(start, current.value, entries, members, i, typeName, ranges)
          && MembersCopied(start, current.value, stack, entries, members, i, typeName))
    && (forall k | 0 <= k < |stack| :: InArena(stack[k], |start|))
    && PendingAdmissible(start, current, stack, ranges, entries, i, typeName)
  }

  /** One turn of the loop of `addPendingVars`: declaring the `i`-th name
      succeeds exactly as `addVar` decides, and then the state has
      advanced to `i + 1` names; when it fails, the whole buffer was not
      admissible. */
  lemma ProgressStep(start: seq<Symbol>, members: seq<map<string, nat>>, ranges: map<string, map<string, Range>>,
                     i: nat, typeName: Option<string>, entries: seq<(string, nat)>, records: seq<Symbol>,
                     current: Option<nat>, stack: seq<Option<nat>>, moved: map<string, map<string, Range>>,
                     records': seq<Symbol>, moved': map<string, map<string, Range>>, pass: bool)
    requires Progress(start, members, ranges, i, typeName, entries, records, current, stack, moved)
    requires i < |entries| && Arena(records)
    requires pass <==>
      && current.Some? && current.value < |records|
      && Admission(records, current.value, stack, entries[i].0, typeName, false).Ok?
      && Allocation(moved, typeName, false).1.Ok?
    requires pass ==>
      && current.Some? && current.value < |records|
      && var admission := Admission(records, current.value, stack, entries[i].0, typeName, false);
      && admission.Ok?
      && records' == Declare(records, current.value, entries[i].0,
                             NewSymbol(entries[i].0, typeName, false, entries[i].1, admission.value,
                                       LocalAddress(moved, typeName, 0), false, 0, 0))
      && moved' == LocalAdvanced(moved, typeName, 1)
    ensures !pass ==> !PendingAdmissible(start, current, stack, ranges, entries, |entries|, typeName)
    ensures pass ==>
      var m := Admission(records, current.value, stack, entries[i].0, typeName, false).value;
      Progress(start, members + [m], ranges, i + 1, typeName, entries, records', current, stack, moved')
  {
    if pass {
      ProgressAdvances(start, members, ranges, i, typeName, entries, records, current.value, stack, moved,
                       records', moved');
    } else {
      ProgressRefutes(start, members, ranges, i, typeName, entries, records, current, stack, moved);
    }
  }

  /** Once every buffered name is declared, the directory has gained
      exactly them, as the symbols `addVar` builds, at consecutive local
      addresses, and the buffer was admissible. */
  lemma ProgressComplete(start: seq<Symbol>, members: seq<map<string, nat>>, ranges: map<string, map<string, Range>>,
                         typeName: Option<string>, entries: seq<(string, nat)>, records: seq<Symbol>, c: nat,
                         stack: seq<Option<nat>>, moved: map<string, map<string, Range>>)
    requires Progress(start, members, ranges, |entries|, typeName, entries, records, Some(c), stack, moved)
    ensures c < |start| && |records| == |start| + |entries|
    ensures PendingAdded(start, records, c, entries, |entries|, typeName, ranges)
    ensures PendingSymbols(start, records, c, stack, entries, |entries|, typeName, ranges)
    ensures PendingAdmissible(start, Some(c), stack, ranges, entries, |entries|, typeName)
    ensures moved == LocalAdvanced(ranges, typeName, |entries|)
  {
    PendingRecordsAdded(start, c, entries, members, |entries|, typeName, ranges);
    PendingRecordsSymbols(start, c, stack, entries, members, |entries|, typeName, ranges);
  }

  /** A declaration of the `i`-th name that succeeds advances the state
      to `i + 1` names, the new one with the member map it was admitted
      with. */
  lemma ProgressAdvances(start: seq<Symbol>, members: seq<map<string, nat>>, ranges: map<string, map<string, Range>>,
                         i: nat, typeName: Option<string>, entries: seq<(string, nat)>, records: seq<Symbol>,
                         c: nat, stack: seq<Option<nat>>, moved: map<string, map<string, Range>>,
                         records': seq<Symbol>, moved': map<string, map<string, Range>>)
    requires Progress(start, members, ranges, i, typeName, entries, records, Some(c), stack, moved)
    requires i < |entries| && Arena(records) && c < |records|
    requires Admission(records, c, stack, entries[i].0, typeName, false).Ok?
    requires Allocation(moved, typeName, false).1.Ok?
    requires records' == Declare(records, c, entries[i].0,
                                 NewSymbol(entries[i].0, typeName, false, entries[i].1,
                                           Admission(records, c, stack, entries[i].0, typeName, false).value,
                                           LocalAddress(moved, typeName, 0), false, 0, 0))
    requires moved' == LocalAdvanced(moved, typeName, 1)
    ensures
      var m := Admission(records, c, stack, entries[i].0, typeName, false).value;
      Progress(start, members + [m], ranges, i + 1, typeName, entries, records', Some(c), stack, moved')
  {
    var m := Admission(records, c, stack, entries[i].0, typeName, false).value;
    LocalAdvancedOneMore(ranges, typeName, i);
    PendingRecordsAdded(start, c, entries, members, i, typeName, ranges);
    PendingAdmissibleOneMore(start, records, c, stack, entries, i, typeName, ranges);
    PendingRecordsPrefix(start, c, entries, members, m, i, typeName, ranges);
    AdmissionAfterPending(start, records, c, stack, entries, i, typeName, ranges);
    MembersCopiedOneMore(start, c, stack, entries, members, i, typeName, m);
  }

  /** A declaration of the `i`-th name that fails shows that the whole
      buffer was not admissible. */
  lemma ProgressRefutes(start: seq<Symbol>, members: seq<map<string, nat>>, ranges: map<string, map<string, Range>>,
                        i: nat, typeName: Option<string>, entries: seq<(string, nat)>, records: seq<Symbol>,
                        current: Option<nat>, stack: seq<Option<nat>>, moved: map<string, map<string, Range>>)
    requires Progress(start, members, ranges, i, typeName, entries, records, current, stack, moved)
    requires i < |entries| && Arena(records)
    requires !(&& current.Some? && current.value < |records|
               && Admission(records, current.value, stack, entries[i].0, typeName, false).Ok?
               && Allocation(moved, typeName, false).1.Ok?)
    ensures !PendingAdmissible(start, current, stack, ranges, entries, |entries|, typeName)
  {
    if current.Some? {
      PendingRecordsAdded(start, current.value, entries, members, i, typeName, ranges);
      PendingAdmissibleOneMore(start, records, current.value, stack, entries, i, typeName, ranges);
    }
    if PendingAdmissible(start, current, stack, ranges, entries, |entries|, typeName) {
      PendingAdmissibleShrinks(start, current, stack, ranges, entries, i + 1, |entries|, typeName);
    }
  }

  /** Appending the member map `ClassMembers` gives the next name keeps
      the member maps copied. */
  lemma MembersCopiedOneMore(start: seq<Symbol>, c: nat, stack: seq<Option<nat>>, entries: seq<(string, nat)>,
                             members: seq<map<string, nat>>, i: nat, typeName: Option<string>, m: map<string, nat>)
    requires Arena(start) && c < |start| && i < |entries| && |members| == i
    requires MembersCopied(start, c, stack, entries, members, i, typeName)
    requires m == ClassMembers(start, c, stack, entries, i, typeName)
    ensures MembersCopied(start, c, stack, entries, members + [m], i + 1, typeName)
  {
    assert forall k | 0 <= k < i :: (members + [m])[k] == members[k];
  }

  /** `class Semantics` (lines 10-489). */
  class Semantics {
    /** The directory objects; `main` is record 0. */
    var records: seq<Symbol>
    var currentDirectory: Option<nat>
    var constantsDirectory: map<string, int>
    var currentType: Option<string>
    /** `{ name, dimensions }` entries awaiting their type. */
    var pendingVars: seq<(string, nat)>
    var paramPointer: nat
    var previousDirectoriesStack: seq<Option<nat>>
    /** Each entry is `{ ...symbol, dimensionsToCheck }`: the copy shares
        the symbol's member map and none of the copied fields changes
        later, so the symbol's handle stands for it. */
    var currentVariableStack: seq<(nat, nat)>
    var isPointPending: bool
    var pointsAdvanced: nat
    var callingFunction: string
    const memory: Memory
    const quadruples: Quadruples

    /** Every handle held anywhere lies in the arena. */
    ghost predicate Valid()
      reads this, memory
    {
      && memory.Valid()
      && Arena(records)
      && InArena(currentDirectory, |records|)
      && (forall k | 0 <= k < |previousDirectoriesStack| :: InArena(previousDirectoriesStack[k], |records|))
      && (forall k | 0 <= k < |currentVariableStack| :: currentVariableStack[k].0 < |records|)
    }

    /** The constructor (lines 11-33): `main` is the current directory,
        everything else is empty. The operator stack is built over the
        table of classes/quadruples.js with NOT_EQUAL and EQUAL_EQUAL
        bound to `!=` and `==` (`CorrectedOperatorEntries`), not over the
        table as written (`OperatorEntries`), which rejects `==`. */
    constructor(memory: Memory)
      requires memory.Valid()
      ensures Valid()
      ensures records == [Main] && currentDirectory == Some(0)
      ensures constantsDirectory == map[] && currentType == None && pendingVars == [] && paramPointer == 0
      ensures previousDirectoriesStack == [] && currentVariableStack == []
      ensures !isPointPending && pointsAdvanced == 0 && callingFunction == ""
      ensures this.memory == memory && fresh(quadruples) && quadruples.operatorsStack == []
      ensures quadruples.intermediateCode == []
      ensures quadruples.operators == Js.ToMap(CorrectedOperatorEntries())
      ensures quadruples.inverseOperators == Js.Invert(CorrectedOperatorEntries())
    {
      records := [Main];
      currentDirectory := Some(0);
      constantsDirectory := map[];
      currentType := None;
      pendingVars := [];
      paramPointer := 0;
      previousDirectoriesStack := [];
      currentVariableStack := [];
      isPointPending := false;
      pointsAdvanced := 0;
      callingFunction := "";
      this.memory := memory;
      quadruples := new Quadruples(CorrectedOperatorEntries());
    }

    /** `checkOnPreviousScope` (lines 456-469): a do-while that looks in
        `directory` and then down the stack from its top, stopping at the
        first directory declaring `id` or at the first undefined one. */
    method CheckOnPreviousScope(directory: Option<nat>, id: string) returns (r: Option<nat>)
      requires Valid() && InArena(directory, |records|)
      ensures r == Find(records, ScopeChain(directory, previousDirectoriesStack), id)
      ensures r.Some? ==> r.value < |records|
    {
      var stack := previousDirectoriesStack;
      ghost var chain := ScopeChain(directory, stack);
      var dir: Option<nat> := directory;
      var back := -1;
      while true
        invariant -1 <= back <= |stack|
        invariant back == -1 ==> dir == directory
        invariant Find(records, chain, id) == Find(records, chain[back + 1..], id)
        invariant InArena(dir, |records|)
        decreases |stack| - back
      {
        if back >= 0 {
          var i := |stack| - back - 1;
          dir := if i >= 0 then stack[i] else None;
        }
        assert back + 1 <= |stack| ==> dir == chain[back + 1];
        ghost var rest := chain[back + 1..];
        back := back + 1;
        if dir.Some? && id in records[dir.value].vars {
          assert Closed(records[dir.value], |records|);
          return Some(records[dir.value].vars[id]);
        }
        if dir.None? {
          return None;
        }
        assert rest[1..] == chain[back + 1..];
      }
    }

    /** `validateId` (lines 173-208). */
    method ValidateId(id: string, expectedType: Option<string>, expectFunction: bool) returns (r: Result<nat>)
      requires Valid()
      ensures r == IdCheck(records, currentDirectory, previousDirectoriesStack, id, expectedType, expectFunction)
    {
      if currentDirectory.None? {
        return Err(TypeError);
      }
      var toCheck := CheckOnPreviousScope(currentDirectory, id);
      if toCheck.None? {
        return Err(UndeclaredIdentifier);
      }
      if expectFunction && !records[toCheck.value].isFunction {
        return Err(NotAFunction);
      }
      if Truthy(expectedType) && records[toCheck.value].typeName != expectedType {
        return Err(TypeMismatch);
      }
      return Ok(toCheck.value);
    }

    /** Lines 53-86 of `addVar`: the checks made before anything changes. */
    method Admit(id: string, typeName: Option<string>, addToParams: bool) returns (r: Result<map<string, nat>>)
      requires Valid() && currentDirectory.Some?
      ensures r == Admission(records, currentDirectory.value, previousDirectoriesStack, id, typeName, addToParams)
    {
      var declared := records[currentDirectory.value].vars;
      if addToParams && id in declared {
        assert Closed(records[currentDirectory.value], |records|);
        if records[declared[id]].isParam {
          return Err(DuplicateParam);
        }
      }
      var members: map<string, nat> := map[];
      if !ValidateGenericType(typeName) {
        var classSymbol := ValidateId(TypeKey(typeName), Some("class"), false);
        if classSymbol.Err? {
          return Err(classSymbol.error);
        }
        members := records[classSymbol.value].vars;
      }
      if id in declared {
        return Err(DuplicateDeclaration);
      }
      return Ok(members);
    }

    /** `advanceToDirectory` (lines 359-365): the current directory is
        pushed, and the directory the search from it finds under `name`
        (over the stack as it now is) becomes current. */
    method AdvanceToDirectory(name: string)
      requires Valid()
      modifies this`previousDirectoriesStack, this`currentDirectory
      ensures Valid()
      ensures previousDirectoriesStack == old(previousDirectoriesStack) + [old(currentDirectory)]
      ensures currentDirectory == Find(records, ScopeChain(old(currentDirectory), previousDirectoriesStack), name)
    {
      previousDirectoriesStack := previousDirectoriesStack + [currentDirectory];
      currentDirectory := CheckOnPreviousScope(currentDirectory, name);
    }

    /** `backDirectory` (lines 255-257): the top of the stack becomes the
        current directory; popping an empty stack leaves it undefined. */
    method BackDirectory()
      requires Valid()
      modifies this`previousDirectoriesStack, this`currentDirectory
      ensures Valid()
      ensures old(previousDirectoriesStack) == [] ==> previousDirectoriesStack == [] && currentDirectory == None
      ensures old(previousDirectoriesStack) != [] ==>
        && previousDirectoriesStack == old(previousDirectoriesStack)[..|old(previousDirectoriesStack)| - 1]
        && currentDirectory == old(previousDirectoriesStack)[|old(previousDirectoriesStack)| - 1]
    {
      if previousDirectoriesStack == [] {
        currentDirectory := None;
      } else {
        currentDirectory := previousDirectoriesStack[|previousDirectoriesStack| - 1];
        previousDirectoriesStack := previousDirectoriesStack[..|previousDirectoriesStack| - 1];
      }
    }

    /** `addVar` (lines 45-125). An undefined current directory throws
        before anything changes, and so does a failed admission check. A
        value type then takes an address, and an overflow throws with the
        range already advanced. Otherwise the new symbol is stored under
        `id` in the current directory; with `addToParams` it is appended to
        the directory's `params`, which `main` lacks (a TypeError, the
        symbol staying declared); with `addNextLevel` its scope is entered.
        No other field changes. */
    method AddVar(id: string, typeName: Option<string>, isFunction: bool, addNextLevel: bool,
                  dimensions: nat, addToParams: bool) returns (r: Outcome)
      requires Valid()
      modifies this`records, this`currentDirectory, this`previousDirectoriesStack, memory
      ensures Valid()
      ensures constantsDirectory == old(constantsDirectory) && currentType == old(currentType)
      ensures pendingVars == old(pendingVars) && paramPointer == old(paramPointer)
      ensures currentVariableStack == old(currentVariableStack) && isPointPending == old(isPointPending)
      ensures pointsAdvanced == old(pointsAdvanced) && callingFunction == old(callingFunction)
      ensures memory.addresses == old(memory.addresses)
      ensures old(currentDirectory).None? ==>
        && r == Fail(TypeError) && records == old(records) && memory.ranges == old(memory.ranges)
        && currentDirectory == old(currentDirectory) && previousDirectoriesStack == old(previousDirectoriesStack)
      ensures old(currentDirectory).Some? ==>
        var c := old(currentDirectory).value;
        var admission := Admission(old(records), c, old(previousDirectoriesStack), id, typeName, addToParams);
        var (ranges, address) := Allocation(old(memory.ranges), typeName, isFunction);
        && (admission.Err? ==>
              && r == Fail(admission.error) && records == old(records) && memory.ranges == old(memory.ranges)
              && currentDirectory == old(currentDirectory) && previousDirectoriesStack == old(previousDirectoriesStack))
        && (admission.Ok? ==> memory.ranges == ranges)
        && (admission.Ok? && address.Err? ==>
              && r == Fail(address.error) && records == old(records)
              && currentDirectory == old(currentDirectory) && previousDirectoriesStack == old(previousDirectoriesStack))
        && (admission.Ok? && address.Ok? ==>
              var h := |old(records)|;
              var s := NewSymbol(id, typeName, isFunction, dimensions, admission.value, address.value, addToParams,
                                 h, |quadruples.intermediateCode|);
              var declared := Declare(old(records), c, id, s);
              if addToParams && old(records)[c].params.None? then
                && r == Fail(TypeError) && records == declared
                && currentDirectory == old(currentDirectory) && previousDirectoriesStack == old(previousDirectoriesStack)
              else
                && r == Pass
                && records == (if addToParams then WithParam(declared, c, h) else declared)
                && (addNextLevel ==>
                      currentDirectory == Some(h) && previousDirectoriesStack == old(previousDirectoriesStack) + [Some(c)])
                && (!addNextLevel ==>
                      currentDirectory == old(currentDirectory) && previousDirectoriesStack == old(previousDirectoriesStack)))
    {
      if currentDirectory.None? {
        return Fail(TypeError);
      }
      var c := currentDirectory.value;
      var members := Admit(id, typeName, addToParams);
      if members.Err? {
        return Fail(members.error);
      }
      var address := Allocate(typeName, isFunction);
      if address.Err? {
        return Fail(address.error);
      }
      var s := NewSymbol(id, typeName, isFunction, dimensions, members.value, address.value, addToParams,
                         |records|, |quadruples.intermediateCode|);
      r := Install(c, id, s, addToParams, addNextLevel);
    }

    /** Lines 88-96 of `addVar`: a value type takes the next address of
        its range (see `Allocation`). */
    method Allocate(typeName: Option<string>, isFunction: bool) returns (r: Result<Option<int>>)
      requires memory.Valid()
      modifies memory
      ensures memory.Valid()
      ensures memory.addresses == old(memory.addresses)
      ensures (memory.ranges, r) == Allocation(old(memory.ranges), typeName, isFunction)
    {
      if !ValidateType(typeName) {
        return Ok(None);
      }
      var slot := memory.GetAddress(typeName.value, SegmentFor(isFunction), 1);
      if slot.Err? {
        return Err(slot.error);
      }
      return Ok(Some(slot.value));
    }

    /** Lines 98-124 of `addVar`: the new symbol `s` is stored under `id`
        in the current directory `c`, appended to its `params` with
        `addToParams` (which throws on `main`, after the store), and
        entered with `addNextLevel`. */
    method Install(c: nat, id: string, s: Symbol, addToParams: bool, addNextLevel: bool) returns (r: Outcome)
      requires Valid() && currentDirectory == Some(c) && c < |records|
      requires Closed(s, |records| + 1)
      modifies this`records, this`currentDirectory, this`previousDirectoriesStack
      ensures Valid()
      ensures
        var h := |old(records)|;
        var declared := Declare(old(records), c, id, s);
        if addToParams && old(records)[c].params.None? then
          && r == Fail(TypeError) && records == declared
          && currentDirectory == old(currentDirectory) && previousDirectoriesStack == old(previousDirectoriesStack)
        else
          && r == Pass
          && records == (if addToParams then WithParam(declared, c, h) else declared)
          && (addNextLevel ==>
                currentDirectory == Some(h) && previousDirectoriesStack == old(previousDirectoriesStack) + [Some(c)])
          && (!addNextLevel ==>
                currentDirectory == old(currentDirectory) && previousDirectoriesStack == old(previousDirectoriesStack))
    {
      var h := |records|;
      DeclareArena(records, c, id, s);
      records := Declare(records, c, id, s);
      if addToParams {
        if records[c].params.None? {
          return Fail(TypeError);
        }
        assert Closed(records[c], |records|);
        records := WithParam(records, c, h);
        assert Closed(records[c], |records|);
      }
      if addNextLevel {
        AdvanceToDirectory(id);
        assert Holds(records, ScopeChain(Some(c), previousDirectoriesStack)[0], id);
      }
      return Pass;
    }

    /** `addFunction` (lines 153-161): `addVar` of `id` with the current
        type as a function, entered, not a parameter. It throws as
        `addVar` does; on success `id` is bound in the directory that was
        current to a new function symbol, which takes the next STACK
        address of a value type and becomes the current directory, and
        `currentType` is reset. No other field changes. */
    method AddFunction(id: string) returns (r: Outcome)
      requires Valid()
      modifies this`records, this`currentDirectory, this`previousDirectoriesStack, this`currentType, memory
      ensures Valid()
      ensures constantsDirectory == old(constantsDirectory)
      ensures pendingVars == old(pendingVars) && paramPointer == old(paramPointer)
      ensures currentVariableStack == old(currentVariableStack) && isPointPending == old(isPointPending)
      ensures pointsAdvanced == old(pointsAdvanced) && callingFunction == old(callingFunction)
      ensures memory.addresses == old(memory.addresses)
      ensures r == Pass ==> currentType == None
      ensures r != Pass ==> currentType == old(currentType)
      ensures old(currentDirectory).None? ==>
        && r == Fail(TypeError) && records == old(records) && memory.ranges == old(memory.ranges)
        && currentDirectory == old(currentDirectory) && previousDirectoriesStack == old(previousDirectoriesStack)
      ensures old(currentDirectory).Some? ==>
        var c := old(currentDirectory).value;
        var admission := Admission(old(records), c, old(previousDirectoriesStack), id, old(currentType), false);
        var (ranges, address) := Allocation(old(memory.ranges), old(currentType), true);
        && (admission.Err? ==>
              && r == Fail(admission.error) && records == old(records) && memory.ranges == old(memory.ranges)
              && currentDirectory == old(currentDirectory) && previousDirectoriesStack == old(previousDirectoriesStack))
        && (admission.Ok? ==> memory.ranges == ranges)
        && (admission.Ok? && address.Err? ==>
              && r == Fail(address.error) && records == old(records)
              && currentDirectory == old(currentDirectory) && previousDirectoriesStack == old(previousDirectoriesStack))
        && (admission.Ok? && address.Ok? ==>
              var h := |old(records)|;
              var s := NewSymbol(id, old(currentType), true, 0, admission.value, address.value, false,
                                 h, |quadruples.intermediateCode|);
              && r == Pass
              && records == Declare(old(records), c, id, s)
              && currentDirectory == Some(h) && previousDirectoriesStack == old(previousDirectoriesStack) + [Some(c)])
      ensures r == Pass ==>
        && old(currentDirectory).Some?
        && var c := old(currentDirectory).value;
        && var h := |old(records)|;
        && id !in old(records)[c].vars
        && |records| == h + 1 && records[c].vars == old(records)[c].vars[id := h]
        && (forall d | 0 <= d < h && d != c :: records[d] == old(records)[d])
        && currentDirectory == Some(h)
        && previousDirectoriesStack == old(previousDirectoriesStack) + [old(currentDirectory)]
        && records[h].name == Some(id) && records[h].typeName == old(currentType)
        && records[h].isFunction && !records[h].isParam
        && records[h].target == Some(|quadruples.intermediateCode|)
        && id in records[h].vars && records[h].vars[id] == h
        && (ValidateType(old(currentType)) ==>
              && "stack" in old(memory.ranges) && old(currentType).value in old(memory.ranges)["stack"]
              && records[h].address == Some(old(memory.ranges)["stack"][old(currentType).value].pointer))
        && (!ValidateType(old(currentType)) ==> records[h].address == None)
    {
      r := AddVar(id, currentType, true, true, 0, false);
      if r == Pass {
        currentType := None;
      }
    }

    /** `pushToPendingVars` (lines 230-232). */
    method PushToPendingVars(name: string)
      modifies this`pendingVars
      ensures pendingVars == old(pendingVars) + [(name, 0)]
    {
      pendingVars := pendingVars + [(name, 0)];
    }

    /** `addDimensionToLastPendingVar` (lines 130-132): the last buffered
        name gains a dimension; an empty buffer throws. */
    method AddDimensionToLastPendingVar() returns (r: Outcome)
      modifies this`pendingVars
      ensures old(pendingVars) == [] ==> r == Fail(TypeError) && pendingVars == old(pendingVars)
      ensures old(pendingVars) != [] ==>
        var last := |old(pendingVars)| - 1;
        r == Pass && pendingVars == old(pendingVars)[last := (old(pendingVars)[last].0, old(pendingVars)[last].1 + 1)]
    {
      if pendingVars == [] {
        return Fail(TypeError);
      }
      var last := |pendingVars| - 1;
      pendingVars := pendingVars[last := (pendingVars[last].0, pendingVars[last].1 + 1)];
      return Pass;
    }

    /** `addPendingVars` (lines 239-250): every buffered name is declared
        in turn with the given type and its dimensions; the first failure
        throws and leaves the buffer as it was, else the buffer is
        emptied. On success the current directory, still current, gains
        exactly the buffered names, all distinct, under the next handles,
        each at the next local address of a value type, and no other
        directory changes. Each new symbol is the one `addVar` builds: not
        a function, not a parameter, with an empty `params` and the member
        map of its type (empty for a generic type; for a class type the
        class's members, which include the names buffered before it when
        that class is the current directory). It succeeds exactly when the
        whole buffer is admissible from the start. No other field
        changes. */
    method AddPendingVars(typeName: Option<string>) returns (r: Outcome)
      requires Valid()
      modifies this, memory
      ensures Valid()
      ensures r.Fail? ==> pendingVars == old(pendingVars)
      ensures r == Pass ==> pendingVars == []
      ensures currentDirectory == old(currentDirectory) && previousDirectoriesStack == old(previousDirectoriesStack)
      ensures constantsDirectory == old(constantsDirectory) && currentType == old(currentType)
      ensures paramPointer == old(paramPointer) && currentVariableStack == old(currentVariableStack)
      ensures isPointPending == old(isPointPending) && pointsAdvanced == old(pointsAdvanced)
      ensures callingFunction == old(callingFunction) && memory.addresses == old(memory.addresses)
      ensures r == Pass && old(pendingVars) == [] ==> records == old(records) && memory.ranges == old(memory.ranges)
      ensures r == Pass && old(pendingVars) != [] ==>
        && currentDirectory.Some?
        && PendingAdded(old(records), records, currentDirectory.value, old(pendingVars), |old(pendingVars)|,
                        typeName, old(memory.ranges))
        && PendingSymbols(old(records), records, currentDirectory.value, previousDirectoriesStack, old(pendingVars),
                          |old(pendingVars)|, typeName, old(memory.ranges))
        && memory.ranges == LocalAdvanced(old(memory.ranges), typeName, |old(pendingVars)|)
      ensures r == Pass <==>
        PendingAdmissible(old(records), old(currentDirectory), old(previousDirectoriesStack), old(memory.ranges),
                          old(pendingVars), |old(pendingVars)|, typeName)
    {
      r := DeclarePending(typeName);
      if r == Pass {
        pendingVars := [];
      }
    }

    /** The `forEach` of `addPendingVars` (lines 240-246): the buffered
        names are declared in order until one fails. It stops either with
        all of them declared as `addPendingVars` promises, or with the
        whole buffer not admissible. */
    method DeclarePending(typeName: Option<string>) returns (r: Outcome)
      requires Valid()
      modifies this`records, this`currentDirectory, this`previousDirectoriesStack, memory
      ensures Valid()
      ensures currentDirectory == old(currentDirectory) && previousDirectoriesStack == old(previousDirectoriesStack)
      ensures memory.addresses == old(memory.addresses)
      ensures r == Pass && pendingVars == [] ==> records == old(records) && memory.ranges == old(memory.ranges)
      ensures r == Pass && pendingVars != [] ==>
        && currentDirectory.Some?
        && PendingAdded(old(records), records, currentDirectory.value, pendingVars, |pendingVars|,
                        typeName, old(memory.ranges))
        && PendingSymbols(old(records), records, currentDirectory.value, previousDirectoriesStack, pendingVars,
                          |pendingVars|, typeName, old(memory.ranges))
        && memory.ranges == LocalAdvanced(old(memory.ranges), typeName, |pendingVars|)
      ensures r == Pass <==>
        PendingAdmissible(old(records), currentDirectory, previousDirectoriesStack, old(memory.ranges),
                          pendingVars, |pendingVars|, typeName)
    {
      ghost var members;
      r, members := DeclareInOrder(typeName);
      LocalAdvancedOneMore(old(memory.ranges), typeName, 0);
      if r == Pass && currentDirectory.Some? {
        ProgressComplete(old(records), members, old(memory.ranges), typeName, pendingVars, records,
                         currentDirectory.value, previousDirectoriesStack, memory.ranges);
      }
    }

    /** The loop of `DeclarePending`: it stops either with every buffered
        name declared, the `k`-th with the member map `members[k]`, or with
        the whole buffer not admissible. */
    method DeclareInOrder(typeName: Option<string>) returns (r: Outcome, ghost members: seq<map<string, nat>>)
      requires Valid()
      modifies this`records, this`currentDirectory, this`previousDirectoriesStack, memory
      ensures Valid()
      ensures currentDirectory == old(currentDirectory) && previousDirectoriesStack == old(previousDirectoriesStack)
      ensures memory.addresses == old(memory.addresses)
      ensures r == Pass ==> PendingProgress(old(records), members, old(memory.ranges), |pendingVars|, typeName)
      ensures r.Fail? ==>
        !PendingAdmissible(old(records), currentDirectory, previousDirectoriesStack, old(memory.ranges),
                           pendingVars, |pendingVars|, typeName)
    {
      ghost var ranges := memory.ranges;
      LocalAdvancedOneMore(ranges, typeName, 0);
      r, members := Pass, [];
      var i := 0;
      while i < |pendingVars|
        invariant 0 <= i <= |pendingVars|
        invariant Valid() && PendingProgress(old(records), members, ranges, i, typeName)
        invariant currentDirectory == old(currentDirectory) && previousDirectoriesStack == old(previousDirectoriesStack)
        invariant memory.addresses == old(memory.addresses)
        invariant r == Pass
      {
        ghost var m;
        r, m := AddPendingAt(old(records), members, ranges, i, typeName);
        if r.Fail? {
          return;
        }
        members := members + [m];
        i := i + 1;
      }
    }

    /** The state `addPendingVars` has reached after its first `i` names,
        as `Progress` describes it for the fields. */
    ghost predicate PendingProgress(start: seq<Symbol>, members: seq<map<string, nat>>,
                                    ranges: map<string, map<string, Range>>, i: nat, typeName: Option<string>)
      reads this, memory
    {
      && i <= |pendingVars|
      && Progress(start, members, ranges, i, typeName, pendingVars, records, currentDirectory,
                  previousDirectoriesStack, memory.ranges)
    }

    /** One turn of the loop of `addPendingVars`: the `i`-th name is
        declared, and either the state advances to `i + 1` names, the new
        one admitted with the member map `m`, or the whole buffer was not
        admissible. */
    method AddPendingAt(ghost start: seq<Symbol>, ghost members: seq<map<string, nat>>,
                        ghost ranges: map<string, map<string, Range>>, i: nat, typeName: Option<string>)
      returns (r: Outcome, ghost m: map<string, nat>)
      requires Valid() && PendingProgress(start, members, ranges, i, typeName) && i < |pendingVars|
      modifies this`records, this`currentDirectory, this`previousDirectoriesStack, memory
      ensures Valid()
      ensures currentDirectory == old(currentDirectory) && previousDirectoriesStack == old(previousDirectoriesStack)
      ensures memory.addresses == old(memory.addresses)
      ensures r.Fail? ==>
        !PendingAdmissible(start, currentDirectory, previousDirectoriesStack, ranges, pendingVars, |pendingVars|, typeName)
      ensures r == Pass ==> PendingProgress(start, members + [m], ranges, i + 1, typeName)
    {
      m := map[];
      if currentDirectory.Some? {
        var admission := Admission(records, currentDirectory.value, previousDirectoriesStack, pendingVars[i].0,
                                   typeName, false);
        if admission.Ok? {
          m := admission.value;
        }
      }
      ghost var before, moved := records, memory.ranges;
      r := AddPendingVar(pendingVars[i], typeName);
      ProgressStep(start, members, ranges, i, typeName, pendingVars, before, currentDirectory,
                   previousDirectoriesStack, moved, records, memory.ranges, r == Pass);
    }

    /** The callback of the `forEach` in `addPendingVars` (lines 240-246):
        a plain declaration of one buffered name. On success the name was
        new to the current directory and is now bound there to the next
        handle, whose symbol has the given type, the entry's dimensions and
        the next local address of a value type; no other symbol changes.
        A failure leaves every symbol as it was. No other field changes. */
    method AddPendingVar(entry: (string, nat), typeName: Option<string>) returns (r: Outcome)
      requires Valid()
      modifies this`records, this`currentDirectory, this`previousDirectoriesStack, memory
      ensures Valid()
      ensures currentDirectory == old(currentDirectory) && previousDirectoriesStack == old(previousDirectoriesStack)
      ensures memory.addresses == old(memory.addresses)
      ensures r.Fail? ==> records == old(records)
      ensures r == Pass <==>
        && old(currentDirectory).Some?
        && Admission(old(records), old(currentDirectory).value, old(previousDirectoriesStack), entry.0, typeName, false).Ok?
        && Allocation(old(memory.ranges), typeName, false).1.Ok?
      ensures r == Pass ==>
        && old(currentDirectory).Some?
        && var c := old(currentDirectory).value;
        && var h := |old(records)|;
        && entry.0 !in old(records)[c].vars
        && |records| == h + 1
        && records[c] == old(records)[c].(vars := old(records)[c].vars[entry.0 := h])
        && (forall d | 0 <= d < h && d != c :: records[d] == old(records)[d])
        && records[h].name == Some(entry.0) && records[h].typeName == typeName
        && records[h].dimensions == entry.1 && !records[h].isFunction
        && records[h].address == LocalAddress(old(memory.ranges), typeName, 0)
        && memory.ranges == LocalAdvanced(old(memory.ranges), typeName, 1)
        && var admission := Admission(old(records), c, old(previousDirectoriesStack), entry.0, typeName, false);
        && records == Declare(old(records), c, entry.0,
                              NewSymbol(entry.0, typeName, false, entry.1, admission.value,
                                        LocalAddress(old(memory.ranges), typeName, 0), false, 0, 0))
    {
      r := AddVar(entry.0, typeName, false, false, entry.1, false);
    }

    /** `getCurrentVariable` (lines 329-330): the top of the stack. */
    function GetCurrentVariable(): Option<(nat, nat)>
      reads this
    {
      if currentVariableStack == [] then None else Some(currentVariableStack[|currentVariableStack| - 1])
    }

    /** `validateCurrentVariable` (lines 267-288). */
    method ValidateCurrentVariable(id: string) returns (r: Result<nat>)
      requires Valid()
      ensures r == VariableCheck(records, currentDirectory, previousDirectoriesStack, isPointPending,
                                 currentVariableStack, id)
    {
      if !isPointPending {
        r := ValidateId(id, None, false);
        return;
      }
      var current := GetCurrentVariable();
      if current.None? {
        return Err(TypeError);
      }
      var members := records[current.value.0].vars;
      if id !in members {
        return Err(UndeclaredMember);
      }
      return Ok(members[id]);
    }

    /** `setCurrentVariable` (lines 297-324): a found variable is pushed
        with no dimensions to check; after a point it replaces the top,
        keeping the top's count, unless the top is a function. The point
        flag is cleared unless something threw. */
    method SetCurrentVariable(id: string) returns (r: Outcome)
      requires Valid()
      modifies this`currentVariableStack, this`isPointPending
      ensures Valid()
      ensures
        var found := VariableCheck(old(records), currentDirectory, previousDirectoriesStack, old(isPointPending),
                                   old(currentVariableStack), id);
        && (found.Err? ==>
              r == Fail(found.error) && currentVariableStack == old(currentVariableStack)
              && isPointPending == old(isPointPending))
        && (found.Ok? && !old(isPointPending) ==>
              r == Pass && currentVariableStack == old(currentVariableStack) + [(found.value, 0)] && !isPointPending)
        && (found.Ok? && old(isPointPending) ==>
              var last := |old(currentVariableStack)| - 1;
              var top := old(currentVariableStack)[last];
              if records[top.0].isFunction then
                r == Fail(MemberOfFunction) && currentVariableStack == old(currentVariableStack) && isPointPending
              else
                r == Pass && currentVariableStack == old(currentVariableStack)[last := (found.value, top.1)]
                && !isPointPending)
    {
      var variable := ValidateCurrentVariable(id);
      if variable.Err? {
        return Fail(variable.error);
      }
      if !isPointPending {
        currentVariableStack := currentVariableStack + [(variable.value, 0)];
      } else {
        var top := currentVariableStack[|currentVariableStack| - 1];
        if records[top.0].isFunction {
          return Fail(MemberOfFunction);
        }
        currentVariableStack := currentVariableStack[|currentVariableStack| - 1 := (variable.value, top.1)];
      }
      isPointPending := false;
      return Pass;
    }

    /** `searchForSubvariable` (lines 336-339). */
    method SearchForSubvariable()
      modifies this`isPointPending, this`pointsAdvanced
      ensures isPointPending && pointsAdvanced == old(pointsAdvanced) + 1
    {
      isPointPending := true;
      pointsAdvanced := pointsAdvanced + 1;
    }

    /** `addDimensionToCheck` (lines 345-347): the top variable's count
        grows by one; an empty stack throws. */
    method AddDimensionToCheck() returns (r: Outcome)
      modifies this`currentVariableStack
      ensures old(currentVariableStack) == [] ==> r == Fail(TypeError) && currentVariableStack == []
      ensures old(currentVariableStack) != [] ==>
        var last := |old(currentVariableStack)| - 1;
        var top := old(currentVariableStack)[last];
        r == Pass && currentVariableStack == old(currentVariableStack)[last := (top.0, top.1 + 1)]
    {
      if currentVariableStack == [] {
        return Fail(TypeError);
      }
      var last := |currentVariableStack| - 1;
      currentVariableStack := currentVariableStack[last := (currentVariableStack[last].0, currentVariableStack[last].1 + 1)];
      return Pass;
    }

    /** `validateCurrentVariableFunction` (lines 214-223): passes exactly
        when the top variable is a function as expected. An empty stack
        throws a TypeError; a mismatch throws while building its message,
        which names an undeclared `id` (a ReferenceError). */
    function ValidateCurrentVariableFunction(isFunction: bool): (r: Outcome)
      requires Valid()
      reads this, memory
      ensures r == Pass <==>
        currentVariableStack != [] && records[currentVariableStack[|currentVariableStack| - 1].0].isFunction == isFunction
      ensures r != Pass ==> r == if currentVariableStack == [] then Fail(TypeError) else Fail(ReferenceError)
    {
      if currentVariableStack == [] then Fail(TypeError)
      else if records[currentVariableStack[|currentVariableStack| - 1].0].isFunction != isFunction then Fail(ReferenceError)
      else Pass
    }

    /** `validateParam` (lines 370-398) for a call of `callee` whose
        latest argument has type `argumentType`: the callee must resolve
        from the current directory and have a parameter at `paramPointer`
        of the argument's type; then the pointer moves to the next one. */
    method ValidateParam(callee: string, argumentType: Option<string>) returns (r: Outcome)
      requires Valid()
      modifies this`paramPointer
      ensures
        var found := if currentDirectory.Some? then Find(records, ScopeChain(currentDirectory, previousDirectoriesStack), callee) else None;
        && (found.None? ==> r == Fail(TypeError))
        && (found.Some? ==>
              && found.value < |records|
              && var params := records[found.value].params;
              && (params.None? ==> r == Fail(TypeError))
              && (params.Some? && old(paramPointer) >= |params.value| ==> r == Fail(TooManyArguments))
              && (params.Some? && old(paramPointer) < |params.value| ==>
                    && params.value[old(paramPointer)] < |records|
                    && (if argumentType != records[params.value[old(paramPointer)]].typeName
                        then r == Fail(ArgumentTypeMismatch) else r == Pass)))
      ensures r == Pass <==> paramPointer == old(paramPointer) + 1
      ensures r != Pass ==> paramPointer == old(paramPointer)
    {
      if currentDirectory.None? {
        return Fail(TypeError);
      }
      var directory := CheckOnPreviousScope(currentDirectory, callee);
      if directory.None? {
        return Fail(TypeError);
      }
      var params := records[directory.value].params;
      if params.None? {
        return Fail(TypeError);
      }
      if paramPointer >= |params.value| {
        return Fail(TooManyArguments);
      }
      assert Closed(records[directory.value], |records|);
      var param := params.value[paramPointer];
      if argumentType != records[param].typeName {
        return Fail(ArgumentTypeMismatch);
      }
      paramPointer := paramPointer + 1;
      return Pass;
    }

    /** `resetParamPointer` (lines 414-426): a call may end only once all
        the current directory's parameters were passed; then the pointer
        goes back to 0. An undefined directory or `main`, which has no
        `params`, throws. */
    method ResetParamPointer() returns (r: Outcome)
      requires Valid()
      modifies this`paramPointer
      ensures currentDirectory.None? || records[currentDirectory.value].params.None? ==>
        r == Fail(TypeError) && paramPointer == old(paramPointer)
      ensures currentDirectory.Some? && records[currentDirectory.value].params.Some? ==>
        var expected := |records[currentDirectory.value].params.value|;
        && (old(paramPointer) < expected ==> r == Fail(TooFewArguments) && paramPointer == old(paramPointer))
        && (old(paramPointer) >= expected ==> r == Pass && paramPointer == 0)
    {
      if currentDirectory.None? || records[currentDirectory.value].params.None? {
        return Fail(TypeError);
      }
      if paramPointer < |records[currentDirectory.value].params.value| {
        return Fail(TooFewArguments);
      }
      paramPointer := 0;
      return Pass;
    }

    /** `setConstant` (lines 433-442): a value seen before reuses its
        address (unless it is the falsy 0); otherwise the next global
        address of the type is taken. The value is then recorded under its
        address, in both directions. */
    method SetConstant(value: string, typeName: string) returns (r: Result<int>)
      requires Valid()
      modifies this`constantsDirectory, memory
      ensures Valid()
      ensures value in old(constantsDirectory) && old(constantsDirectory)[value] != 0 ==>
        && r == Ok(old(constantsDirectory)[value]) && memory.ranges == old(memory.ranges)
        && constantsDirectory == old(constantsDirectory)
      ensures !(value in old(constantsDirectory) && old(constantsDirectory)[value] != 0) ==>
        if "global" in old(memory.ranges) && typeName in old(memory.ranges)["global"] then
          var (moved, res) := Bump(old(memory.ranges)["global"][typeName], 1);
          memory.ranges == old(memory.ranges)["global" := old(memory.ranges)["global"][typeName := moved]] &&
          r == res
        else r == Err(TypeError) && memory.ranges == old(memory.ranges)
      ensures r.Err? ==> constantsDirectory == old(constantsDirectory) && memory.addresses == old(memory.addresses)
      ensures r.Ok? ==>
        && constantsDirectory == old(constantsDirectory)[value := r.value]
        && memory.addresses == old(memory.addresses)[r.value := value]
    {
      var address: int;
      if value in constantsDirectory && constantsDirectory[value] != 0 {
        address := constantsDirectory[value];
      } else {
        var slot := memory.GetAddress(typeName, "global", 1);
        if slot.Err? {
          return Err(slot.error);
        }
        address := slot.value;
      }
      constantsDirectory := constantsDirectory[value := address];
      memory.addresses := memory.addresses[address := value];
      return Ok(address);
    }
  }
}
