/** The earlier symbol table of utils/semantics.js. Directories form a
    tree entered and left through a stack, and one directory may be made
    the global one, once. A lookup searches the current directory and then
    the global directory, and no other. As in `ScopeModel`, the directory
    objects live in an arena and are referred to by handles. */
module LegacyScopeModel {
  import opened Outcomes
  import ScopeModel

  /** A directory object: `main` or the symbol `addVar` builds
      (lines 58-65), always with an empty member map of its own. */
  datatype Entry = Entry(
    name: Option<string>,
    typeName: Option<string>,
    isFunction: bool,
    dimensions: nat,
    vars: map<string, nat>)

  /** `this.main = { varsDirectory: {} }`. */
  const LegacyMain: Entry := Entry(None, None, false, 0, map[])

  /** The values of `this.genericTypes` (lines 7-14): there is no
      "boolean", so a boolean declaration goes through the class check. */
  const GenericTypeNames: set<string> := {"program", "class", "int", "float", "char", "void"}

  /** `validateGenericType` (lines 91-92): strict equality with one of
      the generic type names. */
  predicate ValidateGenericType(t: Option<string>) {
    t.Some? && t.value in GenericTypeNames
  }

  predicate Closed(e: Entry, n: nat) {
    forall id | id in e.vars :: e.vars[id] < n
  }

  predicate Arena(records: seq<Entry>) {
    forall d | 0 <= d < |records| :: Closed(records[d], |records|)
  }

  /** `validateId` (lines 117-145): the entry of `id` in the current
      directory, else in the global directory (a TypeError while there is
      none), else an undeclared identifier. A type other than a truthy
      `expectedType` throws while building the message, whose `lithis`
      is undeclared (a ReferenceError). */
  function ValidateId(records: seq<Entry>, current: Option<nat>, global: Option<nat>, id: string,
                      expectedType: Option<string>): (r: Result<nat>)
    requires Arena(records) && ScopeModel.InArena(current, |records|) && ScopeModel.InArena(global, |records|)
    ensures r.Ok? ==> r.value < |records|
  {
    if current.None? then Err(TypeError)
    else
      var here := records[current.value].vars;
      assert Closed(records[current.value], |records|);
      var found :=
        if id in here then Ok(here[id])
        else if global.None? then Err(TypeError)
        else if id in records[global.value].vars then
          assert Closed(records[global.value], |records|);
          Ok(records[global.value].vars[id])
        else Err(UndeclaredIdentifier);
      if found.Err? then found
      else if ScopeModel.Truthy(expectedType) && records[found.value].typeName != expectedType then Err(ReferenceError)
      else found
  }

  /** `validateId` finds an identifier in exactly two places: the current
      directory, which wins, and the global directory. It reports it
      undeclared exactly when both exist and neither declares it. */
  lemma ValidateIdSearchesTwoScopes(records: seq<Entry>, current: Option<nat>, global: Option<nat>, id: string,
                                    expectedType: Option<string>, h: nat)
    requires Arena(records) && ScopeModel.InArena(current, |records|) && ScopeModel.InArena(global, |records|)
    ensures ValidateId(records, current, global, id, expectedType) == Ok(h) <==>
      && current.Some?
      && (if id in records[current.value].vars then h == records[current.value].vars[id]
          else global.Some? && id in records[global.value].vars && h == records[global.value].vars[id])
      && (ScopeModel.Truthy(expectedType) ==> records[h].typeName == expectedType)
    ensures ValidateId(records, current, global, id, expectedType) == Err(UndeclaredIdentifier) <==>
      current.Some? && id !in records[current.value].vars && global.Some? && id !in records[global.value].vars
  {
  }

  /** The checks of `addVar` before anything changes (lines 43-56): a
      type that is not generic must pass `validateId` as a class, then the
      identifier must be new to the current directory `c`. */
  function Admission(records: seq<Entry>, c: nat, global: Option<nat>, id: string, typeName: Option<string>): Outcome
    requires Arena(records) && c < |records| && ScopeModel.InArena(global, |records|)
  {
    var classCheck :=
      if ValidateGenericType(typeName) then Pass
      else match ValidateId(records, Some(c), global, ScopeModel.TypeKey(typeName), Some("class"))
        case Err(e) => Fail(e)
        case Ok(_) => Pass;
    if classCheck.Fail? then classCheck
    else if id in records[c].vars then Fail(DuplicateDeclaration)
    else Pass
  }

  /** An admitted identifier is new to its directory, and a type outside
      the generic names is a declared class visible from it. */
  lemma AdmissionMeaning(records: seq<Entry>, c: nat, global: Option<nat>, id: string, typeName: Option<string>)
    requires Arena(records) && c < |records| && ScopeModel.InArena(global, |records|)
    ensures Admission(records, c, global, id, typeName) == Pass ==>
      && id !in records[c].vars
      && (!ValidateGenericType(typeName) ==>
            ValidateId(records, Some(c), global, ScopeModel.TypeKey(typeName), Some("class")).Ok?
            && records[ValidateId(records, Some(c), global, ScopeModel.TypeKey(typeName), Some("class")).value].typeName
               == Some("class"))
    ensures ValidateGenericType(typeName) && id in records[c].vars ==>
      Admission(records, c, global, id, typeName) == Fail(DuplicateDeclaration)
  {
  }

  /** The arena after entry `e` is stored under `id` in directory `c`. */
  function Declare(records: seq<Entry>, c: nat, id: string, e: Entry): seq<Entry>
    requires c < |records|
  {
    records[c := records[c].(vars := records[c].vars[id := |records|])] + [e]
  }

  lemma DeclareArena(records: seq<Entry>, c: nat, id: string, e: Entry)
    requires Arena(records) && c < |records| && Closed(e, |records| + 1)
    ensures Arena(Declare(records, c, id, e))
  {
    var d := Declare(records, c, id, e);
    forall j | 0 <= j < |d| ensures Closed(d[j], |d|) {
      if j < |records| {
        assert Closed(records[j], |records|);
      }
    }
  }

  /** The first `n` buffered names are declared in directory `c` with
      the given type and their dimensions, under distinct names and
      handles from `start` on. */
  predicate DeclaredSoFar(records: seq<Entry>, c: nat, entries: seq<(string, nat)>, n: nat,
                          typeName: Option<string>, start: nat)
    requires n <= |entries| && c < |records|
  {
    && (forall k | 0 <= k < n ::
          && entries[k].0 in records[c].vars
          && start <= records[c].vars[entries[k].0] < |records|
          && records[records[c].vars[entries[k].0]] == Entry(Some(entries[k].0), typeName, false, entries[k].1, map[]))
    && (forall j, k | 0 <= j < k < n :: entries[j].0 != entries[k].0)
  }

  /** Declaring the next buffered name, new to `c`, keeps the earlier
      ones declared as they were. */
  lemma DeclaredOneMore(records: seq<Entry>, c: nat, entries: seq<(string, nat)>, i: nat,
                        typeName: Option<string>, start: nat)
    requires i < |entries| && c < start <= |records|
    requires DeclaredSoFar(records, c, entries, i, typeName, start)
    requires entries[i].0 !in records[c].vars
    ensures DeclaredSoFar(Declare(records, c, entries[i].0, Entry(Some(entries[i].0), typeName, false, entries[i].1, map[])),
                          c, entries, i + 1, typeName, start)
  {
    var after := Declare(records, c, entries[i].0, Entry(Some(entries[i].0), typeName, false, entries[i].1, map[]));
    forall k | 0 <= k < i
      ensures after[c].vars[entries[k].0] == records[c].vars[entries[k].0]
      ensures after[records[c].vars[entries[k].0]] == records[records[c].vars[entries[k].0]]
    {
    }
  }

  /** Directory `c` of the arena `before` has gained exactly the first
      `n` buffered names, as `DeclaredSoFar` describes them, and no other
      directory of `before` has changed. */
  predicate PendingAdded(before: seq<Entry>, records: seq<Entry>, c: nat, entries: seq<(string, nat)>, n: nat,
                         typeName: Option<string>)
    requires n <= |entries|
  {
    && c < |before| && |records| == |before| + n
    && records[c] == before[c].(vars := before[c].vars + ScopeModel.PendingHandles(entries, n, |before|))
    && (forall d | 0 <= d < |before| && d != c :: records[d] == before[d])
    && DeclaredSoFar(records, c, entries, n, typeName, |before|)
  }

  /** Nothing is added before the first name. */
  lemma PendingAddedNone(records: seq<Entry>, c: nat, entries: seq<(string, nat)>, typeName: Option<string>)
    requires c < |records|
    ensures PendingAdded(records, records, c, entries, 0, typeName)
  {
    assert records[c].vars + map[] == records[c].vars;
  }

  /** Declaring the next buffered name, new to `c`, adds it to what was
      added. */
  lemma PendingAddedOneMore(start: seq<Entry>, before: seq<Entry>, c: nat, entries: seq<(string, nat)>, i: nat,
                            typeName: Option<string>)
    requires i < |entries|
    requires PendingAdded(start, before, c, entries, i, typeName)
    requires entries[i].0 !in before[c].vars
    ensures PendingAdded(start, Declare(before, c, entries[i].0, Entry(Some(entries[i].0), typeName, false, entries[i].1, map[])),
                         c, entries, i + 1, typeName)
  {
    assert start[c].vars + ScopeModel.PendingHandles(entries, i + 1, |start|)
        == (start[c].vars + ScopeModel.PendingHandles(entries, i, |start|))[entries[i].0 := |before|];
    DeclaredOneMore(before, c, entries, i, typeName, |start|);
  }

  /** The records after `addVar` has declared the first `n` buffered
      names, one after the other, in directory `c` of `start`. */
  function PendingRecords(start: seq<Entry>, c: nat, entries: seq<(string, nat)>, n: nat,
                          typeName: Option<string>): (records: seq<Entry>)
    requires c < |start| && n <= |entries|
    ensures |records| == |start| + n
  {
    if n == 0 then start
    else
      var e := entries[n - 1];
      Declare(PendingRecords(start, c, entries, n - 1, typeName), c, e.0, Entry(Some(e.0), typeName, false, e.1, map[]))
  }

  /** Declaring buffered names that are distinct and new to `c` adds
      exactly them, each under its own handle. */
  lemma {:induction false} PendingRecordsAdded(start: seq<Entry>, c: nat, entries: seq<(string, nat)>, n: nat,
                                               typeName: Option<string>)
    requires c < |start| && n <= |entries|
    requires forall j, k | 0 <= j < k < n :: entries[j].0 != entries[k].0
    requires forall k | 0 <= k < n :: entries[k].0 !in start[c].vars
    ensures PendingAdded(start, PendingRecords(start, c, entries, n, typeName), c, entries, n, typeName)
  {
    if n == 0 {
      PendingAddedNone(start, c, entries, typeName);
    } else {
      var before := PendingRecords(start, c, entries, n - 1, typeName);
      PendingRecordsAdded(start, c, entries, n - 1, typeName);
      ScopeModel.PendingHandlesKeys(entries, n - 1, |start|, entries[n - 1].0);
      assert entries[n - 1].0 !in before[c].vars;
      PendingAddedOneMore(start, before, c, entries, n - 1, typeName);
    }
  }

  /** The class check of `addVar` (lines 43-49): a type outside the
      generic names must be found, by `validateId`, as a "class". */
  predicate ClassCheck(records: seq<Entry>, c: nat, global: Option<nat>, typeName: Option<string>)
    requires Arena(records) && c < |records| && ScopeModel.InArena(global, |records|)
  {
    ValidateGenericType(typeName) || ValidateId(records, Some(c), global, ScopeModel.TypeKey(typeName), Some("class")).Ok?
  }

  /** The first `n` buffered names can all be declared in turn: the
      directory is defined, the names are distinct and new to it, the
      type passes the class check, and no name but the last shadows the
      type, whose later class checks would find that variable. */
  predicate PendingAdmissible(records: seq<Entry>, current: Option<nat>, global: Option<nat>,
                              entries: seq<(string, nat)>, n: nat, typeName: Option<string>)
    requires Arena(records) && ScopeModel.InArena(global, |records|) && n <= |entries|
  {
    n > 0 ==>
      && current.Some? && current.value < |records|
      && (forall j, k | 0 <= j < k < n :: entries[j].0 != entries[k].0)
      && (forall k | 0 <= k < n :: entries[k].0 !in records[current.value].vars)
      && ClassCheck(records, current.value, global, typeName)
      && (!ValidateGenericType(typeName) ==>
            forall k | 0 <= k < n - 1 :: entries[k].0 != ScopeModel.TypeKey(typeName))
  }

  /** A buffered name equal to the type's name, once added, is what the
      class check finds first, and it is a variable, not a class. */
  lemma ClassCheckShadowed(start: seq<Entry>, records: seq<Entry>, c: nat, global: Option<nat>,
                           entries: seq<(string, nat)>, i: nat, typeName: Option<string>, k: nat)
    requires i <= |entries| && Arena(start) && Arena(records) && ScopeModel.InArena(global, |start|)
    requires PendingAdded(start, records, c, entries, i, typeName)
    requires !ValidateGenericType(typeName) && k < i && entries[k].0 == ScopeModel.TypeKey(typeName)
    ensures !ClassCheck(records, c, global, typeName)
  {
    var x := ScopeModel.TypeKey(typeName);
    assert records[records[c].vars[x]].typeName == typeName;
  }

  /** When no added name is the type's name, the class check finds what
      it found before, in the current or in the global directory. */
  lemma ClassCheckUnshadowed(start: seq<Entry>, records: seq<Entry>, c: nat, global: Option<nat>,
                             entries: seq<(string, nat)>, i: nat, typeName: Option<string>)
    requires i <= |entries| && Arena(start) && Arena(records) && ScopeModel.InArena(global, |start|)
    requires PendingAdded(start, records, c, entries, i, typeName)
    requires ScopeModel.TypeKey(typeName) !in ScopeModel.PendingHandles(entries, i, |start|)
    ensures ClassCheck(records, c, global, typeName) == ClassCheck(start, c, global, typeName)
  {
    var x := ScopeModel.TypeKey(typeName);
    assert x in records[c].vars <==> x in start[c].vars;
    assert Closed(start[c], |start|);
    if x in start[c].vars {
      assert records[c].vars[x] == start[c].vars[x];
      assert records[records[c].vars[x]].typeName == start[start[c].vars[x]].typeName;
    } else if global.Some? {
      assert Closed(start[global.value], |start|);
      assert x in records[global.value].vars <==> x in start[global.value].vars;
      if x in start[global.value].vars {
        assert records[global.value].vars[x] == start[global.value].vars[x];
        assert records[records[global.value].vars[x]].typeName == start[start[global.value].vars[x]].typeName;
      }
    }
  }

  /** After the first `i` names are added, the class check fails if one
      of them is the type's name (a variable, not a class), and otherwise
      decides as it did before. */
  lemma ClassCheckAfterPending(start: seq<Entry>, records: seq<Entry>, c: nat, global: Option<nat>,
                               entries: seq<(string, nat)>, i: nat, typeName: Option<string>)
    requires i <= |entries| && Arena(start) && Arena(records) && ScopeModel.InArena(global, |start|)
    requires PendingAdded(start, records, c, entries, i, typeName)
    ensures ClassCheck(records, c, global, typeName) <==>
      && ClassCheck(start, c, global, typeName)
      && (!ValidateGenericType(typeName) ==> forall k | 0 <= k < i :: entries[k].0 != ScopeModel.TypeKey(typeName))
  {
    if !ValidateGenericType(typeName) {
      var x := ScopeModel.TypeKey(typeName);
      ScopeModel.PendingHandlesKeys(entries, i, |start|, x);
      if k :| 0 <= k < i && entries[k].0 == x {
        ClassCheckShadowed(start, records, c, global, entries, i, typeName, k);
      } else {
        ClassCheckUnshadowed(start, records, c, global, entries, i, typeName);
      }
    }
  }

  /** Once the first `i` names are added, the next one is admitted
      exactly when the first `i + 1` are admissible. */
  lemma PendingAdmissibleOneMore(start: seq<Entry>, records: seq<Entry>, c: nat, global: Option<nat>,
                                 entries: seq<(string, nat)>, i: nat, typeName: Option<string>)
    requires i < |entries| && Arena(start) && Arena(records) && ScopeModel.InArena(global, |start|)
    requires PendingAdded(start, records, c, entries, i, typeName)
    requires PendingAdmissible(start, Some(c), global, entries, i, typeName)
    ensures PendingAdmissible(start, Some(c), global, entries, i + 1, typeName) <==>
      Admission(records, c, global, entries[i].0, typeName) == Pass
  {
    ClassCheckAfterPending(start, records, c, global, entries, i, typeName);
    ScopeModel.PendingHandlesKeys(entries, i, |start|, entries[i].0);
  }

  /** `class Semantics` of utils/semantics.js (lines 3-206). */
  class LegacySemantics {
    var records: seq<Entry>
    var currentDirectory: Option<nat>
    var currentType: Option<string>
    var pendingVars: seq<(string, nat)>
    var globalDirectory: Option<nat>
    var prevDirectories: seq<Option<nat>>

    ghost predicate Valid()
      reads this
    {
      && Arena(records)
      && ScopeModel.InArena(currentDirectory, |records|)
      && ScopeModel.InArena(globalDirectory, |records|)
      && (forall k | 0 <= k < |prevDirectories| :: ScopeModel.InArena(prevDirectories[k], |records|))
    }

    /** The constructor (lines 4-24). */
    constructor()
      ensures Valid()
      ensures records == [LegacyMain] && currentDirectory == Some(0) && currentType == None
      ensures pendingVars == [] && globalDirectory == None && prevDirectories == []
    {
      records := [LegacyMain];
      currentDirectory := Some(0);
      currentType := None;
      pendingVars := [];
      globalDirectory := None;
      prevDirectories := [];
    }

    /** `addVar` (lines 35-77). An undefined current directory or a failed
        admission throws before anything changes. Otherwise a symbol with
        an empty member map is stored under `id`, its scope is entered with
        `addNextLevel`, and with `isGlobal` the directory now current
        becomes the global one, unless there already is one (which throws,
        the symbol staying declared). The global directory, once set, never
        changes. */
    method AddVar(id: string, typeName: Option<string>, isFunction: bool, addNextLevel: bool,
                  isGlobal: bool, dimensions: nat) returns (r: Outcome)
      requires Valid()
      modifies this
      ensures Valid()
      ensures currentType == old(currentType) && pendingVars == old(pendingVars)
      ensures old(globalDirectory).Some? ==> globalDirectory == old(globalDirectory)
      ensures old(currentDirectory).None? ==>
        && r == Fail(TypeError) && records == old(records)
        && currentDirectory == old(currentDirectory) && prevDirectories == old(prevDirectories)
        && globalDirectory == old(globalDirectory)
      ensures old(currentDirectory).Some? ==>
        var c := old(currentDirectory).value;
        var admission := Admission(old(records), c, old(globalDirectory), id, typeName);
        && (admission.Fail? ==>
              && r == admission && records == old(records) && currentDirectory == old(currentDirectory)
              && prevDirectories == old(prevDirectories) && globalDirectory == old(globalDirectory))
        && (admission == Pass ==>
              var h := |old(records)|;
              && records == Declare(old(records), c, id, Entry(Some(id), typeName, isFunction, dimensions, map[]))
              && (addNextLevel ==> currentDirectory == Some(h) && prevDirectories == old(prevDirectories) + [Some(c)])
              && (!addNextLevel ==> currentDirectory == old(currentDirectory) && prevDirectories == old(prevDirectories))
              && (!isGlobal ==> r == Pass && globalDirectory == old(globalDirectory))
              && (isGlobal && old(globalDirectory).Some? ==> r == Fail(GlobalDirectoryTwice))
              && (isGlobal && old(globalDirectory).None? ==> r == Pass && globalDirectory == currentDirectory))
    {
      if currentDirectory.None? {
        return Fail(TypeError);
      }
      var c := currentDirectory.value;
      if !ValidateGenericType(typeName) {
        var classCheck := ValidateId(records, currentDirectory, globalDirectory, ScopeModel.TypeKey(typeName), Some("class"));
        if classCheck.Err? {
          return Fail(classCheck.error);
        }
      }
      if id in records[c].vars {
        return Fail(DuplicateDeclaration);
      }
      var h := |records|;
      DeclareArena(records, c, id, Entry(Some(id), typeName, isFunction, dimensions, map[]));
      records := Declare(records, c, id, Entry(Some(id), typeName, isFunction, dimensions, map[]));
      if addNextLevel {
        prevDirectories := prevDirectories + [currentDirectory];
        currentDirectory := Some(h);
      }
      if isGlobal {
        if globalDirectory.Some? {
          return Fail(GlobalDirectoryTwice);
        }
        globalDirectory := currentDirectory;
      }
      return Pass;
    }

    /** `addFunction` (lines 99-107): `addVar` of `id` with the current
        type as a function, entered, not global. It throws as `addVar`
        does; on success `id` is bound in the directory that was current
        to a new function entry, which becomes the current directory, and
        `currentType` is reset. The global directory does not change. */
    method AddFunction(id: string) returns (r: Outcome)
      requires Valid()
      modifies this
      ensures Valid()
      ensures pendingVars == old(pendingVars) && globalDirectory == old(globalDirectory)
      ensures r == Pass ==> currentType == None
      ensures r != Pass ==> currentType == old(currentType)
      ensures old(currentDirectory).None? ==>
        && r == Fail(TypeError) && records == old(records)
        && currentDirectory == old(currentDirectory) && prevDirectories == old(prevDirectories)
      ensures old(currentDirectory).Some? ==>
        var c := old(currentDirectory).value;
        var admission := Admission(old(records), c, old(globalDirectory), id, old(currentType));
        && (admission.Fail? ==>
              && r == admission && records == old(records)
              && currentDirectory == old(currentDirectory) && prevDirectories == old(prevDirectories))
        && (admission == Pass ==>
              && r == Pass
              && records == Declare(old(records), c, id, Entry(Some(id), old(currentType), true, 0, map[]))
              && currentDirectory == Some(|old(records)|) && prevDirectories == old(prevDirectories) + [Some(c)])
      ensures r == Pass ==>
        && old(currentDirectory).Some?
        && var c := old(currentDirectory).value;
        && var h := |old(records)|;
        && id !in old(records)[c].vars
        && |records| == h + 1 && records[c].vars == old(records)[c].vars[id := h]
        && (forall d | 0 <= d < h && d != c :: records[d] == old(records)[d])
        && records[h] == Entry(Some(id), old(currentType), true, 0, map[])
        && currentDirectory == Some(h) && prevDirectories == old(prevDirectories) + [old(currentDirectory)]
    {
      r := AddVar(id, currentType, true, true, false, 0);
      if r == Pass {
        currentType := None;
      }
    }

    /** `pushToPendingVars` (lines 152-154). */
    method PushToPendingVars(name: string)
      modifies this`pendingVars
      ensures pendingVars == old(pendingVars) + [(name, 0)]
    {
      pendingVars := pendingVars + [(name, 0)];
    }

    /** `addDimensionToLastPendingVar` (lines 82-84); an empty buffer
        throws. */
    method AddDimensionToLastPendingVar() returns (r: Outcome)
      modifies this`pendingVars
      ensures old(pendingVars) == [] ==> r == Fail(TypeError) && pendingVars == old(pendingVars)
      ensures old(pendingVars) != [] ==>
        var last := |old(pendingVars)| - 1;
        r == Pass && pendingVars == old(pendingVars)[last := (old(pendingVars)[last].0, old(pendingVars)[last].1 + 1)]
    {
      if pendingVars == [] {
        return Fail(TypeError);
      }
      var last := |pendingVars| - 1;
      pendingVars := pendingVars[last := (pendingVars[last].0, pendingVars[last].1 + 1)];
      return Pass;
    }

    /** `addPendingVars` (lines 161-172): each buffered name is declared
        with the type and its dimensions; the first failure throws with the
        buffer kept, else the buffer is emptied. On success the current
        directory, still current, gains exactly the buffered names, all
        distinct, under the next handles, and no other directory changes.
        The type and the global directory do not change. */
    method AddPendingVars(typeName: Option<string>) returns (r: Outcome)
      requires Valid()
      modifies this
      ensures Valid()
      ensures r.Fail? ==> pendingVars == old(pendingVars)
      ensures r == Pass ==> pendingVars == []
      ensures currentDirectory == old(currentDirectory) && prevDirectories == old(prevDirectories)
      ensures currentType == old(currentType) && globalDirectory == old(globalDirectory)
      ensures r == Pass && old(pendingVars) == [] ==> records == old(records)
      ensures r == Pass && old(pendingVars) != [] ==>
        && currentDirectory.Some?
        && PendingAdded(old(records), records, currentDirectory.value, old(pendingVars), |old(pendingVars)|, typeName)
      ensures r == Pass <==>
        PendingAdmissible(old(records), old(currentDirectory), old(globalDirectory), old(pendingVars), |old(pendingVars)|, typeName)
    {
      r := DeclarePending(typeName);
      if r.Fail? {
        return;
      }
      if currentDirectory.Some? {
        PendingRecordsAdded(old(records), currentDirectory.value, pendingVars, |pendingVars|, typeName);
      }
      pendingVars := [];
    }

    /** The `forEach` of `addPendingVars` (lines 162-170): the buffered
        names are declared in order until one fails. It stops either with
        all of them declared or with the whole buffer not admissible. */
    method DeclarePending(typeName: Option<string>) returns (r: Outcome)
      requires Valid()
      modifies this
      ensures Valid()
      ensures pendingVars == old(pendingVars)
      ensures currentDirectory == old(currentDirectory) && prevDirectories == old(prevDirectories)
      ensures currentType == old(currentType) && globalDirectory == old(globalDirectory)
      ensures r == Pass ==> PendingProgress(old(records), |pendingVars|, typeName)
      ensures r.Fail? ==>
        !PendingAdmissible(old(records), currentDirectory, globalDirectory, pendingVars, |pendingVars|, typeName)
    {
      r := Pass;
      var i := 0;
      while i < |pendingVars|
        invariant 0 <= i <= |pendingVars|
        invariant Valid() && PendingProgress(old(records), i, typeName)
        invariant pendingVars == old(pendingVars)
        invariant currentDirectory == old(currentDirectory) && prevDirectories == old(prevDirectories)
        invariant currentType == old(currentType) && globalDirectory == old(globalDirectory)
        invariant r == Pass
      {
        r := AddPendingAt(old(records), i, typeName);
        if r.Fail? {
          return;
        }
        i := i + 1;
      }
    }

    /** The state `addPendingVars` has reached after its first `i` names,
        from the records `start` it began with. */
    ghost predicate PendingProgress(start: seq<Entry>, i: nat, typeName: Option<string>)
      reads this
    {
      && i <= |pendingVars| && Arena(start) && ScopeModel.InArena(globalDirectory, |start|)
      && (currentDirectory.None? ==> i == 0 && records == start)
      && (currentDirectory.Some? ==>
            currentDirectory.value < |start| && records == PendingRecords(start, currentDirectory.value, pendingVars, i, typeName))
      && PendingAdmissible(start, currentDirectory, globalDirectory, pendingVars, i, typeName)
    }

    /** One turn of the loop of `addPendingVars`: the `i`-th name is
        declared, and either the state advances to `i + 1` names or the
        whole buffer was not admissible. */
    method AddPendingAt(ghost start: seq<Entry>, i: nat, typeName: Option<string>) returns (r: Outcome)
      requires Valid() && PendingProgress(start, i, typeName) && i < |pendingVars|
      modifies this
      ensures Valid()
      ensures pendingVars == old(pendingVars)
      ensures currentDirectory == old(currentDirectory) && prevDirectories == old(prevDirectories)
      ensures currentType == old(currentType) && globalDirectory == old(globalDirectory)
      ensures r.Fail? ==> !PendingAdmissible(start, currentDirectory, globalDirectory, pendingVars, |pendingVars|, typeName)
      ensures r == Pass ==> PendingProgress(start, i + 1, typeName)
    {
      if currentDirectory.Some? {
        PendingRecordsAdded(start, currentDirectory.value, pendingVars, i, typeName);
        PendingAdmissibleOneMore(start, records, currentDirectory.value, globalDirectory, pendingVars, i, typeName);
      }
      r := AddVar(pendingVars[i].0, typeName, false, false, false, pendingVars[i].1);
      if r.Fail? {
        assert !PendingAdmissible(start, currentDirectory, globalDirectory, pendingVars, i + 1, typeName);
        return;
      }
    }

    /** `backDirectory` (lines 177-179): pop; an empty stack leaves the
        current directory undefined. */
    method BackDirectory()
      requires Valid()
      modifies this`prevDirectories, this`currentDirectory
      ensures Valid()
      ensures old(prevDirectories) == [] ==> prevDirectories == [] && currentDirectory == None
      ensures old(prevDirectories) != [] ==>
        && prevDirectories == old(prevDirectories)[..|old(prevDirectories)| - 1]
        && currentDirectory == old(prevDirectories)[|old(prevDirectories)| - 1]
    {
      if prevDirectories == [] {
        currentDirectory := None;
      } else {
        currentDirectory := prevDirectories[|prevDirectories| - 1];
        prevDirectories := prevDirectories[..|prevDirectories| - 1];
      }
    }
  }
}
