/** The first symbol table, utils/grammar.js. It keeps the same directory
    objects as utils/semantics.js without dimensions (here, entries whose
    dimensions stay 0) and has no class check. Its global directory is a
    member map, the one of the directory current when it is set; it is
    held here by the handle of the directory that owns the map, whose
    later additions it therefore sees. */
module GrammarModel {
  import opened Outcomes
  import opened LegacyScopeModel
  import ScopeModel

  /** What `toCheck` may hold in `getAndValidateVar`. */
  datatype Found =
    | Declared(h: nat)   // the entry of a declared identifier
    | MemberMap(d: nat)  // the member map of directory `d`
    | Scalar             // a name, a type name or `true`

  /** `this.currentDirectory[id]` (line 79) when truthy: a property of the
      directory object itself, not of its member map. */
  function RecordProperty(e: Entry, d: nat, id: string): Option<Found> {
    if id == "varsDirectory" then Some(MemberMap(d))
    else if id == "name" && ScopeModel.Truthy(e.name) then Some(Scalar)
    else if id == "type" && ScopeModel.Truthy(e.typeName) then Some(Scalar)
    else if id == "isFunction" && e.isFunction then Some(Scalar)
    else None
  }

  /** The property names of a directory object. */
  const RecordKeys: set<string> := {"varsDirectory", "name", "type", "isFunction"}

  /** `toCheck.type !== expectedType` is false (line 93), `expectedType`
      being None when undefined. An entry's type is None when null, and
      null differs from undefined. A member map's `type` is the entry of an
      identifier `type` if it declares one (never equal to a type name),
      else undefined; a scalar's `type` is undefined. */
  predicate TypeMatches(records: seq<Entry>, f: Found, expectedType: Option<string>)
    requires f.Declared? || f.MemberMap? ==> (if f.Declared? then f.h else f.d) < |records|
  {
    match f
    case Declared(h) => records[h].typeName.Some? && records[h].typeName == expectedType
    case MemberMap(d) => "type" !in records[d].vars && expectedType.None?
    case Scalar => expectedType.None?
  }

  /** `getAndValidateVar` as written (lines 78-98): the current directory
      is read as an object of properties, so its member map is never
      searched; on a miss the global member map is (a TypeError while
      there is none). */
  function GetAndValidateVarAsWritten(records: seq<Entry>, current: Option<nat>, global: Option<nat>, id: string,
                                      expectedType: Option<string>): Outcome
    requires Arena(records) && ScopeModel.InArena(current, |records|) && ScopeModel.InArena(global, |records|)
  {
    if current.None? then Fail(TypeError)
    else
      var here := RecordProperty(records[current.value], current.value, id);
      if here.None? && global.None? then Fail(TypeError)
      else
        var toCheck :=
          if here.Some? then here
          else if id in records[global.value].vars then
            assert Closed(records[global.value], |records|);
            Some(Declared(records[global.value].vars[id]))
          else None;
        if toCheck.None? then Fail(UndeclaredIdentifier)
        else if !TypeMatches(records, toCheck.value, expectedType) then Fail(TypeMismatch)
        else Pass
  }

  /** `getAndValidateVar` as evidently intended: the member map of the
      current directory, then the global one. */
  function GetAndValidateVar(records: seq<Entry>, current: Option<nat>, global: Option<nat>, id: string,
                             expectedType: Option<string>): Outcome
    requires Arena(records) && ScopeModel.InArena(current, |records|) && ScopeModel.InArena(global, |records|)
  {
    if current.None? then Fail(TypeError)
    else
      var here := records[current.value].vars;
      if id !in here && global.None? then Fail(TypeError)
      else
        var toCheck :=
          if id in here then
            assert Closed(records[current.value], |records|);
            Some(Declared(here[id]))
          else if id in records[global.value].vars then
            assert Closed(records[global.value], |records|);
            Some(Declared(records[global.value].vars[id]))
          else None;
        if toCheck.None? then Fail(UndeclaredIdentifier)
        else if !TypeMatches(records, toCheck.value, expectedType) then Fail(TypeMismatch)
        else Pass
  }

  /** The intended lookup accepts `id` exactly when the innermost of the
      current and the global directory that declares it gives it the
      expected type, and calls it undeclared exactly when neither does. */
  lemma GetAndValidateVarMeaning(records: seq<Entry>, current: Option<nat>, global: Option<nat>, id: string,
                                 expectedType: Option<string>)
    requires Arena(records) && ScopeModel.InArena(current, |records|) && ScopeModel.InArena(global, |records|)
    ensures GetAndValidateVar(records, current, global, id, expectedType) == Pass <==>
      && current.Some?
      && expectedType.Some?
      && (if id in records[current.value].vars then
            records[records[current.value].vars[id]].typeName == expectedType
          else
            global.Some? && id in records[global.value].vars
            && records[records[global.value].vars[id]].typeName == expectedType)
    ensures GetAndValidateVar(records, current, global, id, expectedType) == Fail(UndeclaredIdentifier) <==>
      current.Some? && id !in records[current.value].vars && global.Some? && id !in records[global.value].vars
  {
    if current.Some? {
      assert Closed(records[current.value], |records|);
      if global.Some? {
        assert Closed(records[global.value], |records|);
      }
    }
  }

  /** As written, an identifier that is not a property name of directory
      objects is looked up as if the global directory were the current
      one: what the current directory declares makes no difference. */
  lemma AsWrittenIgnoresCurrentDirectory(records: seq<Entry>, c: nat, global: Option<nat>, id: string,
                                         expectedType: Option<string>)
    requires Arena(records) && c < |records| && ScopeModel.InArena(global, |records|)
    requires id !in RecordKeys
    ensures global.None? ==> GetAndValidateVarAsWritten(records, Some(c), global, id, expectedType) == Fail(TypeError)
    ensures global.Some? ==>
      GetAndValidateVarAsWritten(records, Some(c), global, id, expectedType)
      == GetAndValidateVar(records, global, global, id, expectedType)
  {
  }

  /** The arena of one function `f` declared in `main`, with a local `x`
      of type int declared in `f`; `main`'s member map is the global one. */
  function LocalScene(): seq<Entry> {
    [ Entry(None, None, false, 0, map["f" := 1]),
      Entry(Some("f"), Some("void"), true, 0, map["x" := 2]),
      Entry(Some("x"), Some("int"), false, 0, map[]) ]
  }

  /** Inside `f`, the local `x` is reported undeclared by the code as
      written, while the intended lookup accepts it as an int. */
  lemma AsWrittenMissesLocalVariable()
    ensures Arena(LocalScene())
    ensures GetAndValidateVarAsWritten(LocalScene(), Some(1), Some(0), "x", Some("int")) == Fail(UndeclaredIdentifier)
    ensures GetAndValidateVar(LocalScene(), Some(1), Some(0), "x", Some("int")) == Pass
  {
    var records := LocalScene();
    assert Closed(records[0], 3) && Closed(records[1], 3) && Closed(records[2], 3);
    assert "x" !in records[0].vars;
  }

  /** The buffer `{ name }` objects as pending entries without
      dimensions, which is how `addVar` declares them. */
  function Unsized(names: seq<string>): (entries: seq<(string, nat)>)
    ensures |entries| == |names|
    ensures forall k | 0 <= k < |names| :: entries[k] == (names[k], 0)
  {
    seq(|names|, k requires 0 <= k < |names| => (names[k], 0))
  }

  /** The first `n` buffered names can all be declared in turn: the
      directory is defined, and they are distinct and new to it. */
  predicate NamesAdmissible(records: seq<Entry>, current: Option<nat>, names: seq<string>, n: nat)
    requires n <= |names|
  {
    n > 0 ==>
      && current.Some? && current.value < |records|
      && (forall j, k | 0 <= j < k < n :: names[j] != names[k])
      && (forall k | 0 <= k < n :: names[k] !in records[current.value].vars)
  }

  /** One turn of the `forEach` of `addPendingVars`: once the first `i`
      names are added, the next one can be declared exactly when the
      first `i + 1` names are admissible, and declaring it adds it. */
  lemma NamesAdmissibleOneMore(start: seq<Entry>, records: seq<Entry>, c: nat, names: seq<string>, i: nat,
                               typeName: Option<string>)
    requires i < |names|
    requires PendingAdded(start, records, c, Unsized(names), i, typeName)
    requires NamesAdmissible(start, Some(c), names, i)
    ensures NamesAdmissible(start, Some(c), names, i + 1) <==> names[i] !in records[c].vars
    ensures names[i] !in records[c].vars ==>
      PendingAdded(start, Declare(records, c, names[i], Entry(Some(names[i]), typeName, false, 0, map[])),
                   c, Unsized(names), i + 1, typeName)
  {
    ScopeModel.PendingHandlesKeys(Unsized(names), i, |start|, names[i]);
    if names[i] !in records[c].vars {
      assert Unsized(names)[i] == (names[i], 0);
      PendingAddedOneMore(start, records, c, Unsized(names), i, typeName);
    }
  }

  /** `class Grammar` of utils/grammar.js (lines 1-132). */
  class Grammar {
    var records: seq<Entry>
    var currentDirectory: Option<nat>
    var currentType: Option<string>
    var pendingVars: seq<string>
    /** The directory whose member map is `this.globalDirectory`. */
    var globalDirectory: Option<nat>
    var prevDirectories: seq<Option<nat>>

    ghost predicate Valid()
      reads this
    {
      && Arena(records)
      && ScopeModel.InArena(currentDirectory, |records|)
      && ScopeModel.InArena(globalDirectory, |records|)
      && (forall k | 0 <= k < |prevDirectories| :: ScopeModel.InArena(prevDirectories[k], |records|))
    }

    /** The constructor (lines 2-19). */
    constructor()
      ensures Valid()
      ensures records == [LegacyMain] && currentDirectory == Some(0) && currentType == None
      ensures pendingVars == [] && globalDirectory == None && prevDirectories == []
    {
      records := [LegacyMain];
      currentDirectory := Some(0);
      currentType := None;
      pendingVars := [];
      globalDirectory := None;
      prevDirectories := [];
    }

    /** `addVar` (lines 30-52). An undefined current directory or a
        duplicate throws before anything changes. Otherwise an entry with
        an empty member map is stored under `id`, entered with
        `addNextLevel`, and with `isGlobal` the member map of the directory
        now current becomes the global one, unless there already is one
        (which throws, the entry staying declared). The global member map,
        once set, never changes. */
    method AddVar(id: string, typeName: Option<string>, isFunction: bool, addNextLevel: bool, isGlobal: bool)
      returns (r: Outcome)
      requires Valid()
      modifies this
      ensures Valid()
      ensures currentType == old(currentType) && pendingVars == old(pendingVars)
      ensures old(globalDirectory).Some? ==> globalDirectory == old(globalDirectory)
      ensures old(currentDirectory).None? ==>
        && r == Fail(TypeError) && records == old(records)
        && currentDirectory == old(currentDirectory) && prevDirectories == old(prevDirectories)
        && globalDirectory == old(globalDirectory)
      ensures old(currentDirectory).Some? && id in old(records)[old(currentDirectory).value].vars ==>
        && r == Fail(DuplicateDeclaration) && records == old(records)
        && currentDirectory == old(currentDirectory) && prevDirectories == old(prevDirectories)
        && globalDirectory == old(globalDirectory)
      ensures old(currentDirectory).Some? && id !in old(records)[old(currentDirectory).value].vars ==>
        var c := old(currentDirectory).value;
        var h := |old(records)|;
        && records == Declare(old(records), c, id, Entry(Some(id), typeName, isFunction, 0, map[]))
        && (addNextLevel ==> currentDirectory == Some(h) && prevDirectories == old(prevDirectories) + [Some(c)])
        && (!addNextLevel ==> currentDirectory == old(currentDirectory) && prevDirectories == old(prevDirectories))
        && (!isGlobal ==> r == Pass && globalDirectory == old(globalDirectory))
        && (isGlobal && old(globalDirectory).Some? ==> r == Fail(GlobalDirectoryTwice))
        && (isGlobal && old(globalDirectory).None? ==> r == Pass && globalDirectory == currentDirectory)
    {
      if currentDirectory.None? {
        return Fail(TypeError);
      }
      var c := currentDirectory.value;
      if id in records[c].vars {
        return Fail(DuplicateDeclaration);
      }
      var h := |records|;
      DeclareArena(records, c, id, Entry(Some(id), typeName, isFunction, 0, map[]));
      records := Declare(records, c, id, Entry(Some(id), typeName, isFunction, 0, map[]));
      if addNextLevel {
        prevDirectories := prevDirectories + [currentDirectory];
        currentDirectory := Some(h);
      }
      if isGlobal {
        if globalDirectory.Some? {
          return Fail(GlobalDirectoryTwice);
        }
        globalDirectory := currentDirectory;
      }
      return Pass;
    }

    /** `addFunction` (lines 59-67): `addVar` of `id` with the current
        type as a function, entered, not global. It throws as `addVar`
        does; on success `id` is bound in the directory that was current
        to a new function entry, which becomes the current directory, and
        `currentType` is reset. The global member map does not change. */
    method AddFunction(id: string) returns (r: Outcome)
      requires Valid()
      modifies this
      ensures Valid()
      ensures pendingVars == old(pendingVars) && globalDirectory == old(globalDirectory)
      ensures r == Pass <==> old(currentDirectory).Some? && id !in old(records)[old(currentDirectory).value].vars
      ensures old(currentDirectory).None? ==> r == Fail(TypeError)
      ensures old(currentDirectory).Some? && r != Pass ==> r == Fail(DuplicateDeclaration)
      ensures r != Pass ==>
        && currentType == old(currentType) && records == old(records)
        && currentDirectory == old(currentDirectory) && prevDirectories == old(prevDirectories)
      ensures r == Pass ==>
        var c := old(currentDirectory).value;
        var h := |old(records)|;
        && records == Declare(old(records), c, id, Entry(Some(id), old(currentType), true, 0, map[]))
        && |records| == h + 1 && records[c].vars == old(records)[c].vars[id := h]
        && (forall d | 0 <= d < h && d != c :: records[d] == old(records)[d])
        && records[h] == Entry(Some(id), old(currentType), true, 0, map[])
        && currentDirectory == Some(h) && prevDirectories == old(prevDirectories) + [Some(c)]
        && currentType == None
    {
      r := AddVar(id, currentType, true, true, false);
      if r == Pass {
        currentType := None;
      }
    }

    /** `pushToPendingVars` (lines 105-107). */
    method PushToPendingVars(name: string)
      modifies this`pendingVars
      ensures pendingVars == old(pendingVars) + [name]
    {
      pendingVars := pendingVars + [name];
    }

    /** `addPendingVars` (lines 114-124): each buffered name is declared
        with the type; the first failure throws with the buffer kept, else
        the buffer is emptied. On success the current directory, still
        current, gains exactly the buffered names, all distinct, under the
        next handles, and no other directory changes. The type and the
        global member map do not change. */
    method AddPendingVars(typeName: Option<string>) returns (r: Outcome)
      requires Valid()
      modifies this
      ensures Valid()
      ensures r.Fail? ==> pendingVars == old(pendingVars)
      ensures r == Pass ==> pendingVars == []
      ensures currentDirectory == old(currentDirectory) && prevDirectories == old(prevDirectories)
      ensures currentType == old(currentType) && globalDirectory == old(globalDirectory)
      ensures r == Pass && old(pendingVars) == [] ==> records == old(records)
      ensures r == Pass && old(pendingVars) != [] ==>
        && currentDirectory.Some?
        && PendingAdded(old(records), records, currentDirectory.value, Unsized(old(pendingVars)), |old(pendingVars)|,
                        typeName)
      ensures r == Pass <==> NamesAdmissible(old(records), old(currentDirectory), old(pendingVars), |old(pendingVars)|)
      ensures r.Fail? ==> r == Fail(TypeError) || r == Fail(DuplicateDeclaration)
    {
      r := DeclarePending(typeName);
      if r == Pass {
        pendingVars := [];
      }
    }

    /** The `forEach` of `addPendingVars` (lines 115-120): the buffered
        names are declared in order until one fails. It stops either with
        all of them added to the current directory, or with a TypeError or
        a duplicate when the buffer was not admissible. */
    method DeclarePending(typeName: Option<string>) returns (r: Outcome)
      requires Valid()
      modifies this
      ensures Valid()
      ensures pendingVars == old(pendingVars)
      ensures currentDirectory == old(currentDirectory) && prevDirectories == old(prevDirectories)
      ensures currentType == old(currentType) && globalDirectory == old(globalDirectory)
      ensures r == Pass && (pendingVars == [] || currentDirectory.None?) ==> records == old(records)
      ensures r == Pass && currentDirectory.Some? ==>
        PendingAdded(old(records), records, currentDirectory.value, Unsized(pendingVars), |pendingVars|, typeName)
      ensures r == Pass <==> NamesAdmissible(old(records), currentDirectory, pendingVars, |pendingVars|)
      ensures r.Fail? ==> r == Fail(TypeError) || r == Fail(DuplicateDeclaration)
    {
      if currentDirectory.Some? {
        PendingAddedNone(records, currentDirectory.value, Unsized(pendingVars), typeName);
      }
      var i := 0;
      while i < |pendingVars|
        invariant 0 <= i <= |pendingVars|
        invariant Valid()
        invariant pendingVars == old(pendingVars)
        invariant currentDirectory == old(currentDirectory) && prevDirectories == old(prevDirectories)
        invariant currentType == old(currentType) && globalDirectory == old(globalDirectory)
        invariant i == 0 ==> records == old(records)
        invariant currentDirectory.None? ==> i == 0
        invariant currentDirectory.Some? ==>
          PendingAdded(old(records), records, currentDirectory.value, Unsized(pendingVars), i, typeName)
        invariant NamesAdmissible(old(records), currentDirectory, pendingVars, i)
      {
        if currentDirectory.Some? {
          NamesAdmissibleOneMore(old(records), records, currentDirectory.value, pendingVars, i, typeName);
        }
        r := AddPendingVar(pendingVars[i], typeName);
        if r.Fail? {
          assert !NamesAdmissible(old(records), currentDirectory, pendingVars, i + 1);
          return;
        }
        i := i + 1;
      }
      return Pass;
    }

    /** The callback of the `forEach` in `addPendingVars` (lines 115-120):
        a plain `addVar` of one buffered name. An undefined directory is a
        TypeError; otherwise it succeeds exactly when the name is new to
        the current directory, and then stores an entry with the type, not
        a function, with an empty member map. A failure changes nothing. */
    method AddPendingVar(name: string, typeName: Option<string>) returns (r: Outcome)
      requires Valid()
      modifies this
      ensures Valid()
      ensures pendingVars == old(pendingVars) && currentType == old(currentType)
      ensures currentDirectory == old(currentDirectory) && prevDirectories == old(prevDirectories)
      ensures globalDirectory == old(globalDirectory)
      ensures r != Pass ==> records == old(records)
      ensures old(currentDirectory).None? ==> r == Fail(TypeError)
      ensures old(currentDirectory).Some? ==>
        var c := old(currentDirectory).value;
        && (r == Pass <==> name !in old(records)[c].vars)
        && (r != Pass ==> r == Fail(DuplicateDeclaration))
        && (r == Pass ==> records == Declare(old(records), c, name, Entry(Some(name), typeName, false, 0, map[])))
    {
      r := AddVar(name, typeName, false, false, false);
    }

    /** `backDirectory` (lines 129-131): pop; an empty stack leaves the
        current directory undefined. */
    method BackDirectory()
      requires Valid()
      modifies this`prevDirectories, this`currentDirectory
      ensures Valid()
      ensures old(prevDirectories) == [] ==> prevDirectories == [] && currentDirectory == None
      ensures old(prevDirectories) != [] ==>
        && prevDirectories == old(prevDirectories)[..|old(prevDirectories)| - 1]
        && currentDirectory == old(prevDirectories)[|old(prevDirectories)| - 1]
    {
      if prevDirectories == [] {
        currentDirectory := None;
      } else {
        currentDirectory := prevDirectories[|prevDirectories| - 1];
        prevDirectories := prevDirectories[..|prevDirectories| - 1];
      }
    }
  }
}
