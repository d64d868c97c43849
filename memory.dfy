/** The address allocator of classes/memory.js: a fixed table of address
    ranges, one per (segment, type), each with a bump pointer. */
module MemoryModel {
  import opened Js
  import opened Outcomes
  import opened Types

  /** `{ pointer, low, high }`: `pointer` is the next free address. */
  datatype Range = Range(pointer: int, low: int, high: int)

  /** The range of block `n`: addresses 5000 * n up to 5000 * n + 4999,
      none handed out yet. */
  function Block(n: nat): (r: Range)
    ensures r.pointer == r.low == 5000 * n && r.high == r.low + 4999
  {
    Range(5000 * n, 5000 * n, 5000 * n + 4999)
  }

  /** `this.segments`: segment name to key. */
  function Segments(): map<string, string> {
    map["GLOBAL" := "global", "LOCAL" := "local", "STACK" := "stack", "TEMP" := "temp", "FUNCTION" := "function"]
  }

  /** The key `[STRING]` stands for: `genericTypes` has no STRING entry,
      so the destructured `STRING` is undefined. */
  const StringKey: string := "undefined"

  /** `this.map` as the constructor builds it (lines 14-160). Its keys
      are written `[this.segments.GLOBAL]` … and `[INT]` …; they evaluate
      to the names below (`RangeKeys`). */
  function InitialRanges(): map<string, map<string, Range>> {
    map[
      "global" := map["int" := Block(1), "float" := Block(2), "char" := Block(3),
                      "boolean" := Block(4), StringKey := Block(5)],
      "local" := map["int" := Block(6), "float" := Block(7), "char" := Block(8),
                     "boolean" := Block(9), StringKey := Block(10), "void" := Block(11)],
      "stack" := map["int" := Block(12), "float" := Block(13), "char" := Block(14),
                     "boolean" := Block(15), StringKey := Block(16), "void" := Block(17)],
      "temp" := map["int" := Block(18), "float" := Block(19), "char" := Block(20),
                    "boolean" := Block(21), StringKey := Block(22)],
      "function" := map["int" := Block(23), "float" := Block(24), "char" := Block(25),
                        "boolean" := Block(26), StringKey := Block(27)]]
  }

  /** The (segment, type) pairs of the table in address order: block `n`
      belongs to `Layout[n - 1]`. */
  const Layout: seq<(string, string)> := [
    ("global", "int"), ("global", "float"), ("global", "char"), ("global", "boolean"), ("global", StringKey),
    ("local", "int"), ("local", "float"), ("local", "char"), ("local", "boolean"), ("local", StringKey), ("local", "void"),
    ("stack", "int"), ("stack", "float"), ("stack", "char"), ("stack", "boolean"), ("stack", StringKey), ("stack", "void"),
    ("temp", "int"), ("temp", "float"), ("temp", "char"), ("temp", "boolean"), ("temp", StringKey),
    ("function", "int"), ("function", "float"), ("function", "char"), ("function", "boolean"), ("function", StringKey)]

  /** The bump allocation of one range: the address handed out is the old
      pointer, which moves on by `advance` whether or not the range then
      overflows. */
  function Bump(r: Range, advance: nat): (Range, Result<int>) {
    var moved := r.(pointer := r.pointer + advance);
    (moved, if moved.pointer > r.high then Err(TooManyVariables) else Ok(r.pointer))
  }

  class Memory {
    /** `this.addresses`: the value stored at each address. */
    var addresses: map<int, string>
    /** `this.map`: the range of each (segment, type). */
    var ranges: map<string, map<string, Range>>

    /** No pointer falls below its range. */
    ghost predicate Valid()
      reads this
    {
      forall s, t | s in ranges && t in ranges[s] :: ranges[s][t].low <= ranges[s][t].pointer
    }

    constructor()
      ensures Valid()
      ensures addresses == map[] && ranges == InitialRanges()
    {
      addresses := map[];
      ranges := InitialRanges();
    }

    /** `getAddress({ type, segment, advance })` (lines 170-180). A pair
        missing from the table is a TypeError (`map.pointer` of undefined).
        Otherwise the range is bumped in place, and the old pointer is
        returned unless the range overflowed. Nothing else changes. */
    method GetAddress(typeName: string, segment: string, advance: nat) returns (r: Result<int>)
      requires Valid()
      modifies this
      ensures Valid()
      ensures addresses == old(addresses)
      ensures segment !in old(ranges) || typeName !in old(ranges)[segment] ==>
        r == Err(TypeError) && ranges == old(ranges)
      ensures segment in old(ranges) && typeName in old(ranges)[segment] ==>
        var (moved, res) := Bump(old(ranges)[segment][typeName], advance);
        r == res && ranges == old(ranges)[segment := old(ranges)[segment][typeName := moved]]
    {
      if segment !in ranges || typeName !in ranges[segment] {
        return Err(TypeError);
      }
      var range := ranges[segment][typeName];
      var address := range.pointer;
      ranges := ranges[segment := ranges[segment][typeName := range.(pointer := range.pointer + advance)]];
      if ranges[segment][typeName].pointer > range.high {
        return Err(TooManyVariables);
      }
      return Ok(address);
    }
  }

  /** The computed keys of the table. */
  lemma RangeKeys()
    ensures var s := Segments(); var g := GenericTypes();
      [KeyOf(s, "GLOBAL"), KeyOf(s, "LOCAL"), KeyOf(s, "STACK"), KeyOf(s, "TEMP"), KeyOf(s, "FUNCTION")]
      == ["global", "local", "stack", "temp", "function"]
      && [KeyOf(g, "INT"), KeyOf(g, "FLOAT"), KeyOf(g, "CHAR"), KeyOf(g, "BOOLEAN"), KeyOf(g, "STRING"), KeyOf(g, "VOID")]
      == ["int", "float", "char", "boolean", StringKey, "void"]
  {
  }

  /** A successful allocation hands out the old pointer, which lies in the
      range together with the whole block `[address, address + advance)`;
      with `advance == 1` the address `high` itself is never handed out.
      It succeeds exactly when the block fits. */
  lemma BumpWithinRange(r: Range, advance: nat)
    requires r.low <= r.pointer
    ensures Bump(r, advance).1.Ok? <==> r.pointer + advance <= r.high
    ensures Bump(r, advance).1.Ok? ==>
      var a := Bump(r, advance).1.value;
      a == r.pointer && r.low <= a && a + advance <= r.high && (advance == 1 ==> a < r.high)
    ensures Bump(r, advance).1.Err? ==> Bump(r, advance).1.error == TooManyVariables
  {
  }

  /** Two successive successful allocations from one range hand out
      adjacent blocks that do not overlap, the second after the first. */
  lemma SuccessiveBlocksDisjoint(r: Range, first: nat, second: nat)
    requires Bump(r, first).1.Ok? && Bump(Bump(r, first).0, second).1.Ok?
    ensures var a := Bump(r, first).1.value; var b := Bump(Bump(r, first).0, second).1.value;
      a + first == b && (first > 0 ==> a < b)
  {
  }

  /** Once a range has overflowed, every later allocation from it fails:
      the pointer never moves back. */
  lemma OverflowIsFinal(r: Range, first: nat, second: nat)
    requires Bump(r, first).1.Err?
    ensures Bump(Bump(r, first).0, second).1 == Err(TooManyVariables)
  {
  }

  /** The ranges of the global segment are consecutive blocks. */
  lemma GlobalSegmentBlocks(t: string)
    requires "global" in InitialRanges() && t in InitialRanges()["global"]
    ensures var r := InitialRanges()["global"][t]; var n := r.low / 5000;
      1 <= n <= |Layout| && r == Block(n) && Layout[n - 1] == ("global", t)
  {
  }

  /** The ranges of the local segment are consecutive blocks. */
  lemma LocalSegmentBlocks(t: string)
    requires "local" in InitialRanges() && t in InitialRanges()["local"]
    ensures var r := InitialRanges()["local"][t]; var n := r.low / 5000;
      1 <= n <= |Layout| && r == Block(n) && Layout[n - 1] == ("local", t)
  {
  }

  /** The ranges of the stack segment are consecutive blocks. */
  lemma StackSegmentBlocks(t: string)
    requires "stack" in InitialRanges() && t in InitialRanges()["stack"]
    ensures var r := InitialRanges()["stack"][t]; var n := r.low / 5000;
      1 <= n <= |Layout| && r == Block(n) && Layout[n - 1] == ("stack", t)
  {
  }

  /** The ranges of the temp segment are consecutive blocks. */
  lemma TempSegmentBlocks(t: string)
    requires "temp" in InitialRanges() && t in InitialRanges()["temp"]
    ensures var r := InitialRanges()["temp"][t]; var n := r.low / 5000;
      1 <= n <= |Layout| && r == Block(n) && Layout[n - 1] == ("temp", t)
  {
  }

  /** The ranges of the function segment are consecutive blocks. */
  lemma FunctionSegmentBlocks(t: string)
    requires "function" in InitialRanges() && t in InitialRanges()["function"]
    ensures var r := InitialRanges()["function"][t]; var n := r.low / 5000;
      1 <= n <= |Layout| && r == Block(n) && Layout[n - 1] == ("function", t)
  {
  }

  /** Every range of the table is block `n` for the `n` whose entry in
      `Layout` is its own (segment, type). */
  lemma RangeIsItsBlock(s: string, t: string)
    requires s in InitialRanges() && t in InitialRanges()[s]
    ensures var r := InitialRanges()[s][t]; var n := r.low / 5000;
      1 <= n <= |Layout| && r == Block(n) && Layout[n - 1] == (s, t)
  {
    if s == "global" {
      GlobalSegmentBlocks(t);
    } else if s == "local" {
      LocalSegmentBlocks(t);
    } else if s == "stack" {
      StackSegmentBlocks(t);
    } else if s == "temp" {
      TempSegmentBlocks(t);
    } else {
      FunctionSegmentBlocks(t);
    }
  }

  /** Initially every pointer is at the bottom of its range; each range is
      5000 addresses wide and lies within 5000..139999. */
  lemma InitialRangesLayout()
    ensures forall s, t | s in InitialRanges() && t in InitialRanges()[s] ::
      var r := InitialRanges()[s][t];
      r.pointer == r.low && r.high == r.low + 4999 && 5000 <= r.low && r.high <= 139999
  {
    forall s, t | s in InitialRanges() && t in InitialRanges()[s]
      ensures var r := InitialRanges()[s][t];
        r.pointer == r.low && r.high == r.low + 4999 && 5000 <= r.low && r.high <= 139999
    {
      RangeIsItsBlock(s, t);
    }
  }

  /** Ranges of different (segment, type) pairs do not overlap. */
  lemma InitialRangesDisjoint(s: string, t: string, s': string, t': string)
    requires s in InitialRanges() && t in InitialRanges()[s]
    requires s' in InitialRanges() && t' in InitialRanges()[s']
    requires (s, t) != (s', t')
    ensures var r, r' := InitialRanges()[s][t], InitialRanges()[s'][t'];
      r.high < r'.low || r'.high < r.low
  {
    RangeIsItsBlock(s, t);
    RangeIsItsBlock(s', t');
    LaidOutBlocksDisjoint(InitialRanges()[s][t], InitialRanges()[s'][t'], (s, t), (s', t'));
  }

  /** Two ranges laid out as the blocks of two different entries of
      `Layout` do not overlap. */
  lemma LaidOutBlocksDisjoint(r: Range, r': Range, p: (string, string), p': (string, string))
    requires var n := r.low / 5000; 1 <= n <= |Layout| && r == Block(n) && Layout[n - 1] == p
    requires var n' := r'.low / 5000; 1 <= n' <= |Layout| && r' == Block(n') && Layout[n' - 1] == p'
    requires p != p'
    ensures r.high < r'.low || r'.high < r.low
  {
  }

  /** VOID has a range only in the local and stack segments, and every
      segment has one for each value type and for the undefined STRING. */
  lemma VoidOnlyInLocalAndStack()
    ensures forall s | s in InitialRanges() :: "void" in InitialRanges()[s] <==> s == "local" || s == "stack"
    ensures forall s, t | s in InitialRanges() && t in ValueTypeNames + {StringKey} :: t in InitialRanges()[s]
  {
  }
}
