/** The symmetric-closure fold of classes/utils/compatibility/binary.js
    (lines 188-202), over any precube.

    A precube lists its rows in insertion order; each row is an object from
    a column key to a cell. The fold visits the rows in order. For a row
    `key` it first merges the row into `acc[key]`, then for each column
    `subkey` it writes the cell both at `acc[subkey][subkey]` and, mirrored,
    at `acc[subkey][key]`. The first of those two writes puts a wrong cell
    on the diagonal of `subkey`; it is repaired only because the row of
    `subkey` is visited later and overwrites it. */
module SymmetricFold {
  import opened Js
  import opened Outcomes

  type Precube<K, C> = seq<(K, map<K, C>)>
  type Cube<K, C> = map<K, map<K, C>>

  /** The keys of a JS object are distinct. */
  predicate RowKeysDistinct<K(==), C>(pre: Precube<K, C>) {
    forall i, j | 0 <= i < j < |pre| :: pre[i].0 != pre[j].0
  }

  /** The row keys from position `i` on. */
  function RowsFrom<K, C>(pre: Precube<K, C>, i: nat): set<K> {
    set j | i <= j < |pre| :: pre[j].0
  }

  /** Each row declares its own diagonal and otherwise only columns whose
      rows come later: every pair is declared once, in the row visited
      first. */
  predicate UpperTriangular<K(==), C>(pre: Precube<K, C>) {
    && RowKeysDistinct(pre)
    && forall i | 0 <= i < |pre| :: DeclaresLater(pre, i)
  }

  /** Row `i` declares its own diagonal and otherwise only columns whose
      rows come later. */
  predicate DeclaresLater<K(==), C>(pre: Precube<K, C>, i: nat)
    requires i < |pre|
  {
    pre[i].0 in pre[i].1 && pre[i].1.Keys <= RowsFrom(pre, i)
  }

  /** `m[k]`, or nothing. */
  function Lookup<K, C>(m: map<K, C>, k: K): Option<C> {
    if k in m then Some(m[k]) else None
  }

  /** The cell of the pair (a, b) in a set of declared rows: declared in
      the row of `a`, or else mirrored from the row of `b`. */
  function Expected<K, C>(rows: map<K, map<K, C>>, a: K, b: K): Option<C> {
    if a in rows && b in rows[a] then Some(rows[a][b])
    else if b in rows && a in rows[b] then Some(rows[b][a])
    else None
  }

  /** Every declared cell, and its mirror image. */
  function SymmetricClosure<K, C>(rows: map<K, map<K, C>>): Cube<K, C> {
    map a | a in rows ::
      map b | b in rows && (b in rows[a] || a in rows[b]) :: if b in rows[a] then rows[a][b] else rows[b][a]
  }

  /** The cube that "declare once … and fill every combination" describes. */
  function Closure<K, C>(pre: Precube<K, C>): Cube<K, C> {
    SymmetricClosure(ToMap(pre))
  }

  /** `acc[key] || {}` */
  function Get<K, C>(acc: Cube<K, C>, key: K): map<K, C> {
    if key in acc then acc[key] else map[]
  }

  /** The state after the rows of `done`: every declared cell and its
      mirror are in place, except on the diagonal of a row not yet visited. */
  ghost predicate Folded<K(!new), C>(done: map<K, map<K, C>>, acc: Cube<K, C>) {
    && done.Keys <= acc.Keys
    && (forall a, b | a in done && b in done[a] :: b in acc)
    && (forall a, b | a in acc && (a in done || b != a) :: Lookup(acc[a], b) == Expected(done, a, b))
  }

  /** The state inside the row `key`, after the merge and the mirroring of
      the columns in `s`. */
  ghost predicate FoldingRow<K(!new), C>(done: map<K, map<K, C>>, key: K, row: map<K, C>, s: set<K>, acc: Cube<K, C>) {
    && key in acc
    && done.Keys <= acc.Keys
    && (forall a, b | a in done && b in done[a] :: b in acc)
    && s <= acc.Keys
    && (forall a, b | a in acc && (a in done || a == key || b != a) ::
          Lookup(acc[a], b) == if a != key && b == key && a in row && a !in s then None else Expected(done[key := row], a, b))
  }

  lemma FoldedInitially<K(!new), C>()
    ensures Folded<K, C>(map[], map[])
  {
  }

  /** Line 191: `acc[key] = { ...(acc[key] || {}), ...value }`. */
  lemma MergeStep<K(!new), C>(done: map<K, map<K, C>>, key: K, row: map<K, C>, acc: Cube<K, C>, acc': Cube<K, C>)
    requires Folded(done, acc)
    requires key !in done && key in row && row.Keys !! done.Keys
    requires acc' == acc[key := Get(acc, key) + row]
    ensures FoldingRow(done, key, row, {}, acc')
  {
    var done' := done[key := row];
    forall a, b | a in acc' && (a in done || a == key || b != a)
      ensures Lookup(acc'[a], b) == if a != key && b == key && a in row then None else Expected(done', a, b)
    {
      if a == key {
        if b !in row && key in acc {
          assert Lookup(acc'[a], b) == Lookup(acc[key], b);
        }
      } else {
        assert acc'[a] == acc[a];
      }
    }
  }

  /** Lines 194-198: `acc[subkey] = { ...(acc[subkey] || {}), [subkey]: subvalue, [key]: { ...value[subkey] } }`. */
  lemma MirrorStep<K(!new), C>(done: map<K, map<K, C>>, key: K, row: map<K, C>, s: set<K>, acc: Cube<K, C>, c: K, acc': Cube<K, C>)
    requires FoldingRow(done, key, row, s, acc)
    requires key !in done && key in row && row.Keys !! done.Keys
    requires c in row && c !in s
    requires acc' == acc[c := Get(acc, c)[c := row[c]][key := row[c]]]
    ensures FoldingRow(done, key, row, s + {c}, acc')
  {
    var done' := done[key := row];
    if c == key {
      assert Lookup(acc[key], key) == Expected(done', key, key);
      assert acc'[key] == acc[key];
      assert acc' == acc;
    } else {
      forall a, b | a in acc' && (a in done || a == key || b != a)
        ensures Lookup(acc'[a], b) == if a != key && b == key && a in row && a !in s + {c} then None else Expected(done', a, b)
      {
        if a == c {
          if b != key && b != c {
            if c in acc {
              assert Lookup(acc'[c], b) == Lookup(acc[c], b);
            }
          }
        } else {
          assert acc'[a] == acc[a];
        }
      }
    }
  }

  /** After the last column, the row is folded in. */
  lemma RowStep<K(!new), C>(done: map<K, map<K, C>>, key: K, row: map<K, C>, acc: Cube<K, C>)
    requires FoldingRow(done, key, row, row.Keys, acc)
    ensures Folded(done[key := row], acc)
  {
  }

  /** Once every row is folded in, the cube is the symmetric closure. */
  lemma FinalStep<K(!new), C>(rows: map<K, map<K, C>>, acc: Cube<K, C>)
    requires Folded(rows, acc)
    requires acc.Keys <= rows.Keys
    requires forall a | a in rows :: rows[a].Keys <= rows.Keys
    ensures acc == SymmetricClosure(rows)
  {
    var sc := SymmetricClosure(rows);
    forall a | a in acc ensures acc[a] == sc[a] {
      forall b ensures Lookup(acc[a], b) == Lookup(sc[a], b) {
      }
      assert acc[a].Keys == sc[a].Keys by {
        forall b ensures b in acc[a] <==> b in sc[a] {
          assert Lookup(acc[a], b) == Lookup(sc[a], b);
        }
      }
      forall b | b in acc[a] ensures acc[a][b] == sc[a][b] {
        assert Lookup(acc[a], b) == Lookup(sc[a], b);
      }
    }
  }

  /** The rows visited before `i` are not visited again. */
  lemma PrefixDisjoint<K, C>(pre: Precube<K, C>, i: nat)
    requires RowKeysDistinct(pre) && i <= |pre|
    ensures ToMap(pre[..i]).Keys !! RowsFrom(pre, i)
  {
    var done := pre[..i];
    forall c | c in ToMap(done) ensures c !in RowsFrom(pre, i) {
      var j :| 0 <= j < |done| && done[j].0 == c;
      assert pre[j] == done[j];
    }
  }

  /** What the fold may rely on when it reaches row `i`. */
  lemma RowFacts<K, C>(pre: Precube<K, C>, i: nat)
    requires UpperTriangular(pre) && i < |pre|
    ensures pre[i].0 !in ToMap(pre[..i]) && pre[i].0 in pre[i].1
    ensures pre[i].1.Keys !! ToMap(pre[..i]).Keys
    ensures pre[i].1.Keys <= KeySet(pre)
    ensures ToMap(pre[..i + 1]) == ToMap(pre[..i])[pre[i].0 := pre[i].1]
  {
    PrefixDisjoint(pre, i);
    assert DeclaresLater(pre, i);
    assert pre[i].0 in RowsFrom(pre, i);
    forall c | c in pre[i].1 ensures c in KeySet(pre) {
      assert c in RowsFrom(pre, i);
    }
    assert pre[..i + 1][..i] == pre[..i];
  }

  /** The rows of the whole precube only name rows as columns. */
  lemma ColumnsAreRows<K, C>(pre: Precube<K, C>)
    requires UpperTriangular(pre)
    ensures forall a | a in ToMap(pre) :: ToMap(pre)[a].Keys <= ToMap(pre).Keys
  {
    forall a | a in ToMap(pre) ensures ToMap(pre)[a].Keys <= ToMap(pre).Keys {
      var j :| 0 <= j < |pre| && pre[j].0 == a;
      ToMapLastWins(pre, j);
      assert DeclaresLater(pre, j);
      forall c | c in pre[j].1 ensures c in KeySet(pre) {
        assert c in RowsFrom(pre, j);
      }
    }
  }

  /** `binaryCube`'s `reduce`, with the `forEach` over the columns of each
      row. On a precube that declares each pair once, in the row visited
      first, the result is the symmetric closure. */
  method BuildCube<K(!new), C>(pre: Precube<K, C>) returns (cube: Cube<K, C>)
    requires RowKeysDistinct(pre)
    ensures UpperTriangular(pre) ==> cube == Closure(pre)
  {
    cube := map[];
    var i := 0;
    while i < |pre|
      invariant 0 <= i <= |pre|
      invariant UpperTriangular(pre) ==> Folded(ToMap(pre[..i]), cube) && cube.Keys <= KeySet(pre)
    {
      var (key, value) := pre[i];
      ghost var done := ToMap(pre[..i]);
      if UpperTriangular(pre) { RowFacts(pre, i); }
      ghost var before := cube;
      cube := cube[key := Get(cube, key) + value];
      if UpperTriangular(pre) { MergeStep(done, key, value, before, cube); }
      var columns := value.Keys;
      ghost var seen: set<K> := {};
      while columns != {}
        invariant columns + seen == value.Keys && columns !! seen
        invariant UpperTriangular(pre) ==> FoldingRow(done, key, value, seen, cube) && cube.Keys <= KeySet(pre)
        decreases columns
      {
        var subkey :| subkey in columns;
        var subvalue := value[subkey];
        before := cube;
        cube := cube[subkey := Get(cube, subkey)[subkey := subvalue][key := value[subkey]]];
        if UpperTriangular(pre) { MirrorStep(done, key, value, seen, before, subkey, cube); }
        columns := columns - {subkey};
        seen := seen + {subkey};
      }
      if UpperTriangular(pre) { RowStep(done, key, value, cube); }
      i := i + 1;
    }
    if UpperTriangular(pre) {
      assert pre[..i] == pre;
      ColumnsAreRows(pre);
      FinalStep(ToMap(pre), cube);
    }
  }

  /** Every declared cell survives the fold: `cube[a][b] == precube[a][b]`. */
  lemma ClosureKeepsDeclared<K, C>(pre: Precube<K, C>, i: nat, c: K)
    requires UpperTriangular(pre)
    requires i < |pre| && c in pre[i].1
    ensures pre[i].0 in Closure(pre) && c in Closure(pre)[pre[i].0]
    ensures Closure(pre)[pre[i].0][c] == pre[i].1[c]
  {
    ToMapLastWins(pre, i);
    ColumnsAreRows(pre);
  }

  /** A row key from position `i` on sits at a position from `i` on. */
  lemma RowsFromIndex<K, C>(pre: Precube<K, C>, i: nat, j: nat)
    requires RowKeysDistinct(pre)
    requires j < |pre| && pre[j].0 in RowsFrom(pre, i)
    ensures i <= j
  {
    var j' :| i <= j' < |pre| && pre[j'].0 == pre[j].0;
    assert j' == j;
  }

  /** A pair of distinct rows is declared in at most one of them. */
  lemma DeclaredOnce<K, C>(pre: Precube<K, C>, a: K, b: K)
    requires UpperTriangular(pre)
    requires a in ToMap(pre) && b in ToMap(pre) && a != b
    ensures !(b in ToMap(pre)[a] && a in ToMap(pre)[b])
  {
    var i :| 0 <= i < |pre| && pre[i].0 == a;
    var j :| 0 <= j < |pre| && pre[j].0 == b;
    ToMapLastWins(pre, i);
    ToMapLastWins(pre, j);
    assert DeclaresLater(pre, i) && DeclaresLater(pre, j);
    if b in ToMap(pre)[a] && a in ToMap(pre)[b] {
      RowsFromIndex(pre, i, j);
      assert false;
    }
  }

  /** The closure is symmetric: `cube[a][b]` exists exactly when
      `cube[b][a]` does, and the two are the same cell. */
  lemma ClosureSymmetric<K, C>(pre: Precube<K, C>, a: K, b: K)
    requires UpperTriangular(pre)
    requires a in Closure(pre) && b in Closure(pre)
    ensures b in Closure(pre)[a] <==> a in Closure(pre)[b]
    ensures b in Closure(pre)[a] ==> Closure(pre)[a][b] == Closure(pre)[b][a]
  {
    if a != b {
      DeclaredOnce(pre, a, b);
    }
  }

  /** The closure has a row for each row of the precube, and its cells
      only name rows. */
  lemma ClosureKeys<K, C>(pre: Precube<K, C>)
    ensures Closure(pre).Keys == KeySet(pre)
    ensures forall a | a in Closure(pre) :: Closure(pre)[a].Keys <= KeySet(pre)
  {
  }
}
