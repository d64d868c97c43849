/** JS objects.

    An object whose keys are all distinct literals is a Dafny `map`, and a
    spread `{ ...a, ...b }` is the map union `a + b` (the right operand
    wins on a shared key, as the later spread does). Where the ORDER of an
    object's entries matters (a fold over `Object.entries` that meets two
    equal values), the object is kept as the sequence of its entries in
    insertion order: `ToMap` is what property lookup sees and `Invert` is
    the fold `entries.reduce((acc, [key, value]) => { acc[value] = key; return acc }, {})`. */
module Js {

  /** The property key that a computed key `[obj.name]` denotes: the
      value of `obj.name`, or the string "undefined" when `obj` has no
      such property. */
  function KeyOf(obj: map<string, string>, name: string): string {
    if name in obj then obj[name] else "undefined"
  }

  /** No two keys of `obj` carry the same value. */
  predicate Injective<K, V(==)>(obj: map<K, V>) {
    forall k, k' | k in obj && k' in obj && k != k' :: obj[k] != obj[k']
  }

  /** The fold `acc[value] = key` over an object whose values are all
      distinct: the order of the entries does not matter, so the result
      is the map sending each value to the key that bears it. */
  ghost function InvertMap<K, V>(obj: map<K, V>): (inv: map<V, K>)
    ensures inv.Keys == obj.Values
    ensures forall v | v in inv :: inv[v] in obj && obj[inv[v]] == v
  {
    map v | v in obj.Values :: var k :| k in obj && obj[k] == v; k
  }

  /** `invert` round-trips: `inverse[obj[k]] == k`. */
  lemma InvertMapAt<K, V>(obj: map<K, V>, k: K)
    requires Injective(obj)
    requires k in obj
    ensures obj[k] in InvertMap(obj) && InvertMap(obj)[obj[k]] == k
  {
    assert obj[k] in obj.Values;
  }

  /** With distinct values the inverse is the inverse relation of the
      object, in both directions. */
  lemma InvertMapIsInverse<K, V>(obj: map<K, V>)
    requires Injective(obj)
    ensures forall k, v :: (v in InvertMap(obj) && InvertMap(obj)[v] == k) <==> (k in obj && obj[k] == v)
  {
    forall k, v | k in obj && obj[k] == v ensures v in InvertMap(obj) && InvertMap(obj)[v] == k {
      InvertMapAt(obj, k);
    }
  }

  /** An object that a map undoes is injective, and the fold builds
      exactly that map: the facts needed are lookups only. */
  lemma InvertMapIs<K, V>(obj: map<K, V>, inv: map<V, K>)
    requires forall k | k in obj :: obj[k] in inv && inv[obj[k]] == k
    requires forall v | v in inv :: inv[v] in obj && obj[inv[v]] == v
    ensures Injective(obj)
    ensures InvertMap(obj) == inv
  {
    forall v | v in inv ensures v in InvertMap(obj) && InvertMap(obj)[v] == inv[v] {
      InvertMapAt(obj, inv[v]);
    }
  }

  /** Spreading two inverses, `{ ...invert(a), ...invert(b) }`, is the
      inverse of the spread `{ ...a, ...b }` when the two objects share
      neither a key nor a value. */
  lemma InvertMapUnion<K, V>(a: map<K, V>, b: map<K, V>)
    requires Injective(a) && Injective(b)
    requires a.Keys !! b.Keys && a.Values !! b.Values
    ensures Injective(a + b)
    ensures InvertMap(a + b) == InvertMap(a) + InvertMap(b)
  {
    var u := a + b;
    forall k, k' | k in u && k' in u && k != k' ensures u[k] != u[k'] {
      if k in b && k' !in b {
        assert u[k] in b.Values && u[k'] in a.Values;
      } else if k !in b && k' in b {
        assert u[k] in a.Values && u[k'] in b.Values;
      }
    }
    forall v | v in InvertMap(a) + InvertMap(b) ensures v in InvertMap(u) && InvertMap(u)[v] == (InvertMap(a) + InvertMap(b))[v] {
      var k := (InvertMap(a) + InvertMap(b))[v];
      if v in InvertMap(b) {
        InvertMapAt(b, k);
      } else {
        InvertMapAt(a, k);
      }
      InvertMapAt(u, k);
    }
    assert u.Values == a.Values + b.Values by {
      forall v | v in u.Values ensures v in a.Values + b.Values {
        var k :| k in u && u[k] == v;
        if k in b { assert b[k] in b.Values; } else { assert a[k] in a.Values; }
      }
      forall v | v in a.Values + b.Values ensures v in u.Values {
        if v in b.Values {
          var k :| k in b && b[k] == v;
          assert u[k] == v;
        } else {
          var k :| k in a && a[k] == v;
          assert u[k] == v;
        }
      }
    }
  }

  function KeySet<K, V>(es: seq<(K, V)>): set<K> {
    set i | 0 <= i < |es| :: es[i].0
  }

  function ValueSet<K, V>(es: seq<(K, V)>): set<V> {
    set i | 0 <= i < |es| :: es[i].1
  }

  /** The object the entries build, assigning them in order. */
  function ToMap<K, V>(es: seq<(K, V)>): (m: map<K, V>)
    ensures m.Keys == KeySet(es)
  {
    if es == [] then map[]
    else
      var init := es[..|es| - 1];
      var m0 := ToMap(init);
      assert KeySet(es) == KeySet(init) + {es[|es| - 1].0} by {
        forall k | k in KeySet(es) ensures k in KeySet(init) + {es[|es| - 1].0} {
          var i :| 0 <= i < |es| && es[i].0 == k;
          if i < |es| - 1 { assert init[i] == es[i]; }
        }
        forall k | k in KeySet(init) ensures k in KeySet(es) {
          var i :| 0 <= i < |init| && init[i].0 == k;
          assert es[i] == init[i];
        }
      }
      m0[es[|es| - 1].0 := es[|es| - 1].1]
  }

  /** `acc[value] = key` for every entry, in order. */
  function Invert<K, V>(es: seq<(K, V)>): (m: map<V, K>)
    ensures m.Keys == ValueSet(es)
  {
    if es == [] then map[]
    else
      var init := es[..|es| - 1];
      var m0 := Invert(init);
      assert ValueSet(es) == ValueSet(init) + {es[|es| - 1].1} by {
        forall v | v in ValueSet(es) ensures v in ValueSet(init) + {es[|es| - 1].1} {
          var i :| 0 <= i < |es| && es[i].1 == v;
          if i < |es| - 1 { assert init[i] == es[i]; }
        }
        forall v | v in ValueSet(init) ensures v in ValueSet(es) {
          var i :| 0 <= i < |init| && init[i].1 == v;
          assert es[i] == init[i];
        }
      }
      m0[es[|es| - 1].1 := es[|es| - 1].0]
  }

  /** A lookup sees the last entry assigning that key. */
  lemma {:induction false} ToMapLastWins<K, V>(es: seq<(K, V)>, i: nat)
    requires i < |es|
    requires forall j | i < j < |es| :: es[j].0 != es[i].0
    ensures es[i].0 in ToMap(es) && ToMap(es)[es[i].0] == es[i].1
  {
    if i < |es| - 1 {
      var init := es[..|es| - 1];
      assert init[i] == es[i];
      forall j | i < j < |init| ensures init[j].0 != init[i].0 {
        assert init[j] == es[j];
      }
      ToMapLastWins(init, i);
    }
  }

  /** The inverse maps a value to the last key bearing it. */
  lemma {:induction false} InvertLastWins<K, V>(es: seq<(K, V)>, i: nat)
    requires i < |es|
    requires forall j | i < j < |es| :: es[j].1 != es[i].1
    ensures es[i].1 in Invert(es) && Invert(es)[es[i].1] == es[i].0
  {
    if i < |es| - 1 {
      var init := es[..|es| - 1];
      assert init[i] == es[i];
      forall j | i < j < |init| ensures init[j].1 != init[i].1 {
        assert init[j] == es[j];
      }
      InvertLastWins(init, i);
    }
  }

  predicate DistinctKeys<K(==), V>(es: seq<(K, V)>) {
    forall i, j | 0 <= i < j < |es| :: es[i].0 != es[j].0
  }

  /** With distinct keys the object holds the value of every entry and no
      other value. */
  lemma ToMapValues<K, V>(es: seq<(K, V)>)
    requires DistinctKeys(es)
    ensures ToMap(es).Values == ValueSet(es)
  {
    forall v | v in ValueSet(es) ensures v in ToMap(es).Values {
      var i :| 0 <= i < |es| && es[i].1 == v;
      ToMapLastWins(es, i);
    }
    forall v | v in ToMap(es).Values ensures v in ValueSet(es) {
      var k :| k in ToMap(es) && ToMap(es)[k] == v;
      var i :| 0 <= i < |es| && es[i].0 == k;
      ToMapLastWins(es, i);
    }
  }
}
