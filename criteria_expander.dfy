/**
 * `objectProduct`: expands a criteria object whose keys map to candidate
 * sequences into every object that fixes one candidate per key. Keys are
 * strings, as in a JavaScript object, and are taken in an explicit order that
 * stands for the object's key enumeration order; the result follows `product`
 * over the candidate sequences in that order.
 */
module CriteriaExpander {
  import opened CartesianProduct

  /** `keys` lists every key of `obj` exactly once, as `Object.keys` does. */
  ghost predicate Enumerates<V>(keys: seq<string>, obj: map<string, V>)
  {
    Distinct(keys) && (forall k :: k in obj <==> k in keys)
  }

  /** `keys.map(x => obj[x])`: the candidate sequences in key order. */
  function ValuesOf<V>(keys: seq<string>, obj: map<string, seq<V>>): (vs: seq<seq<V>>)
    requires forall n :: 0 <= n < |keys| ==> keys[n] in obj
    ensures |vs| == |keys|
    ensures forall n :: 0 <= n < |keys| ==> vs[n] == obj[keys[n]]
  {
    seq(|keys|, n requires 0 <= n < |keys| => obj[keys[n]])
  }

  /**
   * `keys.forEach((k, n) => e[k] = p[n])` on a fresh object: the keys are
   * assigned left to right, so a later duplicate key would win.
   */
  function Attach<V>(keys: seq<string>, p: seq<V>): (e: map<string, V>)
    requires |p| == |keys|
    ensures forall k :: k in e <==> k in keys
  {
    if |keys| == 0 then map[]
    else
      var last := |keys| - 1;
      var e := Attach(keys[..last], p[..last]);
      assert forall k :: k in keys <==> k in keys[..last] || k == keys[last] by {
        assert keys == keys[..last] + [keys[last]];
      }
      e[keys[last] := p[last]]
  }

  /** `keys` has no key twice. */
  predicate Distinct(keys: seq<string>)
  {
    forall i, j :: 0 <= i < j < |keys| ==> keys[i] != keys[j]
  }

  /** With distinct keys, key number `n` is mapped to entry `n`. */
  lemma {:induction false} AttachAt<V>(keys: seq<string>, p: seq<V>, n: nat)
    requires |p| == |keys| && Distinct(keys) && n < |keys|
    ensures keys[n] in Attach(keys, p) && Attach(keys, p)[keys[n]] == p[n]
  {
    var last := |keys| - 1;
    if n < last {
      var front := keys[..last];
      assert Distinct(front) by {
        forall i, j | 0 <= i < j < |front| ensures front[i] != front[j] {
          assert front[i] == keys[i] && front[j] == keys[j];
        }
      }
      AttachAt(front, p[..last], n);
      assert front[n] == keys[n] != keys[last];
    }
  }

  /** Every combination of `product` has one entry per position. */
  lemma ProductLengths<T>(args: seq<seq<T>>)
    ensures forall c :: c in Product(args) ==> |c| == |args|
  {
    forall c | c in Product(args) ensures |c| == |args| {
      ProductSound(args, c);
    }
  }

  /**
   * `objectProduct(obj)`: as many objects as `product` has combinations of
   * the candidate sequences, each with exactly the keys of `obj`.
   */
  function ObjectProduct<V>(keys: seq<string>, obj: map<string, seq<V>>): (r: seq<map<string, V>>)
    requires Enumerates(keys, obj)
    ensures |r| == Count(ValuesOf(keys, obj))
    ensures forall i :: 0 <= i < |r| ==> r[i].Keys == obj.Keys
  {
    var prod := Product(ValuesOf(keys, obj));
    ProductLengths(ValuesOf(keys, obj));
    seq(|prod|, i requires 0 <= i < |prod| => Attach(keys, prod[i]))
  }

  /** Object number `i` is combination number `i` of `product` with the keys attached. */
  lemma ObjectProductEntry<V>(keys: seq<string>, obj: map<string, seq<V>>, i: nat)
    requires Enumerates(keys, obj) && i < |ObjectProduct(keys, obj)|
    ensures |Product(ValuesOf(keys, obj))[i]| == |keys|
    ensures ObjectProduct(keys, obj)[i] == Attach(keys, Product(ValuesOf(keys, obj))[i])
  {
    var prod := Product(ValuesOf(keys, obj));
    ProductLengths(ValuesOf(keys, obj));
    assert prod[i] in prod;
  }

  /**
   * The keys are re-attached by position: object number `i` maps key number
   * `n` to entry `n` of combination number `i` of `product`.
   */
  lemma ObjectProductAt<V>(keys: seq<string>, obj: map<string, seq<V>>, i: nat, n: nat)
    requires Enumerates(keys, obj)
    requires i < |ObjectProduct(keys, obj)| && n < |keys|
    ensures |Product(ValuesOf(keys, obj))[i]| == |keys|
    ensures ObjectProduct(keys, obj)[i][keys[n]] == Product(ValuesOf(keys, obj))[i][n]
  {
    ObjectProductEntry(keys, obj, i);
    AttachAt(keys, Product(ValuesOf(keys, obj))[i], n);
  }

  /**
   * The ordering law for objects: the object at index `Rank(values, d)` maps
   * key number `n` to candidate `d[n]` of that key.
   */
  lemma ObjectProductAtRank<V>(keys: seq<string>, obj: map<string, seq<V>>, d: seq<nat>, n: nat)
    requires Enumerates(keys, obj)
    requires IsChoice(d, ValuesOf(keys, obj)) && n < |keys|
    ensures Rank(ValuesOf(keys, obj), d) < |ObjectProduct(keys, obj)|
    ensures ObjectProduct(keys, obj)[Rank(ValuesOf(keys, obj), d)][keys[n]] == obj[keys[n]][d[n]]
  {
    var values := ValuesOf(keys, obj);
    ProductAtRank(values, d);
    ObjectProductAt(keys, obj, Rank(values, d), n);
  }

  /**
   * Every object produced has exactly the criteria's keys, each mapped to one
   * of that key's candidates.
   */
  lemma ObjectProductSound<V>(keys: seq<string>, obj: map<string, seq<V>>, e: map<string, V>)
    requires Enumerates(keys, obj)
    requires e in ObjectProduct(keys, obj)
    ensures e.Keys == obj.Keys
    ensures forall k :: k in e ==> e[k] in obj[k]
  {
    var values := ValuesOf(keys, obj);
    var r := ObjectProduct(keys, obj);
    var i :| 0 <= i < |r| && r[i] == e;
    var c := Product(values)[i];
    ProductSound(values, c);
    forall k | k in e ensures e[k] in obj[k] {
      var n :| 0 <= n < |keys| && keys[n] == k;
      ObjectProductAt(keys, obj, i, n);
      assert e[k] == c[n] && c[n] in values[n];
    }
  }

  /** Every object that fixes one candidate per key is produced. */
  lemma ObjectProductComplete<V>(keys: seq<string>, obj: map<string, seq<V>>, e: map<string, V>)
    requires Enumerates(keys, obj)
    requires e.Keys == obj.Keys
    requires forall k :: k in e ==> e[k] in obj[k]
    ensures e in ObjectProduct(keys, obj)
  {
    var values := ValuesOf(keys, obj);
    var c := seq(|keys|, n requires 0 <= n < |keys| => e[keys[n]]);
    assert IsCombination(c, values);
    ProductComplete(values, c);
    var prod := Product(values);
    var i :| 0 <= i < |prod| && prod[i] == c;
    ObjectProductEntry(keys, obj, i);
    AttachRebuilds(keys, e, c);
    assert ObjectProduct(keys, obj)[i] == e;
  }

  /** Attaching the keys to the values an object gives them rebuilds that object. */
  lemma AttachRebuilds<V>(keys: seq<string>, e: map<string, V>, c: seq<V>)
    requires Enumerates(keys, e)
    requires |c| == |keys| && forall n :: 0 <= n < |keys| ==> c[n] == e[keys[n]]
    ensures Attach(keys, c) == e
  {
    var a := Attach(keys, c);
    forall k | k in e ensures a[k] == e[k] {
      var n :| 0 <= n < |keys| && keys[n] == k;
      AttachAt(keys, c, n);
    }
    assert a.Keys == e.Keys;
  }

  /** Criteria without keys expand to one criterion without keys. */
  lemma ObjectProductOfNothing<V>()
    ensures ObjectProduct<V>([], map[]) == [map[]]
  {
    assert ValuesOf<V>([], map[]) == [];
    ProductOfNothing<V>();
  }
}
