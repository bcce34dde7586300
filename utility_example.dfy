/**
 * The worked example of the unit test for `objectProduct`: criteria
 * `{a: [1, 2, 3], b: 'xyz', c: ['a', 'b', 'c']}`, with the single value
 * `'xyz'` written as the one-candidate sequence `['xyz']`. The order is first
 * proved for any three distinct keys and any candidates of the same shape.
 */
module UtilityExample {
  import opened CartesianProduct
  import opened CriteriaExpander

  /** Criteria of the test's shape: three candidates, one, and three. */
  function Criteria<V>(ka: string, kb: string, kc: string, a: seq<V>, b: V, c: seq<V>): (criteria: map<string, seq<V>>)
  {
    map[ka := a, kb := [b], kc := c]
  }

  /** The criteria list their keys in the given order, and their candidate sequences are `a`, `[b]`, `c`. */
  lemma ThreeKeysValues<V>(ka: string, kb: string, kc: string, a: seq<V>, b: V, c: seq<V>)
    requires ka != kb && kb != kc && ka != kc
    ensures Enumerates([ka, kb, kc], Criteria(ka, kb, kc, a, b, c))
    ensures ValuesOf([ka, kb, kc], Criteria(ka, kb, kc, a, b, c)) == [a, [b], c]
  {
  }

  /** Choice `[i, 0, j]` has rank `3 * i + j` among the 9 combinations. */
  lemma ThreeKeysRank<V>(a: seq<V>, b: V, c: seq<V>, i: nat, j: nat)
    requires |a| == 3 && |c| == 3 && i < 3 && j < 3
    ensures Count([a, [b], c]) == 9
    ensures IsChoice([i, 0, j], [a, [b], c])
    ensures Rank([a, [b], c], [i, 0, j]) == 3 * i + j
  {
    var values := [a, [b], c];
    var d: seq<nat> := [i, 0, j];
    assert values[1..] == [[b], c] && [[b], c][1..] == [c] && |[c][1..]| == 0;
    assert d[1..] == [0, j] && d[1..][1..] == [j] && |d[1..][1..][1..]| == 0;
    assert Count([c]) == 3;
    assert Count([[b], c]) == 1 * Count([c]);
    calc {
      Rank(values, d);
      i * 3 + Rank([[b], c], [0, j]);
      i * 3 + 0 * 3 + Rank([c], [j]);
      i * 3 + j * 1 + Rank<V>([], []);
      3 * i + j;
    }
  }

  /** Object number `k == 3 * i + j` takes candidate `i` of the first key and candidate `j` of the last. */
  lemma ThreeKeysAt<V>(ka: string, kb: string, kc: string, a: seq<V>, b: V, c: seq<V>, i: nat, j: nat, k: nat)
    requires ka != kb && kb != kc && ka != kc
    requires |a| == 3 && |c| == 3 && i < 3 && j < 3 && k == 3 * i + j
    ensures Enumerates([ka, kb, kc], Criteria(ka, kb, kc, a, b, c))
    ensures |ObjectProduct([ka, kb, kc], Criteria(ka, kb, kc, a, b, c))| == 9
    ensures ObjectProduct([ka, kb, kc], Criteria(ka, kb, kc, a, b, c))[k] ==
      map[ka := a[i], kb := b, kc := c[j]]
  {
    var keys, obj := [ka, kb, kc], Criteria(ka, kb, kc, a, b, c);
    ThreeKeysValues(ka, kb, kc, a, b, c);
    ThreeKeysRank(a, b, c, i, j);
    var d: seq<nat> := [i, 0, j];
    ObjectProductAtRank(keys, obj, d, 0);
    ObjectProductAtRank(keys, obj, d, 1);
    ObjectProductAtRank(keys, obj, d, 2);
    var e := ObjectProduct(keys, obj)[k];
    assert e[ka] == a[i] && e[kb] == b && e[kc] == c[j];
    assert e.Keys == obj.Keys;
  }

  /** All nine objects, in order: the first key varies slowest, the last fastest. */
  lemma ThreeKeysOrder<V>(ka: string, kb: string, kc: string, a: seq<V>, b: V, c: seq<V>)
    requires ka != kb && kb != kc && ka != kc
    requires |a| == 3 && |c| == 3
    ensures Enumerates([ka, kb, kc], Criteria(ka, kb, kc, a, b, c))
    ensures ObjectProduct([ka, kb, kc], Criteria(ka, kb, kc, a, b, c)) ==
      [map[ka := a[0], kb := b, kc := c[0]], map[ka := a[0], kb := b, kc := c[1]], map[ka := a[0], kb := b, kc := c[2]],
       map[ka := a[1], kb := b, kc := c[0]], map[ka := a[1], kb := b, kc := c[1]], map[ka := a[1], kb := b, kc := c[2]],
       map[ka := a[2], kb := b, kc := c[0]], map[ka := a[2], kb := b, kc := c[1]], map[ka := a[2], kb := b, kc := c[2]]]
  {
    var keys, obj := [ka, kb, kc], Criteria(ka, kb, kc, a, b, c);
    ThreeKeysAt(ka, kb, kc, a, b, c, 0, 0, 0);
    var r := ObjectProduct(keys, obj);
    NineEntries(r);
    ThreeKeysAt(ka, kb, kc, a, b, c, 0, 1, 1); ThreeKeysAt(ka, kb, kc, a, b, c, 0, 2, 2);
    ThreeKeysAt(ka, kb, kc, a, b, c, 1, 0, 3); ThreeKeysAt(ka, kb, kc, a, b, c, 1, 1, 4);
    ThreeKeysAt(ka, kb, kc, a, b, c, 1, 2, 5); ThreeKeysAt(ka, kb, kc, a, b, c, 2, 0, 6);
    ThreeKeysAt(ka, kb, kc, a, b, c, 2, 1, 7); ThreeKeysAt(ka, kb, kc, a, b, c, 2, 2, 8);
  }

  lemma NineEntries<X>(r: seq<X>)
    requires |r| == 9
    ensures r == [r[0], r[1], r[2], r[3], r[4], r[5], r[6], r[7], r[8]]
  {
  }

  /** The values the test mixes: numbers and strings. */
  datatype Scalar = Num(n: int) | Str(s: string)

  /** One expected criterion of the test: `{a: a, b: 'xyz', c: c}`. */
  function Row(a: Scalar, c: Scalar): (row: map<string, Scalar>)
  {
    map["a" := a, "b" := Str("xyz"), "c" := c]
  }

  /** The test's expected result, in its order. */
  lemma ExpectedOrder()
    ensures Enumerates(["a", "b", "c"], Criteria("a", "b", "c", [Num(1), Num(2), Num(3)], Str("xyz"), [Str("a"), Str("b"), Str("c")]))
    ensures ObjectProduct(["a", "b", "c"], Criteria("a", "b", "c", [Num(1), Num(2), Num(3)], Str("xyz"), [Str("a"), Str("b"), Str("c")])) ==
      [Row(Num(1), Str("a")), Row(Num(1), Str("b")), Row(Num(1), Str("c")),
       Row(Num(2), Str("a")), Row(Num(2), Str("b")), Row(Num(2), Str("c")),
       Row(Num(3), Str("a")), Row(Num(3), Str("b")), Row(Num(3), Str("c"))]
  {
    ThreeKeysOrder("a", "b", "c", [Num(1), Num(2), Num(3)], Str("xyz"), [Str("a"), Str("b"), Str("c")]);
  }
}
