/**
 * The cartesian-product expander of the adapter: `product` takes a sequence of
 * candidate sequences (one per position) and lists every combination that picks
 * one candidate per position. The first position varies slowest, the last
 * fastest, and repeated candidates give repeated combinations.
 */
module CartesianProduct {

  /** The number of combinations: the product of the candidate counts. */
  function Count<T>(args: seq<seq<T>>): (n: nat)
  {
    if |args| == 0 then 1 else |args[0]| * Count(args[1..])
  }

  /** `c` picks, at every position `i`, one of the candidates `args[i]`. */
  ghost predicate IsCombination<T>(c: seq<T>, args: seq<seq<T>>)
  {
    |c| == |args| && forall i :: 0 <= i < |args| ==> c[i] in args[i]
  }

  /** The inner loop of `product`: `[x] + p` for every `p` of `prod`, in order. */
  function PrependEach<T>(x: T, prod: seq<seq<T>>): (r: seq<seq<T>>)
    ensures |r| == |prod|
    ensures forall j :: 0 <= j < |prod| ==> r[j] == [x] + prod[j]
  {
    if |prod| == 0 then [] else [[x] + prod[0]] + PrependEach(x, prod[1..])
  }

  /**
   * The two nested loops of `product`: for every candidate `x` of `xs`, in
   * order, every combination `p` of `prod`, in order, is pushed as `[x] + p`.
   */
  function Expand<T>(xs: seq<T>, prod: seq<seq<T>>): (r: seq<seq<T>>)
    ensures |r| == |xs| * |prod|
  {
    if |xs| == 0 then []
    else
      assert |xs| * |prod| == |prod| + (|xs| - 1) * |prod|;
      PrependEach(xs[0], prod) + Expand(xs[1..], prod)
  }

  /** Within `Expand`, the pair (i, j) sits at index `i * |prod| + j`. */
  lemma ExpandAt<T>(xs: seq<T>, prod: seq<seq<T>>, i: nat, j: nat)
    requires i < |xs| && j < |prod|
    ensures i * |prod| + j < |Expand(xs, prod)|
    ensures Expand(xs, prod)[i * |prod| + j] == [xs[i]] + prod[j]
  {
    BlockStartIsProduct(i, |prod|);
    ExpandAtOffset(xs, prod, i, j, BlockStart(i, |prod|) + j);
  }

  /** The index where block `i` of blocks of length `n` starts, counted out by addition. */
  function BlockStart(i: nat, n: nat): (start: nat)
  {
    if i == 0 then 0 else BlockStart(i - 1, n) + n
  }

  /** Block `i` starts at `i * n`. */
  lemma {:induction false} BlockStartIsProduct(i: nat, n: nat)
    ensures BlockStart(i, n) == i * n
  {
    if i > 0 {
      BlockStartIsProduct(i - 1, n);
      MulPred(i, n);
    }
  }

  /** `ExpandAt` with the block start counted by `BlockStart`, so that the induction needs no multiplication. */
  lemma {:induction false} ExpandAtOffset<T>(xs: seq<T>, prod: seq<seq<T>>, i: nat, j: nat, k: nat)
    requires i < |xs| && j < |prod| && k == BlockStart(i, |prod|) + j
    ensures k < |Expand(xs, prod)|
    ensures Expand(xs, prod)[k] == [xs[i]] + prod[j]
  {
    if i == 0 {
      ExpandFirst(xs, prod, j);
    } else {
      var n := |prod|;
      ExpandAtOffset(xs[1..], prod, i - 1, j, k - n);
      ExpandRest(xs, prod, k - n);
      assert [xs[1..][i - 1]] == [xs[i]];
    }
  }

  /** The first `|prod|` entries of `Expand` pair the first candidate with `prod`. */
  lemma ExpandFirst<T>(xs: seq<T>, prod: seq<seq<T>>, j: nat)
    requires 0 < |xs| && j < |prod|
    ensures j < |Expand(xs, prod)| && Expand(xs, prod)[j] == [xs[0]] + prod[j]
  {
    var head, rest := PrependEach(xs[0], prod), Expand(xs[1..], prod);
    assert Expand(xs, prod) == head + rest;
    assert (head + rest)[j] == head[j];
  }

  /** After them comes `Expand` of the remaining candidates. */
  lemma ExpandRest<T>(xs: seq<T>, prod: seq<seq<T>>, m: nat)
    requires 0 < |xs| && m < |Expand(xs[1..], prod)|
    ensures |prod| + m < |Expand(xs, prod)|
    ensures Expand(xs, prod)[|prod| + m] == Expand(xs[1..], prod)[m]
  {
    var head, rest := PrependEach(xs[0], prod), Expand(xs[1..], prod);
    assert Expand(xs, prod) == head + rest;
    assert (head + rest)[|head| + m] == rest[m];
  }

  /** Every pair of a candidate of `xs` and an entry of `prod` is pushed. */
  lemma {:induction false} ExpandContains<T>(xs: seq<T>, prod: seq<seq<T>>, i: nat, j: nat)
    requires i < |xs| && j < |prod|
    ensures [xs[i]] + prod[j] in Expand(xs, prod)
  {
    var head, rest := PrependEach(xs[0], prod), Expand(xs[1..], prod);
    assert Expand(xs, prod) == head + rest;
    if i == 0 {
      assert head[j] == [xs[0]] + prod[j];
    } else {
      ExpandContains(xs[1..], prod, i - 1, j);
      assert xs[1..][i - 1] == xs[i];
    }
  }

  /** Every entry of `Expand` is some candidate of `xs` followed by some entry of `prod`. */
  lemma {:induction false} ExpandMember<T>(xs: seq<T>, prod: seq<seq<T>>, c: seq<T>)
    requires c in Expand(xs, prod)
    ensures |c| > 0 && c[0] in xs && c[1..] in prod
  {
    var head, rest := PrependEach(xs[0], prod), Expand(xs[1..], prod);
    assert Expand(xs, prod) == head + rest;
    if c in head {
      var j :| 0 <= j < |head| && head[j] == c;
      assert c[1..] == prod[j];
    } else {
      ExpandMember(xs[1..], prod, c);
    }
  }

  /** `product(args)`: an empty `args` gives the single empty combination. */
  function Product<T>(args: seq<seq<T>>): (r: seq<seq<T>>)
    ensures |r| == Count(args)
  {
    if |args| == 0 then [[]] else Expand(args[0], Product(args[1..]))
  }

  /** The base case: no positions give exactly one combination, the empty one. */
  lemma ProductOfNothing<T>()
    ensures Product<T>([]) == [[]]
  {
  }

  /** Every combination produced has one entry per position, drawn from that position's candidates. */
  lemma {:induction false} ProductSound<T>(args: seq<seq<T>>, c: seq<T>)
    requires c in Product(args)
    ensures IsCombination(c, args)
  {
    if |args| > 0 {
      var tail := Product(args[1..]);
      ExpandMember(args[0], tail, c);
      ProductSound(args[1..], c[1..]);
      forall i | 1 <= i < |args| ensures c[i] in args[i] {
        assert c[i] == c[1..][i - 1] && args[i] == args[1..][i - 1];
      }
    }
  }

  /** Every combination that picks one candidate per position is produced. */
  lemma {:induction false} ProductComplete<T>(args: seq<seq<T>>, c: seq<T>)
    requires IsCombination(c, args)
    ensures c in Product(args)
  {
    if |args| == 0 {
      assert c == [];
    } else {
      var tail := Product(args[1..]);
      assert IsCombination(c[1..], args[1..]) by {
        forall i | 0 <= i < |args| - 1 ensures c[1..][i] in args[1..][i] {
          assert c[1..][i] == c[i + 1] && args[1..][i] == args[i + 1];
        }
      }
      ProductComplete(args[1..], c[1..]);
      var i :| 0 <= i < |args[0]| && args[0][i] == c[0];
      var j :| 0 <= j < |tail| && tail[j] == c[1..];
      ExpandContains(args[0], tail, i, j);
      assert [c[0]] + c[1..] == c;
    }
  }

  /**
   * The order of `product`: combination number `i * |tail| + j` is candidate
   * `i` of the first position followed by combination `j` of the remaining
   * positions, so the first position varies slowest.
   */
  lemma ProductAt<T>(args: seq<seq<T>>, i: nat, j: nat)
    requires |args| > 0 && i < |args[0]| && j < |Product(args[1..])|
    ensures i * |Product(args[1..])| + j < |Product(args)|
    ensures Product(args)[i * |Product(args[1..])| + j] == [args[0][i]] + Product(args[1..])[j]
  {
    ExpandAt(args[0], Product(args[1..]), i, j);
  }

  /** There are no combinations exactly when some position has no candidates. */
  lemma {:induction false} CountZero<T>(args: seq<seq<T>>)
    ensures Count(args) == 0 <==> exists i :: 0 <= i < |args| && args[i] == []
  {
    if |args| > 0 {
      CountZero(args[1..]);
      if exists i :: 0 <= i < |args| - 1 && args[1..][i] == [] {
        var i :| 0 <= i < |args| - 1 && args[1..][i] == [];
        assert args[i + 1] == [];
      }
      if exists i :: 0 <= i < |args| && args[i] == [] {
        var i :| 0 <= i < |args| && args[i] == [];
        if i > 0 {
          assert args[1..][i - 1] == [];
        }
      }
    }
  }

  /** A position without candidates empties the whole product. */
  lemma ProductEmptyFactor<T>(args: seq<seq<T>>, i: nat)
    requires i < |args| && args[i] == []
    ensures Product(args) == []
  {
    CountZero(args);
  }

  /**
   * Repeated candidates are not merged: two equal candidates of the first
   * position give two equal combinations at two distinct indices.
   */
  lemma ProductKeepsDuplicates<T>(args: seq<seq<T>>, i1: nat, i2: nat, j: nat)
    requires |args| > 0 && i1 < i2 < |args[0]| && args[0][i1] == args[0][i2]
    requires j < |Product(args[1..])|
    ensures i1 * |Product(args[1..])| + j < i2 * |Product(args[1..])| + j < |Product(args)|
    ensures Product(args)[i1 * |Product(args[1..])| + j] == Product(args)[i2 * |Product(args[1..])| + j]
  {
    var n := |Product(args[1..])|;
    ProductAt(args, i1, j);
    ProductAt(args, i2, j);
    MixedRadixLess(i1, i2, n, j, j);
  }

  /** `d` names one candidate index per position. */
  ghost predicate IsChoice<T>(d: seq<nat>, args: seq<seq<T>>)
  {
    |d| == |args| && forall p :: 0 <= p < |args| ==> d[p] < |args[p]|
  }

  /** The combination that takes candidate `d[p]` at every position `p`. */
  function Pick<T>(args: seq<seq<T>>, d: seq<nat>): (c: seq<T>)
    requires IsChoice(d, args)
    ensures |c| == |args|
  {
    seq(|args|, p requires 0 <= p < |args| => args[p][d[p]])
  }

  /**
   * The mixed-radix number whose digits are `d`, first position most
   * significant: the lexicographic rank of the choice `d`.
   */
  function Rank<T>(args: seq<seq<T>>, d: seq<nat>): (rank: nat)
    requires IsChoice(d, args)
  {
    if |args| == 0 then 0
    else
      TailChoice(d, args);
      d[0] * Count(args[1..]) + Rank(args[1..], d[1..])
  }

  /** The first choice that differs is smaller in `d1` than in `d2`. */
  ghost predicate LexLess(d1: seq<nat>, d2: seq<nat>)
    decreases |d1|
  {
    |d1| > 0 && |d2| > 0 &&
    (d1[0] < d2[0] || (d1[0] == d2[0] && LexLess(d1[1..], d2[1..])))
  }

  lemma TailChoice<T>(d: seq<nat>, args: seq<seq<T>>)
    requires IsChoice(d, args) && |args| > 0
    ensures IsChoice(d[1..], args[1..])
  {
    forall p | 0 <= p < |args| - 1 ensures d[1..][p] < |args[1..][p]| {
      assert d[1..][p] == d[p + 1] && args[1..][p] == args[p + 1];
    }
  }

  /** Every rank is the index of some combination. */
  lemma {:induction false} RankBound<T>(args: seq<seq<T>>, d: seq<nat>)
    requires IsChoice(d, args)
    ensures Rank(args, d) < Count(args)
  {
    if |args| > 0 {
      TailChoice(d, args);
      RankBound(args[1..], d[1..]);
      MixedRadixLess(d[0], |args[0]|, Count(args[1..]), Rank(args[1..], d[1..]), 0);
    }
  }

  /** Euclidean division of an index below `m * n` by `n`. */
  lemma DivBelow(k: nat, n: nat, m: nat)
    requires n > 0 && k < m * n
    ensures k == (k / n) * n + k % n && k % n < n && k / n < m
  {
    if k / n >= m {
      MulMono(m, k / n, n);
    }
  }

  lemma MulPred(i: nat, n: nat)
    requires i > 0
    ensures i * n == (i - 1) * n + n
  {
  }

  lemma MulMono(a: nat, b: nat, n: nat)
    requires a <= b
    ensures a * n <= b * n
  {
  }

  /** Mixed-radix comparison: a smaller leading digit gives a smaller number. */
  lemma MixedRadixLess(a: nat, b: nat, n: nat, r1: nat, r2: nat)
    requires a < b && r1 < n
    ensures a * n + r1 < b * n + r2
  {
    MulPred(a + 1, n);
    MulMono(a + 1, b, n);
  }

  /**
   * The ordering law in closed form: the combination at index `Rank(args, d)`
   * is the one that picks candidate `d[p]` at every position `p`.
   */
  lemma {:induction false} ProductAtRank<T>(args: seq<seq<T>>, d: seq<nat>)
    requires IsChoice(d, args)
    ensures Rank(args, d) < |Product(args)|
    ensures Product(args)[Rank(args, d)] == Pick(args, d)
  {
    RankBound(args, d);
    if |args| > 0 {
      TailChoice(d, args);
      RankBound(args[1..], d[1..]);
      ProductAtRank(args[1..], d[1..]);
      ProductAt(args, d[0], Rank(args[1..], d[1..]));
      var tailPick := Pick(args[1..], d[1..]);
      assert [args[0][d[0]]] + tailPick == Pick(args, d) by {
        forall p | 1 <= p < |args| ensures tailPick[p - 1] == args[p][d[p]] {
          assert args[1..][p - 1] == args[p] && d[1..][p - 1] == d[p];
        }
      }
    }
  }

  /**
   * `product` lists its combinations in lexicographic order of their
   * candidate indices: a choice that is lexicographically smaller comes earlier.
   */
  lemma {:induction false} RankLexOrder<T>(args: seq<seq<T>>, d1: seq<nat>, d2: seq<nat>)
    requires IsChoice(d1, args) && IsChoice(d2, args)
    requires LexLess(d1, d2)
    ensures Rank(args, d1) < Rank(args, d2)
  {
    TailChoice(d1, args);
    TailChoice(d2, args);
    var n := Count(args[1..]);
    var r1, r2 := Rank(args[1..], d1[1..]), Rank(args[1..], d2[1..]);
    if d1[0] < d2[0] {
      RankBound(args[1..], d1[1..]);
      MixedRadixLess(d1[0], d2[0], n, r1, r2);
    } else {
      RankLexOrder(args[1..], d1[1..], d2[1..]);
    }
  }

  /** Every index below `Count(args)` is the rank of some choice. */
  lemma {:induction false} RankOnto<T>(args: seq<seq<T>>, k: nat)
    requires k < Count(args)
    ensures exists d :: IsChoice(d, args) && Rank(args, d) == k
  {
    if |args| == 0 {
      assert IsChoice([], args) && Rank(args, []) == k;
    } else {
      var n := Count(args[1..]);
      assert n > 0;
      var i, j := k / n, k % n;
      DivBelow(k, n, |args[0]|);
      RankOnto(args[1..], j);
      var d' :| IsChoice(d', args[1..]) && Rank(args[1..], d') == j;
      var d := [i] + d';
      assert d[1..] == d';
      assert IsChoice(d, args) by {
        forall p | 1 <= p < |args| ensures d[p] < |args[p]| {
          assert d[p] == d'[p - 1] && args[p] == args[1..][p - 1];
        }
      }
      assert Rank(args, d) == i * n + j;
    }
  }
}
