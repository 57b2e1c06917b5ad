/** Generic facts about finite sequences used throughout the model: an
    optional value, occurrence counts, duplicate-free sequences and tallies
    of a sequence over a list of keys. */
module Seqs {

  /** A present or absent value; failure-compatible so `:-` can be used. */
  datatype Option<+T> = None | Some(value: T) {
    predicate IsFailure() {
      None?
    }

    function PropagateFailure<U>(): Option<U>
      requires None?
    {
      None
    }

    function Extract(): T
      requires Some?
    {
      value
    }
  }

  /** Number of positions of `xs` that hold `v`. */
  function Count<T(==)>(xs: seq<T>, v: T): (n: nat)
    ensures n <= |xs|
    ensures n == 0 <==> v !in xs
  {
    if |xs| == 0 then 0
    else
      assert xs == [xs[0]] + xs[1..];
      (if xs[0] == v then 1 else 0) + Count(xs[1..], v)
  }

  lemma {:induction false} CountConcat<T>(xs: seq<T>, ys: seq<T>, v: T)
    ensures Count(xs + ys, v) == Count(xs, v) + Count(ys, v)
  {
    if |xs| == 0 {
      assert xs + ys == ys;
    } else {
      assert (xs + ys)[1..] == xs[1..] + ys;
      CountConcat(xs[1..], ys, v);
    }
  }

  predicate Distinct<T(==)>(xs: seq<T>) {
    forall i, j :: 0 <= i < j < |xs| ==> xs[i] != xs[j]
  }

  /** A duplicate-free sequence holds each of its elements exactly once. */
  lemma {:induction false} DistinctCountOne<T>(xs: seq<T>, v: T)
    requires Distinct(xs)
    requires v in xs
    ensures Count(xs, v) == 1
  {
    if xs[0] == v {
      assert v !in xs[1..];
    } else {
      DistinctCountOne(xs[1..], v);
    }
  }

  /** The number of distinct values of a duplicate-free sequence is its length. */
  lemma {:induction false} DistinctCardinality<T>(xs: seq<T>)
    requires Distinct(xs)
    ensures |set x | x in xs| == |xs|
  {
    if |xs| > 0 {
      var rest := set x | x in xs[1..];
      DistinctCardinality(xs[1..]);
      assert xs[0] !in rest;
      assert (set x | x in xs) == {xs[0]} + rest;
    }
  }

  /** The distinct elements of `xs` in order of first appearance. */
  function Dedup<T(==)>(xs: seq<T>): (d: seq<T>)
    ensures Distinct(d)
    ensures forall i :: 0 <= i < |d| ==> d[i] in xs
    ensures forall i :: 0 <= i < |xs| ==> xs[i] in d
    ensures |d| <= |xs|
  {
    if |xs| == 0 then []
    else
      var init := xs[..|xs| - 1];
      var d := Dedup(init);
      assert xs == init + [xs[|xs| - 1]];
      if xs[|xs| - 1] in d then d else d + [xs[|xs| - 1]]
  }

  /** `Dedup` counts the distinct values of `xs`: never more than `|xs|`, and
      at least one when `xs` is non-empty. */
  lemma DedupCountsDistinct<T>(xs: seq<T>)
    ensures |Dedup(xs)| == |set x | x in xs|
    ensures |xs| > 0 ==> 1 <= |Dedup(xs)| <= |xs|
  {
    var d := Dedup(xs);
    DistinctCardinality(d);
    assert forall x :: x in d <==> x in xs by {
      forall x ensures x in d <==> x in xs {
        if x in d {
          var i :| 0 <= i < |d| && d[i] == x;
        }
        if x in xs {
          var i :| 0 <= i < |xs| && xs[i] == x;
        }
      }
    }
    assert (set x | x in d) == (set x | x in xs);
    if |xs| > 0 {
      assert xs[0] in d;
    }
  }

  /** Each key of `keys` paired with how often it occurs in `xs`. */
  function Tally<T(==)>(xs: seq<T>, keys: seq<T>): (t: seq<(T, nat)>)
    ensures |t| == |keys|
    ensures forall i :: 0 <= i < |t| ==> t[i] == (keys[i], Count(xs, keys[i]))
  {
    if |keys| == 0 then []
    else [(keys[0], Count(xs, keys[0]))] + Tally(xs, keys[1..])
  }

  /** The values of a table's key column. */
  function KeyColumn<K>(t: seq<(K, nat)>): (ks: seq<K>)
    ensures |ks| == |t|
    ensures forall i :: 0 <= i < |t| ==> ks[i] == t[i].0
  {
    if |t| == 0 then [] else [t[0].0] + KeyColumn(t[1..])
  }

  /** A tally lists exactly the keys it was asked for. */
  lemma TallyKeys<T>(xs: seq<T>, keys: seq<T>)
    ensures KeyColumn(Tally(xs, keys)) == keys
  {
    var t := Tally(xs, keys);
    assert forall i :: 0 <= i < |keys| ==> KeyColumn(t)[i] == keys[i];
  }

  /** A non-empty sequence has at least one distinct value. */
  lemma DedupSize<T>(xs: seq<T>)
    ensures |xs| > 0 ==> |Dedup(xs)| > 0
  {
    if |xs| > 0 {
      assert xs[0] in Dedup(xs);
    }
  }

  /** Every value of a sequence survives deduplication. */
  lemma DedupCovers<T>(xs: seq<T>)
    ensures forall v :: v in xs ==> v in Dedup(xs)
  {
    forall v | v in xs ensures v in Dedup(xs) {
      var i :| 0 <= i < |xs| && xs[i] == v;
    }
  }

  /** Sum of the counts of a tally. */
  function Sum<T>(t: seq<(T, nat)>): nat {
    if |t| == 0 then 0 else t[0].1 + Sum(t[1..])
  }

  lemma {:induction false} TallyOfEmpty<T>(keys: seq<T>)
    ensures Sum(Tally([], keys)) == 0
  {
    if |keys| > 0 {
      TallyOfEmpty(keys[1..]);
    }
  }

  lemma {:induction false} TallyCons<T>(x: T, xs: seq<T>, keys: seq<T>)
    ensures Sum(Tally([x] + xs, keys)) == Sum(Tally(xs, keys)) + Count(keys, x)
  {
    if |keys| > 0 {
      assert ([x] + xs)[1..] == xs;
      TallyCons(x, xs, keys[1..]);
    }
  }

  /** A tally over duplicate-free keys that include every element accounts
      for every element exactly once. */
  lemma {:induction false} TallyCoversAll<T>(xs: seq<T>, keys: seq<T>)
    requires Distinct(keys)
    requires forall i :: 0 <= i < |xs| ==> xs[i] in keys
    ensures Sum(Tally(xs, keys)) == |xs|
  {
    if |xs| == 0 {
      TallyOfEmpty(keys);
    } else {
      assert xs == [xs[0]] + xs[1..];
      TallyCoversAll(xs[1..], keys);
      TallyCons(xs[0], xs[1..], keys);
      DistinctCountOne(keys, xs[0]);
    }
  }

  /** The present results of `f` over `xs`, in order: the elements `f`
      rejects are skipped. */
  function FilterMap<T, R>(xs: seq<T>, f: T -> Option<R>): (rs: seq<R>)
    ensures |rs| <= |xs|
  {
    if |xs| == 0 then []
    else
      match f(xs[0])
      case Some(r) => [r] + FilterMap(xs[1..], f)
      case None => FilterMap(xs[1..], f)
  }

  /** Filtering is element by element: the results for two runs are the
      results of the first followed by those of the second. */
  lemma {:induction false} FilterMapConcat<T, R>(xs: seq<T>, ys: seq<T>, f: T -> Option<R>)
    ensures FilterMap(xs + ys, f) == FilterMap(xs, f) + FilterMap(ys, f)
  {
    if |xs| > 0 {
      assert (xs + ys)[0] == xs[0];
      assert (xs + ys)[1..] == xs[1..] + ys;
      FilterMapConcat(xs[1..], ys, f);
    } else {
      assert xs + ys == ys;
    }
  }

  lemma FilterMapSingle<T, R>(x: T, f: T -> Option<R>)
    ensures FilterMap([x], f) == (if f(x).Some? then [f(x).value] else [])
  {
    assert [x][1..] == [];
  }

  /** Each result comes from some element, and every accepted element's
      result is among the results. */
  lemma {:induction false} FilterMapFrom<T, R>(xs: seq<T>, f: T -> Option<R>)
    ensures forall r :: r in FilterMap(xs, f) <==> exists i :: 0 <= i < |xs| && f(xs[i]) == Some(r)
  {
    if |xs| > 0 {
      FilterMapFrom(xs[1..], f);
      forall r
        ensures r in FilterMap(xs, f) <==> exists i :: 0 <= i < |xs| && f(xs[i]) == Some(r)
      {
        if exists i :: 0 <= i < |xs| && f(xs[i]) == Some(r) {
          var i :| 0 <= i < |xs| && f(xs[i]) == Some(r);
          if i > 0 {
            assert xs[1..][i - 1] == xs[i];
          }
        }
        if r in FilterMap(xs, f) && f(xs[0]) != Some(r) {
          assert r in FilterMap(xs[1..], f);
          var i :| 0 <= i < |xs[1..]| && f(xs[1..][i]) == Some(r);
          assert xs[i + 1] == xs[1..][i];
        }
      }
    }
  }
}
