/** Generic sequence operations behind JavaScript's `filter`, `flat` and
    `Array.from(new Set(xs))`. */
module Seqs {

  /** `xs.filter(f)`: the elements satisfying `f`, in their original order. */
  function Filter<T(!new)>(f: T -> bool, xs: seq<T>): (r: seq<T>)
    ensures |r| <= |xs|
    ensures forall x :: x in r <==> x in xs && f(x)
    decreases |xs|
  {
    if xs == [] then []
    else if f(xs[0]) then [xs[0]] + Filter(f, xs[1..])
    else Filter(f, xs[1..])
  }

  /** Filtering distributes over concatenation: the kept elements stay in order. */
  lemma {:induction false} FilterAppend<T(!new)>(f: T -> bool, a: seq<T>, b: seq<T>)
    ensures Filter(f, a + b) == Filter(f, a) + Filter(f, b)
    decreases |a|
  {
    if a == [] {
      assert a + b == b;
    } else {
      assert (a + b)[0] == a[0];
      assert (a + b)[1..] == a[1..] + b;
      FilterAppend(f, a[1..], b);
    }
  }

  /** Filtering removes exactly the elements rejected by `f`. */
  lemma {:induction false} FilterIdentity<T(!new)>(f: T -> bool, xs: seq<T>)
    ensures Filter(f, xs) == xs <==> forall i :: 0 <= i < |xs| ==> f(xs[i])
    decreases |xs|
  {
    if xs != [] {
      FilterIdentity(f, xs[1..]);
      if !f(xs[0]) {
        FilterLength(f, xs[1..]);
        assert |Filter(f, xs)| < |xs|;
      }
    }
  }

  /** Filtering keeps at most as many elements as it is given. */
  lemma {:induction false} FilterLength<T(!new)>(f: T -> bool, xs: seq<T>)
    ensures |Filter(f, xs)| <= |xs|
    ensures |Filter(f, xs)| == |xs| ==> Filter(f, xs) == xs
    decreases |xs|
  {
    if xs != [] {
      FilterLength(f, xs[1..]);
    }
  }

  /** `xs.flat()`: the inner sequences concatenated in order. */
  function Flatten<T>(xss: seq<seq<T>>): seq<T>
    decreases |xss|
  {
    if xss == [] then [] else xss[0] + Flatten(xss[1..])
  }

  /** Sum of the inner lengths. */
  function TotalLength<T>(xss: seq<seq<T>>): nat
    decreases |xss|
  {
    if xss == [] then 0 else |xss[0]| + TotalLength(xss[1..])
  }

  /** Flattening loses and invents nothing: its length is the sum of the parts'. */
  lemma {:induction false} FlattenLength<T>(xss: seq<seq<T>>)
    ensures |Flatten(xss)| == TotalLength(xss)
    decreases |xss|
  {
    if xss != [] {
      FlattenLength(xss[1..]);
    }
  }

  /** Flattening distributes over concatenation of the outer sequence. */
  lemma {:induction false} FlattenAppend<T>(a: seq<seq<T>>, b: seq<seq<T>>)
    ensures Flatten(a + b) == Flatten(a) + Flatten(b)
    decreases |a|
  {
    if a == [] {
      assert a + b == b;
    } else {
      assert (a + b)[0] == a[0];
      assert (a + b)[1..] == a[1..] + b;
      FlattenAppend(a[1..], b);
    }
  }

  /** Every element of a flattened sequence comes from one of its parts, and
      every element of every part is in it. */
  lemma {:induction false} FlattenMembership<T>(xss: seq<seq<T>>, x: T)
    ensures x in Flatten(xss) <==> exists k :: 0 <= k < |xss| && x in xss[k]
    decreases |xss|
  {
    if xss != [] {
      FlattenMembership(xss[1..], x);
      if x in Flatten(xss[1..]) {
        var k :| 0 <= k < |xss[1..]| && x in xss[1..][k];
        assert x in xss[k + 1];
      }
      if exists k :: 0 <= k < |xss| && x in xss[k] {
        var k :| 0 <= k < |xss| && x in xss[k];
        if k > 0 {
          assert x in xss[1..][k - 1];
        }
      }
    }
  }

  /** Index of the first occurrence of `x` in `xs`, or `|xs|` when absent. */
  function FirstIndex<T(==)>(xs: seq<T>, x: T): (r: nat)
    ensures r <= |xs|
    ensures r < |xs| <==> x in xs
    ensures r < |xs| ==> xs[r] == x
    ensures forall i :: 0 <= i < r ==> xs[i] != x
    decreases |xs|
  {
    if xs == [] then 0 else if xs[0] == x then 0 else 1 + FirstIndex(xs[1..], x)
  }

  /** The first occurrence inside a prefix is the first occurrence overall. */
  lemma FirstIndexPrefix<T>(xs: seq<T>, n: nat, x: T)
    requires n <= |xs| && x in xs[..n]
    ensures FirstIndex(xs, x) == FirstIndex(xs[..n], x)
  {
    var p := xs[..n];
    var b := FirstIndex(p, x);
    assert forall i :: 0 <= i < n ==> p[i] == xs[i];
    FirstIndexAt(xs, x, b);
  }

  /** The first occurrence is the position of `x` with no `x` before it. */
  lemma FirstIndexAt<T>(xs: seq<T>, x: T, b: nat)
    requires b < |xs| && xs[b] == x && forall i :: 0 <= i < b ==> xs[i] != x
    ensures FirstIndex(xs, x) == b
  {
  }

  predicate NoDuplicates<T(==)>(xs: seq<T>) {
    forall i, j :: 0 <= i < j < |xs| ==> xs[i] != xs[j]
  }

  /** `Array.from(new Set(xs))`: one copy of each distinct element, in
      first-seen order. */
  function Dedup<T(==,!new)>(xs: seq<T>): (r: seq<T>)
    ensures forall x :: x in r <==> x in xs
    ensures NoDuplicates(r)
    ensures forall i, j :: 0 <= i < j < |r| ==> FirstIndex(xs, r[i]) < FirstIndex(xs, r[j])
    decreases |xs|
  {
    if xs == [] then []
    else
      var init := xs[..|xs| - 1];
      var d := Dedup(init);
      var last := xs[|xs| - 1];
      assert xs == init + [last];
      if last in d then d
      else
        var r := d + [last];
        assert forall x :: x in d ==> FirstIndex(xs, x) == FirstIndex(init, x) < |init| by {
          forall x | x in d ensures FirstIndex(xs, x) == FirstIndex(init, x) < |init| {
            FirstIndexPrefix(xs, |init|, x);
          }
        }
        assert FirstIndex(xs, last) == |init|;
        r
  }

  /** Applying `f` elementwise. */
  function Map<T, U>(f: T -> U, xs: seq<T>): (r: seq<U>)
    ensures |r| == |xs|
    ensures forall i :: 0 <= i < |xs| ==> r[i] == f(xs[i])
  {
    seq(|xs|, i requires 0 <= i < |xs| => f(xs[i]))
  }

  /** Mapping distributes over concatenation. */
  lemma MapAppend<T, U>(f: T -> U, a: seq<T>, b: seq<T>)
    ensures Map(f, a + b) == Map(f, a) + Map(f, b)
  {
    var l, r := Map(f, a + b), Map(f, a) + Map(f, b);
    forall i | 0 <= i < |l| ensures l[i] == r[i] {
      if i < |a| {
        assert (a + b)[i] == a[i];
      } else {
        assert (a + b)[i] == b[i - |a|];
      }
    }
  }
}
