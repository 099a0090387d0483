/** Facts about sequences walked from the front to the back, as the script
    walks the lines of a file and the files of a run. */
module Seqs {

  /** `p` holds of every element, checked from the last element backwards. */
  predicate Every<T>(xs: seq<T>, p: T -> bool)
    decreases |xs|
  {
    xs == [] || (Every(xs[..|xs| - 1], p) && p(xs[|xs| - 1]))
  }

  lemma {:induction false} EveryIff<T>(xs: seq<T>, p: T -> bool)
    ensures Every(xs, p) <==> forall i :: 0 <= i < |xs| ==> p(xs[i])
    decreases |xs|
  {
    if xs != [] {
      var init := xs[..|xs| - 1];
      assert forall i :: 0 <= i < |init| ==> init[i] == xs[i];
      EveryIff(init, p);
    }
  }

  /** `p` holds of every element, checked from the first element on. */
  predicate All<T>(xs: seq<T>, p: T -> bool)
    decreases |xs|
  {
    xs == [] || (p(xs[0]) && All(xs[1..], p))
  }

  lemma {:induction false} AllIff<T>(xs: seq<T>, p: T -> bool)
    ensures All(xs, p) <==> forall i :: 0 <= i < |xs| ==> p(xs[i])
    decreases |xs|
  {
    if xs != [] {
      AllIff(xs[1..], p);
      assert forall i :: 1 <= i < |xs| ==> xs[1..][i - 1] == xs[i];
    }
  }

  /** `p` holds of some element. */
  ghost predicate Any<T>(xs: seq<T>, p: T -> bool) {
    exists i :: 0 <= i < |xs| && p(xs[i])
  }

  /** Some element satisfies `p` exactly when one before the last does or
      the last does. */
  lemma AnyLast<T>(xs: seq<T>, p: T -> bool)
    requires xs != []
    ensures Any(xs, p) <==> Any(xs[..|xs| - 1], p) || p(xs[|xs| - 1])
  {
    var init := xs[..|xs| - 1];
    assert forall i :: 0 <= i < |init| ==> init[i] == xs[i];
  }

  /** Concatenation is associative. */
  lemma AppendAssoc<T>(a: seq<T>, b: seq<T>, c: seq<T>)
    ensures (a + b) + c == a + (b + c)
  {
  }

  /** A non-empty sequence is its prefix followed by its last element. */
  lemma InitLast<T>(xs: seq<T>)
    requires xs != []
    ensures xs == xs[..|xs| - 1] + [xs[|xs| - 1]]
  {
  }

  /** The elements that satisfy `p`, in their original order: a list
      comprehension with a condition, or a boolean mask on a frame. */
  function Keep<T(!new)>(xs: seq<T>, p: T -> bool): (ys: seq<T>)
    ensures |ys| <= |xs|
    ensures forall y :: y in ys <==> y in xs && p(y)
    ensures |ys| == |xs| <==> forall i :: 0 <= i < |xs| ==> p(xs[i])
    decreases |xs|
  {
    if xs == [] then []
    else
      assert forall i :: 1 <= i < |xs| ==> xs[i] == xs[1..][i - 1];
      (if p(xs[0]) then [xs[0]] else []) + Keep(xs[1..], p)
  }

  /** Masking keeps every occurrence of an element that satisfies `p` and
      none of one that does not. */
  lemma {:induction false} KeepMultiset<T(!new)>(xs: seq<T>, p: T -> bool)
    ensures forall y :: multiset(Keep(xs, p))[y] == if p(y) then multiset(xs)[y] else 0
    decreases |xs|
  {
    if xs != [] {
      KeepMultiset(xs[1..], p);
      assert xs == [xs[0]] + xs[1..];
      assert multiset(xs) == multiset{xs[0]} + multiset(xs[1..]);
      var head := if p(xs[0]) then [xs[0]] else [];
      assert multiset(Keep(xs, p)) == multiset(head) + multiset(Keep(xs[1..], p));
    }
  }

  /** The number of positions whose element satisfies `p`. */
  function Count<T>(xs: seq<T>, p: T -> bool): (n: nat)
    ensures n <= |xs|
    decreases |xs|
  {
    if xs == [] then 0
    else (if p(xs[0]) then 1 else 0) + Count(xs[1..], p)
  }

  /** Masking keeps one element per position that satisfies `p`. */
  lemma {:induction false} KeepCount<T(!new)>(xs: seq<T>, p: T -> bool)
    ensures |Keep(xs, p)| == Count(xs, p)
    decreases |xs|
  {
    if xs != [] {
      KeepCount(xs[1..], p);
    }
  }

  /** Masking with a weaker condition first changes nothing. */
  lemma {:induction false} KeepKeep<T(!new)>(xs: seq<T>, p: T -> bool, q: T -> bool)
    requires forall x :: q(x) ==> p(x)
    ensures Keep(Keep(xs, p), q) == Keep(xs, q)
    decreases |xs|
  {
    if xs != [] {
      KeepKeep(xs[1..], p, q);
      if p(xs[0]) {
        assert Keep(xs, p) == [xs[0]] + Keep(xs[1..], p);
        assert Keep(xs, p)[1..] == Keep(xs[1..], p);
      } else {
        assert Keep(xs, p) == Keep(xs[1..], p);
      }
    }
  }

  /** Masking a concatenation masks each part: the kept elements stay in
      their original order. */
  lemma {:induction false} KeepAppend<T(!new)>(a: seq<T>, b: seq<T>, p: T -> bool)
    ensures Keep(a + b, p) == Keep(a, p) + Keep(b, p)
    decreases |a|
  {
    if a != [] {
      var head := if p(a[0]) then [a[0]] else [];
      assert (a + b)[0] == a[0];
      assert (a + b)[1..] == a[1..] + b;
      assert Keep(a + b, p) == head + Keep(a[1..] + b, p);
      KeepAppend(a[1..], b, p);
      assert Keep(a, p) == head + Keep(a[1..], p);
    } else {
      assert a + b == b;
    }
  }

  /** No element occurs twice. */
  predicate Distinct<T(==)>(xs: seq<T>) {
    forall i, j :: 0 <= i < j < |xs| ==> xs[i] != xs[j]
  }

  /** Masking keeps distinct elements distinct. */
  lemma {:induction false} KeepDistinct<T(!new)>(xs: seq<T>, p: T -> bool)
    requires Distinct(xs)
    ensures Distinct(Keep(xs, p))
    decreases |xs|
  {
    if xs != [] {
      var tail := xs[1..];
      assert Distinct(tail) by {
        assert forall i :: 0 <= i < |tail| ==> tail[i] == xs[i + 1];
      }
      KeepDistinct(tail, p);
      assert xs[0] !in tail by {
        assert forall i :: 0 <= i < |tail| ==> tail[i] == xs[i + 1];
      }
      var ys := Keep(tail, p);
      assert xs[0] !in ys;
      if p(xs[0]) {
        var zs := [xs[0]] + ys;
        assert forall j :: 1 <= j < |zs| ==> zs[j] == ys[j - 1];
        assert forall j :: 1 <= j < |zs| ==> zs[j] in ys;
      }
    }
  }
}
