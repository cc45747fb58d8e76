/** Sequence helpers shared by the wizard's steps: an optional value,
    first-occurrence lookup and removal (Python's `list.index` and
    `list.remove`), pairwise distinctness and an order-preserving
    exclusion filter (the list comprehensions that drop chosen columns). */
module Seqs {

  datatype Option<+T> = None | Some(value: T)

  predicate Distinct<T(==)>(xs: seq<T>) {
    forall i, j :: 0 <= i < j < |xs| ==> xs[i] != xs[j]
  }

  /** Position of the first occurrence of `x`, like Python's `list.index`. */
  function IndexOf<T(==)>(xs: seq<T>, x: T): (r: nat)
    requires x in xs
    ensures r < |xs| && xs[r] == x
    ensures forall i :: 0 <= i < r ==> xs[i] != x
  {
    if xs[0] == x then 0 else 1 + IndexOf(xs[1..], x)
  }

  /** A position holding `x` with no earlier `x` is the one `IndexOf` finds. */
  lemma IndexOfAt<T>(xs: seq<T>, x: T, p: nat)
    requires p < |xs| && xs[p] == x
    requires forall i :: 0 <= i < p ==> xs[i] != x
    ensures IndexOf(xs, x) == p
  {
  }

  /** In a sequence without repeats, the element at `p` is found at `p`. */
  lemma IndexOfDistinct<T>(xs: seq<T>, p: nat)
    requires Distinct(xs) && p < |xs|
    ensures IndexOf(xs, xs[p]) == p
  {
    IndexOfAt(xs, xs[p], p);
  }

  /** Python's `list.remove(x)`: drops the first occurrence of `x`. */
  function RemoveFirst<T(==)>(xs: seq<T>, x: T): (r: seq<T>)
    requires x in xs
    ensures |r| == |xs| - 1
  {
    if xs[0] == x then xs[1..]
    else
      var rest := xs[1..];
      assert x in rest;
      [xs[0]] + RemoveFirst(rest, x)
  }

  /** Where each element of `RemoveFirst(xs, x)` came from in `xs`. */
  lemma {:induction false} RemoveFirstAt<T>(xs: seq<T>, x: T, k: nat)
    requires x in xs && k < |xs| - 1
    ensures var p := IndexOf(xs, x);
      RemoveFirst(xs, x)[k] == if k < p then xs[k] else xs[k + 1]
  {
    if xs[0] != x && k > 0 {
      RemoveFirstAt(xs[1..], x, k - 1);
    }
  }

  /** Removing an element from a repeat-free sequence removes exactly that
      element and keeps the sequence repeat-free. */
  lemma RemoveFirstDistinct<T>(xs: seq<T>, x: T)
    requires x in xs && Distinct(xs)
    ensures Distinct(RemoveFirst(xs, x))
    ensures forall y :: y in RemoveFirst(xs, x) <==> y in xs && y != x
  {
    var p := IndexOf(xs, x);
    var r := RemoveFirst(xs, x);
    forall i, j | 0 <= i < j < |r|
      ensures r[i] != r[j]
    {
      RemoveFirstAt(xs, x, i);
      RemoveFirstAt(xs, x, j);
    }
    forall y
      ensures y in r <==> y in xs && y != x
    {
      if y in r {
        var i :| 0 <= i < |r| && r[i] == y;
        RemoveFirstAt(xs, x, i);
      }
      if y in xs && y != x {
        var i :| 0 <= i < |xs| && xs[i] == y;
        if i < p {
          RemoveFirstAt(xs, x, i);
        } else {
          RemoveFirstAt(xs, x, i - 1);
        }
      }
    }
  }

  /** The elements of `xs` that are not in `banned`, in their original order:
      Python's `[c for c in xs if c not in banned]`. */
  function Exclude<T(==, !new)>(xs: seq<T>, banned: seq<T>): (r: seq<T>)
    ensures |r| <= |xs|
    ensures forall y :: y in r <==> y in xs && y !in banned
  {
    if |xs| == 0 then []
    else
      var rest := Exclude(xs[1..], banned);
      assert forall y :: y in xs <==> y == xs[0] || y in xs[1..];
      if xs[0] in banned then rest else [xs[0]] + rest
  }

  /** The filter keeps order: filtering a concatenation filters each part
      and concatenates the results, and a single element stays exactly
      when it is not banned. */
  lemma {:induction false} ExcludeAppend<T(!new)>(a: seq<T>, b: seq<T>, banned: seq<T>)
    ensures Exclude(a + b, banned) == Exclude(a, banned) + Exclude(b, banned)
    ensures forall x :: Exclude([x], banned) == if x in banned then [] else [x]
    decreases |a|
  {
    if |a| > 0 {
      assert (a + b)[1..] == a[1..] + b;
      ExcludeAppend(a[1..], b, banned);
    } else {
      assert a + b == b;
    }
    forall x
      ensures Exclude([x], banned) == if x in banned then [] else [x]
    {
      assert [x][1..] == [];
    }
  }

  /** Filtering keeps a repeat-free sequence repeat-free. */
  lemma {:induction false} ExcludeDistinct<T(!new)>(xs: seq<T>, banned: seq<T>)
    requires Distinct(xs)
    ensures Distinct(Exclude(xs, banned))
    decreases |xs|
  {
    if |xs| > 0 {
      assert Distinct(xs[1..]) by {
        forall i, j | 0 <= i < j < |xs[1..]|
          ensures xs[1..][i] != xs[1..][j]
        {
          assert xs[1..][i] == xs[i + 1] && xs[1..][j] == xs[j + 1];
        }
      }
      ExcludeDistinct(xs[1..], banned);
      assert xs[0] !in xs[1..] by {
        forall j | 0 <= j < |xs[1..]|
          ensures xs[1..][j] != xs[0]
        {
          assert xs[1..][j] == xs[j + 1];
        }
      }
    }
  }

  /** The prefix of length `|p|` of `p + [x]` is `p`, followed by `x`. */
  lemma Snoc<T>(p: seq<T>, x: T)
    ensures |p + [x]| == |p| + 1
    ensures (p + [x])[..|p|] == p && (p + [x])[|p|] == x
  {
  }

  /** A prefix one longer is the shorter prefix and the next element. */
  lemma PrefixSnoc<T>(s: seq<T>, k: nat)
    requires k < |s|
    ensures s[..k + 1] == s[..k] + [s[k]]
  {
  }

  /** Splitting off the last element of the right operand of `+`. */
  lemma AppendLast<T>(a: seq<T>, b: seq<T>)
    requires |b| > 0
    ensures a + b == (a + b[..|b| - 1]) + [b[|b| - 1]]
  {
  }

  /** Appending an element keeps a sequence repeat-free exactly when the
      element is new. */
  lemma DistinctSnoc<T>(init: seq<T>, last: T)
    ensures Distinct(init + [last]) <==> Distinct(init) && last !in init
  {
    var xs := init + [last];
    if Distinct(init) && last !in init {
      forall i, j | 0 <= i < j < |xs|
        ensures xs[i] != xs[j]
      {
        assert xs[i] == init[i];
        if j < |init| {
          assert xs[j] == init[j];
        }
      }
    }
    if Distinct(xs) {
      forall i, j | 0 <= i < j < |init|
        ensures init[i] != init[j]
      {
        assert xs[i] == init[i] && xs[j] == init[j];
      }
      forall i | 0 <= i < |init|
        ensures init[i] != last
      {
        assert xs[i] == init[i] && xs[|init|] == last;
      }
    }
  }

  /** The set of a sequence's elements has as many members as the sequence
      has positions exactly when no element repeats. */
  lemma {:induction false} SetSize<T>(xs: seq<T>)
    ensures |(set x | x in xs)| <= |xs|
    ensures |(set x | x in xs)| == |xs| <==> Distinct(xs)
    decreases |xs|
  {
    if |xs| > 0 {
      var init := xs[..|xs| - 1];
      var last := xs[|xs| - 1];
      SetSize(init);
      assert xs == init + [last];
      DistinctSnoc(init, last);
      assert forall x :: x in xs <==> x in init || x == last;
      var before := set x | x in init;
      assert (set x | x in xs) == before + {last};
      if last in init {
        assert before + {last} == before;
      } else {
        assert last !in before;
      }
    }
  }
}
