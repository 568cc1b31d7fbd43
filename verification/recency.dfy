/**
 The recency list of the LRU simulator (`recentUsage`) and what "ordered from
 least to most recently referenced" means against the reference history.
 */
module Recency {
  import opened Frames

  /** No page is listed twice. */
  predicate NoDups(xs: seq<int>)
  {
    forall i, j :: 0 <= i < j < |xs| ==> xs[i] != xs[j]
  }

  /**
   `xs.filter(item => item !== x)`: every occurrence of x dropped, every other
   element kept as often as it was (`RemoveCounts`) and in the same order
   (`RemoveKeepsOrder`).
   */
  function Remove(xs: seq<int>, x: int): (r: seq<int>)
    ensures Elems(r) == Elems(xs) - {x}
    ensures NoDups(xs) ==> NoDups(r)
    ensures x !in xs ==> r == xs
    ensures |r| <= |xs|
  {
    if |xs| == 0 then []
    else
      var rest := Remove(xs[1..], x);
      assert xs == [xs[0]] + xs[1..];
      if xs[0] == x then
        assert NoDups(xs) ==> NoDups(xs[1..]) by {
          TailNoDups(xs);
        }
        rest
      else
        assert NoDups(xs) ==> NoDups([xs[0]] + rest) by {
          if NoDups(xs) {
            TailNoDups(xs);
            ConsNoDups(xs[0], rest);
          }
        }
        [xs[0]] + rest
  }

  /** `filter` drops every copy of x and keeps every other element as often as it occurs. */
  lemma {:induction false} RemoveCounts(xs: seq<int>, x: int)
    ensures multiset(Remove(xs, x)) == multiset(xs)[x := 0]
  {
    if |xs| > 0 {
      RemoveCounts(xs[1..], x);
      assert xs == [xs[0]] + xs[1..];
      assert multiset(xs) == multiset{xs[0]} + multiset(xs[1..]);
    }
  }

  lemma TailNoDups(xs: seq<int>)
    requires |xs| > 0
    ensures NoDups(xs) ==> NoDups(xs[1..]) && xs[0] !in xs[1..]
  {
    if NoDups(xs) {
      var t := xs[1..];
      forall i, j | 0 <= i < j < |t|
        ensures t[i] != t[j]
      {
        assert t[i] == xs[i + 1] && t[j] == xs[j + 1];
      }
      forall i | 0 <= i < |t|
        ensures t[i] != xs[0]
      {
        assert t[i] == xs[i + 1];
      }
    }
  }

  lemma ConsNoDups(a: int, xs: seq<int>)
    requires NoDups(xs) && a !in xs
    ensures NoDups([a] + xs)
  {
    var ys := [a] + xs;
    forall i, j | 0 <= i < j < |ys|
      ensures ys[i] != ys[j]
    {
      assert ys[j] == xs[j - 1];
      if i > 0 {
        assert ys[i] == xs[i - 1];
      }
    }
  }

  /** Appending a page that is not listed keeps the list free of duplicates. */
  lemma SnocNoDups(xs: seq<int>, x: int)
    requires NoDups(xs) && x !in xs
    ensures NoDups(xs + [x])
  {
    var ys := xs + [x];
    forall i, j | 0 <= i < j < |ys|
      ensures ys[i] != ys[j]
    {
      assert ys[i] == xs[i];
    }
  }

  /** The position of the last reference to x in the history h. */
  function LastIndex(h: seq<int>, x: int): (k: nat)
    requires x in h
    ensures k < |h| && h[k] == x
    ensures forall j :: k < j < |h| ==> h[j] != x
  {
    if h[|h| - 1] == x then |h| - 1 else LastIndex(h[..|h| - 1], x)
  }

  /**
   xs lists pages referenced in the history h, from least to most recently
   referenced: a page comes before another exactly when its last reference
   is earlier.
   */
  predicate ByRecency(xs: seq<int>, h: seq<int>)
  {
    && (forall x :: x in xs ==> x in h)
    && (forall i, j :: 0 <= i < j < |xs| ==> LastIndex(h, xs[i]) < LastIndex(h, xs[j]))
  }

  /** A later reference to x moves x's last use to the end and leaves every other page's as it was. */
  lemma LastIndexSnoc(h: seq<int>, x: int, y: int)
    requires y in h + [x]
    ensures LastIndex(h + [x], y) == if y == x then |h| else LastIndex(h, y)
  {
    assert (h + [x])[..|h|] == h;
  }

  /** A page used before every page of a recency-ordered list can go in front of it. */
  lemma ConsKeepsOrder(a: int, xs: seq<int>, h: seq<int>)
    requires ByRecency(xs, h) && a in h
    requires forall y :: y in xs ==> LastIndex(h, a) < LastIndex(h, y)
    ensures ByRecency([a] + xs, h)
  {
    forall i, j | 0 <= i < j < |[a] + xs|
      ensures LastIndex(h, ([a] + xs)[i]) < LastIndex(h, ([a] + xs)[j])
    {
      ConsPairOrdered(a, xs, h, i, j);
    }
  }

  /** One pair of positions of `[a] + xs`, for `ConsKeepsOrder`. */
  lemma ConsPairOrdered(a: int, xs: seq<int>, h: seq<int>, i: nat, j: nat)
    requires ByRecency(xs, h) && a in h
    requires forall y :: y in xs ==> LastIndex(h, a) < LastIndex(h, y)
    requires i < j <= |xs|
    ensures ([a] + xs)[j] in h && ([a] + xs)[i] in h
    ensures LastIndex(h, ([a] + xs)[i]) < LastIndex(h, ([a] + xs)[j])
  {
    var y := xs[j - 1];
    assert ([a] + xs)[j] == y && y in xs;
    if i > 0 {
      assert ([a] + xs)[i] == xs[i - 1];
    }
  }

  /** Dropping a page keeps the rest in recency order. */
  lemma {:induction false} RemoveKeepsOrder(xs: seq<int>, x: int, h: seq<int>)
    requires ByRecency(xs, h)
    ensures ByRecency(Remove(xs, x), h)
  {
    if |xs| > 0 {
      var t := xs[1..];
      TailKeepsOrder(xs, h);
      RemoveKeepsOrder(t, x, h);
      if xs[0] != x {
        var rest := Remove(t, x);
        forall y | y in rest
          ensures LastIndex(h, xs[0]) < LastIndex(h, y)
        {
          assert y in Elems(rest);
          var j :| 0 <= j < |t| && t[j] == y;
          assert xs[j + 1] == y;
        }
        ConsKeepsOrder(xs[0], rest, h);
      }
    }
  }

  /** Dropping the least recently used page keeps the rest in recency order. */
  lemma TailKeepsOrder(xs: seq<int>, h: seq<int>)
    requires |xs| > 0 && ByRecency(xs, h)
    ensures ByRecency(xs[1..], h)
  {
    var t := xs[1..];
    forall i, j | 0 <= i < j < |t|
      ensures LastIndex(h, t[i]) < LastIndex(h, t[j])
    {
      assert t[i] == xs[i + 1] && t[j] == xs[j + 1];
    }
  }

  /** Referencing x and putting it at the back keeps the list in recency order. */
  lemma AppendKeepsOrder(xs: seq<int>, h: seq<int>, x: int)
    requires ByRecency(xs, h) && x !in xs
    ensures ByRecency(xs + [x], h + [x])
  {
    var ys := xs + [x];
    forall y | y in ys
      ensures y in h + [x]
    {
    }
    forall i, j | 0 <= i < j < |ys|
      ensures LastIndex(h + [x], ys[i]) < LastIndex(h + [x], ys[j])
    {
      LastIndexSnoc(h, x, ys[i]);
      LastIndexSnoc(h, x, ys[j]);
      if j < |xs| {
        assert ys[i] == xs[i] && ys[j] == xs[j];
      } else {
        assert ys[i] == xs[i] != x;
      }
    }
  }
}
