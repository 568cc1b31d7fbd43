/**
 This module holds what the FIFO and LRU simulators share: the frame array in
 which an empty slot is `null`, the per-reference snapshot, the returned
 `{result, pageFaults}` record, and the properties every trace of either
 simulator has.
 */
module Frames {

  /** A frame slot. `None` plays the part of the source's `null` (an empty slot). */
  datatype Option<+T> = None | Some(value: T)

  datatype Status = Hit | Miss

  /** One entry of `result`: a copy of the frames after the step, the step's status and its page. */
  datatype Snapshot = Snapshot(frames: seq<Option<int>>, status: Status, currentPage: int)

  /** The record both simulators return. */
  datatype Simulation = Simulation(result: seq<Snapshot>, pageFaults: nat)

  /** `Array(pageFrames).fill(null)`: n empty slots. */
  function EmptyFrames(n: nat): (f: seq<Option<int>>)
    ensures |f| == n
    ensures forall i :: 0 <= i < n ==> f[i] == None
    ensures Resident(f) == {} && Distinct(f)
  {
    seq(n, _ => None)
  }

  /** The set of values of a sequence. */
  function Elems(xs: seq<int>): (r: set<int>)
    ensures forall x :: x in r <==> x in xs
  {
    set x | x in xs
  }

  /** The pages held by some frame. */
  function Resident(f: seq<Option<int>>): (r: set<int>)
    ensures forall x :: x in r <==> Some(x) in f
  {
    set o | o in f && o.Some? :: o.value
  }

  /** No page occupies two frames. */
  predicate Distinct(f: seq<Option<int>>)
  {
    forall i, j :: 0 <= i < |f| && 0 <= j < |f| && i != j && f[i].Some? ==> f[i] != f[j]
  }

  /** `indexOf`: the first position holding x. */
  function IndexOf<T(==)>(s: seq<T>, x: T): (k: nat)
    requires x in s
    ensures k < |s| && s[k] == x
    ensures forall j :: 0 <= j < k ==> s[j] != x
  {
    if s[0] == x then 0 else 1 + IndexOf(s[1..], x)
  }

  /** The number of `Miss` snapshots. */
  function MissCount(res: seq<Snapshot>): nat
  {
    if |res| == 0 then 0
    else MissCount(res[..|res| - 1]) + (if res[|res| - 1].status == Miss then 1 else 0)
  }

  /** The pages of the `Miss` snapshots, in order: the pages written into a frame. */
  function MissPages(res: seq<Snapshot>): (m: seq<int>)
    ensures |m| == MissCount(res)
    ensures forall x :: x in m ==> exists i :: 0 <= i < |res| && res[i].currentPage == x
  {
    if |res| == 0 then []
    else
      var prev := MissPages(res[..|res| - 1]);
      assert forall x :: x in prev ==> exists i :: 0 <= i < |res| && res[i].currentPage == x by {
        forall x | x in prev
          ensures exists i :: 0 <= i < |res| && res[i].currentPage == x
        {
          var i :| 0 <= i < |res| - 1 && res[..|res| - 1][i].currentPage == x;
          assert res[i].currentPage == x;
        }
      }
      prev + (if res[|res| - 1].status == Miss then [res[|res| - 1].currentPage] else [])
  }

  /** The frames after the last snapshot of `res`, or the empty frames before any step. */
  function Latest(res: seq<Snapshot>, n: nat): seq<Option<int>>
  {
    if |res| == 0 then EmptyFrames(n) else res[|res| - 1].frames
  }

  /**
   Snapshot `snap` can follow the frames `before`: it is a Hit exactly when
   its page was already resident, and a Hit leaves the frames as they were.
   */
  predicate Follows(before: seq<Option<int>>, snap: Snapshot)
  {
    && (snap.status == Hit <==> Some(snap.currentPage) in before)
    && (snap.status == Hit ==> snap.frames == before)
  }

  /**
   What every run of either simulator produces: one snapshot per reference,
   in order, each with frames of length n that hold distinct pages including
   the page just referenced; and each snapshot follows the frames before it
   (the empty frames, for the first).
   */
  ghost predicate ValidTrace(refs: seq<int>, n: nat, res: seq<Snapshot>)
  {
    && |res| == |refs|
    && (forall i :: 0 <= i < |res| ==> res[i].currentPage == refs[i])
    && (forall i :: 0 <= i < |res| ==> |res[i].frames| == n)
    && (forall i :: 0 <= i < |res| ==> Distinct(res[i].frames))
    && (forall i :: 0 <= i < |res| ==> Some(refs[i]) in res[i].frames)
    && (|res| > 0 ==> Follows(EmptyFrames(n), res[0]))
    && (forall i, j :: 0 <= i < j < |res| && j == i + 1 ==> Follows(res[i].frames, res[j]))
  }

  /** The first i + 1 references are the first i followed by the i-th. */
  lemma PrefixSnoc(refs: seq<int>, i: nat)
    requires i < |refs|
    ensures refs[..i + 1] == refs[..i] + [refs[i]]
  {
  }

  /** Referencing one more page adds it to the referenced set, which grows by one exactly when it is new. */
  lemma ElemsSnoc(xs: seq<int>, x: int)
    ensures Elems(xs + [x]) == Elems(xs) + {x}
    ensures x in xs ==> |Elems(xs + [x])| == |Elems(xs)|
    ensures x !in xs ==> |Elems(xs + [x])| == |Elems(xs)| + 1
  {
    assert Elems(xs + [x]) == Elems(xs) + {x};
    if x in xs {
      assert Elems(xs) + {x} == Elems(xs);
    }
  }

  /** Writing a page into an empty slot adds it and removes nothing. */
  lemma WriteEmptySlot(f: seq<Option<int>>, k: nat, p: int)
    requires k < |f| && f[k] == None
    ensures Resident(f[k := Some(p)]) == Resident(f) + {p}
  {
    var g := f[k := Some(p)];
    forall x | x in Resident(f)
      ensures x in Resident(g)
    {
      var i :| 0 <= i < |f| && f[i] == Some(x);
      assert g[i] == Some(x);
    }
    forall x | x in Resident(g) && x != p
      ensures x in Resident(f)
    {
      var i :| 0 <= i < |g| && g[i] == Some(x);
      assert f[i] == Some(x);
    }
    assert g[k] == Some(p);
  }

  /** Overwriting the only slot that holds v replaces v by p and keeps every other page. */
  lemma OverwriteSlot(f: seq<Option<int>>, k: nat, v: int, p: int)
    requires Distinct(f) && k < |f| && f[k] == Some(v)
    ensures Resident(f[k := Some(p)]) == Resident(f) - {v} + {p}
  {
    var g := f[k := Some(p)];
    forall x | x in Resident(f) && x != v
      ensures x in Resident(g)
    {
      var i :| 0 <= i < |f| && f[i] == Some(x);
      assert i != k;
      assert g[i] == Some(x);
    }
    forall x | x in Resident(g) && x != p
      ensures x in Resident(f) && x != v
    {
      var i :| 0 <= i < |g| && g[i] == Some(x);
      assert i != k && f[i] == Some(x);
    }
    assert g[k] == Some(p);
  }

  /** Writing a page that is not resident keeps the frames free of duplicates. */
  lemma WriteKeepsDistinct(f: seq<Option<int>>, k: nat, p: int)
    requires Distinct(f) && k < |f| && Some(p) !in f
    ensures Distinct(f[k := Some(p)])
  {
  }

  /** Full frames without duplicates hold exactly as many pages as there are frames. */
  lemma {:induction false} FullFramesCount(f: seq<Option<int>>)
    requires Distinct(f) && None !in f
    ensures |Resident(f)| == |f|
  {
    if |f| > 0 {
      var t := f[1..];
      assert Distinct(t) by {
        forall i, j | 0 <= i < |t| && 0 <= j < |t| && i != j && t[i].Some?
          ensures t[i] != t[j]
        {
          assert t[i] == f[i + 1] && t[j] == f[j + 1];
        }
      }
      FullFramesCount(t);
      assert f[0].value !in Resident(t);
      assert Resident(f) == Resident(t) + {f[0].value} by {
        assert f == [f[0]] + t;
      }
    }
  }

  /** No more pages are resident than there are slots, and fewer when a slot is empty. */
  lemma {:induction false} ResidentBound(f: seq<Option<int>>)
    ensures |Resident(f)| <= |f|
    ensures None in f ==> |Resident(f)| < |f|
  {
    if |f| > 0 {
      var t := f[1..];
      ResidentBound(t);
      assert f == [f[0]] + t;
      if f[0].Some? {
        assert Resident(f) == Resident(t) + {f[0].value};
      } else {
        assert Resident(f) == Resident(t);
      }
    }
  }

  /** Frames without duplicates that hold fewer pages than slots have an empty slot. */
  lemma EmptySlotExists(f: seq<Option<int>>)
    requires Distinct(f) && |Resident(f)| < |f|
    ensures None in f
  {
    if None !in f {
      FullFramesCount(f);
    }
  }

  /** Appending a step that behaves as every simulator step does keeps a trace valid. */
  lemma ExtendTrace(refs: seq<int>, n: nat, res: seq<Snapshot>, page: int, snap: Snapshot)
    requires ValidTrace(refs, n, res)
    requires |snap.frames| == n && Distinct(snap.frames) && snap.currentPage == page
    requires Some(page) in snap.frames
    requires Follows(Latest(res, n), snap)
    ensures ValidTrace(refs + [page], n, res + [snap])
    ensures MissCount(res + [snap]) == MissCount(res) + (if snap.status == Miss then 1 else 0)
  {
    assert (res + [snap])[..|res|] == res;
  }
}
