/**
 The LRU simulator: `recentUsage` lists the resident pages from least to
 most recently referenced; a miss fills the first empty slot, or else
 replaces the page at the front of that list in its own slot.
 */
module Lru {
  import opened Frames
  import opened Recency

  /** The closure state of `lru`: the frames, `recentUsage` and what has been accumulated so far. */
  datatype LruState = LruState(frames: seq<Option<int>>, recent: seq<int>, result: seq<Snapshot>, pageFaults: nat)

  /** Before the first reference: empty frames, no usage, nothing recorded. */
  function Init(n: nat): (r: LruState)
    ensures |r.frames| == n && Resident(r.frames) == {}
    ensures r.recent == [] && r.result == [] && r.pageFaults == 0
    ensures Mirrors(r, n)
  {
    LruState(EmptyFrames(n), [], [], 0)
  }

  /**
   `recentUsage` mirrors the frames: n frames without duplicate pages, and a
   usage list without duplicates whose pages are exactly the resident ones.
   */
  predicate Mirrors(s: LruState, n: nat)
  {
    && |s.frames| == n
    && Distinct(s.frames)
    && NoDups(s.recent)
    && Elems(s.recent) == Resident(s.frames)
  }

  /** With every frame taken, `recentUsage.shift()` yields a resident page. */
  lemma FullFramesHaveUsage(s: LruState, n: nat)
    requires n > 0 && Mirrors(s, n) && None !in s.frames
    ensures |s.recent| > 0 && Some(s.recent[0]) in s.frames
  {
    assert s.frames[0].value in Resident(s.frames);
    assert s.recent[0] in Elems(s.recent);
  }

  /** The usage update that ends every step: drop `page` wherever it is listed, then push it. */
  function Touch(recent: seq<int>, page: int): (r: seq<int>)
    ensures Elems(r) == Elems(recent) + {page}
    ensures NoDups(recent) ==> NoDups(r)
    ensures |r| > 0 && r[|r| - 1] == page
    ensures page !in recent ==> r == recent + [page]
  {
    var rest := Remove(recent, page);
    ElemsSnoc(rest, page);
    assert NoDups(recent) ==> NoDups(rest + [page]) by {
      if NoDups(recent) {
        SnocNoDups(rest, page);
      }
    }
    rest + [page]
  }

  /** `recentUsage.shift()` on a list without duplicates: the front page leaves and nothing else does. */
  lemma ShiftUsage(recent: seq<int>)
    requires |recent| > 0 && NoDups(recent)
    ensures NoDups(recent[1..])
    ensures Elems(recent[1..]) == Elems(recent) - {recent[0]}
  {
    TailNoDups(recent);
    assert recent == [recent[0]] + recent[1..];
  }

  /** One pass of the `forEach` body for `page`. */
  function Step(s: LruState, page: int, n: nat): (r: LruState)
    requires n > 0 && Mirrors(s, n)
    ensures Mirrors(r, n)
    ensures Some(page) in r.frames
    ensures |r.recent| > 0 && r.recent[|r.recent| - 1] == page
    ensures r.pageFaults == s.pageFaults + (if Some(page) in s.frames then 0 else 1)
    ensures r.result == s.result + [Snapshot(r.frames, if Some(page) in s.frames then Hit else Miss, page)]
  {
    if Some(page) in s.frames then
      LruState(s.frames, Touch(s.recent, page), s.result + [Snapshot(s.frames, Hit, page)], s.pageFaults)
    else if None in s.frames then
      var k := IndexOf(s.frames, None);
      var frames := s.frames[k := Some(page)];
      WriteEmptySlot(s.frames, k, page);
      WriteKeepsDistinct(s.frames, k, page);
      assert frames[k] == Some(page);
      LruState(frames, Touch(s.recent, page), s.result + [Snapshot(frames, Miss, page)], s.pageFaults + 1)
    else
      FullFramesHaveUsage(s, n);
      var leastRecentlyUsed := s.recent[0];
      var k := IndexOf(s.frames, Some(leastRecentlyUsed));
      var frames := s.frames[k := Some(page)];
      OverwriteSlot(s.frames, k, leastRecentlyUsed, page);
      WriteKeepsDistinct(s.frames, k, page);
      ShiftUsage(s.recent);
      assert frames[k] == Some(page);
      LruState(frames, Touch(s.recent[1..], page), s.result + [Snapshot(frames, Miss, page)], s.pageFaults + 1)
  }

  /** A hit changes neither the frames nor the fault count and moves the page to the back of the usage list. */
  lemma HitMovesToBack(s: LruState, page: int, n: nat)
    requires n > 0 && Mirrors(s, n) && Some(page) in s.frames
    ensures Step(s, page, n).frames == s.frames
    ensures Step(s, page, n).pageFaults == s.pageFaults
    ensures Step(s, page, n).recent == Remove(s.recent, page) + [page]
  {
  }

  /**
   A miss with an empty slot available writes the page into the lowest-index
   empty slot, removes no resident page and leaves every other slot alone.
   */
  lemma FillsLowestEmptySlot(s: LruState, page: int, n: nat)
    requires n > 0 && Mirrors(s, n) && Some(page) !in s.frames && None in s.frames
    ensures var k := IndexOf(s.frames, None);
            var r := Step(s, page, n);
            && (forall j :: 0 <= j < k ==> s.frames[j] != None)
            && r.frames[k] == Some(page)
            && (forall j :: 0 <= j < n && j != k ==> r.frames[j] == s.frames[j])
            && Resident(r.frames) == Resident(s.frames) + {page}
            && r.recent == s.recent + [page]
  {
    var k := IndexOf(s.frames, None);
    WriteEmptySlot(s.frames, k, page);
    assert page !in s.recent by {
      assert page !in Elems(s.recent);
    }
  }

  /**
   A miss with every frame taken replaces the page at the front of the usage
   list, in the slot that holds it; every other slot is left alone and the
   usage list loses its front and gains the new page at the back.
   */
  lemma EvictsFrontOfUsage(s: LruState, page: int, n: nat)
    requires n > 0 && Mirrors(s, n) && Some(page) !in s.frames && None !in s.frames
    ensures |s.recent| > 0
    ensures var v := s.recent[0];
            var r := Step(s, page, n);
            && Some(v) in s.frames
            && var k := IndexOf(s.frames, Some(v));
            && r.frames[k] == Some(page)
            && (forall j :: 0 <= j < n && j != k ==> r.frames[j] == s.frames[j])
            && Resident(r.frames) == Resident(s.frames) - {v} + {page}
            && r.recent == s.recent[1..] + [page]
  {
    FullFramesHaveUsage(s, n);
    var k := IndexOf(s.frames, Some(s.recent[0]));
    OverwriteSlot(s.frames, k, s.recent[0], page);
    assert page !in s.recent[1..] by {
      assert page !in Elems(s.recent);
    }
  }

  /**
   A miss as one equation: the page goes into slot k, which is the lowest
   empty slot or else the slot of the front of the usage list; the usage list
   loses that front page when the frames were full and gains the page at the
   back; one Miss snapshot and one fault are recorded.
   */
  lemma MissStep(s: LruState, page: int, k: nat, n: nat)
    requires n > 0 && Mirrors(s, n) && Some(page) !in s.frames && k < n
    requires None in s.frames ==> s.frames[k] == None && forall j :: 0 <= j < k ==> s.frames[j] != None
    requires None !in s.frames ==> |s.recent| > 0 && s.frames[k] == Some(s.recent[0])
    ensures var f := s.frames[k := Some(page)];
            Step(s, page, n) == LruState(f, (if None in s.frames then s.recent else s.recent[1..]) + [page],
                                         s.result + [Snapshot(f, Miss, page)], s.pageFaults + 1)
  {
    if None in s.frames {
      FillsLowestEmptySlot(s, page, n);
    } else {
      EvictsFrontOfUsage(s, page, n);
    }
  }

  /** What holds of the state once the references `refs` have been processed. */
  predicate Inv(s: LruState, refs: seq<int>, n: nat)
  {
    && n > 0
    && Mirrors(s, n)
    && s.frames == Latest(s.result, n)
    && |s.result| == |refs|
    && s.pageFaults == MissCount(s.result)
  }

  /** The state after `forEach` has processed every page of `refs`. */
  function Run(refs: seq<int>, n: nat): (s: LruState)
    requires n > 0
    ensures Inv(s, refs, n)
    ensures |refs| > 0 ==> |s.recent| > 0 && s.recent[|s.recent| - 1] == refs[|refs| - 1]
    decreases |refs|
  {
    if |refs| == 0 then Init(n)
    else
      var prev := Run(refs[..|refs| - 1], n);
      var page := refs[|refs| - 1];
      var r := Step(prev, page, n);
      assert r.result[..|prev.result|] == prev.result;
      r
  }

  /** Processing one more reference is one more step. */
  lemma RunSnoc(refs: seq<int>, page: int, n: nat)
    requires n > 0
    ensures Run(refs + [page], n) == Step(Run(refs, n), page, n)
  {
    assert (refs + [page])[..|refs|] == refs;
  }

  /** Every run produces a valid trace. */
  lemma {:induction false} RunTrace(refs: seq<int>, n: nat)
    requires n > 0
    ensures ValidTrace(refs, n, Run(refs, n).result)
  {
    if |refs| > 0 {
      var pre := refs[..|refs| - 1];
      var page := refs[|refs| - 1];
      assert refs == pre + [page];
      var prev := Run(pre, n);
      RunTrace(pre, n);
      RunSnoc(pre, page, n);
      var r := Step(prev, page, n);
      if Some(page) in prev.frames {
        HitMovesToBack(prev, page, n);
      }
      ExtendTrace(pre, n, prev.result, page, r.result[|prev.result|]);
      assert r.result == prev.result + [r.result[|prev.result|]];
    }
  }

  /** `lru(pageReferences, pageFrames)`: the snapshots and the fault count. */
  function Simulate(refs: seq<int>, n: nat): (r: Simulation)
    requires n > 0
    ensures ValidTrace(refs, n, r.result)
    ensures r.pageFaults == MissCount(r.result)
    ensures refs == [] ==> r == Simulation([], 0)
  {
    var s := Run(refs, n);
    RunTrace(refs, n);
    Simulation(s.result, s.pageFaults)
  }

  /** One step keeps the usage list in recency order, with its page appended to the history. */
  lemma StepKeepsRecency(s: LruState, h: seq<int>, page: int, n: nat)
    requires n > 0 && Mirrors(s, n) && ByRecency(s.recent, h)
    ensures ByRecency(Step(s, page, n).recent, h + [page])
  {
    if Some(page) in s.frames {
      HitMovesToBack(s, page, n);
      RemoveKeepsOrder(s.recent, page, h);
      AppendKeepsOrder(Remove(s.recent, page), h, page);
    } else if None in s.frames {
      FillsLowestEmptySlot(s, page, n);
      assert page !in s.recent by {
        assert page !in Elems(s.recent);
      }
      AppendKeepsOrder(s.recent, h, page);
    } else {
      EvictsFrontOfUsage(s, page, n);
      TailKeepsOrder(s.recent, h);
      assert page !in s.recent[1..] by {
        assert page !in Elems(s.recent);
      }
      AppendKeepsOrder(s.recent[1..], h, page);
    }
  }

  /** After every run the usage list is ordered by last reference in the history. */
  lemma {:induction false} RunKeepsRecency(refs: seq<int>, n: nat)
    requires n > 0
    ensures ByRecency(Run(refs, n).recent, refs)
  {
    if |refs| > 0 {
      var pre := refs[..|refs| - 1];
      var page := refs[|refs| - 1];
      assert refs == pre + [page];
      RunKeepsRecency(pre, n);
      StepKeepsRecency(Run(pre, n), pre, page, n);
      RunSnoc(pre, page, n);
    }
  }

  /**
   LRU eviction order: a miss with every frame taken replaces the resident
   page whose last reference is the earliest of all resident pages.
   */
  lemma EvictsLeastRecentlyUsed(s: LruState, h: seq<int>, page: int, n: nat)
    requires n > 0 && Mirrors(s, n) && ByRecency(s.recent, h)
    requires Some(page) !in s.frames && None !in s.frames
    ensures |s.recent| > 0
    ensures var v := s.recent[0];
            && v in h
            && Resident(Step(s, page, n).frames) == Resident(s.frames) - {v} + {page}
            && forall y :: y in Resident(s.frames) && y != v ==> y in h && LastIndex(h, v) < LastIndex(h, y)
  {
    EvictsFrontOfUsage(s, page, n);
    var v := s.recent[0];
    forall y | y in Resident(s.frames) && y != v
      ensures y in h && LastIndex(h, v) < LastIndex(h, y)
    {
      assert y in Elems(s.recent);
      var j :| 0 <= j < |s.recent| && s.recent[j] == y;
    }
  }

  /**
   When at most n distinct pages are referenced nothing is ever evicted:
   the resident pages are exactly the pages referenced and each of them
   faulted exactly once.
   */
  lemma {:induction false} FaultsWhenAllFit(refs: seq<int>, n: nat)
    requires n > 0 && |Elems(refs)| <= n
    ensures Resident(Run(refs, n).frames) == Elems(refs)
    ensures Run(refs, n).pageFaults == |Elems(refs)|
  {
    if |refs| > 0 {
      var pre := refs[..|refs| - 1];
      var page := refs[|refs| - 1];
      assert refs == pre + [page];
      ElemsSnoc(pre, page);
      FaultsWhenAllFit(pre, n);
      var prev := Run(pre, n);
      RunSnoc(pre, page, n);
      if Some(page) !in prev.frames {
        EmptySlotExists(prev.frames);
        FillsLowestEmptySlot(prev, page, n);
      }
    }
  }

  /** The arrow function that `lru` passes to `forEach`, on the closure variables of the state `s`. */
  method ProcessPage(s: LruState, page: int, n: nat) returns (r: LruState)
    requires n > 0 && Mirrors(s, n)
    ensures r == Step(s, page, n)
  {
    var frames, recentUsage, result, pageFaults := s.frames, s.recent, s.result, s.pageFaults;
    var status := Miss;
    if Some(page) !in frames {
      if None in frames {
        frames := frames[IndexOf(frames, None) := Some(page)];
      } else {
        FullFramesHaveUsage(s, n);
        var leastRecentlyUsed := recentUsage[0];
        recentUsage := recentUsage[1..];
        frames := frames[IndexOf(frames, Some(leastRecentlyUsed)) := Some(page)];
      }
      pageFaults := pageFaults + 1;
    } else {
      status := Hit;
    }
    if page in recentUsage {
      recentUsage := Remove(recentUsage, page);
    }
    recentUsage := recentUsage + [page];
    result := result + [Snapshot(frames, status, page)];
    r := LruState(frames, recentUsage, result, pageFaults);
  }

  /** `lru(pageReferences, pageFrames)` as the source runs it: a loop over the references. */
  method SimulateLoop(refs: seq<int>, n: nat) returns (r: Simulation)
    requires n > 0
    ensures r == Simulate(refs, n)
  {
    var s := Init(n);
    for i := 0 to |refs|
      invariant s == Run(refs[..i], n)
    {
      PrefixSnoc(refs, i);
      RunSnoc(refs[..i], refs[i], n);
      s := ProcessPage(s, refs[i], n);
    }
    assert refs[..|refs|] == refs;
    r := Simulation(s.result, s.pageFaults);
  }
}
