/**
 The FIFO simulator: a circular write pointer names the slot the next miss
 overwrites, so pages leave the frames in the order they were written,
 whatever happened to them in between.
 */
module Fifo {
  import opened Frames
  import opened Slots

  /** The closure state of `fifo`: the frames, the pointer and what has been accumulated so far. */
  datatype FifoState = FifoState(frames: seq<Option<int>>, pointer: nat, result: seq<Snapshot>, pageFaults: nat)

  /** Before the first reference: empty frames, pointer 0, nothing recorded. */
  function Init(n: nat): (r: FifoState)
    ensures |r.frames| == n && Resident(r.frames) == {}
    ensures r.pointer == 0 && r.result == [] && r.pageFaults == 0
  {
    FifoState(EmptyFrames(n), 0, [], 0)
  }

  /** One pass of the `forEach` body for `page`. */
  function Step(s: FifoState, page: int, n: nat): (r: FifoState)
    requires n > 0 && |s.frames| == n && s.pointer < n
    ensures |r.frames| == n && r.pointer < n
    ensures Some(page) in r.frames
    ensures Distinct(s.frames) ==> Distinct(r.frames)
    ensures Some(page) in s.frames ==>
      r.frames == s.frames && r.pointer == s.pointer && r.pageFaults == s.pageFaults
    ensures Some(page) !in s.frames ==>
      && r.frames[s.pointer] == Some(page)
      && (forall j :: 0 <= j < n && j != s.pointer ==> r.frames[j] == s.frames[j])
      && r.pointer == (s.pointer + 1) % n
      && r.pageFaults == s.pageFaults + 1
    ensures r.result == s.result + [Snapshot(r.frames, if Some(page) in s.frames then Hit else Miss, page)]
  {
    if Some(page) !in s.frames then
      var frames := s.frames[s.pointer := Some(page)];
      assert frames[s.pointer] == Some(page);
      FifoState(frames, (s.pointer + 1) % n, s.result + [Snapshot(frames, Miss, page)], s.pageFaults + 1)
    else
      FifoState(s.frames, s.pointer, s.result + [Snapshot(s.frames, Hit, page)], s.pageFaults)
  }

  /** What holds of the state once the references `refs` have been processed. */
  ghost predicate Inv(s: FifoState, refs: seq<int>, n: nat)
  {
    && n > 0 && |s.frames| == n && s.pointer < n
    && Distinct(s.frames)
    && s.frames == Latest(s.result, n)
    && |s.result| == |refs|
    && s.pageFaults == MissCount(s.result)
    && s.pointer == Slot(s.pageFaults, n)
  }

  /** One step keeps the invariant, with its page appended to the references. */
  lemma StepInv(s: FifoState, refs: seq<int>, page: int, n: nat)
    requires Inv(s, refs, n)
    ensures Inv(Step(s, page, n), refs + [page], n)
  {
    var r := Step(s, page, n);
    var snap := r.result[|s.result|];
    assert r.result == s.result + [snap];
    assert r.result[..|s.result|] == s.result;
    SlotSucc(s.pageFaults, n);
  }

  /** The state after `forEach` has processed every page of `refs`. */
  function Run(refs: seq<int>, n: nat): (s: FifoState)
    requires n > 0
    ensures Inv(s, refs, n)
    decreases |refs|
  {
    if |refs| == 0 then
      Init(n)
    else
      var prev := Run(refs[..|refs| - 1], n);
      var page := refs[|refs| - 1];
      StepInv(prev, refs[..|refs| - 1], page, n);
      assert refs == refs[..|refs| - 1] + [page];
      Step(prev, page, n)
  }

  /** The pointer is the number of misses so far, modulo the number of frames. */
  lemma PointerCountsMisses(refs: seq<int>, n: nat)
    requires n > 0
    ensures Run(refs, n).pointer == Run(refs, n).pageFaults % n
    ensures Run(refs, n).pageFaults == MissCount(Run(refs, n).result)
  {
    SlotIsMod(Run(refs, n).pageFaults, n);
  }

  /** Every run produces a valid trace. */
  lemma {:induction false} RunTrace(refs: seq<int>, n: nat)
    requires n > 0
    ensures ValidTrace(refs, n, Run(refs, n).result)
  {
    if |refs| > 0 {
      var pre := refs[..|refs| - 1];
      var page := refs[|refs| - 1];
      assert refs == pre + [page];
      var prev := Run(pre, n);
      RunTrace(pre, n);
      RunSnoc(pre, page, n);
      var r := Step(prev, page, n);
      ExtendTrace(pre, n, prev.result, page, r.result[|prev.result|]);
      assert r.result == prev.result + [r.result[|prev.result|]];
    }
  }

  /** Processing one more reference is one more step. */
  lemma RunSnoc(refs: seq<int>, page: int, n: nat)
    requires n > 0
    ensures Run(refs + [page], n) == Step(Run(refs, n), page, n)
  {
    assert (refs + [page])[..|refs|] == refs;
  }

  /** `fifo(pageReferences, pageFrames)`: the snapshots and the fault count. */
  function Simulate(refs: seq<int>, n: nat): (r: Simulation)
    requires n > 0
    ensures ValidTrace(refs, n, r.result)
    ensures r.pageFaults == MissCount(r.result)
    ensures refs == [] ==> r == Simulation([], 0)
  {
    var s := Run(refs, n);
    RunTrace(refs, n);
    Simulation(s.result, s.pageFaults)
  }

  /** The arrow function that `fifo` passes to `forEach`, on the closure variables of the state `s`. */
  method ProcessPage(s: FifoState, page: int, n: nat) returns (r: FifoState)
    requires n > 0 && |s.frames| == n && s.pointer < n
    ensures r == Step(s, page, n)
  {
    var frames, pointer, result, pageFaults := s.frames, s.pointer, s.result, s.pageFaults;
    var status := Miss;
    if Some(page) !in frames {
      frames := frames[pointer := Some(page)];
      pointer := (pointer + 1) % n;
      pageFaults := pageFaults + 1;
    } else {
      status := Hit;
    }
    result := result + [Snapshot(frames, status, page)];
    r := FifoState(frames, pointer, result, pageFaults);
  }

  /** `fifo(pageReferences, pageFrames)` as the source runs it: a loop over the references. */
  method SimulateLoop(refs: seq<int>, n: nat) returns (r: Simulation)
    requires n > 0
    ensures r == Simulate(refs, n)
  {
    var s := Init(n);
    for i := 0 to |refs|
      invariant s == Run(refs[..i], n)
    {
      PrefixSnoc(refs, i);
      RunSnoc(refs[..i], refs[i], n);
      s := ProcessPage(s, refs[i], n);
    }
    assert refs[..|refs|] == refs;
    r := Simulation(s.result, s.pageFaults);
  }

  /**
   The FIFO state as a function of the miss history m (the pages written, in
   order): the pointer is the slot of the next write, each of the last n
   misses still sits in the slot it was written to, and slots no miss has
   reached yet are empty.
   */
  predicate Tracks(s: FifoState, m: seq<int>, n: nat)
  {
    && n > 0 && |s.frames| == n && Distinct(s.frames)
    && s.pointer == Slot(|m|, n)
    && (forall j :: 0 <= j < |m| && |m| - n <= j ==> s.frames[Slot(j, n)] == Some(m[j]))
    && (forall i :: |m| <= i < n ==> s.frames[i] == None)
  }

  /** One step keeps the state in step with the miss history. */
  lemma StepTracks(s: FifoState, page: int, n: nat)
    requires Tracks(s, MissPages(s.result), n)
    ensures Tracks(Step(s, page, n), MissPages(Step(s, page, n).result), n)
  {
    var r := Step(s, page, n);
    var m := MissPages(s.result);
    assert r.result[..|s.result|] == s.result;
    if Some(page) !in s.frames {
      var m' := m + [page];
      assert MissPages(r.result) == m';
      SlotSucc(|m|, n);
      forall j | 0 <= j < |m'| && |m'| - n <= j
        ensures r.frames[Slot(j, n)] == Some(m'[j])
      {
        if j < |m| {
          SlotDistinct(j, |m|, n);
        }
      }
      forall i | |m'| <= i < n
        ensures r.frames[i] == None
      {
        assert s.pointer == |m|;
      }
    } else {
      assert MissPages(r.result) == m;
    }
  }

  /** Until n misses have happened some slot is still empty. */
  lemma UnreachedSlotEmpty(s: FifoState, m: seq<int>, n: nat)
    requires Tracks(s, m, n)
    ensures |m| < n ==> None in s.frames
  {
    if |m| < n {
      assert s.frames[|m|] == None;
    }
  }

  /** Every run is in step with its own miss history. */
  lemma {:induction false} RunTracks(refs: seq<int>, n: nat)
    requires n > 0
    ensures Tracks(Run(refs, n), MissPages(Run(refs, n).result), n)
  {
    if |refs| > 0 {
      var pre := refs[..|refs| - 1];
      assert refs == pre + [refs[|refs| - 1]];
      RunTracks(pre, n);
      StepTracks(Run(pre, n), refs[|refs| - 1], n);
      RunSnoc(pre, refs[|refs| - 1], n);
    }
  }

  /**
   FIFO eviction order. In a full state that is in step with a miss history
   m, the slot under the pointer holds the page written n misses ago and
   every other slot holds a page written since; a miss replaces exactly that
   oldest page by the new one.
   */
  lemma EvictsOldestWritten(s: FifoState, m: seq<int>, page: int, n: nat)
    requires Tracks(s, m, n) && None !in s.frames && Some(page) !in s.frames
    ensures |m| >= n && s.frames[s.pointer] == Some(m[|m| - n])
    ensures forall j :: |m| - n < j < |m| ==> Slot(j, n) != s.pointer && s.frames[Slot(j, n)] == Some(m[j])
    ensures Resident(Step(s, page, n).frames) == Resident(s.frames) - {m[|m| - n]} + {page}
  {
    UnreachedSlotEmpty(s, m, n);
    SlotShift(|m| - n, n);
    forall j | |m| - n < j < |m|
      ensures Slot(j, n) != s.pointer
    {
      SlotDistinct(j, |m|, n);
    }
    OverwriteSlot(s.frames, s.pointer, m[|m| - n], page);
  }

  /** Before n misses the pointer is at the first slot never written, so a miss evicts nothing. */
  lemma FillsEmptySlot(s: FifoState, m: seq<int>, page: int, n: nat)
    requires Tracks(s, m, n) && |m| < n && Some(page) !in s.frames
    ensures s.pointer == |m| && s.frames[s.pointer] == None
    ensures Resident(Step(s, page, n).frames) == Resident(s.frames) + {page}
  {
    assert s.frames[|m|] == None;
    WriteEmptySlot(s.frames, s.pointer, page);
  }

  /**
   When at most n distinct pages are referenced nothing is ever evicted:
   the resident pages are exactly the pages referenced and each of them
   faulted exactly once.
   */
  lemma {:induction false} FaultsWhenAllFit(refs: seq<int>, n: nat)
    requires n > 0 && |Elems(refs)| <= n
    ensures Resident(Run(refs, n).frames) == Elems(refs)
    ensures Run(refs, n).pageFaults == |Elems(refs)|
  {
    if |refs| > 0 {
      var pre := refs[..|refs| - 1];
      var page := refs[|refs| - 1];
      assert refs == pre + [page];
      ElemsSnoc(pre, page);
      FaultsWhenAllFit(pre, n);
      var prev := Run(pre, n);
      RunSnoc(pre, page, n);
      if Some(page) !in prev.frames {
        RunTracks(pre, n);
        FillsEmptySlot(prev, MissPages(prev.result), page, n);
      }
    }
  }
}
