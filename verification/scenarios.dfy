/**
 Small runs of both simulators, stated for arbitrary distinct pages a, b, c,
 d: the fourth of four distinct references with three frames, and the
 string a, b, a, c with two frames, on which the policies part ways.
 */
module Scenarios {
  import opened Frames
  import opened Recency
  import Fifo
  import Lru

  /** Five pairwise different pages. */
  predicate DistinctPages(a: int, b: int, c: int, d: int, e: int)
  {
    && a != b && a != c && a != d && a != e
    && b != c && b != d && b != e
    && c != d && c != e
    && d != e
  }

  /** `refs` is a, b, c, d, a, b, e for five pairwise different pages. */
  predicate SevenRefs(refs: seq<int>, a: int, b: int, c: int, d: int, e: int)
  {
    && DistinctPages(a, b, c, d, e)
    && |refs| == 7
    && refs[0] == a && refs[1] == b && refs[2] == c && refs[3] == d
    && refs[4] == a && refs[5] == b && refs[6] == e
  }

  /**
   On a, b, c, d, a, b, e with three frames (1, 2, 3, 4, 1, 2, 5, say) both
   policies fault on all seven references and end with the frames [e, a, b].
   */
  lemma SevenReferences(a: int, b: int, c: int, d: int, e: int)
    requires DistinctPages(a, b, c, d, e)
    ensures Fifo.Simulate([a, b, c, d, a, b, e], 3).pageFaults == 7
    ensures Fifo.Run([a, b, c, d, a, b, e], 3).frames == [Some(e), Some(a), Some(b)]
    ensures Lru.Simulate([a, b, c, d, a, b, e], 3).pageFaults == 7
    ensures Lru.Run([a, b, c, d, a, b, e], 3).frames == [Some(e), Some(a), Some(b)]
  {
    var refs := [a, b, c, d, a, b, e];
    assert refs[..7] == refs;
    FifoSeven7(refs, a, b, c, d, e);
    LruSeven7(refs, a, b, c, d, e);
  }

  /** `refs[..i + 1]` is `refs[..i]` and one more reference, so its FIFO run is one more step. */
  lemma FifoExtends(refs: seq<int>, i: nat)
    requires i < |refs|
    ensures Fifo.Run(refs[..i + 1], 3) == Fifo.Step(Fifo.Run(refs[..i], 3), refs[i], 3)
  {
    PrefixSnoc(refs, i);
    Fifo.RunSnoc(refs[..i], refs[i], 3);
  }

  /** Two more references are two more FIFO steps. */
  lemma FifoExtendsTwice(refs: seq<int>, i: nat)
    requires i + 1 < |refs|
    ensures Fifo.Run(refs[..i + 2], 3) == Fifo.Step(Fifo.Step(Fifo.Run(refs[..i], 3), refs[i], 3), refs[i + 1], 3)
  {
    FifoExtends(refs, i);
    FifoExtends(refs, i + 1);
  }

  /** Three more references are three more FIFO steps. */
  lemma FifoExtendsThrice(refs: seq<int>, i: nat)
    requires i + 2 < |refs|
    ensures Fifo.Run(refs[..i + 3], 3)
         == Fifo.Step(Fifo.Step(Fifo.Step(Fifo.Run(refs[..i], 3), refs[i], 3), refs[i + 1], 3), refs[i + 2], 3)
  {
    FifoExtendsTwice(refs, i);
    FifoExtends(refs, i + 2);
  }

  /** The first four references are four FIFO steps from the start. */
  lemma FifoExtendsFour(refs: seq<int>)
    requires 4 <= |refs|
    ensures Fifo.Run(refs[..4], 3)
         == Fifo.Step(Fifo.Step(Fifo.Step(Fifo.Step(Fifo.Run(refs[..0], 3), refs[0], 3), refs[1], 3), refs[2], 3), refs[3], 3)
  {
    FifoExtendsThrice(refs, 0);
    FifoExtends(refs, 3);
  }

  /** Before any reference the FIFO frames are empty and nothing has faulted. */
  lemma FifoStart(refs: seq<int>)
    ensures var s := Fifo.Run(refs[..0], 3);
            s.frames == [None, None, None] && s.pointer == 0 && s.pageFaults == 0
  {
    assert refs[..0] == [];
  }

  /** `refs[..i + 1]` is `refs[..i]` and one more reference, so its LRU run is one more step. */
  lemma LruExtends(refs: seq<int>, i: nat)
    requires i < |refs|
    ensures Lru.Run(refs[..i + 1], 3) == Lru.Step(Lru.Run(refs[..i], 3), refs[i], 3)
  {
    PrefixSnoc(refs, i);
    Lru.RunSnoc(refs[..i], refs[i], 3);
  }

  /** Two more references are two more LRU steps. */
  lemma LruExtendsTwice(refs: seq<int>, i: nat)
    requires i + 1 < |refs|
    ensures Lru.Run(refs[..i + 2], 3) == Lru.Step(Lru.Step(Lru.Run(refs[..i], 3), refs[i], 3), refs[i + 1], 3)
  {
    LruExtends(refs, i);
    LruExtends(refs, i + 1);
  }

  /** The first four references are four LRU steps from the start. */
  lemma LruExtendsFour(refs: seq<int>)
    requires 4 <= |refs|
    ensures Lru.Run(refs[..4], 3)
         == Lru.Step(Lru.Step(Lru.Step(Lru.Step(Lru.Run(refs[..0], 3), refs[0], 3), refs[1], 3), refs[2], 3), refs[3], 3)
  {
    LruExtendsTwice(refs, 0);
    LruExtendsTwice(refs, 2);
  }

  /** Before any reference the LRU frames and usage list are empty and nothing has faulted. */
  lemma LruStart(refs: seq<int>)
    ensures var s := Lru.Run(refs[..0], 3);
            s.frames == [None, None, None] && s.recent == [] && s.pageFaults == 0 && Lru.Mirrors(s, 3)
  {
    assert refs[..0] == [];
  }

  /**
   FIFO with three frames on a, b, c, d, a, b, e: each reference misses and
   overwrites the slot under the pointer. Each numbered step lemma is one
   reference, on the state the previous prefix leaves.
   */
  lemma FifoSevenStep1(s: Fifo.FifoState, a: int, b: int, c: int, d: int, e: int)
    requires DistinctPages(a, b, c, d, e)
    requires s.frames == [None, None, None] && s.pointer == 0
    ensures var r := Fifo.Step(s, a, 3);
            r.frames == [Some(a), None, None] && r.pointer == 1 && r.pageFaults == s.pageFaults + 1
  {
  }

  lemma FifoSevenStep2(s: Fifo.FifoState, a: int, b: int, c: int, d: int, e: int)
    requires DistinctPages(a, b, c, d, e)
    requires s.frames == [Some(a), None, None] && s.pointer == 1
    ensures var r := Fifo.Step(s, b, 3);
            r.frames == [Some(a), Some(b), None] && r.pointer == 2 && r.pageFaults == s.pageFaults + 1
  {
  }

  lemma FifoSevenStep3(s: Fifo.FifoState, a: int, b: int, c: int, d: int, e: int)
    requires DistinctPages(a, b, c, d, e)
    requires s.frames == [Some(a), Some(b), None] && s.pointer == 2
    ensures var r := Fifo.Step(s, c, 3);
            r.frames == [Some(a), Some(b), Some(c)] && r.pointer == 0 && r.pageFaults == s.pageFaults + 1
  {
  }

  lemma FifoSevenStep4(s: Fifo.FifoState, a: int, b: int, c: int, d: int, e: int)
    requires DistinctPages(a, b, c, d, e)
    requires s.frames == [Some(a), Some(b), Some(c)] && s.pointer == 0
    ensures var r := Fifo.Step(s, d, 3);
            r.frames == [Some(d), Some(b), Some(c)] && r.pointer == 1 && r.pageFaults == s.pageFaults + 1
  {
  }

  /** The first four references: a, b and c fill the slots in order, and d overwrites slot 0. */
  lemma FifoSevenFrom0(s: Fifo.FifoState, a: int, b: int, c: int, d: int, e: int)
    requires DistinctPages(a, b, c, d, e)
    requires s.frames == [None, None, None] && s.pointer == 0 && s.pageFaults == 0
    ensures var r := Fifo.Step(Fifo.Step(Fifo.Step(Fifo.Step(s, a, 3), b, 3), c, 3), d, 3);
            r.frames == [Some(d), Some(b), Some(c)] && r.pointer == 1 && r.pageFaults == 4
  {
    FifoSevenStep1(s, a, b, c, d, e);
    FifoSevenStep2(Fifo.Step(s, a, 3), a, b, c, d, e);
    FifoSevenStep3(Fifo.Step(Fifo.Step(s, a, 3), b, 3), a, b, c, d, e);
    FifoSevenStep4(Fifo.Step(Fifo.Step(Fifo.Step(s, a, 3), b, 3), c, 3), a, b, c, d, e);
  }

  lemma FifoSeven4(refs: seq<int>, a: int, b: int, c: int, d: int, e: int)
    requires SevenRefs(refs, a, b, c, d, e)
    ensures var s := Fifo.Run(refs[..4], 3);
            s.frames == [Some(d), Some(b), Some(c)] && s.pointer == 1 && s.pageFaults == 4
  {
    FifoStart(refs);
    FifoSevenFrom0(Fifo.Run(refs[..0], 3), a, b, c, d, e);
    FifoExtendsFour(refs);
  }

  lemma FifoSevenStep5(s: Fifo.FifoState, a: int, b: int, c: int, d: int, e: int)
    requires DistinctPages(a, b, c, d, e)
    requires s.frames == [Some(d), Some(b), Some(c)] && s.pointer == 1
    ensures var r := Fifo.Step(s, a, 3);
            r.frames == [Some(d), Some(a), Some(c)] && r.pointer == 2 && r.pageFaults == s.pageFaults + 1
  {
  }

  lemma FifoSeven5(refs: seq<int>, a: int, b: int, c: int, d: int, e: int)
    requires SevenRefs(refs, a, b, c, d, e)
    ensures var s := Fifo.Run(refs[..5], 3);
            s.frames == [Some(d), Some(a), Some(c)] && s.pointer == 2 && s.pageFaults == 5
  {
    var s0 := Fifo.Run(refs[..4], 3);
    var s1 := Fifo.Step(s0, a, 3);
    assert s1.frames == [Some(d), Some(a), Some(c)] && s1.pointer == 2 && s1.pageFaults == 5 by {
      FifoSeven4(refs, a, b, c, d, e);
      FifoSevenStep5(s0, a, b, c, d, e);
    }
    assert Fifo.Run(refs[..5], 3) == s1 by {
      FifoExtends(refs, 4);
    }
  }

  lemma FifoSevenStep6(s: Fifo.FifoState, a: int, b: int, c: int, d: int, e: int)
    requires DistinctPages(a, b, c, d, e)
    requires s.frames == [Some(d), Some(a), Some(c)] && s.pointer == 2
    ensures var r := Fifo.Step(s, b, 3);
            r.frames == [Some(d), Some(a), Some(b)] && r.pointer == 0 && r.pageFaults == s.pageFaults + 1
  {
  }

  lemma FifoSeven6(refs: seq<int>, a: int, b: int, c: int, d: int, e: int)
    requires SevenRefs(refs, a, b, c, d, e)
    ensures var s := Fifo.Run(refs[..6], 3);
            s.frames == [Some(d), Some(a), Some(b)] && s.pointer == 0 && s.pageFaults == 6
  {
    var s0 := Fifo.Run(refs[..5], 3);
    var s1 := Fifo.Step(s0, b, 3);
    assert s1.frames == [Some(d), Some(a), Some(b)] && s1.pointer == 0 && s1.pageFaults == 6 by {
      FifoSeven5(refs, a, b, c, d, e);
      FifoSevenStep6(s0, a, b, c, d, e);
    }
    assert Fifo.Run(refs[..6], 3) == s1 by {
      FifoExtends(refs, 5);
    }
  }

  lemma FifoSevenStep7(s: Fifo.FifoState, a: int, b: int, c: int, d: int, e: int)
    requires DistinctPages(a, b, c, d, e)
    requires s.frames == [Some(d), Some(a), Some(b)] && s.pointer == 0
    ensures var r := Fifo.Step(s, e, 3);
            r.frames == [Some(e), Some(a), Some(b)] && r.pointer == 1 && r.pageFaults == s.pageFaults + 1
  {
  }

  lemma FifoSeven7(refs: seq<int>, a: int, b: int, c: int, d: int, e: int)
    requires SevenRefs(refs, a, b, c, d, e)
    ensures var s := Fifo.Run(refs[..7], 3);
            s.frames == [Some(e), Some(a), Some(b)] && s.pointer == 1 && s.pageFaults == 7
  {
    var s0 := Fifo.Run(refs[..6], 3);
    var s1 := Fifo.Step(s0, e, 3);
    assert s1.frames == [Some(e), Some(a), Some(b)] && s1.pointer == 1 && s1.pageFaults == 7 by {
      FifoSeven6(refs, a, b, c, d, e);
      FifoSevenStep7(s0, a, b, c, d, e);
    }
    assert Fifo.Run(refs[..7], 3) == s1 by {
      FifoExtends(refs, 6);
    }
  }

  /**
   LRU with three frames on a, b, c, d, a, b, e: each reference misses, d
   evicts a, a evicts b, b evicts c and e evicts d. Each numbered step lemma
   is one reference, on the state the previous prefix leaves.
   */
  lemma LruSevenStep1(s: Lru.LruState, a: int, b: int, c: int, d: int, e: int)
    requires DistinctPages(a, b, c, d, e)
    requires Lru.Mirrors(s, 3) && s.frames == [None, None, None] && s.recent == []
    ensures var r := Lru.Step(s, a, 3);
            && r.frames == [Some(a), None, None] && r.recent == [a]
            && r.pageFaults == s.pageFaults + 1 && r.result == s.result + [Snapshot(r.frames, Miss, a)]
  {
    assert [] + [a] == [a];
    Lru.MissStep(s, a, 0, 3);
  }

  lemma LruSevenStep2(s: Lru.LruState, a: int, b: int, c: int, d: int, e: int)
    requires DistinctPages(a, b, c, d, e)
    requires Lru.Mirrors(s, 3) && s.frames == [Some(a), None, None] && s.recent == [a]
    ensures var r := Lru.Step(s, b, 3);
            && r.frames == [Some(a), Some(b), None] && r.recent == [a, b]
            && r.pageFaults == s.pageFaults + 1 && r.result == s.result + [Snapshot(r.frames, Miss, b)]
  {
    assert [a] + [b] == [a, b];
    Lru.MissStep(s, b, 1, 3);
  }

  lemma LruSevenStep3(s: Lru.LruState, a: int, b: int, c: int, d: int, e: int)
    requires DistinctPages(a, b, c, d, e)
    requires Lru.Mirrors(s, 3) && s.frames == [Some(a), Some(b), None] && s.recent == [a, b]
    ensures var r := Lru.Step(s, c, 3);
            && r.frames == [Some(a), Some(b), Some(c)] && r.recent == [a, b, c]
            && r.pageFaults == s.pageFaults + 1 && r.result == s.result + [Snapshot(r.frames, Miss, c)]
  {
    assert [a, b] + [c] == [a, b, c];
    Lru.MissStep(s, c, 2, 3);
  }

  lemma LruSevenStep4(s: Lru.LruState, a: int, b: int, c: int, d: int, e: int)
    requires DistinctPages(a, b, c, d, e)
    requires Lru.Mirrors(s, 3) && s.frames == [Some(a), Some(b), Some(c)] && s.recent == [a, b, c]
    ensures var r := Lru.Step(s, d, 3);
            && r.frames == [Some(d), Some(b), Some(c)] && r.recent == [b, c, d]
            && r.pageFaults == s.pageFaults + 1 && r.result == s.result + [Snapshot(r.frames, Miss, d)]
  {
    assert [a, b, c][1..] + [d] == [b, c, d];
    Lru.MissStep(s, d, 0, 3);
  }

  /** The first four references: a, b and c fill the slots in order, and d evicts a. */
  lemma LruSevenFrom0(s: Lru.LruState, a: int, b: int, c: int, d: int, e: int)
    requires DistinctPages(a, b, c, d, e)
    requires Lru.Mirrors(s, 3) && s.frames == [None, None, None] && s.recent == [] && s.pageFaults == 0
    ensures var r := Lru.Step(Lru.Step(Lru.Step(Lru.Step(s, a, 3), b, 3), c, 3), d, 3);
            r.frames == [Some(d), Some(b), Some(c)] && r.recent == [b, c, d] && r.pageFaults == 4
  {
    LruSevenStep1(s, a, b, c, d, e);
    LruSevenStep2(Lru.Step(s, a, 3), a, b, c, d, e);
    LruSevenStep3(Lru.Step(Lru.Step(s, a, 3), b, 3), a, b, c, d, e);
    LruSevenStep4(Lru.Step(Lru.Step(Lru.Step(s, a, 3), b, 3), c, 3), a, b, c, d, e);
  }

  lemma LruSeven4(refs: seq<int>, a: int, b: int, c: int, d: int, e: int)
    requires SevenRefs(refs, a, b, c, d, e)
    ensures var s := Lru.Run(refs[..4], 3);
            s.frames == [Some(d), Some(b), Some(c)] && s.recent == [b, c, d] && s.pageFaults == 4
  {
    LruStart(refs);
    LruSevenFrom0(Lru.Run(refs[..0], 3), a, b, c, d, e);
    LruExtendsFour(refs);
  }

  lemma LruSevenStep5(s: Lru.LruState, a: int, b: int, c: int, d: int, e: int)
    requires DistinctPages(a, b, c, d, e)
    requires Lru.Mirrors(s, 3) && s.frames == [Some(d), Some(b), Some(c)] && s.recent == [b, c, d]
    ensures var r := Lru.Step(s, a, 3);
            && r.frames == [Some(d), Some(a), Some(c)] && r.recent == [c, d, a]
            && r.pageFaults == s.pageFaults + 1 && r.result == s.result + [Snapshot(r.frames, Miss, a)]
  {
    assert [b, c, d][1..] + [a] == [c, d, a];
    Lru.MissStep(s, a, 1, 3);
  }

  lemma LruSeven5(refs: seq<int>, a: int, b: int, c: int, d: int, e: int)
    requires SevenRefs(refs, a, b, c, d, e)
    ensures var s := Lru.Run(refs[..5], 3);
            s.frames == [Some(d), Some(a), Some(c)] && s.recent == [c, d, a] && s.pageFaults == 5
  {
    var s0 := Lru.Run(refs[..4], 3);
    var s1 := Lru.Step(s0, a, 3);
    assert s1.frames == [Some(d), Some(a), Some(c)] && s1.recent == [c, d, a] && s1.pageFaults == 5 by {
      LruSeven4(refs, a, b, c, d, e);
      LruSevenStep5(s0, a, b, c, d, e);
    }
    assert Lru.Run(refs[..5], 3) == s1 by {
      LruExtends(refs, 4);
    }
  }

  lemma LruSevenStep6(s: Lru.LruState, a: int, b: int, c: int, d: int, e: int)
    requires DistinctPages(a, b, c, d, e)
    requires Lru.Mirrors(s, 3) && s.frames == [Some(d), Some(a), Some(c)] && s.recent == [c, d, a]
    ensures var r := Lru.Step(s, b, 3);
            && r.frames == [Some(d), Some(a), Some(b)] && r.recent == [d, a, b]
            && r.pageFaults == s.pageFaults + 1 && r.result == s.result + [Snapshot(r.frames, Miss, b)]
  {
    assert [c, d, a][1..] + [b] == [d, a, b];
    Lru.MissStep(s, b, 2, 3);
  }

  lemma LruSeven6(refs: seq<int>, a: int, b: int, c: int, d: int, e: int)
    requires SevenRefs(refs, a, b, c, d, e)
    ensures var s := Lru.Run(refs[..6], 3);
            s.frames == [Some(d), Some(a), Some(b)] && s.recent == [d, a, b] && s.pageFaults == 6
  {
    var s0 := Lru.Run(refs[..5], 3);
    var s1 := Lru.Step(s0, b, 3);
    assert s1.frames == [Some(d), Some(a), Some(b)] && s1.recent == [d, a, b] && s1.pageFaults == 6 by {
      LruSeven5(refs, a, b, c, d, e);
      LruSevenStep6(s0, a, b, c, d, e);
    }
    assert Lru.Run(refs[..6], 3) == s1 by {
      LruExtends(refs, 5);
    }
  }

  lemma LruSevenStep7(s: Lru.LruState, a: int, b: int, c: int, d: int, e: int)
    requires DistinctPages(a, b, c, d, e)
    requires Lru.Mirrors(s, 3) && s.frames == [Some(d), Some(a), Some(b)] && s.recent == [d, a, b]
    ensures var r := Lru.Step(s, e, 3);
            && r.frames == [Some(e), Some(a), Some(b)] && r.recent == [a, b, e]
            && r.pageFaults == s.pageFaults + 1 && r.result == s.result + [Snapshot(r.frames, Miss, e)]
  {
    assert [d, a, b][1..] + [e] == [a, b, e];
    Lru.MissStep(s, e, 0, 3);
  }

  lemma LruSeven7(refs: seq<int>, a: int, b: int, c: int, d: int, e: int)
    requires SevenRefs(refs, a, b, c, d, e)
    ensures var s := Lru.Run(refs[..7], 3);
            s.frames == [Some(e), Some(a), Some(b)] && s.recent == [a, b, e] && s.pageFaults == 7
  {
    var s0 := Lru.Run(refs[..6], 3);
    var s1 := Lru.Step(s0, e, 3);
    assert s1.frames == [Some(e), Some(a), Some(b)] && s1.recent == [a, b, e] && s1.pageFaults == 7 by {
      LruSeven6(refs, a, b, c, d, e);
      LruSevenStep7(s0, a, b, c, d, e);
    }
    assert Lru.Run(refs[..7], 3) == s1 by {
      LruExtends(refs, 6);
    }
  }

  /** FIFO with three frames: the first three misses fill slots 0, 1, 2 and the fourth overwrites slot 0. */
  lemma FifoFourDistinct(a: int, b: int, c: int, d: int)
    requires a != b && a != c && a != d && b != c && b != d && c != d
    ensures Fifo.Run([a, b, c, d], 3).frames == [Some(d), Some(b), Some(c)]
  {
    Fifo.RunSnoc([], a, 3);
    assert [] + [a] == [a];
    Fifo.RunSnoc([a], b, 3);
    assert [a] + [b] == [a, b];
    Fifo.RunSnoc([a, b], c, 3);
    assert [a, b] + [c] == [a, b, c];
    Fifo.RunSnoc([a, b, c], d, 3);
    assert [a, b, c] + [d] == [a, b, c, d];
  }

  /** LRU with three frames after three distinct references: all resident, in order of reference. */
  lemma LruAfterThree(a: int, b: int, c: int)
    requires a != b && a != c && b != c
    ensures var s := Lru.Run([a, b, c], 3);
            && Lru.Mirrors(s, 3) && ByRecency(s.recent, [a, b, c])
            && Resident(s.frames) == {a, b, c} && None !in s.frames
  {
    var h := [a, b, c];
    assert Elems(h) == {a, b, c};
    Lru.FaultsWhenAllFit(h, 3);
    Lru.RunKeepsRecency(h, 3);
    ResidentBound(Lru.Run(h, 3).frames);
  }

  /** With a, b, c resident and referenced in that order, a miss on d evicts a. */
  lemma LeastRecentOfThree(s: Lru.LruState, a: int, b: int, c: int, d: int)
    requires a != b && a != c && a != d && b != c && b != d && c != d
    requires Lru.Mirrors(s, 3) && ByRecency(s.recent, [a, b, c])
    requires Resident(s.frames) == {a, b, c} && None !in s.frames
    ensures Resident(Lru.Step(s, d, 3).frames) == {b, c, d}
  {
    Lru.EvictsLeastRecentlyUsed(s, [a, b, c], d, 3);
    assert LastIndex([a, b, c], a) == 0;
  }

  /**
   LRU with three frames: the fourth of four distinct references evicts the
   first, exactly as FIFO does, since a is also the least recently used.
   */
  lemma LruFourDistinct(a: int, b: int, c: int, d: int)
    requires a != b && a != c && a != d && b != c && b != d && c != d
    ensures Resident(Lru.Run([a, b, c, d], 3).frames) == {b, c, d}
  {
    assert [a, b, c, d] == [a, b, c] + [d];
    Lru.RunSnoc([a, b, c], d, 3);
    LruAfterThree(a, b, c);
    LeastRecentOfThree(Lru.Run([a, b, c], 3), a, b, c, d);
  }

  /** FIFO with two frames after a, b, a: both slots written once, the pointer back at slot 0. */
  lemma FifoAfterABA(a: int, b: int)
    requires a != b
    ensures var s := Fifo.Run([a, b, a], 2);
            s.frames == [Some(a), Some(b)] && s.pointer == 0
  {
    Fifo.RunSnoc([], a, 2);
    assert [] + [a] == [a];
    Fifo.RunSnoc([a], b, 2);
    assert [a] + [b] == [a, b];
    Fifo.RunSnoc([a, b], a, 2);
    assert [a, b] + [a] == [a, b, a];
  }

  /** FIFO with two frames on a, b, a, c: the hit on a does not protect it, and c overwrites it. */
  lemma FifoIgnoresHits(a: int, b: int, c: int)
    requires a != b && a != c && b != c
    ensures Fifo.Run([a, b, a, c], 2).frames == [Some(c), Some(b)]
  {
    assert [a, b, a, c] == [a, b, a] + [c];
    Fifo.RunSnoc([a, b, a], c, 2);
    FifoAfterABA(a, b);
  }

  /** LRU with two frames after a, b, a: both resident, a the more recently used. */
  lemma LruAfterABA(a: int, b: int)
    requires a != b
    ensures var s := Lru.Run([a, b, a], 2);
            && Lru.Mirrors(s, 2) && ByRecency(s.recent, [a, b, a])
            && Resident(s.frames) == {a, b} && None !in s.frames
  {
    var h := [a, b, a];
    assert Elems(h) == {a, b};
    Lru.FaultsWhenAllFit(h, 2);
    Lru.RunKeepsRecency(h, 2);
    ResidentBound(Lru.Run(h, 2).frames);
  }

  /** LRU with two frames on a, b, a, c: the hit on a makes b the least recently used, and c replaces b. */
  lemma LruHonoursHits(a: int, b: int, c: int)
    requires a != b && a != c && b != c
    ensures Resident(Lru.Run([a, b, a, c], 2).frames) == {a, c}
  {
    assert [a, b, a, c] == [a, b, a] + [c];
    Lru.RunSnoc([a, b, a], c, 2);
    LruAfterABA(a, b);
    LeastRecentOfTwo(Lru.Run([a, b, a], 2), [a, b, a], c);
  }

  /** With a and b resident, b referenced last but one, a miss on c evicts b. */
  lemma LeastRecentOfTwo(s: Lru.LruState, h: seq<int>, c: int)
    requires |h| == 3 && h[0] == h[2] && h[0] != h[1] && c != h[0] && c != h[1]
    requires Lru.Mirrors(s, 2) && ByRecency(s.recent, h)
    requires Resident(s.frames) == {h[0], h[1]} && None !in s.frames
    ensures Resident(Lru.Step(s, c, 2).frames) == {h[0], c}
  {
    Lru.EvictsLeastRecentlyUsed(s, h, c, 2);
    assert LastIndex(h, h[1]) == 1;
    assert LastIndex(h, h[0]) == 2;
  }
}
