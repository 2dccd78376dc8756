/**
  The loop invariant of `mergeSequences` and one lemma per branch of its
  loop body. The to-chain is L + done + restT + R: `done` is the merged
  prefix, `restT` the part of the to-run not yet passed by `beginTo`; the
  from-run still to be merged is the detached chain `restF`.
*/
module MergeSteps {
  import opened XorLinks
  import opened Runs

  /** Every element of `s` comes from `a` or `b`. */
  ghost predicate Within(s: seq<Ptr>, a: seq<Ptr>, b: seq<Ptr>)
  {
    forall x :: x in s ==> x in a || x in b
  }

  /** Outside T, F and the two nodes around T, no link word changed since `link0`. */
  ghost predicate KeptOutside(link0: map<Ptr, Ptr>, link: map<Ptr, Ptr>,
                              L: seq<Ptr>, T: seq<Ptr>, R: seq<Ptr>, F: seq<Ptr>)
  {
    && link.Keys == link0.Keys
    && forall q :: q in link0 && q !in T && q !in F && q != Last0(L) && q != First0(R) ==> link[q] == link0[q]
  }

  /** The cursors of the merge loop. */
  datatype MergeCursors = MergeCursors(beginTo: Cursor, endTo: Cursor, resultBegin: Cursor,
                                       beginFrom: Cursor, endFrom: Cursor)

  /** The to-chain L + done + restT + R and the detached from-chain restF. */
  ghost predicate MergeChains(link: map<Ptr, Ptr>, L: seq<Ptr>, R: seq<Ptr>,
                              done: seq<Ptr>, restT: seq<Ptr>, restF: seq<Ptr>)
  {
    && Null !in link && Chain(link, L + done + restT + R) && Chain(link, restF)
    && Disjoint(restF, L + done + restT + R)
  }

  /** Where each cursor of the loop stands. */
  ghost predicate MergeCursorsAt(L: seq<Ptr>, R: seq<Ptr>, done: seq<Ptr>, restT: seq<Ptr>, restF: seq<Ptr>,
                                 c: MergeCursors)
  {
    && c.beginTo == Between(L + done, restT + R)
    && c.endTo == Between(L + done + restT, R)
    && c.resultBegin == Between(L, done + restT + R)
    && c.beginFrom == Between([], restF)
    && (restF != [] ==> c.endFrom == Between(restF, []))
    && c.endFrom.current == Null
  }

  /** The merged prefix and the two remainders together make up the merge of T and F. */
  ghost predicate MergeProgress(value: map<Ptr, int>, T: seq<Ptr>, F: seq<Ptr>,
                                done: seq<Ptr>, restT: seq<Ptr>, restF: seq<Ptr>)
  {
    && Owns(value, T) && Owns(value, F) && Owns(value, restT) && Owns(value, restF)
    && done + MergeRuns(value, restT, restF) == MergeRuns(value, T, F)
    && Within(done, T, F) && Within(restT, T, []) && Within(restF, F, [])
  }

  ghost predicate MergeInv(link0: map<Ptr, Ptr>, link: map<Ptr, Ptr>, value: map<Ptr, int>,
                           L: seq<Ptr>, T: seq<Ptr>, R: seq<Ptr>, F: seq<Ptr>,
                           done: seq<Ptr>, restT: seq<Ptr>, restF: seq<Ptr>, c: MergeCursors)
  {
    && MergeProgress(value, T, F, done, restT, restF)
    && MergeChains(link, L, R, done, restT, restF)
    && MergeCursorsAt(L, R, done, restT, restF, c)
    && KeptOutside(link0, link, L, T, R, F)
  }

  /** The invariant holds on entry. */
  lemma MergeEnter(link: map<Ptr, Ptr>, value: map<Ptr, int>,
                   L: seq<Ptr>, T: seq<Ptr>, R: seq<Ptr>, F: seq<Ptr>, c: MergeCursors)
    requires Null !in link && Chain(link, L + T + R) && Chain(link, F) && Disjoint(F, L + T + R)
    requires Owns(value, T) && Owns(value, F)
    requires c.beginTo == Between(L, T + R) && c.endTo == Between(L + T, R) && c.resultBegin == c.beginTo
    requires c.beginFrom == Between([], F) && c.endFrom == Between(F, [])
    ensures MergeInv(link, link, value, L, T, R, F, [], T, F, c)
  {
    assert L + [] + T + R == L + T + R;
    assert L + [] == L && [] + T + R == T + R;
  }

  /** What the loop body reads off the state: which branch it takes, and that its calls are allowed. */
  lemma MergeFacts(link: map<Ptr, Ptr>, L: seq<Ptr>, R: seq<Ptr>,
                   done: seq<Ptr>, restT: seq<Ptr>, restF: seq<Ptr>, c: MergeCursors)
    requires MergeChains(link, L, R, done, restT, restF)
    requires MergeCursorsAt(L, R, done, restT, restF, c)
    ensures c.beginFrom.current == c.endFrom.current <==> restF == []
    ensures c.beginTo.current == c.endTo.current <==> restT == []
    ensures c.resultBegin.current == c.beginTo.current <==> done == []
    ensures restF != [] ==> restF[0] in link && c.beginFrom.current == restF[0]
    ensures restF != [] ==> c.beginFrom.prev == Null && c.endFrom.prev in link
    ensures restF != [] ==> Next(link, c.beginFrom) == Between([restF[0]], restF[1..])
    ensures |restF| > 1 ==> restF[1] in link
    ensures restT != [] ==> c.beginTo.current == restT[0]
    ensures c.beginTo.prev != Null ==> c.beginTo.prev in link
    ensures c.beginTo.current != Null ==> c.beginTo.current in link
  {
    FromFacts(link, restF, c.beginFrom, c.endFrom);
    ToEnds(link, L, R, done, restT);
    ToBranches(link, L, R, done, restT);
  }

  lemma FromFacts(link: map<Ptr, Ptr>, restF: seq<Ptr>, beginFrom: Cursor, endFrom: Cursor)
    requires Chain(link, restF) && beginFrom == Between([], restF) && endFrom.current == Null
    requires restF != [] ==> endFrom == Between(restF, [])
    ensures beginFrom.current == endFrom.current <==> restF == []
    ensures restF != [] ==> restF[0] in link && beginFrom.current == restF[0]
    ensures restF != [] ==> beginFrom.prev == Null && endFrom.prev in link
    ensures restF != [] ==> Next(link, beginFrom) == Between([restF[0]], restF[1..])
    ensures |restF| > 1 ==> restF[1] in link
  {
    if restF != [] {
      assert LinkOk(link, restF, 0) && LinkOk(link, restF, |restF| - 1);
      assert [] + restF == restF;
      NextInChain(link, [], restF);
      assert [] + [restF[0]] == [restF[0]];
      if |restF| > 1 {
        assert LinkOk(link, restF, 1);
      }
    }
  }

  /** The two nodes around `beginTo` are in the map. */
  lemma ToEnds(link: map<Ptr, Ptr>, L: seq<Ptr>, R: seq<Ptr>, done: seq<Ptr>, restT: seq<Ptr>)
    requires Chain(link, L + done + restT + R)
    ensures Last0(L + done) != Null ==> Last0(L + done) in link
    ensures First0(restT + R) != Null ==> First0(restT + R) in link
  {
    var s := L + done + restT + R;
    assert s == (L + done) + (restT + R);
    if Last0(L + done) != Null {
      assert s[|L| + |done| - 1] == Last0(L + done);
      assert LinkOk(link, s, |L| + |done| - 1);
    }
    if First0(restT + R) != Null {
      assert s[|L| + |done|] == First0(restT + R);
      assert LinkOk(link, s, |L| + |done|);
    }
  }

  /** `beginTo` meets `endTo` exactly when the to-run is used up, and `resultBegin` only before anything merged. */
  lemma ToBranches(link: map<Ptr, Ptr>, L: seq<Ptr>, R: seq<Ptr>, done: seq<Ptr>, restT: seq<Ptr>)
    requires Chain(link, L + done + restT + R)
    ensures First0(restT + R) == First0(R) <==> restT == []
    ensures First0(done + restT + R) == First0(restT + R) <==> done == []
    ensures restT != [] ==> First0(restT + R) == restT[0]
  {
    var s := L + done + restT + R;
    assert Distinct(s) && Null !in s;
    if restT != [] {
      assert s[|L| + |done|] == restT[0];
      assert (restT + R)[0] == restT[0];
      if R != [] {
        assert s[|L| + |done| + |restT|] == R[0];
      }
    }
    if done != [] {
      assert s[|L|] == done[0];
      assert (done + restT + R)[0] == done[0];
      if restT != [] {
        assert s[|L| + |done|] == restT[0];
        assert (restT + R)[0] == restT[0];
      } else if R != [] {
        assert s[|L| + |done|] == R[0];
        assert (restT + R)[0] == R[0];
      }
    }
  }

  /** The node before `beginTo` is the last node of L or a node already merged. */
  lemma BeforeBeginTo(L: seq<Ptr>, done: seq<Ptr>)
    ensures Last0(L + done) == Last0(L) || Last0(L + done) in done
  {
    if done != [] {
      assert Last0(L + done) == done[|done| - 1];
    }
  }

  /** The node `beginTo` stands on is the first node of R or a node of the to-run. */
  lemma AtBeginTo(restT: seq<Ptr>, R: seq<Ptr>)
    ensures First0(restT + R) == First0(R) || First0(restT + R) in restT
  {
    if restT != [] {
      assert First0(restT + R) == restT[0];
    }
  }

  /**
    Branch `isLess(*beginFrom, *beginTo)`, chains: the head of the from-run
    is cut off and inserted before `beginTo`.
  */
  lemma MoveChains(link: map<Ptr, Ptr>, link1: map<Ptr, Ptr>, link2: map<Ptr, Ptr>,
                   L: seq<Ptr>, R: seq<Ptr>, done: seq<Ptr>, restT: seq<Ptr>, restF: seq<Ptr>)
    requires MergeChains(link, L, R, done, restT, restF) && restF != []
    requires restF[0] in link && (|restF| > 1 ==> restF[1] in link)
    requires link1 == CutLinks(link, Between([], restF), Between([restF[0]], restF[1..]))
    requires restF[0] in link1
    requires Between(L + done, restT + R).prev != Null ==> Between(L + done, restT + R).prev in link1
    requires Between(L + done, restT + R).current != Null ==> Between(L + done, restT + R).current in link1
    requires link2 == InsertNodeLinks(link1, Between(L + done, restT + R), restF[0])
    ensures MergeChains(link2, L, R, done + [restF[0]], restT, restF[1..])
    ensures link2.Keys == link.Keys
    ensures forall q :: q in link && q !in restF && q != Last0(L + done) && q != First0(restT + R)
                        ==> link2[q] == link[q]
  {
    var A := L + done;
    var B := restT + R;
    assert L + done + restT + R == A + B;
    MoveHeadChains(link, link1, link2, A, B, restF);
    assert A + [restF[0]] + B == L + (done + [restF[0]]) + restT + R;
  }

  /** Branch `isLess(*beginFrom, *beginTo)`, cursors. */
  lemma MoveCursors(L: seq<Ptr>, R: seq<Ptr>, done: seq<Ptr>, restT: seq<Ptr>, restF: seq<Ptr>,
                    c: MergeCursors, c': MergeCursors)
    requires MergeCursorsAt(L, R, done, restT, restF, c) && restF != [] && restT != []
    requires c'.beginTo == Cursor(restF[0], c.beginTo.current)
    requires c'.resultBegin == (if done == [] then Cursor(c.beginTo.prev, restF[0]) else c.resultBegin)
    requires c'.beginFrom == Cursor(c.beginFrom.prev, First0(restF[1..]))
    requires c'.endTo == c.endTo && c'.endFrom == c.endFrom
    ensures MergeCursorsAt(L, R, done + [restF[0]], restT, restF[1..], c')
  {
    var done' := done + [restF[0]];
    assert L + done' == (L + done) + [restF[0]];
    assert Last0(L + done') == restF[0];
    assert Last0(L + done' + restT) == Last0(L + done + restT) by {
      assert (L + done' + restT)[|L + done' + restT| - 1] == restT[|restT| - 1];
      assert (L + done + restT)[|L + done + restT| - 1] == restT[|restT| - 1];
    }
    if done == [] {
      assert done' + restT + R == [restF[0]] + restT + R;
    } else {
      assert (done' + restT + R)[0] == done[0];
      assert (done + restT + R)[0] == done[0];
    }
    if restF[1..] != [] {
      assert Last0(restF[1..]) == Last0(restF);
    }
  }

  /** Branch `isLess(*beginFrom, *beginTo)`, progress. */
  lemma MoveProgress(value: map<Ptr, int>, T: seq<Ptr>, F: seq<Ptr>,
                     done: seq<Ptr>, restT: seq<Ptr>, restF: seq<Ptr>)
    requires MergeProgress(value, T, F, done, restT, restF) && restF != [] && restT != []
    requires value[restF[0]] < value[restT[0]]
    ensures MergeProgress(value, T, F, done + [restF[0]], restT, restF[1..])
  {
    assert MergeRuns(value, restT, restF) == [restF[0]] + MergeRuns(value, restT, restF[1..]);
    assert restF[0] in restF;
  }

  /** Branch `++beginTo`, cursors. */
  lemma StepCursors(L: seq<Ptr>, R: seq<Ptr>, done: seq<Ptr>, restT: seq<Ptr>, restF: seq<Ptr>,
                    c: MergeCursors, c': MergeCursors)
    requires MergeCursorsAt(L, R, done, restT, restF, c) && restT != []
    requires c'.beginTo == Between(L + done + [restT[0]], restT[1..] + R)
    requires c'.resultBegin == c.resultBegin && c'.beginFrom == c.beginFrom
    requires c'.endTo == c.endTo && c'.endFrom == c.endFrom
    ensures MergeCursorsAt(L, R, done + [restT[0]], restT[1..], restF, c')
  {
    assert L + (done + [restT[0]]) == L + done + [restT[0]];
    assert L + (done + [restT[0]]) + restT[1..] == L + done + restT;
    assert (done + [restT[0]]) + restT[1..] + R == done + restT + R;
  }

  /** Branch `++beginTo`, progress. */
  lemma StepProgress(value: map<Ptr, int>, T: seq<Ptr>, F: seq<Ptr>,
                     done: seq<Ptr>, restT: seq<Ptr>, restF: seq<Ptr>)
    requires MergeProgress(value, T, F, done, restT, restF) && restF != [] && restT != []
    requires !(value[restF[0]] < value[restT[0]])
    ensures MergeProgress(value, T, F, done + [restT[0]], restT[1..], restF)
  {
    assert MergeRuns(value, restT, restF) == [restT[0]] + MergeRuns(value, restT[1..], restF);
    assert restT[0] in restT;
  }

  /** Branch `++beginTo`, chains: nothing is relinked, only the bookkeeping moves. */
  lemma StepChains(link: map<Ptr, Ptr>, L: seq<Ptr>, R: seq<Ptr>, done: seq<Ptr>, restT: seq<Ptr>, restF: seq<Ptr>)
    requires MergeChains(link, L, R, done, restT, restF) && restT != []
    ensures MergeChains(link, L, R, done + [restT[0]], restT[1..], restF)
    ensures First0(restT + R) == restT[0] && restT[0] in link
    ensures Next(link, Between(L + done, restT + R)) == Between(L + done + [restT[0]], restT[1..] + R)
  {
    assert L + (done + [restT[0]]) + restT[1..] + R == L + done + restT + R;
    assert (L + done) + (restT + R) == L + done + restT + R;
    NextInChain(link, L + done, restT + R);
    assert (restT + R)[0] == restT[0] && (restT + R)[1..] == restT[1..] + R;
  }

  /** A local frame around the four rewritten nodes composes with the frame kept so far. */
  lemma FrameStep(link0: map<Ptr, Ptr>, link: map<Ptr, Ptr>, link': map<Ptr, Ptr>,
                  L: seq<Ptr>, T: seq<Ptr>, R: seq<Ptr>, F: seq<Ptr>,
                  done: seq<Ptr>, restT: seq<Ptr>, restF: seq<Ptr>)
    requires KeptOutside(link0, link, L, T, R, F) && Within(done, T, F)
    requires Within(restT, T, []) && Within(restF, F, [])
    requires link'.Keys == link.Keys
    requires forall q :: q in link && q !in restF && q != Last0(L + done) && q != First0(restT + R)
                         ==> link'[q] == link[q]
    ensures KeptOutside(link0, link', L, T, R, F)
  {
    BeforeBeginTo(L, done);
    AtBeginTo(restT, R);
  }

  /**
    Branch `isLess(*beginFrom, *beginTo)`: `cutSequence(beginFrom, next)`
    gives `link1`, `insertNodeBefore(beginTo, node)` gives `link2`, and the
    cursors move to `c'`.
  */
  lemma MergeMove(link0: map<Ptr, Ptr>, link: map<Ptr, Ptr>, link1: map<Ptr, Ptr>, link2: map<Ptr, Ptr>,
                  value: map<Ptr, int>, L: seq<Ptr>, T: seq<Ptr>, R: seq<Ptr>, F: seq<Ptr>,
                  done: seq<Ptr>, restT: seq<Ptr>, restF: seq<Ptr>, c: MergeCursors, c': MergeCursors)
    requires MergeInv(link0, link, value, L, T, R, F, done, restT, restF, c)
    requires restF != [] && restT != [] && value[restF[0]] < value[restT[0]]
    requires restF[0] in link && (|restF| > 1 ==> restF[1] in link)
    requires c.beginTo.prev != Null ==> c.beginTo.prev in link
    requires c.beginTo.current != Null ==> c.beginTo.current in link
    requires link1 == CutLinks(link, Between([], restF), Between([restF[0]], restF[1..]))
    requires link2 == InsertNodeLinks(link1, c.beginTo, restF[0])
    requires c'.beginTo == Cursor(restF[0], c.beginTo.current)
    requires c'.resultBegin == (if done == [] then Cursor(c.beginTo.prev, restF[0]) else c.resultBegin)
    requires c'.beginFrom == Cursor(c.beginFrom.prev, First0(restF[1..]))
    requires c'.endTo == c.endTo && c'.endFrom == c.endFrom
    ensures MergeInv(link0, link2, value, L, T, R, F, done + [restF[0]], restT, restF[1..], c')
  {
    MoveChains(link, link1, link2, L, R, done, restT, restF);
    MoveCursors(L, R, done, restT, restF, c, c');
    MoveProgress(value, T, F, done, restT, restF);
    FrameStep(link0, link, link2, L, T, R, F, done, restT, restF);
  }

  /** Branch `++beginTo`. */
  lemma MergeStep(link0: map<Ptr, Ptr>, link: map<Ptr, Ptr>,
                  value: map<Ptr, int>, L: seq<Ptr>, T: seq<Ptr>, R: seq<Ptr>, F: seq<Ptr>,
                  done: seq<Ptr>, restT: seq<Ptr>, restF: seq<Ptr>, c: MergeCursors)
    requires MergeInv(link0, link, value, L, T, R, F, done, restT, restF, c)
    requires restF != [] && restT != [] && !(value[restF[0]] < value[restT[0]])
    ensures c.beginTo.current in link
    ensures MergeInv(link0, link, value, L, T, R, F, done + [restT[0]], restT[1..], restF,
                     c.(beginTo := Next(link, c.beginTo)))
  {
    StepChains(link, L, R, done, restT, restF);
    StepCursors(L, R, done, restT, restF, c, c.(beginTo := Next(link, c.beginTo)));
    StepProgress(value, T, F, done, restT, restF);
    assert L + (done + [restT[0]]) == L + done + [restT[0]];
  }

  /**
    Branch `beginTo == endTo`: the rest of the from-run is linked in before
    `endTo` with `insertSequenceBefore` (giving `link1`), and the loop ends.
  */
  lemma MergeFinish(link0: map<Ptr, Ptr>, link: map<Ptr, Ptr>, link1: map<Ptr, Ptr>,
                    value: map<Ptr, int>, L: seq<Ptr>, T: seq<Ptr>, R: seq<Ptr>, F: seq<Ptr>,
                    done: seq<Ptr>, restT: seq<Ptr>, restF: seq<Ptr>, c: MergeCursors, c': MergeCursors)
    requires MergeInv(link0, link, value, L, T, R, F, done, restT, restF, c)
    requires restF != [] && restT == []
    requires c.beginFrom.current in link && c.endFrom.prev in link
    requires c.beginTo.prev != Null ==> c.beginTo.prev in link
    requires c.beginTo.current != Null ==> c.beginTo.current in link
    requires link1 == InsertSequenceLinks(link, c.beginTo, c.beginFrom, c.endFrom)
    requires c'.endTo == Cursor(c.endFrom.prev, c.beginTo.current)
    requires c'.resultBegin == (if done == [] then Cursor(c.beginTo.prev, c.beginFrom.current) else c.resultBegin)
    requires c'.beginTo == c.beginTo && c'.beginFrom == c.beginFrom && c'.endFrom == c.endFrom
    ensures Chain(link1, L + MergeRuns(value, T, F) + R)
    ensures c'.resultBegin == Between(L, MergeRuns(value, T, F) + R)
    ensures c'.endTo == Between(L + MergeRuns(value, T, F), R)
    ensures KeptOutside(link0, link1, L, T, R, F)
  {
    assert MergeRuns(value, [], restF) == restF;
    assert done + restF == MergeRuns(value, T, F);
    FinishChains(link, link1, L, R, done, restF, c);
    FinishCursors(L, R, done, restF, c, c');
    FinishFrame(link0, link, link1, L, T, R, F, done, restF);
  }

  lemma FinishChains(link: map<Ptr, Ptr>, link1: map<Ptr, Ptr>,
                     L: seq<Ptr>, R: seq<Ptr>, done: seq<Ptr>, restF: seq<Ptr>, c: MergeCursors)
    requires MergeChains(link, L, R, done, [], restF) && MergeCursorsAt(L, R, done, [], restF, c)
    requires restF != []
    requires c.beginFrom.current in link && c.endFrom.prev in link
    requires c.beginTo.prev != Null ==> c.beginTo.prev in link
    requires c.beginTo.current != Null ==> c.beginTo.current in link
    requires link1 == InsertSequenceLinks(link, c.beginTo, c.beginFrom, c.endFrom)
    ensures Chain(link1, L + (done + restF) + R)
  {
    assert L + done + [] + R == (L + done) + R;
    assert [] + R == R;
    InsertSequenceChain(link, L + done, R, restF);
    assert (L + done) + restF + R == L + (done + restF) + R;
  }

  lemma FinishCursors(L: seq<Ptr>, R: seq<Ptr>, done: seq<Ptr>, restF: seq<Ptr>, c: MergeCursors, c': MergeCursors)
    requires MergeCursorsAt(L, R, done, [], restF, c) && restF != []
    requires c'.endTo == Cursor(c.endFrom.prev, c.beginTo.current)
    requires c'.resultBegin == (if done == [] then Cursor(c.beginTo.prev, c.beginFrom.current) else c.resultBegin)
    ensures c'.resultBegin == Between(L, (done + restF) + R)
    ensures c'.endTo == Between(L + (done + restF), R)
  {
    assert [] + R == R;
    assert L + (done + restF) == (L + done) + restF;
    if done != [] {
      assert (done + [] + R)[0] == done[0] && (done + restF + R)[0] == done[0];
    } else {
      assert done + restF + R == restF + R;
      assert L + done == L;
    }
  }

  lemma FinishFrame(link0: map<Ptr, Ptr>, link: map<Ptr, Ptr>, link1: map<Ptr, Ptr>,
                    L: seq<Ptr>, T: seq<Ptr>, R: seq<Ptr>, F: seq<Ptr>, done: seq<Ptr>, restF: seq<Ptr>)
    requires KeptOutside(link0, link, L, T, R, F) && Within(done, T, F) && Within(restF, F, [])
    requires restF != [] && Chain(link, restF)
    requires restF[0] in link && restF[|restF| - 1] in link
    requires Last0(L + done) != Null ==> Last0(L + done) in link
    requires First0(R) != Null ==> First0(R) in link
    requires link1 == InsertSequenceLinks(link, Between(L + done, R), Between([], restF), Between(restF, []))
    ensures KeptOutside(link0, link1, L, T, R, F)
  {
    assert restF[0] in restF && restF[|restF| - 1] in restF;
    assert [] + R == R;
    FrameStep(link0, link, link1, L, T, R, F, done, [], restF);
  }

  /** When the from-run is used up, the loop's state is the promised result. */
  lemma MergeExit(link0: map<Ptr, Ptr>, link: map<Ptr, Ptr>,
                  value: map<Ptr, int>, L: seq<Ptr>, T: seq<Ptr>, R: seq<Ptr>, F: seq<Ptr>,
                  done: seq<Ptr>, restT: seq<Ptr>, c: MergeCursors)
    requires MergeInv(link0, link, value, L, T, R, F, done, restT, [], c)
    ensures Chain(link, L + MergeRuns(value, T, F) + R)
    ensures c.resultBegin == Between(L, MergeRuns(value, T, F) + R)
    ensures c.endTo == Between(L + MergeRuns(value, T, F), R)
    ensures KeptOutside(link0, link, L, T, R, F)
  {
    assert MergeRuns(value, restT, []) == restT;
    assert L + (done + restT) + R == L + done + restT + R;
    assert L + (done + restT) == L + done + restT;
  }

  /**
    Moving the head node of the detached run `F` in between `A` and `B`:
    first `cutSequence` on the head (giving `link1`), then `insertNodeBefore`
    (giving `link2`).
  */
  lemma MoveHeadChains(link0: map<Ptr, Ptr>, link1: map<Ptr, Ptr>, link2: map<Ptr, Ptr>,
                       A: seq<Ptr>, B: seq<Ptr>, F: seq<Ptr>)
    requires Chain(link0, A + B) && Chain(link0, F) && F != [] && Disjoint(F, A + B) && Null !in link0
    requires F[0] in link0 && (|F| > 1 ==> F[1] in link0)
    requires link1 == CutLinks(link0, Between([], F), Between([F[0]], F[1..]))
    requires Between(A, B).prev != Null ==> Between(A, B).prev in link1
    requires Between(A, B).current != Null ==> Between(A, B).current in link1
    requires F[0] in link1
    requires link2 == InsertNodeLinks(link1, Between(A, B), F[0])
    ensures Chain(link2, A + [F[0]] + B) && Chain(link2, F[1..])
    ensures Disjoint(F[1..], A + [F[0]] + B)
    ensures link2.Keys == link0.Keys
    ensures forall q :: q in link0 && q !in F && q != Between(A, B).prev && q != Between(A, B).current
                        ==> link2[q] == link0[q]
  {
    CutHead(link0, F);
    ChainOutside(link0, link1, A + B, F);
    assert F[0] in F;
    InsertNodeChain(link1, A, B, F[0]);
    var p := Between(A, B);
    assert [F[0]] + F[1..] == F;
    ChainParts(link0, [F[0]], F[1..]);
    ChainParts(link0, A, B);
    if A != [] { assert p.prev == A[|A| - 1] && p.prev in A + B; }
    if B != [] { assert p.current == B[0] && p.current in A + B; }
    forall x | x in F[1..] ensures x in F { }
    ChainOutside(link1, link2, F[1..], [F[0], p.prev, p.current]);
  }
}
