/**
  The nodes of all lists: one heap of link words and payloads, and the static
  primitives of `xor_list` that rewrite link words in place
  (`insertNodeBefore`, `insertSequenceBefore`, `cutSequence`,
  `mergeSequences`) together with node allocation and deallocation.
*/
module NodeMemory {
  import opened XorLinks
  import opened Runs
  import opened MergeSteps

  class Memory {
    /** The `xorPtr` field of every live node (list nodes and sentinels), by address. */
    var link: map<Ptr, Ptr>
    /** The `value` field of every live `NodeWithValue`, by address. */
    var value: map<Ptr, int>

    /** nullptr is never a live node, and only live nodes carry payloads. */
    ghost predicate Valid()
      reads this
    {
      Null !in link && value.Keys <= link.Keys
    }

    /** An address the allocator may hand out: not nullptr and not live. */
    predicate IsFree(p: Ptr)
      reads this
    {
      p != Null && p !in link
    }

    constructor ()
      ensures Valid() && link == map[] && value == map[]
    {
      link := map[];
      value := map[];
    }

    /**
      `createNode`: `p` is the allocator's answer; the node is constructed
      with a null link word and the given payload.
    */
    method CreateNode(p: Ptr, v: int)
      requires Valid() && IsFree(p)
      modifies this
      ensures Valid()
      ensures link == old(link)[p := Null] && value == old(value)[p := v]
    {
      link := link[p := Null];
      value := value[p := v];
    }

    /** Destroying and deallocating one node. */
    method DestroyNode(p: Ptr)
      requires Valid() && p in link
      modifies this
      ensures Valid()
      ensures link == old(link) - {p} && value == old(value) - {p}
    {
      link := link - {p};
      value := value - {p};
    }

    /**
      The loop of `destroySequence` over a run that `cutSequence` detached:
      step the cursor off a node, then destroy and deallocate that node.
    */
    method DestroyRun(begin: Cursor, end: Cursor, ghost run: seq<Ptr>)
      requires Valid() && Chain(link, run) && begin == Between([], run) && end == Between(run, [])
      modifies this
      ensures Valid()
      ensures link.Keys <= old(link).Keys && value.Keys <= old(value).Keys
      ensures forall q :: q in run ==> q !in link && q !in value
      ensures KeptApart(old(link), old(value), link, value, run)
    {
      var b := begin;
      ghost var m := 0;
      assert run[..0] == [] && run[0..] == run;
      while b.current != end.current
        invariant Valid() && 0 <= m <= |run| && b == Between(run[..m], run[m..])
        invariant link.Keys <= old(link).Keys && value.Keys <= old(value).Keys
        invariant forall t :: 0 <= t < m ==> run[t] !in link
        invariant forall t :: m <= t < |run| ==> LinkOk(link, run, t)
        invariant KeptApart(old(link), old(value), link, value, run)
        decreases |run| - m
      {
        NextInRun(link, run, m);
        b := Next(link, b);
        ghost var link0 := link;
        DestroyNode(b.prev);
        forall t | m + 1 <= t < |run| ensures LinkOk(link, run, t) {
          assert LinkOk(link0, run, t);
        }
        m := m + 1;
      }
      assert run[..m] == run;
      forall q | q in run ensures q !in link && q !in value {
        var t :| 0 <= t < |run| && run[t] == q;
      }
    }

    /** The two sentinels of a new list: `beforeHead(&afterTail), afterTail(&beforeHead)`. */
    method AddSentinels(bh: Ptr, at: Ptr)
      requires Valid() && IsFree(bh) && IsFree(at) && bh != at
      modifies this
      ensures Valid() && value == old(value)
      ensures link == old(link)[bh := at][at := bh]
    {
      link := link[bh := at][at := bh];
    }

    /** `*iter = val`: overwrite the payload of a live node. */
    method SetValue(p: Ptr, v: int)
      requires Valid() && p in value
      modifies this
      ensures Valid() && link == old(link) && value == old(value)[p := v]
    {
      value := value[p := v];
    }

    /** `p->xorPtr = xorPointers(xorPointers(p->xorPtr, gone), added)`. */
    method Relink(p: Ptr, gone: Ptr, added: Ptr)
      requires Valid() && p in link
      modifies this
      ensures Valid() && value == old(value)
      ensures link == XorLinks.Relink(old(link), p, gone, added)
    {
      link := link[p := XorPointers(XorPointers(link[p], gone), added)];
    }

    /** `p.xorPtr = w`, as `reverse` does for the sentinels. */
    method SetLink(p: Ptr, w: Ptr)
      requires Valid() && p in link
      modifies this
      ensures Valid() && value == old(value)
      ensures link == old(link)[p := w]
    {
      link := link[p := w];
    }

    /** `insertNodeBefore`: link `node` in between `position.prev` and `position.current`. */
    method InsertNodeBefore(position: Cursor, node: Ptr) returns (r: Range)
      requires Valid() && node in link
      requires position.prev != Null ==> position.prev in link
      requires position.current != Null ==> position.current in link
      modifies this
      ensures Valid() && value == old(value)
      ensures link == InsertNodeLinks(old(link), position, node)
      ensures r == Range(Cursor(position.prev, node), Cursor(node, position.current))
    {
      link := link[node := XorPointers(position.prev, position.current)];
      if position.prev != Null {
        link := link[position.prev := XorPointers(XorPointers(link[position.prev], position.current), node)];
      }
      if position.current != Null {
        link := link[position.current := XorPointers(XorPointers(link[position.current], position.prev), node)];
      }
      r := Range(Cursor(position.prev, node), Cursor(node, position.current));
    }

    /** `insertSequenceBefore`: link the detached run [begin, end) in before `position`. */
    method InsertSequenceBefore(position: Cursor, begin: Cursor, end: Cursor) returns (r: Range)
      requires Valid() && begin.current in link && end.prev in link
      requires position.prev != Null ==> position.prev in link
      requires position.current != Null ==> position.current in link
      modifies this
      ensures Valid() && value == old(value)
      ensures link == InsertSequenceLinks(old(link), position, begin, end)
      ensures r == Range(Cursor(position.prev, begin.current), Cursor(end.prev, position.current))
    {
      link := link[begin.current := XorPointers(XorPointers(link[begin.current], begin.prev), position.prev)];
      link := link[end.prev := XorPointers(XorPointers(link[end.prev], end.current), position.current)];
      if position.prev != Null {
        link := link[position.prev := XorPointers(XorPointers(link[position.prev], position.current), begin.current)];
      }
      if position.current != Null {
        link := link[position.current := XorPointers(XorPointers(link[position.current], position.prev), end.prev)];
      }
      r := Range(Cursor(position.prev, begin.current), Cursor(end.prev, position.current));
    }

    /** `cutSequence`: unlink [begin, end), join its neighbours, and null the run's outer ends. */
    method CutSequence(begin: Cursor, end: Cursor) returns (r: CutResult)
      requires Valid() && begin.current in link && end.prev in link
      requires begin.prev != Null ==> begin.prev in link
      requires end.current != Null ==> end.current in link
      modifies this
      ensures Valid() && value == old(value)
      ensures link == CutLinks(old(link), begin, end)
      ensures r == CutResult(Range(Cursor(Null, begin.current), Cursor(end.prev, Null)),
                             Cursor(begin.prev, end.current))
    {
      if begin.prev != Null {
        link := link[begin.prev := XorPointers(XorPointers(link[begin.prev], begin.current), end.current)];
      }
      if end.current != Null {
        link := link[end.current := XorPointers(XorPointers(link[end.current], end.prev), begin.prev)];
      }
      link := link[begin.current := XorPointers(XorPointers(link[begin.current], begin.prev), Null)];
      link := link[end.prev := XorPointers(XorPointers(link[end.prev], end.current), Null)];
      r := CutResult(Range(Cursor(Null, begin.current), Cursor(end.prev, Null)), Cursor(begin.prev, end.current));
    }

    /**
      `mergeSequences`: merge the detached run F into the run T that sits
      between L and R of a chain. The result is the chain L + M + R with M the
      stable merge of T and F, and the returned pair of cursors delimits M.
      Only the link words of T, F and the two nodes around T change.
    */
    method MergeSequences(beginTo: Cursor, endTo: Cursor, beginFrom: Cursor, endFrom: Cursor,
                          ghost L: seq<Ptr>, ghost T: seq<Ptr>, ghost R: seq<Ptr>, ghost F: seq<Ptr>)
      returns (r: Range)
      requires Valid()
      requires Chain(link, L + T + R) && Chain(link, F) && Disjoint(F, L + T + R)
      requires Owns(value, T) && Owns(value, F)
      requires beginTo == Between(L, T + R) && endTo == Between(L + T, R)
      requires beginFrom == Between([], F) && endFrom == Between(F, [])
      modifies this
      ensures Valid() && value == old(value)
      ensures Chain(link, L + MergeRuns(value, T, F) + R)
      ensures r == Range(Between(L, MergeRuns(value, T, F) + R), Between(L + MergeRuns(value, T, F), R))
      ensures KeptOutside(old(link), link, L, T, R, F)
    {
      var resultBegin := beginTo;
      var bt := beginTo;
      var et := endTo;
      var bf := beginFrom;
      ghost var done: seq<Ptr> := [];
      ghost var restT := T;
      ghost var restF := F;
      MergeEnter(link, value, L, T, R, F, MergeCursors(bt, et, resultBegin, bf, endFrom));
      while bf.current != endFrom.current
        invariant Valid() && value == old(value)
        invariant MergeInv(old(link), link, value, L, T, R, F, done, restT, restF,
                           MergeCursors(bt, et, resultBegin, bf, endFrom))
        decreases |restT| + |restF|
      {
        ghost var c := MergeCursors(bt, et, resultBegin, bf, endFrom);
        MergeFacts(link, L, R, done, restT, restF, c);
        if bt.current == et.current {
          r := MergeTakeRest(bt, et, resultBegin, bf, endFrom, old(link), L, T, R, F, done, restT, restF);
          return;
        } else if value[bf.current] < value[bt.current] {
          bt, resultBegin, bf := MergeTakeOne(bt, et, resultBegin, bf, endFrom, old(link), L, T, R, F, done, restT, restF);
          done := done + [restF[0]];
          restF := restF[1..];
        } else {
          MergeStep(old(link), link, value, L, T, R, F, done, restT, restF, c);
          bt := Next(link, bt);
          done := done + [restT[0]];
          restT := restT[1..];
        }
      }
      MergeExit(old(link), link, value, L, T, R, F, done, restT, MergeCursors(bt, et, resultBegin, bf, endFrom));
      r := Range(resultBegin, et);
    }

    /** The merge loop once T is used up: the rest of F goes in front of endTo in one piece. */
    method MergeTakeRest(bt: Cursor, et: Cursor, resultBegin: Cursor, bf: Cursor, endFrom: Cursor,
                         ghost link0: map<Ptr, Ptr>, ghost L: seq<Ptr>, ghost T: seq<Ptr>, ghost R: seq<Ptr>,
                         ghost F: seq<Ptr>, ghost done: seq<Ptr>, ghost restT: seq<Ptr>, ghost restF: seq<Ptr>)
      returns (r: Range)
      requires Valid() && MergeInv(link0, link, value, L, T, R, F, done, restT, restF,
                                   MergeCursors(bt, et, resultBegin, bf, endFrom))
      requires restF != [] && restT == []
      modifies this
      ensures Valid() && value == old(value)
      ensures Chain(link, L + MergeRuns(value, T, F) + R)
      ensures r == Range(Between(L, MergeRuns(value, T, F) + R), Between(L + MergeRuns(value, T, F), R))
      ensures KeptOutside(link0, link, L, T, R, F)
    {
      ghost var c := MergeCursors(bt, et, resultBegin, bf, endFrom);
      MergeFacts(link, L, R, done, restT, restF, c);
      ghost var link1 := link;
      var inserted := InsertSequenceBefore(bt, bf, endFrom);
      var rb := resultBegin;
      if resultBegin.current == bt.current {
        rb := inserted.first;
      }
      MergeFinish(link0, link1, link, value, L, T, R, F, done, restT, restF, c,
                  MergeCursors(bt, inserted.second, rb, bf, endFrom));
      r := Range(rb, inserted.second);
    }

    /** One round of the merge loop that moves the head of F in front of the head of T. */
    method MergeTakeOne(bt: Cursor, et: Cursor, resultBegin: Cursor, bf: Cursor, endFrom: Cursor,
                        ghost link0: map<Ptr, Ptr>, ghost L: seq<Ptr>, ghost T: seq<Ptr>, ghost R: seq<Ptr>,
                        ghost F: seq<Ptr>, ghost done: seq<Ptr>, ghost restT: seq<Ptr>, ghost restF: seq<Ptr>)
      returns (bt': Cursor, resultBegin': Cursor, bf': Cursor)
      requires Valid() && MergeInv(link0, link, value, L, T, R, F, done, restT, restF,
                                   MergeCursors(bt, et, resultBegin, bf, endFrom))
      requires restF != [] && restT != [] && value[restF[0]] < value[restT[0]]
      modifies this
      ensures Valid() && value == old(value)
      ensures MergeInv(link0, link, value, L, T, R, F, done + [restF[0]], restT, restF[1..],
                       MergeCursors(bt', et, resultBegin', bf', endFrom))
    {
      ghost var c := MergeCursors(bt, et, resultBegin, bf, endFrom);
      MergeFacts(link, L, R, done, restT, restF, c);
      ghost var link1 := link;
      var next := Next(link, bf);
      var cutResult := CutSequence(bf, next);
      ghost var link2 := link;
      var inserted := InsertNodeBefore(bt, cutResult.cutted.first.current);
      resultBegin' := resultBegin;
      if resultBegin.current == bt.current {
        resultBegin' := inserted.first;
      }
      bt' := inserted.second;
      bf' := cutResult.end;
      MergeMove(link0, link1, link2, link, value, L, T, R, F, done, restT, restF, c,
                MergeCursors(bt', et, resultBegin', bf', endFrom));
    }
  }
}
