/**
  `xor_list<int>`: a doubly linked list whose nodes keep one link word each,
  the XOR of the addresses of their two neighbours. The list owns two
  sentinel nodes, beforeHead and afterTail, and a `length` counter; the ghost
  field `nodes` names the nodes between the sentinels, in order.
*/
module XorListEngine {
  import opened XorLinks
  import opened Runs
  import opened MergeSteps
  import opened NodeMemory
  import opened ListShape
  import opened SortSteps
  import opened LoopStates

  class XorList {
    /** The heap the nodes of this list (and of the lists it splices with) live in. */
    const mem: Memory
    const beforeHead: Ptr
    const afterTail: Ptr
    var length: nat
    ghost var nodes: seq<Ptr>

    /** beforeHead, the nodes, afterTail. */
    ghost function Full(): seq<Ptr>
      reads this
    {
      FullOf(beforeHead, nodes, afterTail)
    }

    /** The link words chain the sentinels and the nodes, and every node carries a payload. */
    ghost predicate Linked()
      reads this, mem
    {
      mem.Valid() && Chain(mem.link, Full()) && Owns(mem.value, nodes)
    }

    /** `length` counts the nodes. */
    ghost predicate Valid()
      reads this, mem
    {
      Linked() && length == |nodes|
    }

    /** The cursor on the k-th node; `Pos(|nodes|)` is `end()`. */
    ghost function Pos(k: int): Cursor
      reads this
      requires 0 <= k <= |nodes|
    {
      PosIn(beforeHead, nodes, afterTail, k)
    }

    /** The payloads in list order. */
    ghost function Elements(): seq<int>
      reads this, mem
      requires Owns(mem.value, nodes)
    {
      Values(mem.value, nodes)
    }

    /** `xor_list(alloc)`: an empty list whose sentinels point at each other. */
    constructor (m: Memory, bh: Ptr, at: Ptr)
      requires m.Valid() && m.IsFree(bh) && m.IsFree(at) && bh != at
      modifies m
      ensures mem == m && beforeHead == bh && afterTail == at
      ensures Valid() && nodes == []
      ensures m.value == old(m.value) && m.link == old(m.link)[bh := at][at := bh]
    {
      mem := m;
      beforeHead := bh;
      afterTail := at;
      length := 0;
      nodes := [];
      new;
      m.AddSentinels(bh, at);
      XorWithNull(at);
      XorWithNull(bh);
      assert LinkOk(m.link, [bh, at], 0) && LinkOk(m.link, [bh, at], 1);
      assert FullOf(bh, [], at) == [bh, at];
    }

    // -------------------------------------------------------------------------
    // Cursors and accessors
    // -------------------------------------------------------------------------

    /** `begin()`: {&beforeHead, beforeHead.xorPtr}. */
    method Begin() returns (c: Cursor)
      requires Linked()
      ensures c == Pos(0)
    {
      BeginEnd(mem.link, beforeHead, nodes, afterTail);
      c := Cursor(beforeHead, mem.link[beforeHead]);
    }

    /** `end()`: {afterTail.xorPtr, &afterTail}. */
    method End() returns (c: Cursor)
      requires Linked()
      ensures c == Pos(|nodes|)
    {
      BeginEnd(mem.link, beforeHead, nodes, afterTail);
      c := Cursor(mem.link[afterTail], afterTail);
    }

    /** `size()`. */
    method Size() returns (n: nat)
      requires Valid()
      ensures n == |nodes|
    {
      n := length;
    }

    /** `empty()`. */
    method Empty() returns (b: bool)
      requires Valid()
      ensures b <==> nodes == []
    {
      b := length == 0;
    }

    /** `*it` on the cursor standing on the k-th node. */
    method Deref(c: Cursor, ghost k: int) returns (v: int)
      requires Linked() && 0 <= k < |nodes| && c == Pos(k)
      ensures v == Elements()[k]
    {
      PosNodes(beforeHead, nodes, afterTail, k);
      assert nodes[k] in nodes;
      v := mem.value[c.current];
    }

    /** `front()`: `*begin()`. */
    method Front() returns (v: int)
      requires Linked() && nodes != []
      ensures v == Elements()[0]
    {
      var b := Begin();
      v := Deref(b, 0);
    }

    /** `back()`: `*(--end())`. */
    method Back() returns (v: int)
      requires Linked() && nodes != []
      ensures v == Elements()[|nodes| - 1]
    {
      var e := End();
      StepBackPos(mem.link, beforeHead, nodes, afterTail, |nodes|);
      e := Prev(mem.link, e);
      v := Deref(e, |nodes| - 1);
    }

    /** `std::distance(first, last)`: count the `++first` steps until `first == last`. */
    method Distance(first: Cursor, last: Cursor, ghost i: int, ghost j: int) returns (n: nat)
      requires Linked() && 0 <= i <= j <= |nodes| && first == Pos(i) && last == Pos(j)
      ensures n == j - i
    {
      var c := first;
      n := 0;
      PosApart(beforeHead, nodes, afterTail, mem.link, i, j);
      while c.current != last.current
        invariant 0 <= n <= j - i && c == Pos(i + n)
        invariant c.current == last.current <==> i + n == j
        decreases j - i - n
      {
        StepPos(mem.link, beforeHead, nodes, afterTail, i + n);
        c := Next(mem.link, c);
        n := n + 1;
        PosApart(beforeHead, nodes, afterTail, mem.link, i + n, j);
      }
    }

    // -------------------------------------------------------------------------
    // The link primitives applied to this list, with the length bookkeeping
    // -------------------------------------------------------------------------

    /** `insertNodeToThisBefore`: `node` becomes the k-th node; three link words change. */
    method InsertNodeToThisBefore(position: Cursor, node: Ptr, ghost k: int) returns (r: Range)
      requires Linked() && 0 <= k <= |nodes| && position == Pos(k)
      requires node in mem.link && node in mem.value && node !in Full()
      modifies this, mem
      ensures Linked() && length == old(length) + 1
      ensures nodes == old(nodes)[..k] + [node] + old(nodes)[k..]
      ensures r == Range(Pos(k), Pos(k + 1))
      ensures mem.value == old(mem.value)
      ensures position.prev in old(mem.link) && position.current in old(mem.link)
      ensures mem.link == InsertNodeLinks(old(mem.link), position, node)
      ensures KeptApart(old(mem.link), old(mem.value), mem.link, mem.value, old(Full()) + [node])
    {
      InsertNodeShape(mem.link, beforeHead, nodes, afterTail, k, node);
      length := length + 1;
      r := mem.InsertNodeBefore(position, node);
      nodes := nodes[..k] + [node] + nodes[k..];
    }

    /** `insertSequenceToThisBefore`: the detached chain `run` becomes nodes k .. k + |run| - 1. */
    method InsertSequenceToThisBefore(position: Cursor, begin: Cursor, end: Cursor, distance: nat,
                                      ghost k: int, ghost run: seq<Ptr>) returns (r: Range)
      requires Linked() && 0 <= k <= |nodes| && position == Pos(k)
      requires Chain(mem.link, run) && run != [] && Disjoint(run, Full()) && Owns(mem.value, run)
      requires begin == Between([], run) && end == Between(run, [])
      modifies this, mem
      ensures Linked() && length == old(length) + distance
      ensures nodes == old(nodes)[..k] + run + old(nodes)[k..]
      ensures r == Range(Pos(k), Pos(k + |run|))
      ensures mem.value == old(mem.value)
      ensures position.prev in old(mem.link) && position.current in old(mem.link)
      ensures mem.link == InsertSequenceLinks(old(mem.link), position, begin, end)
      ensures KeptApart(old(mem.link), old(mem.value), mem.link, mem.value, old(Full()) + run)
    {
      InsertRunShape(mem.link, beforeHead, nodes, afterTail, k, run);
      length := length + distance;
      r := mem.InsertSequenceBefore(position, begin, end);
      nodes := nodes[..k] + run + nodes[k..];
    }

    /** `cutSequenceFromThis`: nodes i .. j - 1 leave the list as a detached chain. */
    method CutSequenceFromThis(first: Cursor, last: Cursor, distance: nat, ghost i: int, ghost j: int)
      returns (r: CutResult)
      requires Linked() && 0 <= i < j <= |nodes| && first == Pos(i) && last == Pos(j) && distance <= length
      modifies this, mem
      ensures Linked() && length == old(length) - distance
      ensures nodes == old(nodes)[..i] + old(nodes)[j..]
      ensures Chain(mem.link, old(nodes)[i..j]) && Owns(mem.value, old(nodes)[i..j])
      ensures Disjoint(old(nodes)[i..j], Full())
      ensures r.cutted == Range(Between([], old(nodes)[i..j]), Between(old(nodes)[i..j], []))
      ensures r.end == Pos(i)
      ensures mem.value == old(mem.value)
      ensures first.prev in old(mem.link) && last.current in old(mem.link)
      ensures mem.link == CutLinks(old(mem.link), first, last)
      ensures KeptApart(old(mem.link), old(mem.value), mem.link, mem.value, old(Full()))
    {
      CutShape(mem.link, beforeHead, nodes, afterTail, i, j);
      CutApart(beforeHead, nodes, afterTail, i, j);
      ghost var run := nodes[i..j];
      assert forall p :: p in run ==> p in nodes;
      length := length - distance;
      r := mem.CutSequence(first, last);
      nodes := nodes[..i] + nodes[j..];
    }

    // -------------------------------------------------------------------------
    // Inserting and erasing
    // -------------------------------------------------------------------------

    /**
      `emplace(position, v)`: `createNode` (at the address `p` the allocator
      hands out) and `insertNodeToThisBefore`; returns the cursor on the new node.
    */
    method Emplace(position: Cursor, p: Ptr, v: int, ghost k: int) returns (it: Cursor)
      requires Valid() && 0 <= k <= |nodes| && position == Pos(k) && mem.IsFree(p)
      modifies this, mem
      ensures Valid()
      ensures nodes == old(nodes)[..k] + [p] + old(nodes)[k..]
      ensures Elements() == old(Elements())[..k] + [v] + old(Elements())[k..]
      ensures it == Pos(k)
      ensures mem.link.Keys == old(mem.link).Keys + {p}
      ensures KeptApart(old(mem.link), old(mem.value), mem.link, mem.value, old(Full()))
    {
      ghost var link0 := mem.link;
      ghost var value0 := mem.value;
      ghost var ns := nodes;
      ChainKeys(mem.link, Full());
      mem.CreateNode(p, v);
      ChainOutside(link0, mem.link, Full(), [p]);
      var r := InsertNodeToThisBefore(position, p, k);
      it := r.first;
      assert Values(mem.value, [p]) == [v];
      ValuesInsert(value0, mem.value, ns, k, [p]);
    }

    /**
      `insert(position, first, last)`: insert the payloads `vals` one by one,
      each before the cursor just past the previous one, so that they keep
      their order; `ps` are the addresses the allocator hands out, one per
      payload. Returns the cursor on the first inserted node, which is
      `position` itself when nothing is inserted.
    */
    method InsertRange(position: Cursor, vals: seq<int>, ps: seq<Ptr>, ghost k: int) returns (result: Cursor)
      requires Valid() && 0 <= k <= |nodes| && position == Pos(k)
      requires |ps| == |vals| && Distinct(ps) && forall u :: 0 <= u < |ps| ==> mem.IsFree(ps[u])
      modifies this, mem
      ensures Valid()
      ensures nodes == old(nodes)[..k] + ps + old(nodes)[k..]
      ensures Elements() == old(Elements())[..k] + vals + old(Elements())[k..]
      ensures result == Pos(k)
      ensures forall q :: q in mem.link <==> q in old(mem.link) || q in ps
      ensures KeptApart(old(mem.link), old(mem.value), mem.link, mem.value, old(Full()))
    {
      ghost var ns := nodes;
      ghost var es := Elements();
      if |vals| == 0 {
        assert ps == [] && vals == [];
        assert ns[..k] + ns[k..] == ns && es[..k] + es[k..] == es;
        return position;
      }
      result := InsertNonEmpty(position, vals, ps, k);
    }

    /** `insert(position, first, last)` with `first != last`: the first payload, then the loop. */
    method InsertNonEmpty(position: Cursor, vals: seq<int>, ps: seq<Ptr>, ghost k: int) returns (result: Cursor)
      requires Valid() && 0 <= k <= |nodes| && position == Pos(k)
      requires 0 < |ps| == |vals| && Distinct(ps) && forall u :: 0 <= u < |ps| ==> mem.IsFree(ps[u])
      modifies this, mem
      ensures Valid()
      ensures nodes == old(nodes)[..k] + ps + old(nodes)[k..]
      ensures Elements() == old(Elements())[..k] + vals + old(Elements())[k..]
      ensures result == Pos(k)
      ensures forall q :: q in mem.link <==> q in old(mem.link) || q in ps
      ensures KeptApart(old(mem.link), old(mem.value), mem.link, mem.value, old(Full()))
    {
      BeginInsertState(mem.link, mem.value, beforeHead, afterTail, nodes, k, ps, vals);
      BeginEnd(mem.link, beforeHead, nodes, afterTail);
      ghost var ns := nodes;
      ghost var es := Elements();
      ghost var link0 := mem.link;
      ghost var value0 := mem.value;
      ghost var full := Full();
      result := InsertLoop(position, k, ns, es, ps, vals, link0, value0, full);
    }

    /**
      The inserting part of `insert(position, first, last)`: the first
      payload, whose cursor is the result, then the loop over the others.
    */
    method InsertLoop(position: Cursor, ghost k: int, ghost ns: seq<Ptr>, ghost es: seq<int>,
                      ps: seq<Ptr>, vals: seq<int>,
                      ghost link0: map<Ptr, Ptr>, ghost value0: map<Ptr, int>, ghost full: seq<Ptr>)
      returns (result: Cursor)
      requires InsertedUpTo(0, position, k, ns, es, ps, vals, link0, value0, full) && 0 < |vals|
      modifies this, mem
      ensures Valid()
      ensures nodes == ns[..k] + ps + ns[k..]
      ensures Elements() == es[..k] + vals + es[k..]
      ensures result == Pos(k)
      ensures forall q :: q in mem.link <==> q in link0 || q in ps
      ensures KeptApart(link0, value0, mem.link, mem.value, full)
    {
      var pos;
      result, pos := InsertStep(position, 0, k, ns, es, ps, vals, link0, value0, full);
      assert result == PosIn(beforeHead, ns[..k] + ps[..1] + ns[k..], afterTail, k);
      var t := 1;
      while t < |vals|
        invariant InsertedUpTo(t, pos, k, ns, es, ps, vals, link0, value0, full)
        decreases |vals| - t
      {
        var it;
        it, pos := InsertStep(pos, t, k, ns, es, ps, vals, link0, value0, full);
        t := t + 1;
      }
      EndInsertState(mem.link, mem.value, beforeHead, afterTail, nodes, k, ns, es, ps, vals, link0, value0, full);
      FirstInsertedPos(beforeHead, afterTail, ns, k, ps);
    }

    /** `InsertState` of this list's heap, with the cursor just past the inserted payloads. */
    ghost predicate InsertedUpTo(t: int, pos: Cursor, k: int, ns: seq<Ptr>, es: seq<int>, ps: seq<Ptr>, vals: seq<int>,
                                 link0: map<Ptr, Ptr>, value0: map<Ptr, int>, full: seq<Ptr>)
      reads this, mem
    {
      && Valid() && 0 <= k + t <= |nodes| && pos == Pos(k + t)
      && InsertState(mem.link, mem.value, beforeHead, afterTail, nodes, t, k, ns, es, ps, vals, link0, value0, full)
    }

    /**
      One step of `insert(position, first, last)`: `insert(position, *first)`
      gives the cursor `it` on the new node, and `next` is `++it`.
    */
    method InsertStep(position: Cursor, t: int, ghost k: int, ghost ns: seq<Ptr>, ghost es: seq<int>,
                      ps: seq<Ptr>, vals: seq<int>,
                      ghost link0: map<Ptr, Ptr>, ghost value0: map<Ptr, int>, ghost full: seq<Ptr>)
      returns (it: Cursor, next: Cursor)
      requires InsertedUpTo(t, position, k, ns, es, ps, vals, link0, value0, full) && t < |vals|
      modifies this, mem
      ensures InsertedUpTo(t + 1, next, k, ns, es, ps, vals, link0, value0, full)
      ensures it == Pos(k + t)
    {
      ghost var link1 := mem.link;
      ghost var value1 := mem.value;
      ghost var cur := nodes;
      InsertStateFree(link1, value1, beforeHead, afterTail, cur, t, k, ns, es, ps, vals, link0, value0, full);
      it, next := InsertAndAdvance(position, ps[t], vals[t], k + t);
      InsertStateStep(link1, value1, mem.link, mem.value, beforeHead, afterTail, cur, nodes,
                      t, k, ns, es, ps, vals, link0, value0, full);
    }

    /** `position = insert(position, v)` followed by `++position`. */
    method InsertAndAdvance(position: Cursor, p: Ptr, v: int, ghost j: int) returns (it: Cursor, next: Cursor)
      requires Valid() && 0 <= j <= |nodes| && position == Pos(j) && mem.IsFree(p)
      modifies this, mem
      ensures Valid()
      ensures nodes == old(nodes)[..j] + [p] + old(nodes)[j..]
      ensures Elements() == old(Elements())[..j] + [v] + old(Elements())[j..]
      ensures it == Pos(j) && next == Pos(j + 1)
      ensures mem.link.Keys == old(mem.link).Keys + {p}
      ensures KeptApart(old(mem.link), old(mem.value), mem.link, mem.value, old(Full()))
    {
      it := Emplace(position, p, v, j);
      StepPos(mem.link, beforeHead, nodes, afterTail, j);
      next := Next(mem.link, it);
    }

    /** `emplace_back(v)` / `push_back(v)`. */
    method PushBack(p: Ptr, v: int)
      requires Valid() && mem.IsFree(p)
      modifies this, mem
      ensures Valid()
      ensures nodes == old(nodes) + [p] && Elements() == old(Elements()) + [v]
      ensures mem.link.Keys == old(mem.link).Keys + {p}
      ensures KeptApart(old(mem.link), old(mem.value), mem.link, mem.value, old(Full()))
    {
      var e := End();
      ghost var n := |nodes|;
      assert nodes[n..] == [] && nodes[..n] == nodes;
      assert Elements()[n..] == [] && Elements()[..n] == Elements();
      var _ := Emplace(e, p, v, n);
    }

    /** `emplace_front(v)` / `push_front(v)`. */
    method PushFront(p: Ptr, v: int)
      requires Valid() && mem.IsFree(p)
      modifies this, mem
      ensures Valid()
      ensures nodes == [p] + old(nodes) && Elements() == [v] + old(Elements())
      ensures mem.link.Keys == old(mem.link).Keys + {p}
      ensures KeptApart(old(mem.link), old(mem.value), mem.link, mem.value, old(Full()))
    {
      var b := Begin();
      assert nodes[0..] == nodes && nodes[..0] == [];
      assert Elements()[0..] == Elements() && Elements()[..0] == [];
      var _ := Emplace(b, p, v, 0);
    }

    /**
      `destroySequence(begin, end, distance)`: cut nodes i .. j - 1 out, then
      walk the detached run, destroying each node once the cursor has left it.
    */
    method DestroySequence(begin: Cursor, end: Cursor, distance: nat, ghost i: int, ghost j: int)
      requires Valid() && 0 <= i <= j <= |nodes| && begin == Pos(i) && end == Pos(j) && distance == j - i
      modifies this, mem
      ensures Valid()
      ensures nodes == old(nodes)[..i] + old(nodes)[j..]
      ensures Elements() == old(Elements())[..i] + old(Elements())[j..]
      ensures mem.link.Keys <= old(mem.link).Keys && mem.value.Keys <= old(mem.value).Keys
      ensures forall q :: q in old(nodes)[i..j] ==> q !in mem.link
      ensures KeptApart(old(mem.link), old(mem.value), mem.link, mem.value, old(Full()))
    {
      ghost var ns := nodes;
      ghost var value0 := mem.value;
      if distance == 0 {
        assert ns[..i] + ns[j..] == ns;
        assert ns[i..j] == [];
        return;
      }
      var cut := CutSequenceFromThis(begin, end, distance, i, j);
      ghost var run := ns[i..j];
      ghost var link1 := mem.link;
      mem.DestroyRun(cut.cutted.first, cut.cutted.second, run);
      OtherListKept(link1, value0, mem.link, mem.value, run, beforeHead, nodes, afterTail);
      SliceMembers(ns, i, j);
      ValuesRemove(value0, mem.value, ns, i, j);
    }

    /** `clear()`: `destroySequence(cbegin(), cend(), size())`. */
    method Clear()
      requires Valid()
      modifies this, mem
      ensures Valid() && nodes == []
      ensures mem.link.Keys <= old(mem.link).Keys && mem.value.Keys <= old(mem.value).Keys
      ensures forall q :: q in old(nodes) ==> q !in mem.link
      ensures KeptApart(old(mem.link), old(mem.value), mem.link, mem.value, old(Full()))
    {
      var b := Begin();
      var e := End();
      assert nodes[0..|nodes|] == nodes;
      DestroySequence(b, e, length, 0, |nodes|);
    }

    /**
      `erase(first, last)`: destroy nodes i .. j - 1 (nothing when
      `first == last`) and return `{first.prev, last.current}`, the cursor
      that now stands where `first` stood.
    */
    method Erase(first: Cursor, last: Cursor, ghost i: int, ghost j: int) returns (r: Cursor)
      requires Valid() && 0 <= i <= j <= |nodes| && first == Pos(i) && last == Pos(j)
      modifies this, mem
      ensures Valid()
      ensures nodes == old(nodes)[..i] + old(nodes)[j..]
      ensures Elements() == old(Elements())[..i] + old(Elements())[j..]
      ensures r == Pos(i)
      ensures mem.link.Keys <= old(mem.link).Keys && mem.value.Keys <= old(mem.value).Keys
      ensures forall q :: q in old(nodes)[i..j] ==> q !in mem.link
      ensures KeptApart(old(mem.link), old(mem.value), mem.link, mem.value, old(Full()))
    {
      PosApart(beforeHead, nodes, afterTail, mem.link, i, j);
      if i < j {
        CutPositions(beforeHead, nodes, afterTail, i, j);
      } else {
        assert nodes[..i] + nodes[j..] == nodes;
      }
      if first.current != last.current {
        var distance := Distance(first, last, i, j);
        DestroySequence(first, last, distance, i, j);
      }
      r := Cursor(first.prev, last.current);
    }

    /** `erase(position)`: `erase(position, std::next(position))`. */
    method EraseAt(position: Cursor, ghost k: int) returns (r: Cursor)
      requires Valid() && 0 <= k < |nodes| && position == Pos(k)
      modifies this, mem
      ensures Valid()
      ensures nodes == old(nodes)[..k] + old(nodes)[k + 1..]
      ensures Elements() == old(Elements())[..k] + old(Elements())[k + 1..]
      ensures r == Pos(k)
      ensures mem.link.Keys == old(mem.link).Keys - {old(nodes)[k]}
      ensures mem.value.Keys <= old(mem.value).Keys
      ensures KeptApart(old(mem.link), old(mem.value), mem.link, mem.value, old(Full()))
    {
      StepPos(mem.link, beforeHead, nodes, afterTail, k);
      var next := Next(mem.link, position);
      ghost var ns := nodes;
      ghost var link0 := mem.link;
      ghost var value0 := mem.value;
      assert ns[k..k + 1] == [ns[k]];
      r := Erase(position, next, k, k + 1);
      EraseOneKeys(link0, value0, mem.link, mem.value, beforeHead, ns, afterTail, k);
    }

    /** `pop_front()`: `erase(cbegin())`. */
    method PopFront()
      requires Valid() && nodes != []
      modifies this, mem
      ensures Valid()
      ensures nodes == old(nodes)[1..] && Elements() == old(Elements())[1..]
      ensures mem.link.Keys == old(mem.link).Keys - {old(nodes)[0]}
      ensures KeptApart(old(mem.link), old(mem.value), mem.link, mem.value, old(Full()))
    {
      var b := Begin();
      assert nodes[..0] == [];
      assert Elements()[..0] == [];
      var _ := EraseAt(b, 0);
    }

    /** `pop_back()`: `erase(--cend())`. */
    method PopBack()
      requires Valid() && nodes != []
      modifies this, mem
      ensures Valid()
      ensures nodes == old(nodes)[..|old(nodes)| - 1] && Elements() == old(Elements())[..|old(nodes)| - 1]
      ensures mem.link.Keys == old(mem.link).Keys - {old(nodes)[|old(nodes)| - 1]}
      ensures KeptApart(old(mem.link), old(mem.value), mem.link, mem.value, old(Full()))
    {
      var e := End();
      StepBackPos(mem.link, beforeHead, nodes, afterTail, |nodes|);
      e := Prev(mem.link, e);
      assert nodes[|nodes|..] == [];
      assert Elements()[|nodes|..] == [];
      var _ := EraseAt(e, |nodes| - 1);
    }
  
    /** `InsertState` at the end of this list: what repeated `emplace_back` calls keep. */
    ghost predicate AppendedUpTo(t: int, ns: seq<Ptr>, es: seq<int>, ps: seq<Ptr>, vals: seq<int>,
                                 link0: map<Ptr, Ptr>, value0: map<Ptr, int>, full: seq<Ptr>)
      reads this, mem
    {
      Valid() && InsertState(mem.link, mem.value, beforeHead, afterTail, nodes, t, |ns|, ns, es, ps, vals, link0, value0, full)
    }

    /** One `emplace_back(vals[t])` at the address `ps[t]`. */
    method AppendStep(t: int, ghost ns: seq<Ptr>, ghost es: seq<int>, ps: seq<Ptr>, vals: seq<int>,
                      ghost link0: map<Ptr, Ptr>, ghost value0: map<Ptr, int>, ghost full: seq<Ptr>)
      requires AppendedUpTo(t, ns, es, ps, vals, link0, value0, full) && t < |vals|
      modifies this, mem
      ensures AppendedUpTo(t + 1, ns, es, ps, vals, link0, value0, full)
    {
      ghost var link1 := mem.link;
      ghost var value1 := mem.value;
      ghost var cur := nodes;
      InsertStateFree(link1, value1, beforeHead, afterTail, cur, t, |ns|, ns, es, ps, vals, link0, value0, full);
      PushBack(ps[t], vals[t]);
      AppendStateStep(link1, value1, mem.link, mem.value, beforeHead, afterTail, cur, nodes,
                      t, ns, es, ps, vals, link0, value0, full);
    }

    /**
      The `while (size() < count) emplace_back(...)` loop shared by `resize`
      and `assign`: append the payloads `vals` at the addresses `ps`.
    */
    method AppendAll(ps: seq<Ptr>, vals: seq<int>)
      requires Valid() && |ps| == |vals| && Distinct(ps) && forall u :: 0 <= u < |ps| ==> mem.IsFree(ps[u])
      modifies this, mem
      ensures Valid()
      ensures nodes == old(nodes) + ps && Elements() == old(Elements()) + vals
      ensures forall q :: q in mem.link <==> q in old(mem.link) || q in ps
      ensures KeptApart(old(mem.link), old(mem.value), mem.link, mem.value, old(Full()))
    {
      ghost var ns := nodes;
      ghost var es := Elements();
      ghost var link0 := mem.link;
      ghost var value0 := mem.value;
      ghost var full := Full();
      BeginInsertState(link0, value0, beforeHead, afterTail, ns, |ns|, ps, vals);
      var t := 0;
      while t < |vals|
        invariant 0 <= t <= |vals| && AppendedUpTo(t, ns, es, ps, vals, link0, value0, full)
        decreases |vals| - t
      {
        AppendStep(t, ns, es, ps, vals, link0, value0, full);
        t := t + 1;
      }
      EndInsertState(mem.link, mem.value, beforeHead, afterTail, nodes, |ns|, ns, es, ps, vals, link0, value0, full);
      assert ns[..|ns|] == ns && ns[|ns|..] == [] && es[..|ns|] == es && es[|ns|..] == [];
    }

    /** `PopState` of this list: what repeated `pop_back` calls keep. */
    ghost predicate PoppedTo(ns: seq<Ptr>, es: seq<int>, link0: map<Ptr, Ptr>, value0: map<Ptr, int>, full: seq<Ptr>)
      reads this, mem
    {
      Valid() && PopState(mem.link, mem.value, beforeHead, afterTail, nodes, ns, es, link0, value0, full)
    }

    /** One `pop_back()`. */
    method PopStep(ghost ns: seq<Ptr>, ghost es: seq<int>, ghost link0: map<Ptr, Ptr>, ghost value0: map<Ptr, int>,
                   ghost full: seq<Ptr>)
      requires PoppedTo(ns, es, link0, value0, full) && length > 0
      modifies this, mem
      ensures PoppedTo(ns, es, link0, value0, full) && |nodes| == |old(nodes)| - 1
    {
      ghost var link1 := mem.link;
      ghost var value1 := mem.value;
      ghost var cur := nodes;
      PopBack();
      PopStateStep(link1, value1, mem.link, mem.value, beforeHead, afterTail, cur, nodes, ns, es, link0, value0, full);
    }

    /** The `while (size() > count) pop_back()` loop of `resize`. */
    method PopDownTo(count: nat)
      requires Valid()
      modifies this, mem
      ensures Valid()
      ensures |nodes| == (if count < |old(nodes)| then count else |old(nodes)|)
      ensures nodes == old(nodes)[..|nodes|] && Elements() == old(Elements())[..|nodes|]
      ensures forall q :: q in mem.link ==> q in old(mem.link)
      ensures KeptApart(old(mem.link), old(mem.value), mem.link, mem.value, old(Full()))
    {
      ghost var ns := nodes;
      ghost var es := Elements();
      ghost var link0 := mem.link;
      ghost var value0 := mem.value;
      ghost var full := Full();
      BeginPopState(link0, value0, beforeHead, afterTail, ns);
      while length > count
        invariant PoppedTo(ns, es, link0, value0, full)
        invariant |nodes| >= (if count < |ns| then count else |ns|)
        decreases length
      {
        PopStep(ns, es, link0, value0, full);
      }
    }

    /**
      `resize(count, value)`: `clear()` when count is 0, otherwise
      `pop_back` down to count nodes and then `emplace_back(value)` up to
      count nodes at the fresh addresses `ps`.
    */
    method Resize(count: nat, v: int, ps: seq<Ptr>)
      requires Valid() && |ps| == (if count > |nodes| then count - |nodes| else 0)
      requires Distinct(ps) && forall u :: 0 <= u < |ps| ==> mem.IsFree(ps[u])
      modifies this, mem
      ensures Valid() && length == count
      ensures count <= |old(nodes)| ==> nodes == old(nodes)[..count] && Elements() == old(Elements())[..count]
      ensures count > |old(nodes)| ==>
        nodes == old(nodes) + ps && Elements() == old(Elements()) + Repeat(v, count - |old(nodes)|)
      ensures forall q :: q in mem.link ==> q in old(mem.link) || q in ps
      ensures KeptApart(old(mem.link), old(mem.value), mem.link, mem.value, old(Full()))
    {
      ghost var ns := nodes;
      ghost var es := Elements();
      ghost var link0 := mem.link;
      ghost var value0 := mem.value;
      ghost var full := Full();
      if count == 0 {
        Clear();
        assert ns[..0] == [] && es[..0] == [];
        return;
      }
      PopDownTo(count);
      ghost var link1 := mem.link;
      ghost var value1 := mem.value;
      ghost var cur := nodes;
      assert forall q :: q in FullOf(beforeHead, cur, afterTail) ==> q in full by {
        RemovedMembers(beforeHead, ns, afterTail, |cur|, |ns|);
        assert ns[..|cur|] + ns[|ns|..] == cur;
      }
      AppendAll(ps, Repeat(v, count - length));
      KeptApartTrans(link0, value0, link1, value1, mem.link, mem.value, full, FullOf(beforeHead, cur, afterTail));
      if count > |ns| {
        assert cur == ns && ns[..|ns|] == ns;
        assert es[..|ns|] == es;
      } else {
        assert ps == [];
        assert nodes == cur && Elements() == Values(value1, cur) + [];
      }
    }

    /** The overwriting loop of `assign` has written `ws[..i]` and stands on the i-th node. */
    ghost predicate OverwrittenUpTo(i: int, iter: Cursor, ns: seq<Ptr>, es: seq<int>, ws: seq<int>,
                                    link0: map<Ptr, Ptr>, value0: map<Ptr, int>, full: seq<Ptr>)
      reads this, mem
    {
      && Valid() && nodes == ns && mem.link == link0 && full == Full()
      && 0 <= i <= |nodes| && iter == Pos(i)
      && OverwriteState(mem.value, ns, es, ws, i, link0, value0, full)
    }

    /** `*iter = ws[i]; ++iter`. */
    method OverwriteAndAdvance(iter: Cursor, v: int, ghost i: int, ghost ns: seq<Ptr>, ghost es: seq<int>,
                               ghost ws: seq<int>, ghost link0: map<Ptr, Ptr>, ghost value0: map<Ptr, int>,
                               ghost full: seq<Ptr>)
      returns (next: Cursor, end: Cursor)
      requires OverwrittenUpTo(i, iter, ns, es, ws, link0, value0, full) && i < |ns| && i < |ws| && v == ws[i]
      modifies mem
      ensures OverwrittenUpTo(i + 1, next, ns, es, ws, link0, value0, full)
      ensures end == Pos(|ns|) && (next.current == end.current <==> i + 1 == |ns|)
    {
      PosNodes(beforeHead, nodes, afterTail, i);
      StepPos(mem.link, beforeHead, nodes, afterTail, i);
      OverwriteStateStep(mem.value, ns, es, ws, i, link0, value0, full);
      assert nodes[i] in nodes;
      mem.SetValue(iter.current, v);
      next := Next(mem.link, iter);
      end := End();
      PosApart(beforeHead, nodes, afterTail, mem.link, i + 1, |nodes|);
    }

    /** The first loop of `assign(count, val)`: `*iter = val` while neither runs out. */
    method FillPrefix(count: nat, val: int, ghost ns: seq<Ptr>, ghost es: seq<int>, ghost ws: seq<int>,
                      ghost link0: map<Ptr, Ptr>, ghost value0: map<Ptr, int>, ghost full: seq<Ptr>)
      returns (iter: Cursor, e: Cursor, c: nat, ghost i: int)
      requires Valid() && nodes == ns && mem.link == link0 && full == Full() && ws == Repeat(val, count)
      requires OverwriteState(mem.value, ns, es, ws, 0, link0, value0, full)
      modifies mem
      ensures OverwrittenUpTo(i, iter, ns, es, ws, link0, value0, full)
      ensures c == count - i && (i == |ns| || c == 0)
      ensures e == Pos(|ns|) && (iter.current == e.current <==> i == |ns|)
    {
      iter := Begin();
      e := End();
      c := count;
      i := 0;
      PosApart(beforeHead, nodes, afterTail, mem.link, i, |nodes|);
      while iter.current != e.current && c > 0
        invariant OverwrittenUpTo(i, iter, ns, es, ws, link0, value0, full)
        invariant c == count - i && e == Pos(|ns|)
        invariant iter.current == e.current <==> i == |ns|
        decreases c
      {
        iter, e := OverwriteAndAdvance(iter, val, i, ns, es, ws, link0, value0, full);
        i := i + 1;
        c := c - 1;
      }
    }

    /**
      `assign(count, val)`: overwrite the payloads of the first count nodes,
      then erase the nodes left over or `emplace_back(val)` at the fresh
      addresses `ps` until there are count.
    */
    method AssignFill(count: nat, val: int, ps: seq<Ptr>)
      requires Valid() && |ps| == (if count > |nodes| then count - |nodes| else 0)
      requires Distinct(ps) && forall u :: 0 <= u < |ps| ==> mem.IsFree(ps[u])
      modifies this, mem
      ensures Valid() && Elements() == Repeat(val, count)
      ensures nodes == old(nodes)[..if count < |old(nodes)| then count else |old(nodes)|] + ps
      ensures forall q :: q in mem.link ==> q in old(mem.link) || q in ps
      ensures KeptApart(old(mem.link), old(mem.value), mem.link, mem.value, old(Full()))
    {
      ghost var ns := nodes;
      ghost var es := Elements();
      ghost var link0 := mem.link;
      ghost var value0 := mem.value;
      ghost var full := Full();
      ghost var ws := Repeat(val, count);
      BeginOverwriteState(link0, value0, beforeHead, ns, afterTail, ws);
      var iter, e, c, i := FillPrefix(count, val, ns, es, ws, link0, value0, full);
      RepeatSuffix(val, count, i);
      FinishAssign(iter, e, ps, Repeat(val, c), i, ns, es, ws, link0, value0, full);
    }

    /**
      `assign(first, last)` with the input range `vals`: overwrite node by
      node while both last, then erase the nodes left over or
      `emplace_back` the payloads left over at the fresh addresses `ps`.
    */
    method AssignRange(vals: seq<int>, ps: seq<Ptr>)
      requires Valid() && |ps| == (if |vals| > |nodes| then |vals| - |nodes| else 0)
      requires Distinct(ps) && forall u :: 0 <= u < |ps| ==> mem.IsFree(ps[u])
      modifies this, mem
      ensures Valid() && Elements() == vals
      ensures nodes == old(nodes)[..if |vals| < |old(nodes)| then |vals| else |old(nodes)|] + ps
      ensures forall q :: q in mem.link ==> q in old(mem.link) || q in ps
      ensures KeptApart(old(mem.link), old(mem.value), mem.link, mem.value, old(Full()))
    {
      ghost var ns := nodes;
      ghost var es := Elements();
      ghost var link0 := mem.link;
      ghost var value0 := mem.value;
      ghost var full := Full();
      BeginOverwriteState(link0, value0, beforeHead, ns, afterTail, vals);
      var iter, e, i := CopyPrefix(vals, ns, es, link0, value0, full);
      FinishAssign(iter, e, ps, vals[i..], i, ns, es, vals, link0, value0, full);
    }

    /** The first loop of `assign(first, last)`: `*iter = *first` until either range ends. */
    method CopyPrefix(vals: seq<int>, ghost ns: seq<Ptr>, ghost es: seq<int>,
                      ghost link0: map<Ptr, Ptr>, ghost value0: map<Ptr, int>, ghost full: seq<Ptr>)
      returns (iter: Cursor, e: Cursor, i: nat)
      requires Valid() && nodes == ns && mem.link == link0 && full == Full()
      requires OverwriteState(mem.value, ns, es, vals, 0, link0, value0, full)
      modifies mem
      ensures OverwrittenUpTo(i, iter, ns, es, vals, link0, value0, full)
      ensures i == |ns| || i == |vals|
      ensures e == Pos(|ns|) && (iter.current == e.current <==> i == |ns|)
    {
      iter := Begin();
      e := End();
      i := 0;
      PosApart(beforeHead, nodes, afterTail, mem.link, i, |nodes|);
      while iter.current != e.current
        invariant OverwrittenUpTo(i, iter, ns, es, vals, link0, value0, full)
        invariant e == Pos(|ns|) && (iter.current == e.current <==> i == |ns|)
        decreases |ns| - i
      {
        if i == |vals| {
          return;
        }
        iter, e := OverwriteAndAdvance(iter, vals[i], i, ns, es, vals, link0, value0, full);
        i := i + 1;
      }
    }

    /**
      The end of both `assign`s: `erase(iter, end())` when the payloads ran
      out before the nodes, otherwise `emplace_back` the payloads left.
    */
    method FinishAssign(iter: Cursor, e: Cursor, ps: seq<Ptr>, vals: seq<int>, ghost i: int, ghost ns: seq<Ptr>,
                        ghost es: seq<int>, ghost ws: seq<int>, ghost link0: map<Ptr, Ptr>,
                        ghost value0: map<Ptr, int>, ghost full: seq<Ptr>)
      requires OverwrittenUpTo(i, iter, ns, es, ws, link0, value0, full)
      requires e == Pos(|ns|) && (iter.current == e.current <==> i == |ns|)
      requires i < |ns| ==> |ws| == i && ps == []
      requires i == |ns| ==> vals == ws[i..] && |ps| == |vals|
      requires Distinct(ps) && forall u :: 0 <= u < |ps| ==> mem.IsFree(ps[u])
      modifies this, mem
      ensures Valid() && Elements() == ws && nodes == ns[..i] + ps
      ensures forall q :: q in mem.link ==> q in link0 || q in ps
      ensures KeptApart(link0, value0, mem.link, mem.value, full)
    {
      if iter.current != e.current {
        TruncateAfterOverwrite(iter, i, ns, es, ws, link0, value0, full);
        assert ns[..i] + ps == ns[..i];
      } else {
        ExtendAfterOverwrite(ps, vals, iter, i, ns, es, ws, link0, value0, full);
        assert ns[..i] == ns;
      }
    }

    /** `erase(iter, end())` once the payloads ran out first. */
    method TruncateAfterOverwrite(iter: Cursor, ghost i: int, ghost ns: seq<Ptr>, ghost es: seq<int>, ghost ws: seq<int>,
                                  ghost link0: map<Ptr, Ptr>, ghost value0: map<Ptr, int>, ghost full: seq<Ptr>)
      requires OverwrittenUpTo(i, iter, ns, es, ws, link0, value0, full) && i < |ns| && |ws| == i
      modifies this, mem
      ensures Valid() && nodes == ns[..i] && Elements() == ws
      ensures forall q :: q in mem.link ==> q in link0
      ensures KeptApart(link0, value0, mem.link, mem.value, full)
    {
      EndOverwriteState(mem.value, ns, es, ws, i, link0, value0, full);
      ghost var value1 := mem.value;
      var e := End();
      ValuesSlice(value1, ns, 0, i);
      assert ns[..i] == ns[0..i] && ws[..i] == ws;
      var _ := Erase(iter, e, i, |nodes|);
      KeptApartTrans(link0, value0, link0, value1, mem.link, mem.value, full, full);
    }

    /** The `emplace_back` loop once every node was overwritten. */
    method ExtendAfterOverwrite(ps: seq<Ptr>, vals: seq<int>, ghost iter: Cursor, ghost i: int, ghost ns: seq<Ptr>,
                                ghost es: seq<int>, ghost ws: seq<int>, ghost link0: map<Ptr, Ptr>,
                                ghost value0: map<Ptr, int>, ghost full: seq<Ptr>)
      requires OverwrittenUpTo(i, iter, ns, es, ws, link0, value0, full) && i == |ns| && vals == ws[i..]
      requires |ps| == |vals| && Distinct(ps) && forall u :: 0 <= u < |ps| ==> mem.IsFree(ps[u])
      modifies this, mem
      ensures Valid() && nodes == ns + ps && Elements() == ws
      ensures forall q :: q in mem.link ==> q in link0 || q in ps
      ensures KeptApart(link0, value0, mem.link, mem.value, full)
    {
      ghost var value1 := mem.value;
      AppendAll(ps, vals);
      EndOverwriteAppend(value1, ns, es, ws, i, link0, value0, full, mem.link, mem.value, nodes);
    }

    // -------------------------------------------------------------------------
    // Splicing
    // -------------------------------------------------------------------------

    /**
      What every `splice` from another list does: `cutSequenceFromThis` on
      `x` for its nodes i .. j - 1, then `insertSequenceToThisBefore` on this
      list at the k-th position. No node is created, destroyed or re-valued.
    */
    method Transfer(position: Cursor, x: XorList, first: Cursor, last: Cursor, distance: nat,
                    ghost k: int, ghost i: int, ghost j: int)
      requires Valid() && x.Valid() && x.mem == mem && x != this && Disjoint(Full(), x.Full())
      requires 0 <= k <= |nodes| && position == Pos(k)
      requires 0 <= i < j <= |x.nodes| && first == x.Pos(i) && last == x.Pos(j) && distance == j - i
      modifies this, x, mem
      ensures Valid() && x.Valid() && Disjoint(Full(), x.Full())
      ensures nodes == old(nodes)[..k] + old(x.nodes)[i..j] + old(nodes)[k..]
      ensures x.nodes == old(x.nodes)[..i] + old(x.nodes)[j..]
      ensures Elements() == old(Elements())[..k] + old(x.Elements())[i..j] + old(Elements())[k..]
      ensures x.Elements() == old(x.Elements())[..i] + old(x.Elements())[j..]
      ensures mem.value == old(mem.value) && mem.link.Keys == old(mem.link).Keys
      ensures KeptApart(old(mem.link), old(mem.value), mem.link, mem.value, old(Full()) + old(x.Full()))
    {
      ghost var ns := nodes;
      ghost var xs := x.nodes;
      ghost var link0 := mem.link;
      ghost var value0 := mem.value;
      ghost var full := Full();
      ghost var xfull := x.Full();
      var cut := TransferCut(x, first, last, distance, i, j);
      ghost var link1 := mem.link;
      var _ := InsertSequenceToThisBefore(position, cut.cutted.first, cut.cutted.second, distance, k, xs[i..j]);
      InsertFromOtherFacts(link1, mem.link, value0, beforeHead, ns, afterTail, x.beforeHead, xs, x.afterTail, k, i, j);
      ChainKeys(link0, xfull);
      TransferValues(link0, link1, mem.link, value0, full, ns, xfull, xs, k, i, j);
    }

    /** The first half of `Transfer`: the cut from `x`, which leaves this list as it is. */
    method TransferCut(x: XorList, first: Cursor, last: Cursor, distance: nat, ghost i: int, ghost j: int)
      returns (cut: CutResult)
      requires Valid() && x.Valid() && x.mem == mem && x != this && Disjoint(Full(), x.Full())
      requires 0 <= i < j <= |x.nodes| && first == x.Pos(i) && last == x.Pos(j) && distance == j - i
      modifies x, mem
      ensures Valid() && x.Valid()
      ensures x.nodes == old(x.nodes)[..i] + old(x.nodes)[j..]
      ensures Chain(mem.link, old(x.nodes)[i..j]) && Owns(mem.value, old(x.nodes)[i..j])
      ensures Disjoint(old(x.nodes)[i..j], Full()) && Disjoint(Full() + old(x.nodes)[i..j], x.Full())
      ensures cut.cutted == Range(Between([], old(x.nodes)[i..j]), Between(old(x.nodes)[i..j], []))
      ensures mem.value == old(mem.value) && mem.link.Keys == old(mem.link).Keys
      ensures KeptApart(old(mem.link), old(mem.value), mem.link, mem.value, old(x.Full()))
    {
      ghost var link0 := mem.link;
      ghost var xs := x.nodes;
      cut := x.CutSequenceFromThis(first, last, distance, i, j);
      CutFromOtherFacts(link0, mem.link, mem.value, beforeHead, nodes, afterTail, x.beforeHead, xs, x.afterTail, i, j);
    }

    /** `splice` of one node from another list: the cut, then `insertNodeToThisBefore`. */
    method TransferNode(position: Cursor, x: XorList, it: Cursor, ghost k: int, ghost i: int)
      requires Valid() && x.Valid() && x.mem == mem && x != this && Disjoint(Full(), x.Full())
      requires 0 <= k <= |nodes| && position == Pos(k) && 0 <= i < |x.nodes| && it == x.Pos(i)
      modifies this, x, mem
      ensures Valid() && x.Valid() && Disjoint(Full(), x.Full())
      ensures nodes == old(nodes)[..k] + old(x.nodes)[i..i + 1] + old(nodes)[k..]
      ensures x.nodes == old(x.nodes)[..i] + old(x.nodes)[i + 1..]
      ensures Elements() == old(Elements())[..k] + old(x.Elements())[i..i + 1] + old(Elements())[k..]
      ensures x.Elements() == old(x.Elements())[..i] + old(x.Elements())[i + 1..]
      ensures mem.value == old(mem.value) && mem.link.Keys == old(mem.link).Keys
      ensures KeptApart(old(mem.link), old(mem.value), mem.link, mem.value, old(Full()) + old(x.Full()))
    {
      ghost var ns := nodes;
      ghost var xs := x.nodes;
      ghost var link0 := mem.link;
      ghost var value0 := mem.value;
      ghost var full := Full();
      ghost var xfull := x.Full();
      var node := TransferNodeCut(x, it, i);
      ghost var link1 := mem.link;
      var _ := InsertNodeToThisBefore(position, node, k);
      InsertFromOtherFacts(link1, mem.link, value0, beforeHead, ns, afterTail, x.beforeHead, xs, x.afterTail, k, i, i + 1);
      ChainKeys(link0, xfull);
      TransferValues(link0, link1, mem.link, value0, full, ns, xfull, xs, k, i, i + 1);
    }

    /** The first half of `TransferNode`: the i-th node leaves `x`, which leaves this list as it is. */
    method TransferNodeCut(x: XorList, it: Cursor, ghost i: int) returns (node: Ptr)
      requires Valid() && x.Valid() && x.mem == mem && x != this && Disjoint(Full(), x.Full())
      requires 0 <= i < |x.nodes| && it == x.Pos(i)
      modifies x, mem
      ensures Valid() && x.Valid()
      ensures x.nodes == old(x.nodes)[..i] + old(x.nodes)[i + 1..] && [node] == old(x.nodes)[i..i + 1]
      ensures node in mem.link && node in mem.value && node !in Full()
      ensures Disjoint(Full() + old(x.nodes)[i..i + 1], x.Full())
      ensures mem.value == old(mem.value) && mem.link.Keys == old(mem.link).Keys
      ensures KeptApart(old(mem.link), old(mem.value), mem.link, mem.value, old(x.Full()))
    {
      ghost var link0 := mem.link;
      ghost var xs := x.nodes;
      node := x.CutNodeFromThis(it, i);
      CutFromOtherFacts(link0, mem.link, mem.value, beforeHead, nodes, afterTail, x.beforeHead, xs, x.afterTail, i, i + 1);
      assert node in xs[i..i + 1];
    }

    /**
      What `splice` does within one list: `cutSequenceFromThis` for nodes
      i .. j - 1 (with the length `distance` it is handed), then
      `insertSequenceToThisBefore` at the cursor that stood on the k-th node.
    */
    method MoveWithin(position: Cursor, first: Cursor, last: Cursor, distance: nat,
                      ghost k: int, ghost i: int, ghost j: int)
      requires Valid() && 0 <= i < j <= |nodes| && first == Pos(i) && last == Pos(j) && distance <= length
      requires 0 <= k <= |nodes| && position == Pos(k) && (k < i || j < k)
      modifies this, mem
      ensures Valid()
      ensures nodes == MoveRun(old(nodes), i, j, k) && Elements() == MoveRun(old(Elements()), i, j, k)
      ensures mem.value == old(mem.value) && mem.link.Keys == old(mem.link).Keys
      ensures KeptApart(old(mem.link), old(mem.value), mem.link, mem.value, old(Full()))
    {
      ghost var ns := nodes;
      ghost var link0 := mem.link;
      ghost var value0 := mem.value;
      ghost var full := Full();
      var cut := CutSequenceFromThis(first, last, distance, i, j);
      PosAfterCut(beforeHead, ns, afterTail, i, j, k);
      ReinsertRun(position, cut.cutted, distance, ns, i, j, k, link0, value0);
    }

    /** The second half of `MoveWithin`: the run cut out goes back in front of the k-th node. */
    method ReinsertRun(position: Cursor, run: Range, distance: nat, ghost ns: seq<Ptr>, ghost i: int, ghost j: int,
                       ghost k: int, ghost link0: map<Ptr, Ptr>, ghost value0: map<Ptr, int>)
      requires 0 <= i < j <= |ns| && 0 <= k <= |ns| && (k < i || j < k)
      requires Linked() && nodes == ns[..i] + ns[j..] && length + distance == |ns|
      requires position == Pos(if k < i then k else k - (j - i))
      requires Chain(mem.link, ns[i..j]) && Owns(mem.value, ns[i..j]) && Disjoint(ns[i..j], Full())
      requires run == Range(Between([], ns[i..j]), Between(ns[i..j], []))
      requires Owns(value0, ns) && value0.Keys <= link0.Keys && mem.value == value0
      requires KeptApart(link0, value0, mem.link, value0, FullOf(beforeHead, ns, afterTail))
      modifies this, mem
      ensures Valid() && nodes == MoveRun(ns, i, j, k) && Elements() == MoveRun(Values(value0, ns), i, j, k)
      ensures mem.value == value0 && mem.link.Keys == old(mem.link).Keys
      ensures KeptApart(link0, value0, mem.link, mem.value, FullOf(beforeHead, ns, afterTail))
    {
      ghost var link1 := mem.link;
      ghost var k' := if k < i then k else k - (j - i);
      var _ := InsertSequenceToThisBefore(position, run.first, run.second, distance, k', ns[i..j]);
      MoveFacts(link0, link1, mem.link, value0, beforeHead, ns, afterTail, i, j, k, k');
    }

    /**
      `cutSequenceFromThis(i, std::next(i), 1).cutted.first.current`: the
      i-th node leaves the list, still live and carrying its payload.
    */
    method CutNodeFromThis(it: Cursor, ghost i: int) returns (node: Ptr)
      requires Valid() && 0 <= i < |nodes| && it == Pos(i)
      modifies this, mem
      ensures Valid() && node == old(nodes)[i] && [node] == old(nodes)[i..i + 1]
      ensures nodes == old(nodes)[..i] + old(nodes)[i + 1..]
      ensures node in mem.link && node in mem.value && node !in Full()
      ensures mem.value == old(mem.value) && mem.link.Keys == old(mem.link).Keys
      ensures KeptApart(old(mem.link), old(mem.value), mem.link, mem.value, old(Full()))
    {
      ghost var ns := nodes;
      StepPos(mem.link, beforeHead, nodes, afterTail, i);
      var next := Next(mem.link, it);
      var cut := CutSequenceFromThis(it, next, 1, i, i + 1);
      assert ns[i..i + 1] == [ns[i]];
      node := cut.cutted.first.current;
    }

    /** `splice` of one node within one list: the same, with `insertNodeToThisBefore`. */
    method MoveNodeWithin(position: Cursor, it: Cursor, ghost k: int, ghost i: int)
      requires Valid() && 0 <= i < |nodes| && it == Pos(i)
      requires 0 <= k <= |nodes| && position == Pos(k) && (k < i || i + 1 < k)
      modifies this, mem
      ensures Valid()
      ensures nodes == MoveRun(old(nodes), i, i + 1, k) && Elements() == MoveRun(old(Elements()), i, i + 1, k)
      ensures mem.value == old(mem.value) && mem.link.Keys == old(mem.link).Keys
      ensures KeptApart(old(mem.link), old(mem.value), mem.link, mem.value, old(Full()))
    {
      ghost var ns := nodes;
      ghost var link0 := mem.link;
      ghost var value0 := mem.value;
      var node := CutNodeFromThis(it, i);
      PosAfterCut(beforeHead, ns, afterTail, i, i + 1, k);
      ReinsertMoved(position, node, ns, i, k, link0, value0);
    }

    /** The second half of `MoveNodeWithin`: the node cut out goes back in front of the k-th node. */
    method ReinsertMoved(position: Cursor, node: Ptr, ghost ns: seq<Ptr>, ghost i: int, ghost k: int,
                         ghost link0: map<Ptr, Ptr>, ghost value0: map<Ptr, int>)
      requires 0 <= i < |ns| && 0 <= k <= |ns| && (k < i || i + 1 < k)
      requires Valid() && nodes == ns[..i] + ns[i + 1..] && [node] == ns[i..i + 1]
      requires position == Pos(if k < i then k else k - 1)
      requires node in mem.link && node in mem.value && node !in Full()
      requires Owns(value0, ns) && value0.Keys <= link0.Keys && mem.value == value0
      requires KeptApart(link0, value0, mem.link, value0, FullOf(beforeHead, ns, afterTail))
      modifies this, mem
      ensures Valid() && nodes == MoveRun(ns, i, i + 1, k) && Elements() == MoveRun(Values(value0, ns), i, i + 1, k)
      ensures mem.value == value0 && mem.link.Keys == old(mem.link).Keys
      ensures KeptApart(link0, value0, mem.link, mem.value, FullOf(beforeHead, ns, afterTail))
    {
      ghost var link1 := mem.link;
      ghost var k' := if k < i then k else k - 1;
      var _ := InsertNodeToThisBefore(position, node, k');
      MoveFacts(link0, link1, mem.link, value0, beforeHead, ns, afterTail, i, i + 1, k, k');
    }

    /**
      `splice(position, x)`: nothing when `x` is this list or empty;
      otherwise all of `x` moves in front of the k-th node.
    */
    method Splice(position: Cursor, x: XorList, ghost k: int)
      requires Valid() && x.Valid() && x.mem == mem && 0 <= k <= |nodes| && position == Pos(k)
      requires x != this ==> Disjoint(Full(), x.Full())
      modifies this, x, mem
      ensures Valid() && x.Valid()
      ensures x == this ==> nodes == old(nodes) && mem.link == old(mem.link)
      ensures x != this ==>
        && nodes == old(nodes)[..k] + old(x.nodes) + old(nodes)[k..] && x.nodes == []
        && Elements() == old(Elements())[..k] + old(x.Elements()) + old(Elements())[k..]
        && Disjoint(Full(), x.Full())
      ensures mem.value == old(mem.value) && mem.link.Keys == old(mem.link).Keys
      ensures KeptApart(old(mem.link), old(mem.value), mem.link, mem.value, old(Full()) + old(x.Full()))
    {
      if x == this {
        return;
      }
      var empty := x.Empty();
      if empty {
        assert nodes[..k] + [] + nodes[k..] == nodes;
        assert Elements()[..k] + x.Elements() + Elements()[k..] == Elements();
        return;
      }
      SpliceAll(position, x, k);
    }

    /** `splice(position, x)` from another, non-empty list: all of `x` moves in front of the k-th node. */
    method SpliceAll(position: Cursor, x: XorList, ghost k: int)
      requires Valid() && x.Valid() && x.mem == mem && 0 <= k <= |nodes| && position == Pos(k)
      requires x != this && Disjoint(Full(), x.Full()) && x.nodes != []
      modifies this, x, mem
      ensures Valid() && x.Valid()
      ensures nodes == old(nodes)[..k] + old(x.nodes) + old(nodes)[k..] && x.nodes == []
      ensures Elements() == old(Elements())[..k] + old(x.Elements()) + old(Elements())[k..]
      ensures Disjoint(Full(), x.Full())
      ensures mem.value == old(mem.value) && mem.link.Keys == old(mem.link).Keys
      ensures KeptApart(old(mem.link), old(mem.value), mem.link, mem.value, old(Full()) + old(x.Full()))
    {
      ghost var xs := x.nodes;
      ghost var xe := x.Elements();
      var distance := x.Size();
      var b := x.Begin();
      var e := x.End();
      Transfer(position, x, b, e, distance, k, 0, |x.nodes|);
      assert xs[0..|xs|] == xs && xs[..0] + xs[|xs|..] == [];
      assert xe[0..|xe|] == xe;
    }

    /**
      `splice(position, x, it)`: nothing when `x` is this list and the node
      at `it` already stands at `position` or just before it; otherwise that
      node moves in front of the k-th node.
    */
    method SpliceOne(position: Cursor, x: XorList, it: Cursor, ghost k: int, ghost i: int)
      requires Valid() && x.Valid() && x.mem == mem && 0 <= k <= |nodes| && position == Pos(k)
      requires 0 <= i < |x.nodes| && it == x.Pos(i)
      requires x != this ==> Disjoint(Full(), x.Full())
      modifies this, x, mem
      ensures Valid() && x.Valid()
      ensures x == this ==>
        nodes == MoveRun(old(nodes), i, i + 1, k) && Elements() == MoveRun(old(Elements()), i, i + 1, k)
      ensures x != this ==>
        && nodes == old(nodes)[..k] + old(x.nodes)[i..i + 1] + old(nodes)[k..]
        && x.nodes == old(x.nodes)[..i] + old(x.nodes)[i + 1..]
        && Elements() == old(Elements())[..k] + old(x.Elements())[i..i + 1] + old(Elements())[k..]
        && x.Elements() == old(x.Elements())[..i] + old(x.Elements())[i + 1..]
        && Disjoint(Full(), x.Full())
      ensures mem.value == old(mem.value) && mem.link.Keys == old(mem.link).Keys
      ensures KeptApart(old(mem.link), old(mem.value), mem.link, mem.value, old(Full()) + old(x.Full()))
    {
      if x == this {
        PosApart(beforeHead, nodes, afterTail, mem.link, k, i);
        PrevApart(beforeHead, nodes, afterTail, mem.link, k, i);
        if position.current == it.current || position.prev == it.current {
          MoveRunInPlace(nodes, i, i + 1);
          MoveRunInPlace(Elements(), i, i + 1);
          return;
        }
        ghost var full := Full();
        MoveNodeWithin(position, it, k, i);
        KeptApartMore(old(mem.link), old(mem.value), mem.link, mem.value, full, full);
      } else {
        TransferNode(position, x, it, k, i);
      }
    }

    /**
      `splice(position, x, first, last)`: nothing when the range is empty;
      otherwise nodes i .. j - 1 of `x` move in front of the k-th node. Within
      one list the length handed to the cut is `size()`, and `position` must
      lie outside the range; `position == last` returns at once (see the
      findings in the README: as written, the cut invalidates that cursor).
    */
    method SpliceRange(position: Cursor, x: XorList, first: Cursor, last: Cursor,
                       ghost k: int, ghost i: int, ghost j: int)
      requires Valid() && x.Valid() && x.mem == mem && 0 <= k <= |nodes| && position == Pos(k)
      requires 0 <= i <= j <= |x.nodes| && first == x.Pos(i) && last == x.Pos(j)
      requires x == this && i < j ==> k < i || j <= k
      requires x != this ==> Disjoint(Full(), x.Full())
      modifies this, x, mem
      ensures Valid() && x.Valid()
      ensures x == this ==>
        nodes == MoveRun(old(nodes), i, j, k) && Elements() == MoveRun(old(Elements()), i, j, k)
      ensures x != this ==>
        && nodes == old(nodes)[..k] + old(x.nodes)[i..j] + old(nodes)[k..]
        && x.nodes == old(x.nodes)[..i] + old(x.nodes)[j..]
        && Elements() == old(Elements())[..k] + old(x.Elements())[i..j] + old(Elements())[k..]
        && x.Elements() == old(x.Elements())[..i] + old(x.Elements())[j..]
        && Disjoint(Full(), x.Full())
      ensures mem.value == old(mem.value) && mem.link.Keys == old(mem.link).Keys
      ensures KeptApart(old(mem.link), old(mem.value), mem.link, mem.value, old(Full()) + old(x.Full()))
    {
      x.PosApartHere(i, j);
      if first.current == last.current {
        if x == this {
          MoveNothing(nodes, i, k);
          MoveNothing(Elements(), i, k);
        } else {
          TransferNothing(nodes, x.nodes, k, i, j);
          TransferNothing(Elements(), x.Elements(), k, i, j);
        }
        return;
      }
      if x == this {
        ghost var full := Full();
        SpliceWithin(position, first, last, k, i, j);
        KeptApartMore(old(mem.link), old(mem.value), mem.link, mem.value, full, full);
      } else {
        SpliceFrom(position, x, first, last, k, i, j);
      }
    }

    /** `splice(position, *this, first, last)` with a non-empty range that does not hold position. */
    method SpliceWithin(position: Cursor, first: Cursor, last: Cursor, ghost k: int, ghost i: int, ghost j: int)
      requires Valid() && 0 <= k <= |nodes| && position == Pos(k)
      requires 0 <= i < j <= |nodes| && first == Pos(i) && last == Pos(j) && (k < i || j <= k)
      modifies this, mem
      ensures Valid()
      ensures nodes == MoveRun(old(nodes), i, j, k) && Elements() == MoveRun(old(Elements()), i, j, k)
      ensures mem.value == old(mem.value) && mem.link.Keys == old(mem.link).Keys
      ensures KeptApart(old(mem.link), old(mem.value), mem.link, mem.value, old(Full()))
    {
      PosApart(beforeHead, nodes, afterTail, mem.link, k, j);
      if position.current == last.current {
        MoveRunInPlace(nodes, i, j);
        MoveRunInPlace(Elements(), i, j);
        return;
      }
      var distance := Size();
      MoveWithin(position, first, last, distance, k, i, j);
    }

    /** `splice(position, x, first, last)` with another list `x` and a non-empty range. */
    method SpliceFrom(position: Cursor, x: XorList, first: Cursor, last: Cursor,
                      ghost k: int, ghost i: int, ghost j: int)
      requires Valid() && x.Valid() && x.mem == mem && 0 <= k <= |nodes| && position == Pos(k)
      requires 0 <= i < j <= |x.nodes| && first == x.Pos(i) && last == x.Pos(j)
      requires x != this && Disjoint(Full(), x.Full())
      modifies this, x, mem
      ensures Valid() && x.Valid()
      ensures nodes == old(nodes)[..k] + old(x.nodes)[i..j] + old(nodes)[k..]
      ensures x.nodes == old(x.nodes)[..i] + old(x.nodes)[j..]
      ensures Elements() == old(Elements())[..k] + old(x.Elements())[i..j] + old(Elements())[k..]
      ensures x.Elements() == old(x.Elements())[..i] + old(x.Elements())[j..]
      ensures Disjoint(Full(), x.Full())
      ensures mem.value == old(mem.value) && mem.link.Keys == old(mem.link).Keys
      ensures KeptApart(old(mem.link), old(mem.value), mem.link, mem.value, old(Full()) + old(x.Full()))
    {
      var distance := x.Distance(first, last, i, j);
      Transfer(position, x, first, last, distance, k, i, j);
    }

    /** Cursors on different positions stand on different nodes. */
    lemma PosApartHere(i: int, j: int)
      requires Linked() && 0 <= i <= |nodes| && 0 <= j <= |nodes|
      ensures Pos(i).current == Pos(j).current <==> i == j
    {
      PosApart(beforeHead, nodes, afterTail, mem.link, i, j);
    }

    // -------------------------------------------------------------------------
    // Reordering
    // -------------------------------------------------------------------------

    /**
      `reverse()`: four link words change, whatever the length: the first
      node trades beforeHead for afterTail, the last node the other way round,
      and the sentinels point at the old last and old first node.
    */
    method Reverse()
      requires Valid()
      modifies this, mem
      ensures Valid()
      ensures nodes == Reversed(old(nodes))
      ensures Elements() == Reversed(old(Elements()))
      ensures mem.value == old(mem.value) && mem.link.Keys == old(mem.link).Keys
      ensures KeptApart(old(mem.link), old(mem.value), mem.link, mem.value, old(Full()))
    {
      ghost var ns := nodes;
      ghost var link0 := mem.link;
      ReversedValues(mem.value, nodes);
      var e := Empty();
      if e {
        assert Reversed(ns) == [];
        return;
      }
      var first := Begin();
      var last := End();
      StepBackPos(mem.link, beforeHead, nodes, afterTail, |nodes|);
      last := Prev(mem.link, last);
      PosNodes(beforeHead, nodes, afterTail, 0);
      PosNodes(beforeHead, nodes, afterTail, |nodes| - 1);
      ReverseShape(mem.link, beforeHead, nodes, afterTail);
      mem.Relink(first.current, beforeHead, afterTail);
      mem.Relink(last.current, afterTail, beforeHead);
      mem.SetLink(beforeHead, last.current);
      mem.SetLink(afterTail, first.current);
      assert mem.link == ReverseLinks(link0, beforeHead, afterTail, ns[0], ns[|ns| - 1]);
      nodes := Reversed(nodes);
    }

    // -------------------------------------------------------------------------
    // unique
    // -------------------------------------------------------------------------

    /** `UniqueState` of this list, with `prev` on the last kept node and `current` on the next one. */
    ghost predicate UniqueUpTo(t: int, m: int, prev: Cursor, current: Cursor, ns: seq<Ptr>,
                               link0: map<Ptr, Ptr>, value0: map<Ptr, int>, full: seq<Ptr>)
      reads this, mem
    {
      && Valid() && UniqueState(mem.link, mem.value, beforeHead, afterTail, nodes, t, m, ns, link0, value0, full)
      && 1 <= m <= |nodes| && prev == Pos(m - 1) && current == Pos(m)
    }

    /**
      One round of the `unique` loop: `current = erase(current)` when
      `*prev == *current`, otherwise `prev = current++`.
    */
    method UniqueStep(prev: Cursor, current: Cursor, ghost t: int, ghost m: int, ghost ns: seq<Ptr>,
                      ghost link0: map<Ptr, Ptr>, ghost value0: map<Ptr, int>, ghost full: seq<Ptr>)
      returns (prev': Cursor, current': Cursor, ghost m': int)
      requires UniqueUpTo(t, m, prev, current, ns, link0, value0, full) && t < |ns|
      modifies this, mem
      ensures UniqueUpTo(t + 1, m', prev', current', ns, link0, value0, full)
      ensures current'.current == afterTail <==> t + 1 == |ns|
    {
      UniqueShapeFacts(value0, nodes, t, m, ns);
      var a := Deref(prev, m - 1);
      var b := Deref(current, m);
      if a == b {
        current' := UniqueErase(prev, current, t, m, ns, link0, value0, full);
        prev' := prev;
        m' := m;
      } else {
        StepPos(mem.link, beforeHead, nodes, afterTail, m);
        prev' := current;
        current' := Next(mem.link, current);
        m' := m + 1;
        UniqueStateKeep(mem.link, mem.value, beforeHead, afterTail, nodes, t, m, ns, link0, value0, full);
        PosAtEnd(beforeHead, nodes, afterTail, mem.link, m');
      }
    }

    /** `erase(current)` on a payload equal to the previous one kept. */
    method UniqueErase(prev: Cursor, current: Cursor, ghost t: int, ghost m: int, ghost ns: seq<Ptr>,
                       ghost link0: map<Ptr, Ptr>, ghost value0: map<Ptr, int>, ghost full: seq<Ptr>)
      returns (current': Cursor)
      requires UniqueUpTo(t, m, prev, current, ns, link0, value0, full) && t < |ns|
      requires m < |nodes| && Elements()[m - 1] == Elements()[m]
      modifies this, mem
      ensures UniqueUpTo(t + 1, m, prev, current', ns, link0, value0, full)
      ensures current'.current == afterTail <==> t + 1 == |ns|
    {
      ghost var link1 := mem.link;
      ghost var value1 := mem.value;
      ghost var cur := nodes;
      current' := EraseAt(current, m);
      PosSamePrefix(beforeHead, cur, nodes, afterTail, m - 1);
      UniqueStateErase(link1, value1, mem.link, mem.value, beforeHead, afterTail, cur, nodes,
                       t, m, ns, link0, value0, full);
      PosAtEnd(beforeHead, nodes, afterTail, mem.link, m);
    }

    /**
      `unique()`: with fewer than two nodes nothing happens; otherwise walk
      `prev`/`current` from the first two nodes to `end()`, erasing every
      node whose payload equals the last kept one.
    */
    method Unique()
      requires Valid()
      modifies this, mem
      ensures Valid()
      ensures nodes == UniqueRuns(old(mem.value), old(nodes))
      ensures Elements() == Values(old(mem.value), nodes)
      ensures forall q :: q in mem.link <==> q in old(mem.link) && (q in nodes || q !in old(nodes))
      ensures KeptApart(old(mem.link), old(mem.value), mem.link, mem.value, old(Full()))
    {
      ghost var ns := nodes;
      ghost var link0 := mem.link;
      ghost var value0 := mem.value;
      ghost var full := Full();
      var n := Size();
      if n < 2 {
        UniqueRunsShort(value0, ns);
        return;
      }
      BeginUniqueState(link0, value0, beforeHead, afterTail, ns);
      var current := Begin();
      StepPos(mem.link, beforeHead, nodes, afterTail, 0);
      var prev := current;
      current := Next(mem.link, current);
      ghost var t := 1;
      ghost var m := 1;
      PosAtEnd(beforeHead, nodes, afterTail, mem.link, 1);
      while current.current != afterTail
        invariant UniqueUpTo(t, m, prev, current, ns, link0, value0, full)
        invariant current.current == afterTail <==> t == |ns|
        decreases |ns| - t
      {
        prev, current, m := UniqueStep(prev, current, t, m, ns, link0, value0, full);
        t := t + 1;
      }
      assert ns[..t] == ns && ns[t..] == [];
    }

    // -------------------------------------------------------------------------
    // merge
    // -------------------------------------------------------------------------

    /**
      `mergeSequencesToThis(cbegin(), cend(), beginFrom, endFrom, distance)`:
      count the `distance` nodes of the detached chain `run` in, then merge
      it into the whole list.
    */
    method MergeSequencesToThis(beginTo: Cursor, endTo: Cursor, beginFrom: Cursor, endFrom: Cursor, distance: nat,
                                ghost run: seq<Ptr>) returns (r: Range)
      requires Linked() && beginTo == Pos(0) && endTo == Pos(|nodes|)
      requires Chain(mem.link, run) && Disjoint(run, Full()) && Owns(mem.value, run)
      requires beginFrom == Between([], run) && endFrom == Between(run, [])
      modifies this, mem
      ensures Linked() && length == old(length) + distance
      ensures nodes == MergeRuns(old(mem.value), old(nodes), run)
      ensures r == Range(Pos(0), Pos(|nodes|))
      ensures mem.value == old(mem.value) && mem.link.Keys == old(mem.link).Keys
      ensures KeptApart(old(mem.link), old(mem.value), mem.link, mem.value, old(Full()) + run)
    {
      ghost var ns := nodes;
      ghost var link0 := mem.link;
      assert ns[..0] == [] && ns[0..] == ns && ns[|ns|..] == [] && ns[..|ns|] == ns;
      length := length + distance;
      r := mem.MergeSequences(beginTo, endTo, beginFrom, endFrom, [beforeHead], ns, [afterTail], run);
      ghost var merged := MergeRuns(mem.value, ns, run);
      forall p | p in merged ensures p in mem.value {
        assert p in multiset(merged);
      }
      nodes := merged;
      assert merged[..0] == [] && merged[0..] == merged && merged[|merged|..] == [] && merged[..|merged|] == merged;
    }

    /**
      `merge(x)`: unless x is empty, cut all of x out and merge it into this
      list. Merging a list into itself cuts it empty first and merges it
      back, which leaves it as it was.
    */
    method Merge(x: XorList)
      requires Valid() && x.Valid() && x.mem == mem
      requires x != this ==> Disjoint(Full(), x.Full())
      modifies this, x, mem
      ensures Valid() && x.Valid()
      ensures x == this ==> nodes == old(nodes)
      ensures x != this ==> nodes == MergeRuns(old(mem.value), old(nodes), old(x.nodes)) && x.nodes == []
      ensures x != this ==> Disjoint(Full(), x.Full())
      ensures mem.value == old(mem.value) && mem.link.Keys == old(mem.link).Keys
      ensures KeptApart(old(mem.link), old(mem.value), mem.link, mem.value, old(Full()) + old(x.Full()))
    {
      ghost var ns := nodes;
      ghost var xs := x.nodes;
      var e := x.Empty();
      if !e {
        var distance := x.Size();
        var cut := CutAllOf(x, distance);
        MergeCutIn(x, cut, distance, xs);
        if x == this {
          assert MergeRuns(mem.value, [], xs) == xs;
        }
      } else if x != this {
        assert xs == [];
      }
    }

    /**
      `x.cutSequenceFromThis(x.cbegin(), x.cend(), distance).cutted` with
      `distance == x.size()`: all of x leaves it as a detached chain; this
      list (when it is not x) keeps its nodes and stays apart.
    */
    method CutAllOf(x: XorList, distance: nat) returns (cut: Range)
      requires Valid() && x.Valid() && x.mem == mem && x.nodes != [] && distance == |x.nodes|
      requires x != this ==> Disjoint(Full(), x.Full())
      modifies x, mem
      ensures Valid() && x.Valid() && x.nodes == []
      ensures x != this ==> nodes == old(nodes) && Disjoint(Full() + old(x.nodes), x.Full())
      ensures Chain(mem.link, old(x.nodes)) && Owns(mem.value, old(x.nodes)) && Disjoint(old(x.nodes), Full())
      ensures cut == Range(Between([], old(x.nodes)), Between(old(x.nodes), []))
      ensures mem.value == old(mem.value) && mem.link.Keys == old(mem.link).Keys
      ensures KeptApart(old(mem.link), old(mem.value), mem.link, mem.value, old(x.Full()))
    {
      ghost var ns := nodes;
      ghost var xs := x.nodes;
      ghost var link0 := mem.link;
      var first := x.Begin();
      var last := x.End();
      var c := x.CutSequenceFromThis(first, last, distance, 0, |xs|);
      cut := c.cutted;
      assert xs[0..|xs|] == xs && xs[..0] + xs[|xs|..] == [];
      if x != this {
        CutFromOtherFacts(link0, mem.link, mem.value, beforeHead, ns, afterTail, x.beforeHead, xs, x.afterTail, 0, |xs|);
      }
    }

    /** The second half of `merge(x)`: `mergeSequencesToThis(cbegin(), cend(), ...)` with the cut run. */
    method MergeCutIn(x: XorList, cut: Range, distance: nat, ghost xs: seq<Ptr>)
      requires Valid() && x.Valid() && x.mem == mem && x.nodes == [] && distance == |xs|
      requires Chain(mem.link, xs) && Owns(mem.value, xs) && Disjoint(xs, Full())
      requires x != this ==> Disjoint(Full() + xs, x.Full())
      requires cut == Range(Between([], xs), Between(xs, []))
      modifies this, mem
      ensures Valid() && x.Valid()
      ensures nodes == MergeRuns(old(mem.value), old(nodes), xs)
      ensures x != this ==> x.nodes == [] && Disjoint(Full(), x.Full())
      ensures mem.value == old(mem.value) && mem.link.Keys == old(mem.link).Keys
      ensures KeptApart(old(mem.link), old(mem.value), mem.link, mem.value, old(Full()) + xs)
    {
      ghost var link1 := mem.link;
      ghost var full := Full();
      var b := Begin();
      var en := End();
      var _ := MergeSequencesToThis(b, en, cut.first, cut.second, distance, xs);
      if x != this {
        ChainOutside(link1, mem.link, x.Full(), full + xs);
        forall q | q in Full() ensures q in full + xs {
          if q in nodes {
            assert q in multiset(nodes);
          }
        }
      }
    }

    // -------------------------------------------------------------------------
    // swap
    // -------------------------------------------------------------------------

    /**
      `swapWithoutAllocators(other)`: with both sizes taken first, cut all of
      this list (when it has nodes), move all of `other` to the front of
      this list (when it has nodes), then insert the cut run into `other`.
      Swapping a list with itself cuts it empty and puts the run back.
    */
    method SwapWithoutAllocators(other: XorList)
      requires Valid() && other.Valid() && other.mem == mem
      requires other != this ==> Disjoint(Full(), other.Full())
      modifies this, other, mem
      ensures Valid() && other.Valid()
      ensures other == this ==> nodes == old(nodes)
      ensures other != this ==> nodes == old(other.nodes) && other.nodes == old(nodes) && Disjoint(Full(), other.Full())
      ensures Elements() == old(other.Elements()) && other.Elements() == old(Elements())
      ensures mem.value == old(mem.value) && mem.link.Keys == old(mem.link).Keys
      ensures KeptApart(old(mem.link), old(mem.value), mem.link, mem.value, old(Full()) + old(other.Full()))
    {
      var thisDistance := Size();
      var otherDistance := other.Size();
      var e := Empty();
      if !e {
        SwapFromNonEmpty(other, thisDistance, otherDistance);
      } else {
        var oe := other.Empty();
        if !oe {
          assert Disjoint([], Full() + other.Full());
          TakeAllOf(other, otherDistance, []);
        }
      }
    }

    /** `swapWithoutAllocators` when this list has nodes. */
    method SwapFromNonEmpty(other: XorList, thisDistance: nat, otherDistance: nat)
      requires Valid() && other.Valid() && other.mem == mem && nodes != []
      requires other != this ==> Disjoint(Full(), other.Full())
      requires thisDistance == |nodes| && otherDistance == |other.nodes|
      modifies this, other, mem
      ensures Valid() && other.Valid()
      ensures other == this ==> nodes == old(nodes)
      ensures other != this ==> nodes == old(other.nodes) && other.nodes == old(nodes) && Disjoint(Full(), other.Full())
      ensures mem.value == old(mem.value) && mem.link.Keys == old(mem.link).Keys
      ensures KeptApart(old(mem.link), old(mem.value), mem.link, mem.value, old(Full()) + old(other.Full()))
    {
      ghost var xs := nodes;
      ghost var link0 := mem.link;
      ghost var full := Full();
      ghost var ofull := other.Full();
      var thisCut := other.CutAllOf(this, thisDistance);
      ghost var link1 := mem.link;
      ghost var s2: seq<Ptr> := [];
      var oe := other.Empty();
      if !oe {
        s2 := Full() + other.Full();
        TakeAllOf(other, otherDistance, xs);
      }
      ghost var link2 := mem.link;
      ghost var s3 := other.Full() + xs;
      ReturnRun(other, thisCut, thisDistance, xs);
      forall q | q in full + s2 + s3 ensures q in full + ofull {
        if q in [other.beforeHead, other.afterTail] {
          assert other.beforeHead == ofull[0] && other.afterTail == ofull[|ofull| - 1];
        } else if q in [beforeHead, afterTail] {
          assert beforeHead == full[0] && afterTail == full[|full| - 1];
        } else if q in s2 {
          assert q in ofull;
        }
      }
      KeptApartThree(link0, link1, link2, mem.link, mem.value, full, s2, s3, full + ofull);
    }

    /**
      `insertSequenceToThisBefore(cbegin(), ...)` after
      `other.cutSequenceFromThis(other.cbegin(), other.cend(), otherDistance)`:
      all of `other` moves to the front of this empty list, and the detached
      chain `xs` is left alone.
    */
    method TakeAllOf(other: XorList, otherDistance: nat, ghost xs: seq<Ptr>)
      requires Valid() && other.Valid() && other.mem == mem && other != this && Disjoint(Full(), other.Full())
      requires nodes == [] && other.nodes != [] && otherDistance == |other.nodes|
      requires Chain(mem.link, xs) && Owns(mem.value, xs) && Disjoint(xs, Full() + other.Full())
      modifies this, other, mem
      ensures Valid() && other.Valid() && Disjoint(Full(), other.Full())
      ensures nodes == old(other.nodes) && other.nodes == []
      ensures Chain(mem.link, xs) && Owns(mem.value, xs) && Disjoint(xs, Full() + other.Full())
      ensures mem.value == old(mem.value) && mem.link.Keys == old(mem.link).Keys
      ensures KeptApart(old(mem.link), old(mem.value), mem.link, mem.value, old(Full()) + old(other.Full()))
    {
      ghost var os := other.nodes;
      ghost var link0 := mem.link;
      ghost var both := Full() + other.Full();
      var first := other.Begin();
      var last := other.End();
      var b := Begin();
      SwapApart(beforeHead, afterTail, other.beforeHead, other.afterTail, os, xs);
      Transfer(b, other, first, last, otherDistance, 0, 0, |os|);
      assert os[..0] == [] && os[0..|os|] == os && os[|os|..] == [];
      ChainOutside(link0, mem.link, xs, both);
    }

    /**
      `other.insertSequenceToThisBefore(other.cbegin(), ...)` with the run cut
      out of this list: the empty `other` receives all of `xs`.
    */
    method ReturnRun(other: XorList, cut: Range, distance: nat, ghost xs: seq<Ptr>)
      requires Valid() && other.Valid() && other.mem == mem && other.nodes == [] && xs != [] && distance == |xs|
      requires Chain(mem.link, xs) && Owns(mem.value, xs) && Disjoint(xs, other.Full())
      requires other != this ==> Disjoint(xs, Full()) && Disjoint(Full(), other.Full())
      requires cut == Range(Between([], xs), Between(xs, []))
      modifies other, mem
      ensures Valid() && other.Valid() && other.nodes == xs
      ensures other != this ==> nodes == old(nodes) && Disjoint(Full(), other.Full())
      ensures mem.value == old(mem.value) && mem.link.Keys == old(mem.link).Keys
      ensures KeptApart(old(mem.link), old(mem.value), mem.link, mem.value, old(other.Full()) + xs)
    {
      ghost var link0 := mem.link;
      ghost var ofull := other.Full();
      var b := other.Begin();
      var _ := other.InsertSequenceToThisBefore(b, cut.first, cut.second, distance, 0, xs);
      Padded(xs);
      if other != this {
        ChainOutside(link0, mem.link, Full(), ofull + xs);
      }
      ChainKeys(link0, ofull);
    }

    // -------------------------------------------------------------------------
    // sort
    // -------------------------------------------------------------------------

    /** `SortState` of this list and the slot array `sr`. */
    ghost predicate Sorting(sr: array<NullableRange>, runs: seq<seq<Ptr>>, ns: seq<Ptr>,
                            link0: map<Ptr, Ptr>, value0: map<Ptr, int>, full: seq<Ptr>)
      reads this, mem, sr
    {
      && Valid() && sr.Length == Slots
      && SortState(mem.link, mem.value, runs, sr[..], nodes, beforeHead, afterTail, ns, link0, value0, full)
    }

    /** `CarryState` of this list, the slot array `sr` and the carried range `nr`. */
    ghost predicate Carrying(sr: array<NullableRange>, runs: seq<seq<Ptr>>, carry: seq<Ptr>, nr: Range, i: int,
                             ns: seq<Ptr>, link0: map<Ptr, Ptr>, value0: map<Ptr, int>, full: seq<Ptr>)
      reads this, mem, sr
    {
      && Valid() && sr.Length == Slots
      && CarryState(mem.link, mem.value, runs, sr[..], nodes, carry, nr, i, beforeHead, afterTail, ns,
                    link0, value0, full)
    }

    /** `FinalState` of the emptied list, the slot array `sr` and `result`. */
    ghost predicate Finishing(sr: array<NullableRange>, runs: seq<seq<Ptr>>, i: int, res: seq<Ptr>,
                              result: NullableRange, ns: seq<Ptr>,
                              link0: map<Ptr, Ptr>, value0: map<Ptr, int>, full: seq<Ptr>)
      reads this, mem, sr
    {
      && Valid() && nodes == [] && sr.Length == Slots
      && FinalState(mem.link, mem.value, runs, sr[..], i, res, result, beforeHead, afterTail, ns,
                    link0, value0, full)
    }

    /** `cutSequenceFromThis(cbegin(), ++cbegin(), 1).cutted`: the front node leaves as a one-node run. */
    method SortCutFront(sr: array<NullableRange>, ghost runs: seq<seq<Ptr>>, ghost ns: seq<Ptr>,
                        ghost link0: map<Ptr, Ptr>, ghost value0: map<Ptr, int>, ghost full: seq<Ptr>)
      returns (nr: Range, ghost carry: seq<Ptr>)
      requires Sorting(sr, runs, ns, link0, value0, full) && nodes != []
      modifies this, mem
      ensures Carrying(sr, runs, carry, nr, 0, ns, link0, value0, full) && |nodes| == |old(nodes)| - 1
    {
      ghost var link1 := mem.link;
      ghost var cur1 := nodes;
      var b := Begin();
      StepPos(mem.link, beforeHead, nodes, afterTail, 0);
      var b1 := Next(mem.link, b);
      var cut := CutSequenceFromThis(b, b1, 1, 0, 1);
      nr := cut.cutted;
      carry := cur1[..1];
      assert cur1[0..1] == carry && nodes == cur1[1..];
      CarryStart(link1, mem.link, mem.value, runs, sr[..], cur1, nodes, carry, nr, beforeHead, afterTail, ns,
                 link0, value0, full);
    }

    /**
      The `else` branch of the carry loop: `newRange = mergeSequences(slot i,
      newRange)` and slot i is emptied.
    */
    method SortMergeSlot(sr: array<NullableRange>, i: int, nr: Range, ghost runs: seq<seq<Ptr>>, ghost carry: seq<Ptr>,
                         ghost ns: seq<Ptr>, ghost link0: map<Ptr, Ptr>, ghost value0: map<Ptr, int>,
                         ghost full: seq<Ptr>)
      returns (nr': Range, ghost runs': seq<seq<Ptr>>, ghost carry': seq<Ptr>)
      requires Carrying(sr, runs, carry, nr, i, ns, link0, value0, full) && 0 <= i < Slots && !sr[i].isNull
      modifies mem, sr
      ensures Carrying(sr, runs', carry', nr', i + 1, ns, link0, value0, full)
      ensures nodes == old(nodes)
    {
      ghost var link1 := mem.link;
      CarryMergeReady(mem.link, mem.value, runs, sr[..], nodes, carry, nr, i, beforeHead, afterTail, ns,
                      link0, value0, full);
      ghost var t := runs[i];
      nr' := mem.MergeSequences(sr[i].range.first, sr[i].range.second, nr.first, nr.second, [], t, [], carry);
      ghost var slots := sr[..];
      sr[i] := sr[i].(isNull := true);
      carry' := MergeRuns(mem.value, t, carry);
      runs' := runs[i := []];
      Padded(carry');
      assert sr[..] == slots[i := NullableRange(slots[i].range, true)];
      CarryMerge(link1, mem.link, mem.value, runs, slots, nodes, carry, nr, i, carry', nr',
                 beforeHead, afterTail, ns, link0, value0, full);
    }

    /**
      One round of the outer loop: cut the front node, carry it up through
      the full slots, merging as it goes, and leave it in the first empty
      slot (slot 31 when all 32 were full).
    */
    method SortOneNode(sr: array<NullableRange>, ghost runs: seq<seq<Ptr>>, ghost ns: seq<Ptr>,
                       ghost link0: map<Ptr, Ptr>, ghost value0: map<Ptr, int>, ghost full: seq<Ptr>)
      returns (ghost runs': seq<seq<Ptr>>)
      requires Sorting(sr, runs, ns, link0, value0, full) && nodes != []
      modifies this, mem, sr
      ensures Sorting(sr, runs', ns, link0, value0, full) && |nodes| == |old(nodes)| - 1
    {
      var newRange, carry := SortCutFront(sr, runs, ns, link0, value0, full);
      runs' := runs;
      ghost var cur := nodes;
      var i := 0;
      while i < Slots
        invariant Carrying(sr, runs', carry, newRange, i, ns, link0, value0, full) && nodes == cur
      {
        if sr[i].isNull {
          ghost var slots := sr[..];
          sr[i] := NullableRange(newRange, false);
          CarryPlace(mem.link, mem.value, runs', slots, nodes, carry, newRange, i, i, beforeHead, afterTail, ns,
                     link0, value0, full);
          runs' := runs'[i := carry];
          break;
        } else {
          newRange, runs', carry := SortMergeSlot(sr, i, newRange, runs', carry, ns, link0, value0, full);
        }
        i := i + 1;
      }
      if i == Slots {
        ghost var slots := sr[..];
        sr[Slots - 1] := NullableRange(newRange, false);
        CarryPlace(mem.link, mem.value, runs', slots, nodes, carry, newRange, i, Slots - 1, beforeHead, afterTail,
                   ns, link0, value0, full);
        runs' := runs'[Slots - 1 := carry];
      }
    }

    /** `result = mergeSequences(slot[i], result)` on a non-empty slot. */
    method SortFinalMerge(sr: array<NullableRange>, i: int, result: NullableRange, ghost runs: seq<seq<Ptr>>,
                          ghost res: seq<Ptr>, ghost ns: seq<Ptr>, ghost link0: map<Ptr, Ptr>,
                          ghost value0: map<Ptr, int>, ghost full: seq<Ptr>)
      returns (result': NullableRange, ghost res': seq<Ptr>)
      requires Finishing(sr, runs, i, res, result, ns, link0, value0, full) && 0 <= i < Slots
      requires !sr[i].isNull && !result.isNull
      modifies mem
      ensures Finishing(sr, runs, i + 1, res', result', ns, link0, value0, full)
    {
      ghost var slots := sr[..];
      ghost var link1 := mem.link;
      assert RunOk(mem.link, mem.value, runs[i], slots[i]);
      assert RunsApart(runs, i, FullOf(beforeHead, [], afterTail) + res);
      assert Disjoint(runs[i], FullOf(beforeHead, [], afterTail) + res);
      Padded(runs[i]);
      var r := mem.MergeSequences(sr[i].range.first, sr[i].range.second, result.range.first,
                                  result.range.second, [], runs[i], [], res);
      result' := result.(range := r);
      res' := MergeRuns(mem.value, runs[i], res);
      Padded(res');
      FinalMerge(link1, mem.link, mem.value, runs, slots, i, res, result, res', r, beforeHead, afterTail, ns,
                 link0, value0, full);
    }

    /** One round of the final loop over slot i. */
    method SortFinalStep(sr: array<NullableRange>, i: int, result: NullableRange, ghost runs: seq<seq<Ptr>>,
                         ghost res: seq<Ptr>, ghost ns: seq<Ptr>, ghost link0: map<Ptr, Ptr>,
                         ghost value0: map<Ptr, int>, ghost full: seq<Ptr>)
      returns (result': NullableRange, ghost res': seq<Ptr>)
      requires Finishing(sr, runs, i, res, result, ns, link0, value0, full) && 0 <= i < Slots
      modifies mem
      ensures Finishing(sr, runs, i + 1, res', result', ns, link0, value0, full)
    {
      ghost var slots := sr[..];
      ghost var link1 := mem.link;
      if !sr[i].isNull {
        assert RunOk(mem.link, mem.value, runs[i], slots[i]);
        if result.isNull {
          result' := sr[i];
          res' := runs[i];
          FinalTake(mem.link, mem.value, runs, slots, i, res, result, beforeHead, afterTail, ns, link0, value0, full);
        } else {
          result', res' := SortFinalMerge(sr, i, result, runs, res, ns, link0, value0, full);
        }
      } else {
        result' := result;
        res' := res;
        FinalSkip(mem.link, mem.value, runs, slots, i, res, result, beforeHead, afterTail, ns, link0, value0, full);
      }
    }

    /** The final loop: merge the 32 slots, lowest first, into one run `result`. */
    method SortMergeSlots(sr: array<NullableRange>, ghost runs: seq<seq<Ptr>>, ghost ns: seq<Ptr>,
                          ghost link0: map<Ptr, Ptr>, ghost value0: map<Ptr, int>, ghost full: seq<Ptr>)
      returns (result: NullableRange, ghost res: seq<Ptr>)
      requires Sorting(sr, runs, ns, link0, value0, full) && nodes == []
      modifies mem
      ensures Finishing(sr, runs, Slots, res, result, ns, link0, value0, full)
    {
      result := NoRange;
      res := [];
      FinalStart(mem.link, mem.value, runs, sr[..], beforeHead, afterTail, ns, link0, value0, full);
      var i := 0;
      while i < Slots
        invariant 0 <= i <= Slots && Finishing(sr, runs, i, res, result, ns, link0, value0, full)
      {
        result, res := SortFinalStep(sr, i, result, runs, res, ns, link0, value0, full);
        i := i + 1;
      }
    }

    /**
      `sort()`: a list of fewer than two nodes is left alone; otherwise every
      node is cut from the front and carried through the 32 slots of
      `sortedRanges`, the slots are merged into one run, and that run is
      linked back in before `cend()`. Nodes are relinked, never copied.
    */
    method Sort()
      requires Valid()
      modifies this, mem
      ensures Valid()
      ensures multiset(nodes) == multiset(old(nodes)) && Ascending(mem.value, nodes)
      ensures multiset(Elements()) == multiset(old(Elements()))
      ensures |old(nodes)| < 2 ==> nodes == old(nodes) && mem.link == old(mem.link)
      ensures mem.value == old(mem.value) && mem.link.Keys == old(mem.link).Keys
      ensures KeptApart(old(mem.link), old(mem.value), mem.link, mem.value, old(Full()))
    {
      ghost var ns := nodes;
      ghost var link0 := mem.link;
      ghost var value0 := mem.value;
      ghost var full := Full();
      var thisSize := Size();
      if thisSize < 2 {
        return;
      }
      var sortedRanges := new NullableRange[Slots](_ => NoRange);
      ghost var runs: seq<seq<Ptr>> := seq(Slots, _ => []);
      assert sortedRanges[..] == seq(Slots, _ => NoRange);
      SortStart(mem.link, mem.value, beforeHead, afterTail, ns);
      var e := Empty();
      while !e
        invariant Sorting(sortedRanges, runs, ns, link0, value0, full) && (e <==> nodes == [])
        decreases |nodes|
      {
        runs := SortOneNode(sortedRanges, runs, ns, link0, value0, full);
        e := Empty();
      }
      var result, res := SortMergeSlots(sortedRanges, runs, ns, link0, value0, full);
      SortInsertResult(sortedRanges, runs, thisSize, result, res, ns, link0, value0, full);
      ValuesPermute(mem.value, nodes, ns);
    }

    /** `insertSequenceToThisBefore(cend(), result.first, result.second, thisSize)` on the emptied list. */
    method SortRelink(result: NullableRange, thisSize: nat, ghost res: seq<Ptr>)
      requires Valid() && nodes == [] && !result.isNull && res != [] && thisSize == |res|
      requires result.range == Range(Between([], res), Between(res, []))
      requires Chain(mem.link, res) && Owns(mem.value, res) && Disjoint(res, Full())
      modifies this, mem
      ensures Valid() && nodes == res && mem.value == old(mem.value)
      ensures mem.link.Keys == old(mem.link).Keys
      ensures KeptApart(old(mem.link), mem.value, mem.link, mem.value, old(Full()) + res)
    {
      ghost var n0 := nodes;
      var en := End();
      var _ := InsertSequenceToThisBefore(en, result.range.first, result.range.second, thisSize, 0, res);
      assert n0[..0] == [] && n0[0..] == [];
    }

    /** The end of sort: the single final run is linked back in with `insertSequenceToThisBefore(cend(), ..., thisSize)`. */
    method SortInsertResult(sr: array<NullableRange>, ghost runs: seq<seq<Ptr>>, thisSize: nat, result: NullableRange,
                            ghost res: seq<Ptr>, ghost ns: seq<Ptr>, ghost link0: map<Ptr, Ptr>,
                            ghost value0: map<Ptr, int>, ghost full: seq<Ptr>)
      requires Finishing(sr, runs, Slots, res, result, ns, link0, value0, full) && thisSize == |ns| >= 2
      modifies this, mem
      ensures Valid() && multiset(nodes) == multiset(ns) && Ascending(mem.value, nodes)
      ensures mem.value == value0 && mem.link.Keys == link0.Keys
      ensures KeptApart(link0, value0, mem.link, mem.value, full)
    {
      FinalEnd(mem.link, mem.value, runs, sr[..], res, result, beforeHead, afterTail, ns, link0, value0, full);
      ghost var link1 := mem.link;
      SortRelink(result, thisSize, res);
      SortDone(link1, mem.link, mem.value, runs, sr[..], res, result, beforeHead, afterTail, ns, link0, value0, full);
    }
  }
}
