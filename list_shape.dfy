/**
  The shape of one `xor_list`: the chain beforeHead, nodes..., afterTail, the
  cursor that stands before the k-th node, and what each link rewrite does to
  that chain when it is applied at such cursors.
*/
module ListShape {
  import opened XorLinks
  import opened Runs

  /** The whole chain of a list, sentinels included. */
  function FullOf(bh: Ptr, ns: seq<Ptr>, at: Ptr): seq<Ptr>
  {
    [bh] + ns + [at]
  }

  /** The cursor standing on the k-th node (on afterTail when k == |ns|). */
  function PosIn(bh: Ptr, ns: seq<Ptr>, at: Ptr, k: int): Cursor
    requires 0 <= k <= |ns|
  {
    Between([bh] + ns[..k], ns[k..] + [at])
  }

  /** The two halves around position k make up the chain. */
  lemma PosSplit(bh: Ptr, ns: seq<Ptr>, at: Ptr, k: int)
    requires 0 <= k <= |ns|
    ensures ([bh] + ns[..k]) + (ns[k..] + [at]) == FullOf(bh, ns, at)
  {
    assert ns[..k] + ns[k..] == ns;
  }

  /** Where the cursor at position k stands, node by node. */
  lemma PosNodes(bh: Ptr, ns: seq<Ptr>, at: Ptr, k: int)
    requires 0 <= k <= |ns|
    ensures PosIn(bh, ns, at, k).prev == (if k == 0 then bh else ns[k - 1])
    ensures PosIn(bh, ns, at, k).current == (if k == |ns| then at else ns[k])
  {
    if k > 0 {
      assert ([bh] + ns[..k])[k] == ns[k - 1];
    }
    if k < |ns| {
      assert (ns[k..] + [at])[0] == ns[k];
    }
  }

  /** Cursors at different positions stand on different nodes. */
  lemma PosApart(bh: Ptr, ns: seq<Ptr>, at: Ptr, link: map<Ptr, Ptr>, i: int, j: int)
    requires Chain(link, FullOf(bh, ns, at)) && 0 <= i <= |ns| && 0 <= j <= |ns|
    ensures PosIn(bh, ns, at, i).current == PosIn(bh, ns, at, j).current <==> i == j
  {
    PosNodes(bh, ns, at, i);
    PosNodes(bh, ns, at, j);
    var full := FullOf(bh, ns, at);
    assert full[i + 1] == PosIn(bh, ns, at, i).current;
    assert full[j + 1] == PosIn(bh, ns, at, j).current;
  }

  /** The cursor at position k stands on afterTail exactly at the end of the list. */
  lemma PosAtEnd(bh: Ptr, ns: seq<Ptr>, at: Ptr, link: map<Ptr, Ptr>, k: int)
    requires Chain(link, FullOf(bh, ns, at)) && 0 <= k <= |ns|
    ensures PosIn(bh, ns, at, k).current == at <==> k == |ns|
  {
    PosApart(bh, ns, at, link, k, |ns|);
    PosNodes(bh, ns, at, |ns|);
  }

  /** The cursor on the k-th node comes right after the i-th node exactly when k == i + 1. */
  lemma PrevApart(bh: Ptr, ns: seq<Ptr>, at: Ptr, link: map<Ptr, Ptr>, k: int, i: int)
    requires Chain(link, FullOf(bh, ns, at)) && 0 <= k <= |ns| && 0 <= i < |ns|
    ensures PosIn(bh, ns, at, k).prev == PosIn(bh, ns, at, i).current <==> k == i + 1
  {
    PosNodes(bh, ns, at, k);
    PosNodes(bh, ns, at, i);
    var full := FullOf(bh, ns, at);
    assert full[k] == PosIn(bh, ns, at, k).prev;
    assert full[i + 1] == PosIn(bh, ns, at, i).current;
  }

  /** A node of the list after inserting `run` at position k was there before or is in `run`. */
  lemma InsertedMembers(bh: Ptr, ns: seq<Ptr>, at: Ptr, k: int, run: seq<Ptr>)
    requires 0 <= k <= |ns|
    ensures forall q :: q in FullOf(bh, ns[..k] + run + ns[k..], at) ==> q in FullOf(bh, ns, at) || q in run
  {
    assert FullOf(bh, ns, at) == [bh] + ns[..k] + ns[k..] + [at] by {
      assert ns[..k] + ns[k..] == ns;
    }
  }

  /** A node of the list after removing positions i .. j - 1 was there before. */
  lemma RemovedMembers(bh: Ptr, ns: seq<Ptr>, at: Ptr, i: int, j: int)
    requires 0 <= i <= j <= |ns|
    ensures forall q :: q in FullOf(bh, ns[..i] + ns[j..], at) ==> q in FullOf(bh, ns, at)
  {
    assert FullOf(bh, ns, at) == [bh] + ns[..i] + ns[i..j] + ns[j..] + [at] by {
      assert ns[..i] + ns[i..j] + ns[j..] == ns;
    }
  }

  /** A run with nothing on either side of it. */
  lemma Padded<T>(s: seq<T>)
    ensures [] + s + [] == s && s + [] == s && [] + s == s
  {
    assert [] + s == s;
  }

  /** Inserting nothing at position k. */
  lemma InsertNone<T>(s: seq<T>, k: int, run: seq<T>)
    requires 0 <= k <= |s|
    ensures s[..k] + run[..0] + s[k..] == s
  {
    assert s == s[..k] + s[k..];
  }

  /** Inserting element t of `run` right after the first t elements inserted at position k. */
  lemma GrowInsert<T>(s: seq<T>, k: int, run: seq<T>, t: int)
    requires 0 <= k <= |s| && 0 <= t < |run|
    ensures (s[..k] + run[..t] + s[k..])[..k + t] + [run[t]] + (s[..k] + run[..t] + s[k..])[k + t..]
            == s[..k] + run[..t + 1] + s[k..]
  {
    var u := s[..k] + run[..t] + s[k..];
    assert u[..k + t] == s[..k] + run[..t];
    assert u[k + t..] == s[k..];
    assert run[..t] + [run[t]] == run[..t + 1];
  }

  /** Inserting a node at position j leaves the cursors at earlier positions alone. */
  lemma PosKeptBefore(bh: Ptr, ns: seq<Ptr>, at: Ptr, j: int, x: Ptr, k: int)
    requires 0 <= k < j <= |ns|
    ensures PosIn(bh, ns[..j] + [x] + ns[j..], at, k) == PosIn(bh, ns, at, k)
  {
    var ns' := ns[..j] + [x] + ns[j..];
    PosNodes(bh, ns, at, k);
    PosNodes(bh, ns', at, k);
    assert ns'[k] == ns[k];
    if k > 0 {
      assert ns'[k - 1] == ns[k - 1];
    }
  }

  /** A cursor sees only its own node and the one before: lists agreeing up to position k share it. */
  lemma PosSamePrefix(bh: Ptr, ns: seq<Ptr>, ns': seq<Ptr>, at: Ptr, k: int)
    requires 0 <= k < |ns| && k < |ns'| && ns[..k + 1] == ns'[..k + 1]
    ensures PosIn(bh, ns', at, k) == PosIn(bh, ns, at, k)
  {
    PosNodes(bh, ns, at, k);
    PosNodes(bh, ns', at, k);
    assert ns[k] == ns[..k + 1][k] && ns'[k] == ns'[..k + 1][k];
    if k > 0 {
      assert ns[k - 1] == ns[..k + 1][k - 1] && ns'[k - 1] == ns'[..k + 1][k - 1];
    }
  }

  /** Erasing the k-th node, and only it, from the memory of a list whose other nodes stay linked. */
  lemma EraseOneKeys(link0: map<Ptr, Ptr>, value0: map<Ptr, int>, link: map<Ptr, Ptr>, value: map<Ptr, int>,
                     bh: Ptr, ns: seq<Ptr>, at: Ptr, k: int)
    requires 0 <= k < |ns| && Chain(link, FullOf(bh, ns[..k] + ns[k + 1..], at))
    requires KeptApart(link0, value0, link, value, FullOf(bh, ns, at))
    requires link.Keys <= link0.Keys && ns[k] !in link
    ensures link.Keys == link0.Keys - {ns[k]}
  {
    var rest := FullOf(bh, ns[..k] + ns[k + 1..], at);
    ChainKeys(link, rest);
    forall q | q in link0 && q != ns[k] ensures q in link {
      if q in ns {
        var t :| 0 <= t < |ns| && ns[t] == q;
        if t < k {
          assert q == rest[t + 1];
        } else {
          assert q == rest[t];
        }
      } else if q != bh && q != at {
        assert q !in FullOf(bh, ns, at);
      } else {
        assert q == rest[0] || q == rest[|rest| - 1];
      }
    }
  }

  /** Every node of the chain is in the link map. */
  lemma ChainKeys(link: map<Ptr, Ptr>, c: seq<Ptr>)
    requires Chain(link, c)
    ensures forall x :: x in c ==> x in link
  {
    forall x | x in c ensures x in link {
      var i :| 0 <= i < |c| && c[i] == x;
      assert LinkOk(link, c, i);
    }
  }

  /**
    `begin()` is {&beforeHead, beforeHead.xorPtr} and `end()` is
    {afterTail.xorPtr, &afterTail}: position 0 and position |ns|.
  */
  lemma BeginEnd(link: map<Ptr, Ptr>, bh: Ptr, ns: seq<Ptr>, at: Ptr)
    requires Chain(link, FullOf(bh, ns, at))
    ensures bh in link && at in link
    ensures Cursor(bh, link[bh]) == PosIn(bh, ns, at, 0)
    ensures Cursor(link[at], at) == PosIn(bh, ns, at, |ns|)
  {
    var full := FullOf(bh, ns, at);
    var n := |full|;
    assert LinkOk(link, full, 0) && LinkOk(link, full, n - 1);
    XorWithNull(At(full, 1));
    XorWithNull(At(full, n - 2));
    PosNodes(bh, ns, at, 0);
    PosNodes(bh, ns, at, |ns|);
    assert full[n - 1] == at;
    if ns != [] {
      assert full[1] == ns[0] && full[n - 2] == ns[|ns| - 1];
    } else {
      assert full[1] == at && full[0] == bh;
    }
  }

  /** Stepping the cursor at position k < |ns| forward gives position k + 1. */
  lemma StepPos(link: map<Ptr, Ptr>, bh: Ptr, ns: seq<Ptr>, at: Ptr, k: int)
    requires Chain(link, FullOf(bh, ns, at)) && 0 <= k < |ns|
    ensures PosIn(bh, ns, at, k).current in link
    ensures Next(link, PosIn(bh, ns, at, k)) == PosIn(bh, ns, at, k + 1)
  {
    PosSplit(bh, ns, at, k);
    NextInChain(link, [bh] + ns[..k], ns[k..] + [at]);
    assert ([bh] + ns[..k]) + [(ns[k..] + [at])[0]] == [bh] + ns[..k + 1];
    assert (ns[k..] + [at])[1..] == ns[k + 1..] + [at];
  }

  /** Stepping the cursor at position k > 0 backward gives position k - 1. */
  lemma StepBackPos(link: map<Ptr, Ptr>, bh: Ptr, ns: seq<Ptr>, at: Ptr, k: int)
    requires Chain(link, FullOf(bh, ns, at)) && 0 < k <= |ns|
    ensures PosIn(bh, ns, at, k).prev in link
    ensures Prev(link, PosIn(bh, ns, at, k)) == PosIn(bh, ns, at, k - 1)
  {
    var a := [bh] + ns[..k];
    PosSplit(bh, ns, at, k);
    PrevInChain(link, a, ns[k..] + [at]);
    assert a[..|a| - 1] == [bh] + ns[..k - 1];
    assert [a[|a| - 1]] + (ns[k..] + [at]) == ns[k - 1..] + [at];
  }

  /**
    Walking forward `size()` steps from `begin()` reaches `end()`, and
    walking back as many steps from `end()` reaches `begin()`.
  */
  lemma WalkWholeList(link: map<Ptr, Ptr>, bh: Ptr, ns: seq<Ptr>, at: Ptr)
    requires Chain(link, FullOf(bh, ns, at))
    ensures bh in link && at in link
    ensures Walk(link, Cursor(bh, link[bh]), |ns|) == Cursor(link[at], at)
    ensures WalkBack(link, Cursor(link[at], at), |ns|) == Cursor(bh, link[bh])
  {
    BeginEnd(link, bh, ns, at);
    PosSplit(bh, ns, at, 0);
    PosSplit(bh, ns, at, |ns|);
    WalkInChain(link, [bh] + ns[..0], ns[0..] + [at], |ns|);
    assert ([bh] + ns[..0]) + (ns[0..] + [at])[..|ns|] == [bh] + ns[..|ns|];
    assert (ns[0..] + [at])[|ns|..] == ns[|ns|..] + [at];
    WalkBackInChain(link, [bh] + ns[..|ns|], ns[|ns|..] + [at], |ns|);
    var a := [bh] + ns[..|ns|];
    assert a[..|a| - |ns|] == [bh] + ns[..0];
    assert a[|a| - |ns|..] + (ns[|ns|..] + [at]) == ns[0..] + [at];
  }

  /** The k steps of `std::next(first, k)` from position i reach position i + k. */
  lemma WalkPos(link: map<Ptr, Ptr>, bh: Ptr, ns: seq<Ptr>, at: Ptr, i: int, k: nat)
    requires Chain(link, FullOf(bh, ns, at)) && 0 <= i && i + k <= |ns|
    ensures Walk(link, PosIn(bh, ns, at, i), k) == PosIn(bh, ns, at, i + k)
  {
    PosSplit(bh, ns, at, i);
    WalkInChain(link, [bh] + ns[..i], ns[i..] + [at], k);
    assert ([bh] + ns[..i]) + (ns[i..] + [at])[..k] == [bh] + ns[..i + k];
    assert (ns[i..] + [at])[k..] == ns[i + k..] + [at];
  }

  // ---------------------------------------------------------------------------
  // The rewrites at list positions
  // ---------------------------------------------------------------------------

  /** `insertNodeBefore(pos(k), node)` makes `node` the k-th node. */
  lemma InsertNodeShape(link: map<Ptr, Ptr>, bh: Ptr, ns: seq<Ptr>, at: Ptr, k: int, node: Ptr)
    requires Chain(link, FullOf(bh, ns, at)) && 0 <= k <= |ns|
    requires node != Null && node in link && node !in FullOf(bh, ns, at)
    ensures PosIn(bh, ns, at, k).prev in link && PosIn(bh, ns, at, k).current in link
    ensures Chain(InsertNodeLinks(link, PosIn(bh, ns, at, k), node), FullOf(bh, ns[..k] + [node] + ns[k..], at))
    ensures Cursor(PosIn(bh, ns, at, k).prev, node) == PosIn(bh, ns[..k] + [node] + ns[k..], at, k)
    ensures Cursor(node, PosIn(bh, ns, at, k).current) == PosIn(bh, ns[..k] + [node] + ns[k..], at, k + 1)
  {
    var a := [bh] + ns[..k];
    var b := ns[k..] + [at];
    var ns' := ns[..k] + [node] + ns[k..];
    PosSplit(bh, ns, at, k);
    InsertNodeChain(link, a, b, node);
    assert a + [node] + b == FullOf(bh, ns', at);
    PosNodes(bh, ns, at, k);
    PosNodes(bh, ns', at, k);
    PosNodes(bh, ns', at, k + 1);
    assert ns'[k] == node;
    if k < |ns| { assert ns'[k + 1] == ns[k]; }
    if k > 0 { assert ns'[k - 1] == ns[k - 1]; }
  }

  /** `insertSequenceBefore(pos(k), run)` puts the detached chain `run` at positions k .. k + |run|. */
  lemma InsertRunShape(link: map<Ptr, Ptr>, bh: Ptr, ns: seq<Ptr>, at: Ptr, k: int, run: seq<Ptr>)
    requires Chain(link, FullOf(bh, ns, at)) && 0 <= k <= |ns|
    requires Chain(link, run) && run != [] && Disjoint(run, FullOf(bh, ns, at))
    ensures run[0] in link && run[|run| - 1] in link
    ensures PosIn(bh, ns, at, k).prev in link && PosIn(bh, ns, at, k).current in link
    ensures Between([], run) == Cursor(Null, run[0]) && Between(run, []) == Cursor(run[|run| - 1], Null)
    ensures Chain(InsertSequenceLinks(link, PosIn(bh, ns, at, k), Between([], run), Between(run, [])),
                  FullOf(bh, ns[..k] + run + ns[k..], at))
    ensures Cursor(PosIn(bh, ns, at, k).prev, run[0]) == PosIn(bh, ns[..k] + run + ns[k..], at, k)
    ensures Cursor(run[|run| - 1], PosIn(bh, ns, at, k).current) == PosIn(bh, ns[..k] + run + ns[k..], at, k + |run|)
  {
    var a := [bh] + ns[..k];
    var b := ns[k..] + [at];
    var ns' := ns[..k] + run + ns[k..];
    PosSplit(bh, ns, at, k);
    InsertSequenceChain(link, a, b, run);
    assert a + run + b == FullOf(bh, ns', at);
    PosNodes(bh, ns, at, k);
    InsertRunPositions(bh, ns, at, k, run);
  }

  lemma InsertRunPositions(bh: Ptr, ns: seq<Ptr>, at: Ptr, k: int, run: seq<Ptr>)
    requires 0 <= k <= |ns| && run != []
    ensures Cursor(PosIn(bh, ns, at, k).prev, run[0]) == PosIn(bh, ns[..k] + run + ns[k..], at, k)
    ensures Cursor(run[|run| - 1], PosIn(bh, ns, at, k).current) == PosIn(bh, ns[..k] + run + ns[k..], at, k + |run|)
  {
    var ns' := ns[..k] + run + ns[k..];
    PosNodes(bh, ns, at, k);
    PosNodes(bh, ns', at, k);
    PosNodes(bh, ns', at, k + |run|);
    assert ns'[k] == run[0];
    assert ns'[k + |run| - 1] == run[|run| - 1];
    if k < |ns| { assert ns'[k + |run|] == ns[k]; }
    if k > 0 { assert ns'[k - 1] == ns[k - 1]; }
  }

  /**
    `cutSequence(pos(i), pos(j))` with i < j leaves the list without nodes
    i .. j - 1, makes those a detached chain, and the bridging cursor is the
    new position i.
  */
  lemma CutShape(link: map<Ptr, Ptr>, bh: Ptr, ns: seq<Ptr>, at: Ptr, i: int, j: int)
    requires Chain(link, FullOf(bh, ns, at)) && 0 <= i < j <= |ns|
    ensures PosIn(bh, ns, at, i).current in link && PosIn(bh, ns, at, j).prev in link
    ensures PosIn(bh, ns, at, i).prev in link && PosIn(bh, ns, at, j).current in link
    ensures Chain(CutLinks(link, PosIn(bh, ns, at, i), PosIn(bh, ns, at, j)), FullOf(bh, ns[..i] + ns[j..], at))
    ensures Chain(CutLinks(link, PosIn(bh, ns, at, i), PosIn(bh, ns, at, j)), ns[i..j])
    ensures Cursor(Null, PosIn(bh, ns, at, i).current) == Between([], ns[i..j])
    ensures Cursor(PosIn(bh, ns, at, j).prev, Null) == Between(ns[i..j], [])
    ensures Cursor(PosIn(bh, ns, at, i).prev, PosIn(bh, ns, at, j).current) == PosIn(bh, ns[..i] + ns[j..], at, i)
  {
    var a := [bh] + ns[..i];
    var r := ns[i..j];
    var b := ns[j..] + [at];
    CutPieces(bh, ns, at, i, j);
    CutChain(link, a, r, b);
    CutPositions(bh, ns, at, i, j);
  }

  /** The chain around a cut of nodes i .. j - 1, in three pieces. */
  lemma CutPieces(bh: Ptr, ns: seq<Ptr>, at: Ptr, i: int, j: int)
    requires 0 <= i < j <= |ns|
    ensures ([bh] + ns[..i]) + ns[i..j] + (ns[j..] + [at]) == FullOf(bh, ns, at)
    ensures Between([bh] + ns[..i], ns[i..j] + (ns[j..] + [at])) == PosIn(bh, ns, at, i)
    ensures Between(([bh] + ns[..i]) + ns[i..j], ns[j..] + [at]) == PosIn(bh, ns, at, j)
    ensures ([bh] + ns[..i]) + (ns[j..] + [at]) == FullOf(bh, ns[..i] + ns[j..], at)
  {
    var a := [bh] + ns[..i];
    var r := ns[i..j];
    var b := ns[j..] + [at];
    assert ns[..i] + ns[i..j] + ns[j..] == ns;
    assert r + b == ns[i..] + [at];
    assert a + r == [bh] + ns[..j];
  }

  lemma CutPositions(bh: Ptr, ns: seq<Ptr>, at: Ptr, i: int, j: int)
    requires 0 <= i < j <= |ns|
    ensures Cursor(Null, PosIn(bh, ns, at, i).current) == Between([], ns[i..j])
    ensures Cursor(PosIn(bh, ns, at, j).prev, Null) == Between(ns[i..j], [])
    ensures Cursor(PosIn(bh, ns, at, i).prev, PosIn(bh, ns, at, j).current) == PosIn(bh, ns[..i] + ns[j..], at, i)
  {
    var ns' := ns[..i] + ns[j..];
    PosNodes(bh, ns, at, i);
    PosNodes(bh, ns, at, j);
    PosNodes(bh, ns', at, i);
    if i > 0 { assert ns'[i - 1] == ns[i - 1]; }
    if j < |ns| { assert ns'[i] == ns[j]; }
  }

  /**
    The four writes of `reverse`, in source order: the first node swaps
    beforeHead for afterTail, the last node afterTail for beforeHead, and the
    sentinels are pointed at the old last and old first node.
  */
  function ReverseLinks(link: map<Ptr, Ptr>, bh: Ptr, at: Ptr, first: Ptr, last: Ptr): (r: map<Ptr, Ptr>)
    requires first in link && last in link && bh in link && at in link
    ensures r.Keys == link.Keys
    ensures forall q :: q in link && q != bh && q != at && q != first && q != last ==> r[q] == link[q]
  {
    var l1 := Relink(link, first, bh, at);
    var l2 := Relink(l1, last, at, bh);
    l2[bh := last][at := first]
  }

  /** After the four writes the same nodes form the chain in the opposite order. */
  lemma ReverseShape(link: map<Ptr, Ptr>, bh: Ptr, ns: seq<Ptr>, at: Ptr)
    requires Chain(link, FullOf(bh, ns, at)) && ns != []
    ensures ns[0] in link && ns[|ns| - 1] in link && bh in link && at in link
    ensures Chain(ReverseLinks(link, bh, at, ns[0], ns[|ns| - 1]), FullOf(bh, Reversed(ns), at))
  {
    var full := FullOf(bh, ns, at);
    ChainKeys(link, full);
    assert ns[0] in full && ns[|ns| - 1] in full;
    ReverseDistinct(link, bh, ns, at);
    var c := FullOf(bh, Reversed(ns), at);
    var r := ReverseLinks(link, bh, at, ns[0], ns[|ns| - 1]);
    forall i | 0 <= i < |c| ensures LinkOk(r, c, i) {
      ReverseLinkOk(link, bh, ns, at, i);
    }
  }

  lemma ReverseDistinct(link: map<Ptr, Ptr>, bh: Ptr, ns: seq<Ptr>, at: Ptr)
    requires Chain(link, FullOf(bh, ns, at))
    ensures Distinct(FullOf(bh, Reversed(ns), at)) && Null !in FullOf(bh, Reversed(ns), at)
  {
    var c := FullOf(bh, Reversed(ns), at);
    var full := FullOf(bh, ns, at);
    forall i, j | 0 <= i < j < |c| ensures c[i] != c[j] {
      ReverseIndex(bh, ns, at, i);
      ReverseIndex(bh, ns, at, j);
    }
    forall i | 0 <= i < |c| ensures c[i] != Null {
      ReverseIndex(bh, ns, at, i);
    }
  }

  /** The i-th node of the reversed chain is the node at the mirrored index of the old chain. */
  lemma ReverseIndex(bh: Ptr, ns: seq<Ptr>, at: Ptr, i: int)
    requires 0 <= i < |ns| + 2
    ensures FullOf(bh, Reversed(ns), at)[i] ==
            (if i == 0 || i == |ns| + 1 then FullOf(bh, ns, at)[i] else FullOf(bh, ns, at)[|ns| + 1 - i])
  {
    var r := Reversed(ns);
    var c := FullOf(bh, r, at);
    var full := FullOf(bh, ns, at);
    if i == 0 {
      assert c[0] == bh && full[0] == bh;
    } else if i == |ns| + 1 {
      assert c[i] == at && full[i] == at;
    } else {
      assert c[i] == r[i - 1];
      assert full[|ns| + 1 - i] == ns[|ns| - i];
    }
  }

  /** The link words the four writes leave on the four nodes they touch. */
  lemma ReverseWords(link: map<Ptr, Ptr>, bh: Ptr, at: Ptr, first: Ptr, last: Ptr)
    requires first in link && last in link && bh in link && at in link
    requires bh != at && first != bh && first != at && last != bh && last != at
    ensures ReverseLinks(link, bh, at, first, last)[bh] == last
    ensures ReverseLinks(link, bh, at, first, last)[at] == first
    ensures first != last ==> ReverseLinks(link, bh, at, first, last)[first] == XorPointers(XorPointers(link[first], bh), at)
    ensures first != last ==> ReverseLinks(link, bh, at, first, last)[last] == XorPointers(XorPointers(link[last], at), bh)
    ensures first == last ==> ReverseLinks(link, bh, at, first, last)[first] ==
                              XorPointers(XorPointers(XorPointers(XorPointers(link[first], bh), at), at), bh)
  {
  }

  lemma ReverseLinkOk(link: map<Ptr, Ptr>, bh: Ptr, ns: seq<Ptr>, at: Ptr, i: int)
    requires Chain(link, FullOf(bh, ns, at)) && ns != [] && 0 <= i < |ns| + 2
    requires ns[0] in link && ns[|ns| - 1] in link && bh in link && at in link
    ensures LinkOk(ReverseLinks(link, bh, at, ns[0], ns[|ns| - 1]), FullOf(bh, Reversed(ns), at), i)
  {
    if i == 0 || i == |ns| + 1 {
      ReverseEndCase(link, bh, ns, at, i);
    } else if |ns| == 1 {
      ReverseSingleCase(link, bh, ns, at, i);
    } else if i == 1 {
      ReverseLastCase(link, bh, ns, at, i);
    } else if i == |ns| {
      ReverseFirstCase(link, bh, ns, at, i);
    } else {
      ReverseInnerCase(link, bh, ns, at, i);
    }
  }

  lemma ReverseEndCase(link: map<Ptr, Ptr>, bh: Ptr, ns: seq<Ptr>, at: Ptr, i: int)
    requires Chain(link, FullOf(bh, ns, at)) && ns != [] && 0 <= i < |ns| + 2
    requires ns[0] in link && ns[|ns| - 1] in link && bh in link && at in link
    requires i == 0 || i == |ns| + 1
    ensures LinkOk(ReverseLinks(link, bh, at, ns[0], ns[|ns| - 1]), FullOf(bh, Reversed(ns), at), i)
  {
    ReverseCase(link, bh, ns, at, i, [1, |ns|]);
    ReverseEndOk(ReverseLinks(link, bh, at, ns[0], ns[|ns| - 1]), FullOf(bh, Reversed(ns), at), FullOf(bh, ns, at), i);
  }

  lemma ReverseSingleCase(link: map<Ptr, Ptr>, bh: Ptr, ns: seq<Ptr>, at: Ptr, i: int)
    requires Chain(link, FullOf(bh, ns, at)) && ns != [] && 0 <= i < |ns| + 2
    requires ns[0] in link && ns[|ns| - 1] in link && bh in link && at in link
    requires i == 1 && |ns| == 1
    ensures LinkOk(ReverseLinks(link, bh, at, ns[0], ns[|ns| - 1]), FullOf(bh, Reversed(ns), at), i)
  {
    ReverseCase(link, bh, ns, at, i, [0, 2]);
    ReverseSingleOk(link, ReverseLinks(link, bh, at, ns[0], ns[|ns| - 1]), FullOf(bh, Reversed(ns), at), FullOf(bh, ns, at));
  }

  lemma ReverseLastCase(link: map<Ptr, Ptr>, bh: Ptr, ns: seq<Ptr>, at: Ptr, i: int)
    requires Chain(link, FullOf(bh, ns, at)) && ns != [] && 0 <= i < |ns| + 2
    requires ns[0] in link && ns[|ns| - 1] in link && bh in link && at in link
    requires i == 1 && |ns| > 1
    ensures LinkOk(ReverseLinks(link, bh, at, ns[0], ns[|ns| - 1]), FullOf(bh, Reversed(ns), at), i)
  {
    ReverseCase(link, bh, ns, at, i, [0, 2]);
    ReverseLastOk(link, ReverseLinks(link, bh, at, ns[0], ns[|ns| - 1]), FullOf(bh, Reversed(ns), at), FullOf(bh, ns, at));
  }

  lemma ReverseFirstCase(link: map<Ptr, Ptr>, bh: Ptr, ns: seq<Ptr>, at: Ptr, i: int)
    requires Chain(link, FullOf(bh, ns, at)) && ns != [] && 0 <= i < |ns| + 2
    requires ns[0] in link && ns[|ns| - 1] in link && bh in link && at in link
    requires i == |ns| && |ns| > 1
    ensures LinkOk(ReverseLinks(link, bh, at, ns[0], ns[|ns| - 1]), FullOf(bh, Reversed(ns), at), i)
  {
    ReverseCase(link, bh, ns, at, i, [|ns| - 1, |ns| + 1]);
    ReverseFirstOk(link, ReverseLinks(link, bh, at, ns[0], ns[|ns| - 1]), FullOf(bh, Reversed(ns), at), FullOf(bh, ns, at));
  }

  lemma ReverseInnerCase(link: map<Ptr, Ptr>, bh: Ptr, ns: seq<Ptr>, at: Ptr, i: int)
    requires Chain(link, FullOf(bh, ns, at)) && ns != [] && 0 <= i < |ns| + 2
    requires ns[0] in link && ns[|ns| - 1] in link && bh in link && at in link
    requires 1 < i < |ns|
    ensures LinkOk(ReverseLinks(link, bh, at, ns[0], ns[|ns| - 1]), FullOf(bh, Reversed(ns), at), i)
  {
    ReverseInnerFacts(link, bh, ns, at, i);
    ReverseInnerOk(link, ReverseLinks(link, bh, at, ns[0], ns[|ns| - 1]), FullOf(bh, Reversed(ns), at), FullOf(bh, ns, at), |ns|, i);
  }

  /** The mirrored indices around an inner position, and the untouched link word of the node there. */
  lemma ReverseInnerFacts(link: map<Ptr, Ptr>, bh: Ptr, ns: seq<Ptr>, at: Ptr, i: int)
    requires Chain(link, FullOf(bh, ns, at)) && ns != [] && 1 < i < |ns|
    requires ns[0] in link && ns[|ns| - 1] in link && bh in link && at in link
    ensures |FullOf(bh, Reversed(ns), at)| == |FullOf(bh, ns, at)| == |ns| + 2
    ensures LinkOk(link, FullOf(bh, ns, at), |ns| + 1 - i)
    ensures FullOf(bh, Reversed(ns), at)[i - 1] == FullOf(bh, ns, at)[|ns| + 1 - (i - 1)]
    ensures FullOf(bh, Reversed(ns), at)[i] == FullOf(bh, ns, at)[|ns| + 1 - i]
    ensures FullOf(bh, Reversed(ns), at)[i + 1] == FullOf(bh, ns, at)[|ns| + 1 - (i + 1)]
    ensures FullOf(bh, ns, at)[|ns| + 1 - i] in ReverseLinks(link, bh, at, ns[0], ns[|ns| - 1])
    ensures FullOf(bh, ns, at)[|ns| + 1 - i] in link
    ensures ReverseLinks(link, bh, at, ns[0], ns[|ns| - 1])[FullOf(bh, ns, at)[|ns| + 1 - i]]
            == link[FullOf(bh, ns, at)[|ns| + 1 - i]]
  {
    var full := FullOf(bh, ns, at);
    ReverseIndex(bh, ns, at, i - 1);
    ReverseIndex(bh, ns, at, i);
    ReverseIndex(bh, ns, at, i + 1);
    ReverseFrameAt(link, bh, ns, at, |ns| + 1 - i);
  }

  /** A node strictly inside the list other than the first and the last keeps its link word. */
  lemma ReverseFrameAt(link: map<Ptr, Ptr>, bh: Ptr, ns: seq<Ptr>, at: Ptr, j: int)
    requires Chain(link, FullOf(bh, ns, at)) && 1 < j < |ns|
    requires ns[0] in link && ns[|ns| - 1] in link && bh in link && at in link
    ensures LinkOk(link, FullOf(bh, ns, at), j)
    ensures FullOf(bh, ns, at)[j] in link
    ensures ReverseLinks(link, bh, at, ns[0], ns[|ns| - 1])[FullOf(bh, ns, at)[j]] == link[FullOf(bh, ns, at)[j]]
  {
    var full := FullOf(bh, ns, at);
    var n := |ns|;
    ChainKeys(link, full);
    assert full[0] == bh && full[n + 1] == at && full[1] == ns[0] && full[n] == ns[n - 1];
    assert full[j] != full[0] && full[j] != full[n + 1] && full[j] != full[1] && full[j] != full[n];
  }

  /** The facts one case of `ReverseLinkOk` needs: the link words written and the mirrored indices `ks`. */
  lemma ReverseCase(link: map<Ptr, Ptr>, bh: Ptr, ns: seq<Ptr>, at: Ptr, i: int, ks: seq<int>)
    requires Chain(link, FullOf(bh, ns, at)) && ns != [] && 0 <= i < |ns| + 2
    requires forall k :: k in ks ==> 0 <= k < |ns| + 2
    requires ns[0] in link && ns[|ns| - 1] in link && bh in link && at in link
    ensures FullOf(bh, ns, at)[0] == bh && FullOf(bh, ns, at)[|ns| + 1] == at
    ensures FullOf(bh, ns, at)[1] == ns[0] && FullOf(bh, ns, at)[|ns|] == ns[|ns| - 1]
    ensures forall q :: q in FullOf(bh, ns, at) ==> q in link
    ensures ReverseLinks(link, bh, at, ns[0], ns[|ns| - 1])[bh] == ns[|ns| - 1]
    ensures ReverseLinks(link, bh, at, ns[0], ns[|ns| - 1])[at] == ns[0]
    ensures |ns| > 1 ==> ReverseLinks(link, bh, at, ns[0], ns[|ns| - 1])[ns[0]] == XorPointers(XorPointers(link[ns[0]], bh), at)
    ensures |ns| > 1 ==> ReverseLinks(link, bh, at, ns[0], ns[|ns| - 1])[ns[|ns| - 1]] == XorPointers(XorPointers(link[ns[|ns| - 1]], at), bh)
    ensures |ns| == 1 ==> ReverseLinks(link, bh, at, ns[0], ns[|ns| - 1])[ns[0]] ==
                          XorPointers(XorPointers(XorPointers(XorPointers(link[ns[0]], bh), at), at), bh)
    ensures FullOf(bh, Reversed(ns), at)[i] ==
            (if i == 0 || i == |ns| + 1 then FullOf(bh, ns, at)[i] else FullOf(bh, ns, at)[|ns| + 1 - i])
    ensures forall k :: k in ks ==>
              FullOf(bh, Reversed(ns), at)[k] ==
              (if k == 0 || k == |ns| + 1 then FullOf(bh, ns, at)[k] else FullOf(bh, ns, at)[|ns| + 1 - k])
  {
    ReverseEnds(link, bh, ns, at);
    ReverseWords(link, bh, at, ns[0], ns[|ns| - 1]);
    ReverseMirror(bh, ns, at, i, ks);
  }

  /** The sentinels and the end nodes of the list are where the four writes expect them, and apart. */
  lemma ReverseEnds(link: map<Ptr, Ptr>, bh: Ptr, ns: seq<Ptr>, at: Ptr)
    requires Chain(link, FullOf(bh, ns, at)) && ns != []
    ensures FullOf(bh, ns, at)[0] == bh && FullOf(bh, ns, at)[|ns| + 1] == at
    ensures FullOf(bh, ns, at)[1] == ns[0] && FullOf(bh, ns, at)[|ns|] == ns[|ns| - 1]
    ensures forall q :: q in FullOf(bh, ns, at) ==> q in link
    ensures bh != at && ns[0] != bh && ns[0] != at && ns[|ns| - 1] != bh && ns[|ns| - 1] != at
    ensures ns[0] == ns[|ns| - 1] <==> |ns| == 1
  {
    var full := FullOf(bh, ns, at);
    var n := |ns|;
    ChainKeys(link, full);
    assert full[0] == bh && full[n + 1] == at && full[1] == ns[0] && full[n] == ns[n - 1];
  }

  /** The mirrored indices `i` and `ks` of the reversed list. */
  lemma ReverseMirror(bh: Ptr, ns: seq<Ptr>, at: Ptr, i: int, ks: seq<int>)
    requires 0 <= i < |ns| + 2
    requires forall k :: k in ks ==> 0 <= k < |ns| + 2
    ensures FullOf(bh, Reversed(ns), at)[i] ==
            (if i == 0 || i == |ns| + 1 then FullOf(bh, ns, at)[i] else FullOf(bh, ns, at)[|ns| + 1 - i])
    ensures forall k :: k in ks ==>
              FullOf(bh, Reversed(ns), at)[k] ==
              (if k == 0 || k == |ns| + 1 then FullOf(bh, ns, at)[k] else FullOf(bh, ns, at)[|ns| + 1 - k])
  {
    ReverseIndex(bh, ns, at, i);
    forall k | k in ks
      ensures FullOf(bh, Reversed(ns), at)[k] ==
              (if k == 0 || k == |ns| + 1 then FullOf(bh, ns, at)[k] else FullOf(bh, ns, at)[|ns| + 1 - k])
    {
      ReverseIndex(bh, ns, at, k);
    }
  }

  /** The sentinels now hold the old last and the old first node. */
  lemma ReverseEndOk(r: map<Ptr, Ptr>, c: seq<Ptr>, full: seq<Ptr>, i: int)
    requires |c| == |full| >= 3 && (i == 0 || i == |c| - 1)
    requires c[0] == full[0] && c[|c| - 1] == full[|c| - 1]
    requires c[1] == full[|c| - 2] && c[|c| - 2] == full[1]
    requires full[0] in r && r[full[0]] == full[|c| - 2]
    requires full[|c| - 1] in r && r[full[|c| - 1]] == full[1]
    ensures LinkOk(r, c, i)
  {
    XorWithNull(full[|c| - 2]);
    XorWithNull(full[1]);
  }

  /** A one-node list: the two writes to its only node cancel out. */
  lemma ReverseSingleOk(link: map<Ptr, Ptr>, r: map<Ptr, Ptr>, c: seq<Ptr>, full: seq<Ptr>)
    requires Chain(link, full) && |c| == |full| == 3 && c == full
    requires full[1] in r && full[1] in link
    requires r[full[1]] == XorPointers(XorPointers(XorPointers(XorPointers(link[full[1]], full[0]), full[2]), full[2]), full[0])
    ensures LinkOk(r, c, 1)
  {
    assert LinkOk(link, full, 1);
    var bh := full[0];
    var at := full[2];
    XorCommutes(bh, at);
    XorCancel(at, bh);
    XorCancel(Null, at);
    XorWithNull(at);
    XorCommutes(at, bh);
  }

  /** The old last node is now first: afterTail is swapped for beforeHead. */
  lemma ReverseLastOk(link: map<Ptr, Ptr>, r: map<Ptr, Ptr>, c: seq<Ptr>, full: seq<Ptr>)
    requires Chain(link, full) && |c| == |full| >= 4
    requires c[0] == full[0] && c[1] == full[|c| - 2] && c[2] == full[|c| - 3]
    requires full[|c| - 2] in r && full[|c| - 2] in link
    requires r[full[|c| - 2]] == XorPointers(XorPointers(link[full[|c| - 2]], full[|c| - 1]), full[0])
    ensures LinkOk(r, c, 1)
  {
    var n := |c| - 2;
    assert LinkOk(link, full, n);
    ReplaceSecond(full[n - 1], full[n + 1], full[0]);
    XorCommutes(full[n - 1], full[0]);
  }

  /** The old first node is now last: beforeHead is swapped for afterTail. */
  lemma ReverseFirstOk(link: map<Ptr, Ptr>, r: map<Ptr, Ptr>, c: seq<Ptr>, full: seq<Ptr>)
    requires Chain(link, full) && |c| == |full| >= 4
    requires c[|c| - 1] == full[|c| - 1] && c[|c| - 2] == full[1] && c[|c| - 3] == full[2]
    requires full[1] in r && full[1] in link
    requires r[full[1]] == XorPointers(XorPointers(link[full[1]], full[0]), full[|c| - 1])
    ensures LinkOk(r, c, |c| - 2)
  {
    assert LinkOk(link, full, 1);
    ReplaceFirst(full[0], full[2], full[|c| - 1]);
    XorCommutes(full[|c| - 1], full[2]);
  }

  /** An inner node keeps its link word: XOR does not care which neighbour is which. */
  lemma ReverseInnerOk(link: map<Ptr, Ptr>, r: map<Ptr, Ptr>, c: seq<Ptr>, full: seq<Ptr>, n: int, i: int)
    requires |c| == |full| == n + 2 && 1 < i < n && LinkOk(link, full, n + 1 - i)
    requires c[i - 1] == full[n + 1 - (i - 1)] && c[i] == full[n + 1 - i] && c[i + 1] == full[n + 1 - (i + 1)]
    requires full[n + 1 - i] in r && full[n + 1 - i] in link && r[full[n + 1 - i]] == link[full[n + 1 - i]]
    ensures LinkOk(r, c, i)
  {
    var j := n + 1 - i;
    XorCommutes(full[j - 1], full[j + 1]);
  }

  // ---------------------------------------------------------------------------
  // Payloads
  // ---------------------------------------------------------------------------

  lemma ValuesSlice(value: map<Ptr, int>, ns: seq<Ptr>, i: int, j: int)
    requires Owns(value, ns) && 0 <= i <= j <= |ns|
    ensures Owns(value, ns[i..j])
    ensures Values(value, ns[i..j]) == Values(value, ns)[i..j]
  {
    forall p | p in ns[i..j] ensures p in value {
      var k :| i <= k < j && ns[k] == p;
      assert ns[k] in ns;
    }
  }

  /** Payloads read through a map that agrees with `value` on `ns`. */
  lemma ValuesAgree(value: map<Ptr, int>, value': map<Ptr, int>, ns: seq<Ptr>)
    requires Owns(value, ns)
    requires forall q :: q in ns ==> q in value' && value'[q] == value[q]
    ensures Owns(value', ns) && Values(value', ns) == Values(value, ns)
  {
    assert forall k :: 0 <= k < |ns| ==> ns[k] in ns;
  }

  // ---------------------------------------------------------------------------
  // Lists that share the node memory
  // ---------------------------------------------------------------------------

  /** A list whose nodes lie outside `s` keeps its chain and its payloads. */
  lemma OtherListKept(link0: map<Ptr, Ptr>, value0: map<Ptr, int>, link: map<Ptr, Ptr>, value: map<Ptr, int>,
                      s: seq<Ptr>, bh: Ptr, ns: seq<Ptr>, at: Ptr)
    requires Chain(link0, FullOf(bh, ns, at)) && Owns(value0, ns)
    requires Disjoint(s, FullOf(bh, ns, at)) && KeptApart(link0, value0, link, value, s)
    ensures Chain(link, FullOf(bh, ns, at)) && Owns(value, ns)
    ensures Values(value, ns) == Values(value0, ns)
  {
    ChainOutside(link0, link, FullOf(bh, ns, at), s);
    forall q | q in ns ensures q in value && value[q] == value0[q] {
      assert q in FullOf(bh, ns, at);
    }
    ValuesAgree(value0, value, ns);
  }

  /**
    Moving nodes i .. j - 1 of one list into another list that shares no
    node with it: the moved run is apart from the receiving list, and the
    receiving list with the run is apart from what is left of the giving one.
  */
  lemma TransferApart(full: seq<Ptr>, xbh: Ptr, xs: seq<Ptr>, xat: Ptr, i: int, j: int)
    requires Disjoint(full, FullOf(xbh, xs, xat)) && Distinct(FullOf(xbh, xs, xat)) && 0 <= i <= j <= |xs|
    ensures Disjoint(xs[i..j], full)
    ensures Disjoint(full + xs[i..j], FullOf(xbh, xs[..i] + xs[j..], xat))
  {
    CutApart(xbh, xs, xat, i, j);
    RemovedMembers(xbh, xs, xat, i, j);
    forall q | q in xs[i..j] ensures q in FullOf(xbh, xs, xat) {
      var t :| 0 <= t < j - i && xs[i..j][t] == q;
      assert FullOf(xbh, xs, xat)[i + t + 1] == q;
    }
  }

  /** The run cut out of a list shares no node with what is left of the list. */
  lemma CutApart(bh: Ptr, ns: seq<Ptr>, at: Ptr, i: int, j: int)
    requires Distinct(FullOf(bh, ns, at)) && 0 <= i <= j <= |ns|
    ensures Disjoint(ns[i..j], FullOf(bh, ns[..i] + ns[j..], at))
  {
    var full := FullOf(bh, ns, at);
    var rest := FullOf(bh, ns[..i] + ns[j..], at);
    forall x | x in ns[i..j] ensures x !in rest {
      var t :| 0 <= t < j - i && ns[i..j][t] == x;
      assert full[i + t + 1] == x;
      forall m | 0 <= m < |rest| ensures rest[m] != x {
        if m <= i {
          assert rest[m] == full[m];
        } else {
          assert rest[m] == full[m + (j - i)];
        }
      }
    }
  }

  /** Payloads after inserting `run` (whose payloads are `vals`) at position k of `ns`. */
  lemma ValuesInsert(value0: map<Ptr, int>, value: map<Ptr, int>, ns: seq<Ptr>, k: int, run: seq<Ptr>)
    requires Owns(value0, ns) && 0 <= k <= |ns| && Owns(value, run)
    requires forall q :: q in ns ==> q in value && value[q] == value0[q]
    ensures Owns(value, ns[..k] + run + ns[k..])
    ensures Values(value, ns[..k] + run + ns[k..]) == Values(value0, ns)[..k] + Values(value, run) + Values(value0, ns)[k..]
  {
    ValuesAgree(value0, value, ns);
    var vs := Values(value, ns);
    ValuesSlice(value, ns, 0, k);
    ValuesSlice(value, ns, k, |ns|);
    assert ns[0..k] == ns[..k] && ns[k..|ns|] == ns[k..];
    assert vs[0..k] == vs[..k] && vs[k..|ns|] == vs[k..];
    ValuesConcat(value, ns[..k], run);
    ValuesConcat(value, ns[..k] + run, ns[k..]);
    assert Values(value, ns[..k] + run + ns[k..]) == vs[..k] + Values(value, run) + vs[k..];
  }

  /** Payloads after removing positions i .. j - 1 of `ns`. */
  lemma ValuesRemove(value0: map<Ptr, int>, value: map<Ptr, int>, ns: seq<Ptr>, i: int, j: int)
    requires Owns(value0, ns) && 0 <= i <= j <= |ns|
    requires forall q :: q in ns[..i] + ns[j..] ==> q in value && value[q] == value0[q]
    ensures Owns(value, ns[..i] + ns[j..])
    ensures Values(value, ns[..i] + ns[j..]) == Values(value0, ns)[..i] + Values(value0, ns)[j..]
  {
    ValuesSlice(value0, ns, 0, i);
    ValuesSlice(value0, ns, j, |ns|);
    assert ns[0..i] == ns[..i] && ns[j..|ns|] == ns[j..];
    ValuesConcat(value0, ns[..i], ns[j..]);
    ValuesAgree(value0, value, ns[..i] + ns[j..]);
  }

  // ---------------------------------------------------------------------------
  // splice within one list
  // ---------------------------------------------------------------------------

  /**
    The order after moving elements i .. j - 1 of `s` in front of the k-th
    element, k outside the moved run (k == i and k == j leave `s` as it is).
  */
  function MoveRun<T>(s: seq<T>, i: int, j: int, k: int): (r: seq<T>)
    requires 0 <= i <= j <= |s| && 0 <= k <= |s| && (k <= i || j <= k)
  {
    if k <= i then s[..k] + s[i..j] + s[k..i] + s[j..] else s[..i] + s[j..k] + s[i..j] + s[k..]
  }

  /** Moving a run only reorders: nothing is lost, nothing is duplicated. */
  lemma MoveRunPermutes<T>(s: seq<T>, i: int, j: int, k: int)
    requires 0 <= i <= j <= |s| && 0 <= k <= |s| && (k <= i || j <= k)
    ensures |MoveRun(s, i, j, k)| == |s| && multiset(MoveRun(s, i, j, k)) == multiset(s)
  {
    if k <= i {
      assert s == s[..k] + s[k..i] + s[i..j] + s[j..];
      SwapMiddle(s[..k], s[k..i], s[i..j], s[j..]);
    } else {
      assert s == s[..i] + s[i..j] + s[j..k] + s[k..];
      SwapMiddle(s[..i], s[i..j], s[j..k], s[k..]);
    }
  }

  lemma SwapMiddle<T>(a: seq<T>, b: seq<T>, c: seq<T>, d: seq<T>)
    ensures |a + c + b + d| == |a + b + c + d| && multiset(a + c + b + d) == multiset(a + b + c + d)
  {
    assert multiset(a + c + b + d) == multiset(a) + multiset(c) + multiset(b) + multiset(d);
    assert multiset(a + b + c + d) == multiset(a) + multiset(b) + multiset(c) + multiset(d);
  }

  /** Moving a run in front of itself or of the element just after it changes nothing. */
  lemma MoveRunInPlace<T>(s: seq<T>, i: int, j: int)
    requires 0 <= i <= j <= |s|
    ensures MoveRun(s, i, j, i) == s && MoveRun(s, i, j, j) == s
  {
    assert s[..i] + s[i..j] + s[i..i] + s[j..] == s;
    assert s[..i] + s[j..j] + s[i..j] + s[j..] == s;
  }

  /** Moving an empty run changes nothing, wherever it goes. */
  /** Moving an empty run out of `t` into `s` leaves both as they were. */
  lemma TransferNothing<T>(s: seq<T>, t: seq<T>, k: int, i: int, j: int)
    requires 0 <= k <= |s| && 0 <= i == j <= |t|
    ensures s[..k] + t[i..j] + s[k..] == s && t[..i] + t[j..] == t
  {
    assert t[i..j] == [];
    assert s[..k] + s[k..] == s;
  }

  lemma MoveNothing<T>(s: seq<T>, i: int, k: int)
    requires 0 <= i <= |s| && 0 <= k <= |s|
    ensures MoveRun(s, i, i, k) == s
  {
    if k <= i {
      assert s[..k] + s[i..i] + s[k..i] + s[i..] == s;
    } else {
      assert s[..i] + s[i..k] + s[i..i] + s[k..] == s;
    }
  }

  /** Cutting the run and inserting it again at the position that stood before the k-th node. */
  lemma MoveRunAfterCut<T>(s: seq<T>, i: int, j: int, k: int)
    requires 0 <= i <= j <= |s| && 0 <= k <= |s| && (k <= i || j <= k)
    ensures var k' := if k <= i then k else k - (j - i);
      0 <= k' <= |s[..i] + s[j..]| &&
      (s[..i] + s[j..])[..k'] + s[i..j] + (s[..i] + s[j..])[k'..] == MoveRun(s, i, j, k)
  {
    var rest := s[..i] + s[j..];
    if k <= i {
      assert rest[..k] == s[..k] && rest[k..] == s[k..i] + s[j..];
    } else {
      assert rest[..k - (j - i)] == s[..i] + s[j..k] && rest[k - (j - i)..] == s[k..];
    }
  }

  /**
    The cursor on the k-th node, for k outside nodes i .. j inclusive, stands
    between the same two nodes once nodes i .. j - 1 are cut out.
  */
  lemma PosAfterCut(bh: Ptr, ns: seq<Ptr>, at: Ptr, i: int, j: int, k: int)
    requires 0 <= i < j <= |ns| && 0 <= k <= |ns| && (k < i || j < k)
    ensures var k' := if k < i then k else k - (j - i);
      0 <= k' <= |ns[..i] + ns[j..]| && PosIn(bh, ns[..i] + ns[j..], at, k') == PosIn(bh, ns, at, k)
  {
    var rest := ns[..i] + ns[j..];
    var k' := if k < i then k else k - (j - i);
    PosNodes(bh, ns, at, k);
    PosNodes(bh, rest, at, k');
    if k < i {
      if k > 0 { assert rest[k - 1] == ns[k - 1]; }
      assert rest[k] == ns[k];
    } else {
      assert rest[k' - 1] == ns[k - 1];
      if k < |ns| { assert rest[k'] == ns[k]; }
    }
  }

  /** What is left after a cut, with the run cut out, are nodes of the list as it was. */
  lemma MovedMembers(bh: Ptr, ns: seq<Ptr>, at: Ptr, i: int, j: int)
    requires 0 <= i <= j <= |ns|
    ensures forall q :: q in FullOf(bh, ns[..i] + ns[j..], at) + ns[i..j] ==> q in FullOf(bh, ns, at)
  {
    RemovedMembers(bh, ns, at, i, j);
    forall q | q in ns[i..j] ensures q in FullOf(bh, ns, at) {
      var t :| 0 <= t < j - i && ns[i..j][t] == q;
      assert FullOf(bh, ns, at)[i + t + 1] == q;
    }
  }

  /** The payloads follow the nodes when a run moves. */
  lemma ValuesMoveRun(value: map<Ptr, int>, ns: seq<Ptr>, i: int, j: int, k: int)
    requires Owns(value, ns) && 0 <= i <= j <= |ns| && 0 <= k <= |ns| && (k <= i || j <= k)
    ensures Owns(value, MoveRun(ns, i, j, k))
    ensures Values(value, MoveRun(ns, i, j, k)) == MoveRun(Values(value, ns), i, j, k)
  {
    if k <= i {
      ValuesSwapParts(value, ns, k, i, j);
    } else {
      ValuesSwapParts(value, ns, i, j, k);
    }
  }

  /** Exchanging nodes lo .. mid - 1 with nodes mid .. hi - 1 exchanges the same stretches of payloads. */
  lemma ValuesSwapParts(value: map<Ptr, int>, ns: seq<Ptr>, lo: int, mid: int, hi: int)
    requires Owns(value, ns) && 0 <= lo <= mid <= hi <= |ns|
    ensures Owns(value, ns[..lo] + ns[mid..hi] + ns[lo..mid] + ns[hi..])
    ensures Values(value, ns[..lo] + ns[mid..hi] + ns[lo..mid] + ns[hi..])
            == Values(value, ns)[..lo] + Values(value, ns)[mid..hi] + Values(value, ns)[lo..mid] + Values(value, ns)[hi..]
  {
    var A, B, C, D := ns[..lo], ns[lo..mid], ns[mid..hi], ns[hi..];
    assert ns == A + B + C + D;
    OwnsParts(value, A, B, C, D);
    ValuesFour(value, A, B, C, D);
    var vA, vB, vC, vD := Values(value, A), Values(value, B), Values(value, C), Values(value, D);
    assert Values(value, ns) == vA + vB + vC + vD;
    SwapSlices(Values(value, ns), vA, vB, vC, vD, lo, mid, hi);
  }

  lemma OwnsParts(value: map<Ptr, int>, a: seq<Ptr>, b: seq<Ptr>, c: seq<Ptr>, d: seq<Ptr>)
    requires Owns(value, a + b + c + d)
    ensures Owns(value, a) && Owns(value, b) && Owns(value, c) && Owns(value, d)
  {
    assert forall q :: q in a || q in b || q in c || q in d ==> q in a + b + c + d;
  }

  /** The payloads of four consecutive parts, in either order of the middle two. */
  lemma ValuesFour(value: map<Ptr, int>, a: seq<Ptr>, b: seq<Ptr>, c: seq<Ptr>, d: seq<Ptr>)
    requires Owns(value, a) && Owns(value, b) && Owns(value, c) && Owns(value, d)
    ensures Owns(value, a + b + c + d) && Owns(value, a + c + b + d)
    ensures Values(value, a + b + c + d) == Values(value, a) + Values(value, b) + Values(value, c) + Values(value, d)
    ensures Values(value, a + c + b + d) == Values(value, a) + Values(value, c) + Values(value, b) + Values(value, d)
  {
    ValuesConcat(value, a, b);
    ValuesConcat(value, a + b, c);
    ValuesConcat(value, a + b + c, d);
    ValuesConcat(value, a, c);
    ValuesConcat(value, a + c, b);
    ValuesConcat(value, a + c + b, d);
  }

  lemma SwapSlices<X>(s: seq<X>, a: seq<X>, b: seq<X>, c: seq<X>, d: seq<X>, lo: int, mid: int, hi: int)
    requires s == a + b + c + d && |a| == lo && |a| + |b| == mid && |a| + |b| + |c| == hi
    ensures 0 <= lo <= mid <= hi <= |s|
    ensures s[..lo] + s[mid..hi] + s[lo..mid] + s[hi..] == a + c + b + d
  {
    assert s[..lo] == a && s[lo..mid] == b && s[mid..hi] == c && s[hi..] == d;
  }
}
