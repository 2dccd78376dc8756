/**
  The loop states of the list operations that work node by node (inserting a
  range, popping down to a size, overwriting then appending, `unique`, and
  moving runs between lists), each stated over the memory maps and the node
  sequence alone, with the lemmas that move a state one step on.
*/
module LoopStates {
  import opened XorLinks
  import opened Runs
  import opened NodeMemory
  import opened ListShape
  /**
    The state of `insert(position, first, last)` after t of the payloads
    `vals` went in at positions k .. k + t - 1 of the list `ns` (payloads
    `es`): the nodes are the first t addresses of `ps`, the rest of `ps` is
    still free, and nothing outside the list changed.
  */
  ghost predicate InsertState(link: map<Ptr, Ptr>, value: map<Ptr, int>, bh: Ptr, at: Ptr, cur: seq<Ptr>,
                              t: int, k: int, ns: seq<Ptr>, es: seq<int>, ps: seq<Ptr>, vals: seq<int>,
                              link0: map<Ptr, Ptr>, value0: map<Ptr, int>, full: seq<Ptr>)
  {
    && 0 <= t <= |vals| == |ps| && 0 <= k <= |ns| == |es|
    && cur == ns[..k] + ps[..t] + ns[k..]
    && Owns(value, cur) && Values(value, cur) == es[..k] + vals[..t] + es[k..]
    && Distinct(ps) && (forall u :: 0 <= u < |ps| ==> ps[u] != Null && ps[u] !in link0)
    && link.Keys == link0.Keys + Members(ps[..t])
    && value0.Keys <= link0.Keys && full == FullOf(bh, ns, at)
    && KeptApart(link0, value0, link, value, full)
  }

  /** The addresses in `s`. */
  ghost function Members(s: seq<Ptr>): set<Ptr>
  {
    set x | x in s
  }

  /** Before the first payload goes in. */
  lemma BeginInsertState(link: map<Ptr, Ptr>, value: map<Ptr, int>, bh: Ptr, at: Ptr, ns: seq<Ptr>,
                         k: int, ps: seq<Ptr>, vals: seq<int>)
    requires 0 <= k <= |ns| && Owns(value, ns) && value.Keys <= link.Keys
    requires |ps| == |vals| && Distinct(ps) && forall u :: 0 <= u < |ps| ==> ps[u] != Null && ps[u] !in link
    ensures InsertState(link, value, bh, at, ns, 0, k, ns, Values(value, ns), ps, vals, link, value, FullOf(bh, ns, at))
  {
    InsertNone(ns, k, ps);
    InsertNone(Values(value, ns), k, vals);
    assert ps[..0] == [];
  }

  /** After the last payload went in. */
  lemma EndInsertState(link: map<Ptr, Ptr>, value: map<Ptr, int>, bh: Ptr, at: Ptr, cur: seq<Ptr>,
                       k: int, ns: seq<Ptr>, es: seq<int>, ps: seq<Ptr>, vals: seq<int>,
                       link0: map<Ptr, Ptr>, value0: map<Ptr, int>, full: seq<Ptr>)
    requires InsertState(link, value, bh, at, cur, |vals|, k, ns, es, ps, vals, link0, value0, full)
    ensures cur == ns[..k] + ps + ns[k..]
    ensures Owns(value, cur) && Values(value, cur) == es[..k] + vals + es[k..]
    ensures forall q :: q in link <==> q in link0 || q in ps
    ensures KeptApart(link0, value0, link, value, full)
  {
    assert ps[..|ps|] == ps && vals[..|vals|] == vals;
    assert Members(ps[..|ps|]) == Members(ps);
  }

  /** The next address to use is free. */
  lemma InsertStateFree(link: map<Ptr, Ptr>, value: map<Ptr, int>, bh: Ptr, at: Ptr, cur: seq<Ptr>,
                        t: int, k: int, ns: seq<Ptr>, es: seq<int>, ps: seq<Ptr>, vals: seq<int>,
                        link0: map<Ptr, Ptr>, value0: map<Ptr, int>, full: seq<Ptr>)
    requires InsertState(link, value, bh, at, cur, t, k, ns, es, ps, vals, link0, value0, full) && t < |vals|
    ensures ps[t] != Null && ps[t] !in link && k + t <= |cur|
  {
    NextMemberFree(ps, t);
  }

  /** With distinct addresses, the t-th one is not among the first t. */
  lemma NextMemberFree(ps: seq<Ptr>, t: int)
    requires Distinct(ps) && 0 <= t < |ps|
    ensures ps[t] !in Members(ps[..t])
  {
    forall u | 0 <= u < t ensures ps[..t][u] != ps[t] {
      assert ps[..t][u] == ps[u];
    }
    assert ps[t] !in ps[..t];
  }

  /** Inserting the next payload at the address `ps[t]` moves the state from t to t + 1. */
  lemma InsertStateStep(link1: map<Ptr, Ptr>, value1: map<Ptr, int>, link2: map<Ptr, Ptr>, value2: map<Ptr, int>,
                        bh: Ptr, at: Ptr, cur1: seq<Ptr>, cur2: seq<Ptr>,
                        t: int, k: int, ns: seq<Ptr>, es: seq<int>, ps: seq<Ptr>, vals: seq<int>,
                        link0: map<Ptr, Ptr>, value0: map<Ptr, int>, full: seq<Ptr>)
    requires InsertState(link1, value1, bh, at, cur1, t, k, ns, es, ps, vals, link0, value0, full) && t < |vals|
    requires cur2 == cur1[..k + t] + [ps[t]] + cur1[k + t..]
    requires Owns(value2, cur2)
    requires Values(value2, cur2) == Values(value1, cur1)[..k + t] + [vals[t]] + Values(value1, cur1)[k + t..]
    requires link2.Keys == link1.Keys + {ps[t]}
    requires KeptApart(link1, value1, link2, value2, FullOf(bh, cur1, at))
    ensures InsertState(link2, value2, bh, at, cur2, t + 1, k, ns, es, ps, vals, link0, value0, full)
    ensures k + t + 1 <= |cur2|
  {
    InsertedMembers(bh, ns, at, k, ps[..t]);
    GrowInsert(ns, k, ps, t);
    GrowInsert(es, k, vals, t);
    KeptApartTrans(link0, value0, link1, value1, link2, value2, full, FullOf(bh, cur1, at));
    MembersStep(ps, t);
  }

  /** The cursor on the first inserted node stays where it is while the rest go in after it. */
  lemma FirstInsertedPos(bh: Ptr, at: Ptr, ns: seq<Ptr>, k: int, ps: seq<Ptr>)
    requires 0 <= k <= |ns| && 0 < |ps|
    ensures PosIn(bh, ns[..k] + ps + ns[k..], at, k) == PosIn(bh, ns[..k] + ps[..1] + ns[k..], at, k)
  {
    var all := ns[..k] + ps + ns[k..];
    var first := ns[..k] + ps[..1] + ns[k..];
    assert all[..k + 1] == ns[..k] + [ps[0]] == first[..k + 1];
    PosSamePrefix(bh, first, all, at, k);
  }

  /** One more address of `ps` taken. */
  lemma MembersStep(ps: seq<Ptr>, t: int)
    requires 0 <= t < |ps|
    ensures Members(ps[..t + 1]) == Members(ps[..t]) + {ps[t]}
  {
    assert ps[..t + 1] == ps[..t] + [ps[t]];
  }

  /** Appending at the end is inserting at position |ns|. */
  lemma AppendStateStep(link1: map<Ptr, Ptr>, value1: map<Ptr, int>, link2: map<Ptr, Ptr>, value2: map<Ptr, int>,
                        bh: Ptr, at: Ptr, cur1: seq<Ptr>, cur2: seq<Ptr>,
                        t: int, ns: seq<Ptr>, es: seq<int>, ps: seq<Ptr>, vals: seq<int>,
                        link0: map<Ptr, Ptr>, value0: map<Ptr, int>, full: seq<Ptr>)
    requires InsertState(link1, value1, bh, at, cur1, t, |ns|, ns, es, ps, vals, link0, value0, full) && t < |vals|
    requires cur2 == cur1 + [ps[t]]
    requires Owns(value2, cur2) && Values(value2, cur2) == Values(value1, cur1) + [vals[t]]
    requires link2.Keys == link1.Keys + {ps[t]}
    requires KeptApart(link1, value1, link2, value2, FullOf(bh, cur1, at))
    ensures InsertState(link2, value2, bh, at, cur2, t + 1, |ns|, ns, es, ps, vals, link0, value0, full)
  {
    var n := |ns| + t;
    assert |cur1| == n;
    assert cur1[..n] == cur1 && cur1[n..] == [];
    var vs := Values(value1, cur1);
    assert vs[..n] == vs && vs[n..] == [];
    InsertStateStep(link1, value1, link2, value2, bh, at, cur1, cur2, t, |ns|, ns, es, ps, vals, link0, value0, full);
  }

  /**
    The state of the `pop_back` loop of `resize`: the list is a prefix of
    `ns` (payloads `es`), no node was added, and nothing outside the list
    changed.
  */
  ghost predicate PopState(link: map<Ptr, Ptr>, value: map<Ptr, int>, bh: Ptr, at: Ptr, cur: seq<Ptr>,
                           ns: seq<Ptr>, es: seq<int>, link0: map<Ptr, Ptr>, value0: map<Ptr, int>, full: seq<Ptr>)
  {
    && |cur| <= |ns| == |es| && cur == ns[..|cur|]
    && Owns(value, cur) && Values(value, cur) == es[..|cur|]
    && (forall q :: q in link ==> q in link0)
    && value0.Keys <= link0.Keys && full == FullOf(bh, ns, at)
    && KeptApart(link0, value0, link, value, full)
  }

  lemma BeginPopState(link: map<Ptr, Ptr>, value: map<Ptr, int>, bh: Ptr, at: Ptr, ns: seq<Ptr>)
    requires Owns(value, ns) && value.Keys <= link.Keys
    ensures PopState(link, value, bh, at, ns, ns, Values(value, ns), link, value, FullOf(bh, ns, at))
  {
    assert ns[..|ns|] == ns;
    assert Values(value, ns)[..|ns|] == Values(value, ns);
  }

  /** `pop_back` moves the state from a prefix to the next shorter one. */
  lemma PopStateStep(link1: map<Ptr, Ptr>, value1: map<Ptr, int>, link2: map<Ptr, Ptr>, value2: map<Ptr, int>,
                     bh: Ptr, at: Ptr, cur1: seq<Ptr>, cur2: seq<Ptr>,
                     ns: seq<Ptr>, es: seq<int>, link0: map<Ptr, Ptr>, value0: map<Ptr, int>, full: seq<Ptr>)
    requires PopState(link1, value1, bh, at, cur1, ns, es, link0, value0, full) && cur1 != []
    requires cur2 == cur1[..|cur1| - 1]
    requires Owns(value2, cur2) && Values(value2, cur2) == Values(value1, cur1)[..|cur1| - 1]
    requires link2.Keys <= link1.Keys
    requires KeptApart(link1, value1, link2, value2, FullOf(bh, cur1, at))
    ensures PopState(link2, value2, bh, at, cur2, ns, es, link0, value0, full)
  {
    var m := |cur1|;
    RemovedMembers(bh, ns, at, m, |ns|);
    assert ns[..m] + ns[|ns|..] == ns[..m];
    KeptApartTrans(link0, value0, link1, value1, link2, value2, full, FullOf(bh, cur1, at));
  }

  /** The list a `PopState` ended with, in the list it started from. */
  lemma PopStateMembers(link: map<Ptr, Ptr>, value: map<Ptr, int>, bh: Ptr, at: Ptr, cur: seq<Ptr>,
                        ns: seq<Ptr>, es: seq<int>, link0: map<Ptr, Ptr>, value0: map<Ptr, int>, full: seq<Ptr>)
    requires PopState(link, value, bh, at, cur, ns, es, link0, value0, full)
    ensures forall q :: q in FullOf(bh, cur, at) ==> q in full
  {
    RemovedMembers(bh, ns, at, |cur|, |ns|);
    assert ns[..|cur|] + ns[|ns|..] == cur;
  }

  /**
    The state of the overwriting loops of `assign`: nodes and links are as
    they were, the first i payloads are `ws[..i]` and the others still `es`.
  */
  ghost predicate OverwriteState(value: map<Ptr, int>, ns: seq<Ptr>, es: seq<int>, ws: seq<int>, i: int,
                                 link0: map<Ptr, Ptr>, value0: map<Ptr, int>, full: seq<Ptr>)
  {
    && 0 <= i <= |ns| == |es| && i <= |ws| && Distinct(ns)
    && Owns(value, ns) && Values(value, ns) == ws[..i] + es[i..]
    && value.Keys == value0.Keys && value0.Keys <= link0.Keys && (forall q :: q in ns ==> q in full)
    && KeptApart(link0, value0, link0, value, full)
  }

  lemma BeginOverwriteState(link: map<Ptr, Ptr>, value: map<Ptr, int>, bh: Ptr, ns: seq<Ptr>, at: Ptr, ws: seq<int>)
    requires Chain(link, FullOf(bh, ns, at)) && Owns(value, ns) && value.Keys <= link.Keys
    ensures OverwriteState(value, ns, Values(value, ns), ws, 0, link, value, FullOf(bh, ns, at))
  {
    var full := FullOf(bh, ns, at);
    forall i, j | 0 <= i < j < |ns| ensures ns[i] != ns[j] {
      assert ns[i] == full[i + 1] && ns[j] == full[j + 1];
    }
    forall q | q in ns ensures q in full {
      var k :| 0 <= k < |ns| && ns[k] == q;
      assert full[k + 1] == q;
    }
    assert Values(value, ns)[0..] == Values(value, ns);
  }

  /** `*iter = ws[i]` on the i-th node moves the state one node on. */
  lemma OverwriteStateStep(value: map<Ptr, int>, ns: seq<Ptr>, es: seq<int>, ws: seq<int>, i: int,
                           link0: map<Ptr, Ptr>, value0: map<Ptr, int>, full: seq<Ptr>)
    requires OverwriteState(value, ns, es, ws, i, link0, value0, full) && i < |ns| && i < |ws|
    ensures OverwriteState(value[ns[i] := ws[i]], ns, es, ws, i + 1, link0, value0, full)
  {
    var value' := value[ns[i] := ws[i]];
    assert ns[i] in ns;
    var r := Values(value', ns);
    var goal := ws[..i + 1] + es[i + 1..];
    forall k | 0 <= k < |ns| ensures r[k] == goal[k] {
      if k < i {
        assert ns[k] != ns[i];
        assert r[k] == value[ns[k]] == (ws[..i] + es[i..])[k];
      } else if k > i {
        assert ns[i] != ns[k];
        assert r[k] == value[ns[k]] == (ws[..i] + es[i..])[k];
      }
    }
    assert r == goal;
  }

  /** The overwriting loop stopped after i nodes: the payloads, in one piece. */
  lemma EndOverwriteState(value: map<Ptr, int>, ns: seq<Ptr>, es: seq<int>, ws: seq<int>, i: int,
                          link0: map<Ptr, Ptr>, value0: map<Ptr, int>, full: seq<Ptr>)
    requires OverwriteState(value, ns, es, ws, i, link0, value0, full)
    ensures Values(value, ns)[..i] == ws[..i]
    ensures i == |ns| ==> Values(value, ns) == ws[..i]
  {
    assert (ws[..i] + es[i..])[..i] == ws[..i];
  }

  /** Appending `ws[i..]` after overwriting every node completes `ws`. */
  lemma EndOverwriteAppend(value1: map<Ptr, int>, ns: seq<Ptr>, es: seq<int>, ws: seq<int>, i: int,
                           link0: map<Ptr, Ptr>, value0: map<Ptr, int>, full: seq<Ptr>,
                           link2: map<Ptr, Ptr>, value2: map<Ptr, int>, cur: seq<Ptr>)
    requires OverwriteState(value1, ns, es, ws, i, link0, value0, full) && i == |ns|
    requires Owns(value2, cur) && Values(value2, cur) == Values(value1, ns) + ws[i..]
    requires KeptApart(link0, value1, link2, value2, full)
    ensures Values(value2, cur) == ws && KeptApart(link0, value0, link2, value2, full)
  {
    EndOverwriteState(value1, ns, es, ws, i, link0, value0, full);
    assert ws[..i] + ws[i..] == ws;
    KeptApartTrans(link0, value0, link0, value1, link2, value2, full, full);
  }

  /**
    Cutting nodes i .. j - 1 out of the list (xbh, xs, xat) leaves a list
    (bh, ns, at) that shares no node with it linked as it was, and the run
    apart from it.
  */
  lemma CutFromOtherFacts(link0: map<Ptr, Ptr>, link1: map<Ptr, Ptr>, value0: map<Ptr, int>,
                          bh: Ptr, ns: seq<Ptr>, at: Ptr, xbh: Ptr, xs: seq<Ptr>, xat: Ptr, i: int, j: int)
    requires Chain(link0, FullOf(bh, ns, at)) && Chain(link0, FullOf(xbh, xs, xat))
    requires Disjoint(FullOf(bh, ns, at), FullOf(xbh, xs, xat)) && 0 <= i <= j <= |xs|
    requires KeptApart(link0, value0, link1, value0, FullOf(xbh, xs, xat))
    ensures Chain(link1, FullOf(bh, ns, at))
    ensures Disjoint(xs[i..j], FullOf(bh, ns, at))
    ensures Disjoint(FullOf(bh, ns, at) + xs[i..j], FullOf(xbh, xs[..i] + xs[j..], xat))
  {
    TransferApart(FullOf(bh, ns, at), xbh, xs, xat, i, j);
    ChainOutside(link0, link1, FullOf(bh, ns, at), FullOf(xbh, xs, xat));
  }

  /** After the run went in: what is left of the giving list is still linked, and apart. */
  lemma InsertFromOtherFacts(link1: map<Ptr, Ptr>, link2: map<Ptr, Ptr>, value0: map<Ptr, int>,
                             bh: Ptr, ns: seq<Ptr>, at: Ptr, xbh: Ptr, xs: seq<Ptr>, xat: Ptr, k: int, i: int, j: int)
    requires 0 <= k <= |ns| && 0 <= i <= j <= |xs| && Chain(link1, FullOf(xbh, xs[..i] + xs[j..], xat))
    requires Disjoint(FullOf(bh, ns, at) + xs[i..j], FullOf(xbh, xs[..i] + xs[j..], xat))
    requires KeptApart(link1, value0, link2, value0, FullOf(bh, ns, at) + xs[i..j])
    ensures Chain(link2, FullOf(xbh, xs[..i] + xs[j..], xat))
    ensures Disjoint(FullOf(bh, ns[..k] + xs[i..j] + ns[k..], at), FullOf(xbh, xs[..i] + xs[j..], xat))
  {
    ChainOutside(link1, link2, FullOf(xbh, xs[..i] + xs[j..], xat), FullOf(bh, ns, at) + xs[i..j]);
    InsertedMembers(bh, ns, at, k, xs[i..j]);
  }

  /** What is left of `xs` around a cut, and the cut run itself, hold only members of `xs`. */
  lemma SliceMembers<T>(xs: seq<T>, i: int, j: int)
    requires 0 <= i <= j <= |xs|
    ensures forall q :: q in xs[..i] + xs[j..] ==> q in xs
    ensures forall q :: q in xs[i..j] ==> q in xs
  {
    forall q | q in xs[..i] + xs[j..] ensures q in xs {
      if q in xs[..i] {
        var t :| 0 <= t < i && xs[..i][t] == q;
        assert xs[t] == q;
      } else {
        var t :| 0 <= t < |xs| - j && xs[j..][t] == q;
        assert xs[j + t] == q;
      }
    }
    forall q | q in xs[i..j] ensures q in xs {
      var t :| 0 <= t < j - i && xs[i..j][t] == q;
      assert xs[i + t] == q;
    }
  }

  /** The payloads of both lists after a transfer, and the frame of the two steps together. */
  lemma TransferValues(link0: map<Ptr, Ptr>, link1: map<Ptr, Ptr>, link2: map<Ptr, Ptr>, value0: map<Ptr, int>,
                       full: seq<Ptr>, ns: seq<Ptr>, xfull: seq<Ptr>, xs: seq<Ptr>, k: int, i: int, j: int)
    requires Owns(value0, ns) && Owns(value0, xs) && 0 <= k <= |ns| && 0 <= i <= j <= |xs|
    requires value0.Keys <= link0.Keys && forall q :: q in xs ==> q in xfull
    requires KeptApart(link0, value0, link1, value0, xfull)
    requires KeptApart(link1, value0, link2, value0, full + xs[i..j])
    ensures Owns(value0, ns[..k] + xs[i..j] + ns[k..]) && Owns(value0, xs[..i] + xs[j..])
    ensures Values(value0, ns[..k] + xs[i..j] + ns[k..]) ==
            Values(value0, ns)[..k] + Values(value0, xs)[i..j] + Values(value0, ns)[k..]
    ensures Values(value0, xs[..i] + xs[j..]) == Values(value0, xs)[..i] + Values(value0, xs)[j..]
    ensures KeptApart(link0, value0, link2, value0, full + xfull)
  {
    var run := xs[i..j];
    ValuesSlice(value0, xs, i, j);
    ValuesInsert(value0, value0, ns, k, run);
    SliceMembers(xs, i, j);
    ValuesRemove(value0, value0, xs, i, j);
    KeptApartTrans(link0, value0, link1, value0, link2, value0, full + xfull, full + run);
  }

  /** The bookkeeping of moving nodes i .. j - 1 of one list in front of its k-th node. */
  lemma MoveFacts(link0: map<Ptr, Ptr>, link1: map<Ptr, Ptr>, link2: map<Ptr, Ptr>, value0: map<Ptr, int>,
                  bh: Ptr, ns: seq<Ptr>, at: Ptr, i: int, j: int, k: int, k': int)
    requires 0 <= i < j <= |ns| && 0 <= k <= |ns| && (k < i || j < k) && k' == if k < i then k else k - (j - i)
    requires Owns(value0, ns) && value0.Keys <= link0.Keys
    requires KeptApart(link0, value0, link1, value0, FullOf(bh, ns, at))
    requires KeptApart(link1, value0, link2, value0, FullOf(bh, ns[..i] + ns[j..], at) + ns[i..j])
    ensures 0 <= k' <= |ns[..i] + ns[j..]|
    ensures (ns[..i] + ns[j..])[..k'] + ns[i..j] + (ns[..i] + ns[j..])[k'..] == MoveRun(ns, i, j, k)
    ensures Owns(value0, MoveRun(ns, i, j, k))
    ensures Values(value0, MoveRun(ns, i, j, k)) == MoveRun(Values(value0, ns), i, j, k)
    ensures KeptApart(link0, value0, link2, value0, FullOf(bh, ns, at))
  {
    MoveRunAfterCut(ns, i, j, k);
    ValuesMoveRun(value0, ns, i, j, k);
    MovedMembers(bh, ns, at, i, j);
    KeptApartTrans(link0, value0, link1, value0, link2, value0, FullOf(bh, ns, at),
                   FullOf(bh, ns[..i] + ns[j..], at) + ns[i..j]);
  }

  /**
    The state of the `unique` loop after it looked at the first t nodes of
    `ns`: the list is what `unique` keeps of `ns[..t]` (m nodes) followed by
    the unvisited nodes, payloads are as they were, and exactly the erased
    nodes left the memory.
  */
  ghost predicate UniqueState(link: map<Ptr, Ptr>, value: map<Ptr, int>, bh: Ptr, at: Ptr, cur: seq<Ptr>, t: int,
                              m: int, ns: seq<Ptr>, link0: map<Ptr, Ptr>, value0: map<Ptr, int>, full: seq<Ptr>)
  {
    && UniqueShape(value0, cur, t, m, ns)
    && value0.Keys <= link0.Keys && full == FullOf(bh, ns, at)
    && Owns(value, cur) && Owns(value0, cur) && Values(value, cur) == Values(value0, cur)
    && (forall q :: q in link <==> q in link0 && (q in cur || q !in ns))
    && KeptApart(link0, value0, link, value, full)
  }

  /** The list part of `UniqueState`. */
  ghost predicate UniqueShape(value0: map<Ptr, int>, cur: seq<Ptr>, t: int, m: int, ns: seq<Ptr>)
  {
    && 1 <= t <= |ns| && Owns(value0, ns) && Owns(value0, ns[..t])
    && m == |UniqueRuns(value0, ns[..t])|
    && cur == UniqueRuns(value0, ns[..t]) + ns[t..]
  }

  lemma BeginUniqueState(link: map<Ptr, Ptr>, value: map<Ptr, int>, bh: Ptr, at: Ptr, ns: seq<Ptr>)
    requires Owns(value, ns) && value.Keys <= link.Keys && 1 <= |ns|
    ensures UniqueState(link, value, bh, at, ns, 1, 1, ns, link, value, FullOf(bh, ns, at))
  {
    assert ns[..1][1..] == [];
    assert UniqueRuns(value, ns[..1]) == [ns[0]];
    assert [ns[0]] + ns[1..] == ns;
  }

  /** Where the loop stands: the last kept node, then the node it looks at. */
  lemma UniqueShapeFacts(value0: map<Ptr, int>, cur: seq<Ptr>, t: int, m: int, ns: seq<Ptr>)
    requires UniqueShape(value0, cur, t, m, ns)
    ensures 1 <= m <= |cur| && |cur| == m + |ns| - t
    ensures cur[..m] == UniqueRuns(value0, ns[..t])
    ensures t < |ns| ==> cur[m] == ns[t] && cur[m + 1..] == ns[t + 1..]
    ensures forall q :: q in cur ==> q in ns
  {
    assert ns[..t][0] == ns[0];
    var kept := UniqueRuns(value0, ns[..t]);
    if t == 1 {
      assert ns[..1][1..] == [];
    }
    assert cur[..m] == kept;
    forall q | q in cur ensures q in ns {
      if q in kept {
        assert q in ns[..t];
      }
    }
  }

  /** An erased duplicate: the loop moves on without keeping `ns[t]`. */
  lemma UniqueShapeErase(value0: map<Ptr, int>, cur1: seq<Ptr>, cur2: seq<Ptr>, t: int, m: int, ns: seq<Ptr>)
    requires UniqueShape(value0, cur1, t, m, ns) && t < |ns| && 1 <= m < |cur1|
    requires value0[cur1[m - 1]] == value0[cur1[m]] && cur2 == cur1[..m] + cur1[m + 1..]
    ensures UniqueShape(value0, cur2, t + 1, m, ns)
  {
    UniqueShapeFacts(value0, cur1, t, m, ns);
    var kept := UniqueRuns(value0, ns[..t]);
    UniqueRunsSnoc(value0, ns, t);
    assert kept[m - 1] == cur1[m - 1];
    assert Owns(value0, ns[..t + 1]);
  }

  /** A kept node: the loop moves on with `ns[t]` as the last kept node. */
  lemma UniqueShapeKeep(value0: map<Ptr, int>, cur: seq<Ptr>, t: int, m: int, ns: seq<Ptr>)
    requires UniqueShape(value0, cur, t, m, ns) && t < |ns| && 1 <= m < |cur|
    requires value0[cur[m - 1]] != value0[cur[m]]
    ensures UniqueShape(value0, cur, t + 1, m + 1, ns)
  {
    UniqueShapeFacts(value0, cur, t, m, ns);
    var kept := UniqueRuns(value0, ns[..t]);
    UniqueRunsSnoc(value0, ns, t);
    assert kept[m - 1] == cur[m - 1];
    assert Owns(value0, ns[..t + 1]);
    assert cur == kept + [ns[t]] + ns[t + 1..];
  }

  lemma UniqueStateErase(link1: map<Ptr, Ptr>, value1: map<Ptr, int>, link2: map<Ptr, Ptr>, value2: map<Ptr, int>,
                         bh: Ptr, at: Ptr, cur1: seq<Ptr>, cur2: seq<Ptr>, t: int, m: int, ns: seq<Ptr>,
                         link0: map<Ptr, Ptr>, value0: map<Ptr, int>, full: seq<Ptr>)
    requires UniqueState(link1, value1, bh, at, cur1, t, m, ns, link0, value0, full) && t < |ns|
    requires Chain(link1, FullOf(bh, cur1, at)) && 1 <= m < |cur1|
    requires Values(value1, cur1)[m - 1] == Values(value1, cur1)[m]
    requires cur2 == cur1[..m] + cur1[m + 1..]
    requires Owns(value2, cur2) && Values(value2, cur2) == Values(value1, cur1)[..m] + Values(value1, cur1)[m + 1..]
    requires link2.Keys == link1.Keys - {cur1[m]}
    requires KeptApart(link1, value1, link2, value2, FullOf(bh, cur1, at))
    ensures UniqueState(link2, value2, bh, at, cur2, t + 1, m, ns, link0, value0, full)
    ensures |cur2| == m + |ns| - (t + 1)
  {
    UniqueShapeFacts(value0, cur1, t, m, ns);
    assert Values(value0, cur1)[m - 1] == value0[cur1[m - 1]] && Values(value0, cur1)[m] == value0[cur1[m]];
    UniqueShapeErase(value0, cur1, cur2, t, m, ns);
    ValuesErased(value0, value1, value2, cur1, cur2, m);
    EraseKeys(link0, link1, link2, bh, at, cur1, cur2, m, ns);
    EraseFrame(link0, value0, link1, value1, link2, value2, bh, at, cur1, ns, full);
  }

  /** A step that changed nothing outside the current list keeps the frame of the whole operation. */
  lemma EraseFrame(link0: map<Ptr, Ptr>, value0: map<Ptr, int>, link1: map<Ptr, Ptr>, value1: map<Ptr, int>,
                   link2: map<Ptr, Ptr>, value2: map<Ptr, int>, bh: Ptr, at: Ptr, cur1: seq<Ptr>, ns: seq<Ptr>,
                   full: seq<Ptr>)
    requires value0.Keys <= link0.Keys && full == FullOf(bh, ns, at) && (forall q :: q in cur1 ==> q in ns)
    requires KeptApart(link0, value0, link1, value1, full)
    requires KeptApart(link1, value1, link2, value2, FullOf(bh, cur1, at))
    ensures KeptApart(link0, value0, link2, value2, full)
  {
    var full1 := FullOf(bh, cur1, at);
    forall q | q in full1 && q in link0 ensures q in full {
      if q != bh && q != at {
        assert q in cur1;
      }
    }
    KeptApartTrans(link0, value0, link1, value1, link2, value2, full, full1);
  }

  lemma UniqueStateKeep(link: map<Ptr, Ptr>, value: map<Ptr, int>, bh: Ptr, at: Ptr, cur: seq<Ptr>, t: int,
                        m: int, ns: seq<Ptr>, link0: map<Ptr, Ptr>, value0: map<Ptr, int>, full: seq<Ptr>)
    requires UniqueState(link, value, bh, at, cur, t, m, ns, link0, value0, full) && t < |ns| && 1 <= m < |cur|
    requires Values(value, cur)[m - 1] != Values(value, cur)[m]
    ensures UniqueState(link, value, bh, at, cur, t + 1, m + 1, ns, link0, value0, full)
    ensures |cur| == m + |ns| - t
  {
    UniqueShapeFacts(value0, cur, t, m, ns);
    assert Values(value0, cur)[m - 1] == value0[cur[m - 1]] && Values(value0, cur)[m] == value0[cur[m]];
    UniqueShapeKeep(value0, cur, t, m, ns);
  }

  lemma ValuesErased(value0: map<Ptr, int>, value1: map<Ptr, int>, value2: map<Ptr, int>,
                     cur1: seq<Ptr>, cur2: seq<Ptr>, m: int)
    requires Owns(value0, cur1) && Owns(value1, cur1) && Values(value1, cur1) == Values(value0, cur1)
    requires 0 <= m < |cur1| && cur2 == cur1[..m] + cur1[m + 1..]
    requires Owns(value2, cur2) && Values(value2, cur2) == Values(value1, cur1)[..m] + Values(value1, cur1)[m + 1..]
    ensures Owns(value0, cur2) && Values(value2, cur2) == Values(value0, cur2)
  {
    ValuesSlice(value0, cur1, 0, m);
    ValuesSlice(value0, cur1, m + 1, |cur1|);
    assert cur1[0..m] == cur1[..m] && cur1[m + 1..|cur1|] == cur1[m + 1..];
    ValuesConcat(value0, cur1[..m], cur1[m + 1..]);
  }

  /** Erasing the node `cur1[m]` of a chained list takes exactly that node out of the memory. */
  lemma EraseKeys(link0: map<Ptr, Ptr>, link1: map<Ptr, Ptr>, link2: map<Ptr, Ptr>, bh: Ptr, at: Ptr,
                  cur1: seq<Ptr>, cur2: seq<Ptr>, m: int, ns: seq<Ptr>)
    requires Chain(link1, FullOf(bh, cur1, at)) && 0 <= m < |cur1| && cur2 == cur1[..m] + cur1[m + 1..]
    requires cur1[m] in ns && forall q :: q in link1 <==> q in link0 && (q in cur1 || q !in ns)
    requires link2.Keys == link1.Keys - {cur1[m]}
    ensures forall q :: q in link2 <==> q in link0 && (q in cur2 || q !in ns)
  {
    var full1 := FullOf(bh, cur1, at);
    assert cur1[m] !in cur2 by {
      forall u | 0 <= u < |cur2| ensures cur2[u] != cur1[m] {
        if u < m {
          assert cur2[u] == full1[u + 1] && cur1[m] == full1[m + 1];
        } else {
          assert cur2[u] == full1[u + 2] && cur1[m] == full1[m + 1];
        }
      }
    }
    forall q ensures q in link2 <==> q in link0 && (q in cur2 || q !in ns) {
      if q != cur1[m] {
        assert q in cur1 <==> q in cur2 by {
          assert cur1 == cur1[..m] + [cur1[m]] + cur1[m + 1..];
        }
      }
    }
  }

  /** A chain apart from two lists stays apart when all nodes of one move to the other. */
  lemma SwapApart(bh: Ptr, at: Ptr, obh: Ptr, oat: Ptr, os: seq<Ptr>, xs: seq<Ptr>)
    requires Disjoint(xs, FullOf(bh, [], at) + FullOf(obh, os, oat))
    ensures Disjoint(FullOf(bh, [], at) + FullOf(obh, os, oat), xs)
    ensures Disjoint(xs, FullOf(bh, os, at) + FullOf(obh, [], oat))
  {
    forall q | q in FullOf(bh, os, at) + FullOf(obh, [], oat) ensures q in FullOf(bh, [], at) + FullOf(obh, os, oat) {
      if q in os {
        assert q in FullOf(obh, os, oat);
      }
    }
  }
}
