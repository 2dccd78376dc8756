/**
  The pointer algebra of the XOR-linked list, its cursor, and the three O(1)
  link rewrites (insert one node, insert a detached run, cut a run) stated as
  functions from the old link fields to the new ones.

  A node address is the natural number the source obtains by reinterpreting
  the pointer as an unsigned integer, and 0 plays the part of nullptr. The
  link fields of all nodes are one map from address to link word, so a
  rewrite of a node's `xorPtr` is an update of that map.
*/
module XorLinks {

  /** A node address reinterpreted as an unsigned integer. */
  type Ptr = nat

  /** nullptr. */
  const Null: Ptr := 0

  /** Bitwise exclusive or of two unsigned integers, least significant bit first. */
  function XorPointers(a: Ptr, b: Ptr): Ptr
    decreases a + b
  {
    if a == 0 && b == 0 then 0
    else 2 * XorPointers(a / 2, b / 2) + (if a % 2 == b % 2 then 0 else 1)
  }

  /** nullptr is the neutral element: a link word with one null neighbour is the other neighbour. */
  lemma {:induction false} XorWithNull(a: Ptr)
    ensures XorPointers(a, Null) == a && XorPointers(Null, a) == a
    decreases a
  {
    if a != 0 {
      XorWithNull(a / 2);
    }
  }

  lemma {:induction false} XorCommutes(a: Ptr, b: Ptr)
    ensures XorPointers(a, b) == XorPointers(b, a)
    decreases a + b
  {
    if a != 0 || b != 0 {
      XorCommutes(a / 2, b / 2);
    }
  }

  /** Taking one neighbour out of a link word gives back the other one. */
  lemma {:induction false} XorCancel(a: Ptr, b: Ptr)
    ensures XorPointers(XorPointers(a, b), b) == a
    decreases a + b
  {
    var x := XorPointers(a, b);
    if a == 0 && b == 0 {
    } else {
      XorCancel(a / 2, b / 2);
      var h := XorPointers(a / 2, b / 2);
      assert x / 2 == h && x % 2 == (if a % 2 == b % 2 then 0 else 1);
      if x == 0 && b == 0 {
        XorWithNull(a / 2);
      }
    }
  }

  /** The same, with the neighbour that is taken out written first. */
  lemma XorCancelLeft(a: Ptr, b: Ptr)
    ensures XorPointers(b, XorPointers(b, a)) == a
  {
    XorCommutes(b, a);
    XorCommutes(b, XorPointers(a, b));
    XorCancel(a, b);
  }

  // ---------------------------------------------------------------------------
  // Cursor (IteratorBase)
  // ---------------------------------------------------------------------------

  /** An iterator: the address it came from and the address it stands on. */
  datatype Cursor = Cursor(prev: Ptr, current: Ptr)

  /** A pair of iterators, as `std::pair<iterator, iterator>`. */
  datatype Range = Range(first: Cursor, second: Cursor)

  /** `operator==`: two cursors are equal when they stand on the same node. */
  predicate SamePosition(a: Cursor, b: Cursor)
  {
    a.current == b.current
  }

  /** `operator++`: the next node is the current link word with `prev` taken out. */
  function Next(link: map<Ptr, Ptr>, c: Cursor): (r: Cursor)
    requires c.current in link
    ensures r.prev == c.current
    ensures XorPointers(link[c.current], r.current) == c.prev
  {
    XorCommutes(c.prev, link[c.current]);
    XorCancelLeft(c.prev, link[c.current]);
    Cursor(c.current, XorPointers(c.prev, link[c.current]))
  }

  /** `operator--`: the new `prev` is the link word of `prev` with `current` taken out. */
  function Prev(link: map<Ptr, Ptr>, c: Cursor): (r: Cursor)
    requires c.prev in link
    ensures r.current == c.prev
    ensures XorPointers(link[c.prev], r.prev) == c.current
  {
    XorCancelLeft(c.current, link[c.prev]);
    Cursor(XorPointers(link[c.prev], c.current), c.prev)
  }

  /** Stepping forward and back returns the same (prev, current) pair, whatever the links hold. */
  lemma NextThenPrev(link: map<Ptr, Ptr>, c: Cursor)
    requires c.current in link
    ensures Prev(link, Next(link, c)) == c
  {
  }

  /** Stepping back and forward returns the same (prev, current) pair. */
  lemma PrevThenNext(link: map<Ptr, Ptr>, c: Cursor)
    requires c.prev in link
    ensures Next(link, Prev(link, c)) == c
  {
    XorCommutes(link[c.prev], c.current);
    XorCancel(c.current, link[c.prev]);
  }

  /** `n` applications of `operator++` (a walk stops at a node that has no link field). */
  function Walk(link: map<Ptr, Ptr>, c: Cursor, n: nat): Cursor
    decreases n
  {
    if n == 0 || c.current !in link then c else Walk(link, Next(link, c), n - 1)
  }

  /** `n` applications of `operator--`. */
  function WalkBack(link: map<Ptr, Ptr>, c: Cursor, n: nat): Cursor
    decreases n
  {
    if n == 0 || c.prev !in link then c else WalkBack(link, Prev(link, c), n - 1)
  }

  // ---------------------------------------------------------------------------
  // Chains: sequences of nodes whose link words agree with their neighbours
  // ---------------------------------------------------------------------------

  /** The i-th node of `c`, or nullptr outside it. */
  function At(c: seq<Ptr>, i: int): Ptr
  {
    if 0 <= i < |c| then c[i] else Null
  }

  function First0(c: seq<Ptr>): Ptr
  {
    At(c, 0)
  }

  function Last0(c: seq<Ptr>): Ptr
  {
    At(c, |c| - 1)
  }

  /** The cursor that stands on the first node of `b` having come from the last node of `a`. */
  function Between(a: seq<Ptr>, b: seq<Ptr>): Cursor
  {
    Cursor(Last0(a), First0(b))
  }

  ghost predicate Distinct(c: seq<Ptr>)
  {
    forall i, j :: 0 <= i < j < |c| ==> c[i] != c[j]
  }

  ghost predicate Disjoint(a: seq<Ptr>, b: seq<Ptr>)
  {
    forall x :: x in a ==> x !in b
  }

  /**
    The XOR-link invariant for a chain of distinct nodes that ends in nullptr
    on both sides: every node's link word is the XOR of its two neighbours.
  */
  ghost predicate Chain(link: map<Ptr, Ptr>, c: seq<Ptr>)
  {
    && Distinct(c)
    && Null !in c
    && forall i {:trigger LinkOk(link, c, i)} :: 0 <= i < |c| ==> LinkOk(link, c, i)
  }

  /** The link word of the i-th node of `c` stores its two neighbours in `c`. */
  ghost predicate LinkOk(link: map<Ptr, Ptr>, c: seq<Ptr>, i: int)
    requires 0 <= i < |c|
  {
    c[i] in link && link[c[i]] == XorPointers(At(c, i - 1), At(c, i + 1))
  }


  /** A chain stays a chain when none of its nodes' link words changed. */
  lemma ChainFrame(link: map<Ptr, Ptr>, link': map<Ptr, Ptr>, c: seq<Ptr>)
    requires Chain(link, c)
    requires forall x :: x in c ==> x in link && x in link' && link'[x] == link[x]
    ensures Chain(link', c)
  {
    forall i | 0 <= i < |c| ensures LinkOk(link', c, i) {
      assert LinkOk(link, c, i);
      assert c[i] in c;
    }
  }

  /** Both pieces of a chain have distinct, non-null nodes, and no node in common. */
  lemma ChainParts(link: map<Ptr, Ptr>, a: seq<Ptr>, b: seq<Ptr>)
    requires Chain(link, a + b)
    ensures Distinct(a) && Distinct(b) && Disjoint(a, b) && Null !in a && Null !in b
  {
    var c := a + b;
    forall i, j | 0 <= i < j < |b| ensures b[i] != b[j] {
      assert b[i] == c[|a| + i] && b[j] == c[|a| + j];
    }
    forall i, j | 0 <= i < j < |a| ensures a[i] != a[j] {
      assert a[i] == c[i] && a[j] == c[j];
    }
    forall i, j | 0 <= i < |a| && 0 <= j < |b| ensures a[i] != b[j] {
      assert a[i] == c[i] && b[j] == c[|a| + j];
    }
    forall i | 0 <= i < |a| ensures a[i] != Null {
      assert a[i] == c[i];
    }
    forall j | 0 <= j < |b| ensures b[j] != Null {
      assert b[j] == c[|a| + j];
    }
  }

  /** `operator++` on a chain moves the boundary one node to the right. */
  lemma NextInChain(link: map<Ptr, Ptr>, a: seq<Ptr>, b: seq<Ptr>)
    requires Chain(link, a + b) && b != []
    ensures b[0] in link
    ensures Next(link, Between(a, b)) == Between(a + [b[0]], b[1..])
  {
    var c := a + b;
    var k := |a|;
    assert LinkOk(link, c, k);
    assert c[k] == b[0];
    assert At(c, k - 1) == Last0(a);
    assert At(c, k + 1) == First0(b[1..]);
    assert Last0(a + [b[0]]) == b[0];
    XorCancelLeft(At(c, k + 1), At(c, k - 1));
  }

  /** `operator++` inside a detached run whose node m still has its link word. */
  lemma NextInRun(link: map<Ptr, Ptr>, run: seq<Ptr>, m: int)
    requires 0 <= m < |run| && LinkOk(link, run, m)
    ensures run[m] in link
    ensures Next(link, Between(run[..m], run[m..])) == Between(run[..m + 1], run[m + 1..])
  {
    assert At(run, m - 1) == Last0(run[..m]);
    assert First0(run[m..]) == run[m];
    assert At(run, m + 1) == First0(run[m + 1..]);
    assert Last0(run[..m + 1]) == run[m];
    XorCancelLeft(At(run, m + 1), At(run, m - 1));
  }

  /** `operator--` on a chain moves the boundary one node to the left. */
  lemma PrevInChain(link: map<Ptr, Ptr>, a: seq<Ptr>, b: seq<Ptr>)
    requires Chain(link, a + b) && a != []
    ensures a[|a| - 1] in link
    ensures Prev(link, Between(a, b)) == Between(a[..|a| - 1], [a[|a| - 1]] + b)
  {
    var c := a + b;
    var k := |a| - 1;
    assert LinkOk(link, c, k);
    assert c[k] == a[k];
    assert At(c, k - 1) == Last0(a[..k]);
    assert At(c, k + 1) == First0(b);
    XorCancel(At(c, k - 1), At(c, k + 1));
  }

  /** Walking `n` steps forward inside a chain crosses exactly the next `n` nodes. */
  lemma {:induction false} WalkInChain(link: map<Ptr, Ptr>, a: seq<Ptr>, b: seq<Ptr>, n: nat)
    requires Chain(link, a + b) && n <= |b|
    ensures Walk(link, Between(a, b), n) == Between(a + b[..n], b[n..])
    decreases n
  {
    if n == 0 {
      assert a + b[..0] == a && b[0..] == b;
    } else {
      NextInChain(link, a, b);
      assert (a + [b[0]]) + b[1..] == a + b;
      WalkInChain(link, a + [b[0]], b[1..], n - 1);
      assert b[1..][..n - 1] == b[1..n] && b[1..][n - 1..] == b[n..];
      assert b[..n] == [b[0]] + b[1..n];
      assert (a + [b[0]]) + b[1..n] == a + ([b[0]] + b[1..n]);
    }
  }

  /** Walking `n` steps backward inside a chain crosses exactly the previous `n` nodes. */
  lemma {:induction false} WalkBackInChain(link: map<Ptr, Ptr>, a: seq<Ptr>, b: seq<Ptr>, n: nat)
    requires Chain(link, a + b) && n <= |a|
    ensures WalkBack(link, Between(a, b), n) == Between(a[..|a| - n], a[|a| - n..] + b)
    decreases n
  {
    if n == 0 {
      assert a[..|a|] == a && a[|a|..] + b == b;
    } else {
      var k := |a| - 1;
      PrevInChain(link, a, b);
      assert a[..k] + ([a[k]] + b) == a + b;
      WalkBackInChain(link, a[..k], [a[k]] + b, n - 1);
      assert a[..k][..|a[..k]| - (n - 1)] == a[..|a| - n];
      assert a[..k][|a[..k]| - (n - 1)..] + ([a[k]] + b) == a[|a| - n..] + b;
    }
  }

  /** The chain read backwards is a chain, because a link word does not depend on the order of its pair. */
  lemma ChainReversed(link: map<Ptr, Ptr>, c: seq<Ptr>, r: seq<Ptr>)
    requires Chain(link, c)
    requires |r| == |c| && forall i :: 0 <= i < |c| ==> r[i] == c[|c| - 1 - i]
    ensures Chain(link, r)
  {
    var n := |c|;
    forall i, j | 0 <= i < j < n ensures r[i] != r[j] {
      assert r[i] == c[n - 1 - i] && r[j] == c[n - 1 - j];
    }
    forall i | 0 <= i < n ensures r[i] != Null {
      assert r[i] == c[n - 1 - i];
    }
    forall i | 0 <= i < n ensures LinkOk(link, r, i) {
      var k := n - 1 - i;
      assert LinkOk(link, c, k);
      assert r[i] == c[k];
      assert At(r, i - 1) == At(c, k + 1);
      assert At(r, i + 1) == At(c, k - 1);
      XorCommutes(At(c, k - 1), At(c, k + 1));
    }
  }

  // ---------------------------------------------------------------------------
  // The three link rewrites, in the order the source performs its writes
  // ---------------------------------------------------------------------------

  /**
    `p->xorPtr = xorPointers(xorPointers(p->xorPtr, gone), added)`: node `p`
    forgets neighbour `gone` and takes `added` in its place.
  */
  function Relink(link: map<Ptr, Ptr>, p: Ptr, gone: Ptr, added: Ptr): (r: map<Ptr, Ptr>)
    requires p in link
    ensures r.Keys == link.Keys
    ensures r[p] == XorPointers(XorPointers(link[p], gone), added)
    ensures forall q :: q in link && q != p ==> r[q] == link[q]
  {
    link[p := XorPointers(XorPointers(link[p], gone), added)]
  }

  /** The meaning of `Relink`: if p's word pairs `other` with `gone`, afterwards it pairs `other` with `added`. */
  lemma RelinkReplaces(link: map<Ptr, Ptr>, p: Ptr, gone: Ptr, added: Ptr, other: Ptr)
    requires p in link && link[p] == XorPointers(other, gone)
    ensures Relink(link, p, gone, added)[p] == XorPointers(other, added)
  {
    XorCancel(other, gone);
  }

  /** The same rewrite guarded by `if (p)`, as the source does for a neighbour that may be nullptr. */
  function RelinkIf(link: map<Ptr, Ptr>, p: Ptr, gone: Ptr, added: Ptr): (r: map<Ptr, Ptr>)
    requires p != Null ==> p in link
    ensures r.Keys == link.Keys
    ensures p != Null ==> r[p] == XorPointers(XorPointers(link[p], gone), added)
    ensures forall q :: q in link && q != p ==> r[q] == link[q]
  {
    if p != Null then Relink(link, p, gone, added) else link
  }

  /** The link words after `insertNodeBefore(position, node)`. */
  function InsertNodeLinks(link: map<Ptr, Ptr>, position: Cursor, node: Ptr): (r: map<Ptr, Ptr>)
    requires node in link
    requires position.prev != Null ==> position.prev in link
    requires position.current != Null ==> position.current in link
    ensures r.Keys == link.Keys
    ensures forall q :: q in link && q != node && q != position.prev && q != position.current ==> r[q] == link[q]
  {
    var l1 := link[node := XorPointers(position.prev, position.current)];
    var l2 := RelinkIf(l1, position.prev, position.current, node);
    RelinkIf(l2, position.current, position.prev, node)
  }

  /** The link words after `insertSequenceBefore(position, begin, end)`. */
  function InsertSequenceLinks(link: map<Ptr, Ptr>, position: Cursor, begin: Cursor, end: Cursor): (r: map<Ptr, Ptr>)
    requires begin.current in link && end.prev in link
    requires position.prev != Null ==> position.prev in link
    requires position.current != Null ==> position.current in link
    ensures r.Keys == link.Keys
    ensures forall q :: q in link && q != begin.current && q != end.prev && q != position.prev && q != position.current
                        ==> r[q] == link[q]
  {
    var l1 := Relink(link, begin.current, begin.prev, position.prev);
    var l2 := Relink(l1, end.prev, end.current, position.current);
    var l3 := RelinkIf(l2, position.prev, position.current, begin.current);
    RelinkIf(l3, position.current, position.prev, end.prev)
  }

  /** The link words after `cutSequence(begin, end)`. */
  function CutLinks(link: map<Ptr, Ptr>, begin: Cursor, end: Cursor): (r: map<Ptr, Ptr>)
    requires begin.current in link && end.prev in link
    requires begin.prev != Null ==> begin.prev in link
    requires end.current != Null ==> end.current in link
    ensures r.Keys == link.Keys
    ensures forall q :: q in link && q != begin.prev && q != end.current && q != begin.current && q != end.prev
                        ==> r[q] == link[q]
  {
    var l1 := RelinkIf(link, begin.prev, begin.current, end.current);
    var l2 := RelinkIf(l1, end.current, end.prev, begin.prev);
    var l3 := Relink(l2, begin.current, begin.prev, Null);
    Relink(l3, end.prev, end.current, Null)
  }

  /** `cutSequence` hands back the cut run as a pair of cursors and the cursor that now bridges the gap. */
  datatype CutResult = CutResult(cutted: Range, end: Cursor)

  // ---------------------------------------------------------------------------
  // What the rewrites do to chains
  // ---------------------------------------------------------------------------

  /** A link word {a, n} that forgets `n` and takes `m` becomes {a, m}. */
  lemma ReplaceSecond(a: Ptr, n: Ptr, m: Ptr)
    ensures XorPointers(XorPointers(XorPointers(a, n), n), m) == XorPointers(a, m)
  {
    XorCancel(a, n);
  }

  /** A link word {p, b} that forgets `p` and takes `m` becomes {m, b}. */
  lemma ReplaceFirst(p: Ptr, b: Ptr, m: Ptr)
    ensures XorPointers(XorPointers(XorPointers(p, b), p), m) == XorPointers(m, b)
  {
    XorCommutes(p, b);
    XorCancel(b, p);
    XorCommutes(b, m);
  }

  lemma DistinctParts(a: seq<Ptr>, b: seq<Ptr>)
    requires Distinct(a + b)
    ensures Distinct(a) && Distinct(b) && Disjoint(a, b)
  {
    var c := a + b;
    forall i, j | 0 <= i < j < |b| ensures b[i] != b[j] {
      assert b[i] == c[|a| + i] && b[j] == c[|a| + j];
    }
    forall i, j | 0 <= i < j < |a| ensures a[i] != a[j] {
      assert a[i] == c[i] && a[j] == c[j];
    }
    forall i, j | 0 <= i < |a| && 0 <= j < |b| ensures a[i] != b[j] {
      assert a[i] == c[i] && b[j] == c[|a| + j];
    }
  }

  lemma DistinctConcat(a: seq<Ptr>, b: seq<Ptr>)
    requires Distinct(a) && Distinct(b) && Disjoint(a, b)
    ensures Distinct(a + b)
  {
    var c := a + b;
    forall i, j | 0 <= i < j < |c| ensures c[i] != c[j] {
      if j < |a| {
        assert c[i] == a[i] && c[j] == a[j];
      } else if i >= |a| {
        assert c[i] == b[i - |a|] && c[j] == b[j - |a|];
      } else {
        assert c[i] == a[i] && c[j] == b[j - |a|];
        assert a[i] in a;
      }
    }
  }

  /** A chain stays a chain when only link words of nodes in `s`, none of them in the chain, changed. */
  lemma ChainOutside(link: map<Ptr, Ptr>, link': map<Ptr, Ptr>, c: seq<Ptr>, s: seq<Ptr>)
    requires Chain(link, c) && Disjoint(s, c)
    requires forall q :: q in link && q !in s ==> q in link' && link'[q] == link[q]
    ensures Chain(link', c)
  {
    forall i | 0 <= i < |c| ensures LinkOk(link', c, i) {
      assert c[i] in c;
      assert LinkOk(link, c, i);
    }
  }

  /**
    `cutSequence` on the first node of a detached chain `F`: the rest of `F`
    stays a chain, and no node outside `F` has its link word changed.
  */
  lemma CutHead(link: map<Ptr, Ptr>, F: seq<Ptr>)
    requires Chain(link, F) && F != [] && Null !in link
    ensures F[0] in link && Between([], F).current == F[0] && Between([F[0]], F[1..]).prev == F[0]
    ensures Between([], F).prev == Null
    ensures Between([F[0]], F[1..]).current != Null ==> Between([F[0]], F[1..]).current in link
    ensures Chain(CutLinks(link, Between([], F), Between([F[0]], F[1..])), F[1..])
    ensures forall q :: q in link && q !in F ==> CutLinks(link, Between([], F), Between([F[0]], F[1..]))[q] == link[q]
  {
    assert [] + [F[0]] + F[1..] == F;
    assert [] + ([F[0]] + F[1..]) == F;
    assert [] + [F[0]] == [F[0]];
    CutChain(link, [], [F[0]], F[1..]);
    assert [] + F[1..] == F[1..];
    assert F[0] in F;
    if |F| > 1 { assert F[1] in F; }
  }

  /**
    Inserting a free node at the boundary between `a` and `b` of a chain
    gives the chain `a + [node] + b`.
  */
  lemma InsertNodeChain(link: map<Ptr, Ptr>, a: seq<Ptr>, b: seq<Ptr>, node: Ptr)
    requires Chain(link, a + b)
    requires node != Null && node in link && node !in a + b
    ensures Between(a, b).prev != Null ==> Between(a, b).prev in link
    ensures Between(a, b).current != Null ==> Between(a, b).current in link
    ensures Chain(InsertNodeLinks(link, Between(a, b), node), a + [node] + b)
  {
    var c := a + b;
    var c' := a + [node] + b;
    var k := |a|;
    var p := Between(a, b);
    ChainParts(link, a, b);
    DistinctConcat(a, [node]);
    DistinctConcat(a + [node], b);
    if a != [] { assert c[k - 1] == p.prev; assert LinkOk(link, c, k - 1); }
    if b != [] { assert c[k] == p.current; assert LinkOk(link, c, k); }
    var l := InsertNodeLinks(link, p, node);
    forall i | 0 <= i < |c'| ensures LinkOk(l, c', i) {
      if i < k - 1 || i > k + 1 {
        var j := if i < k then i else i - 1;
        assert c'[i] == c[j];
        assert LinkOk(link, c, j);
        assert At(c', i - 1) == At(c, j - 1) && At(c', i + 1) == At(c, j + 1);
        assert c[j] != p.prev && c[j] != p.current;
      } else if i == k - 1 {
        assert c'[i] == p.prev && At(c', i + 1) == node && At(c', i - 1) == At(c, k - 2);
        ReplaceSecond(At(c, k - 2), p.current, node);
      } else if i == k {
        assert c'[i] == node && At(c', i - 1) == p.prev && At(c', i + 1) == p.current;
      } else {
        assert c'[i] == p.current && At(c', i - 1) == node && At(c', i + 1) == At(c, k + 1);
        ReplaceFirst(p.prev, At(c, k + 1), node);
      }
    }
  }

  /**
    Cutting the run `r` out of the chain `a + r + b` leaves the chain `a + b`
    and makes `r` a chain of its own whose outer ends hold nullptr.
  */
  lemma CutChain(link: map<Ptr, Ptr>, a: seq<Ptr>, r: seq<Ptr>, b: seq<Ptr>)
    requires Chain(link, a + r + b) && r != []
    ensures Between(a, r + b).current in link && Between(a + r, b).prev in link
    ensures Between(a, r + b).prev != Null ==> Between(a, r + b).prev in link
    ensures Between(a + r, b).current != Null ==> Between(a + r, b).current in link
    ensures Chain(CutLinks(link, Between(a, r + b), Between(a + r, b)), a + b)
    ensures Chain(CutLinks(link, Between(a, r + b), Between(a + r, b)), r)
  {
    CutFacts(link, a, r, b);
    var l := CutLinks(link, Between(a, r + b), Between(a + r, b));
    forall i | 0 <= i < |a + b| ensures LinkOk(l, a + b, i) {
      CutRestLinkOk(link, a, r, b, i);
    }
    forall i | 0 <= i < |r| ensures LinkOk(l, r, i) {
      CutRunLinkOk(link, a, r, b, i);
    }
  }

  /** Where the four rewritten nodes of a cut sit, and that they are pairwise apart. */
  lemma CutFacts(link: map<Ptr, Ptr>, a: seq<Ptr>, r: seq<Ptr>, b: seq<Ptr>)
    requires Chain(link, a + r + b) && r != []
    ensures Between(a, r + b).current in link && Between(a + r, b).prev in link
    ensures Between(a, r + b).prev != Null ==> Between(a, r + b).prev in link
    ensures Between(a + r, b).current != Null ==> Between(a + r, b).current in link
    ensures Distinct(a + b) && Distinct(r) && Disjoint(r, a + b) && Null !in a + b && Null !in r
    ensures Between(a, r + b).current == r[0] && Between(a + r, b).prev == r[|r| - 1]
    ensures Between(a, r + b).prev == Last0(a) && Between(a + r, b).current == First0(b)
  {
    var c := a + r + b;
    var ka := |a|;
    var kb := |a| + |r|;
    assert c == a + (r + b);
    ChainParts(link, a + r, b);
    ChainParts(link, a, r + b);
    DistinctParts(a, r);
    DistinctParts(r, b);
    DistinctConcat(a, b);
    assert c[ka] == r[0];
    assert c[kb - 1] == r[|r| - 1];
    assert LinkOk(link, c, ka) && LinkOk(link, c, kb - 1);
    if a != [] { assert c[ka - 1] == Last0(a); assert LinkOk(link, c, ka - 1); }
    if b != [] { assert c[kb] == First0(b); assert LinkOk(link, c, kb); }
    assert Last0(a + r) == r[|r| - 1];
  }

  lemma CutRestLinkOk(link: map<Ptr, Ptr>, a: seq<Ptr>, r: seq<Ptr>, b: seq<Ptr>, i: int)
    requires Chain(link, a + r + b) && r != [] && 0 <= i < |a + b|
    requires Between(a, r + b).current in link && Between(a + r, b).prev in link
    requires Between(a, r + b).prev != Null ==> Between(a, r + b).prev in link
    requires Between(a + r, b).current != Null ==> Between(a + r, b).current in link
    ensures LinkOk(CutLinks(link, Between(a, r + b), Between(a + r, b)), a + b, i)
  {
    var c := a + r + b;
    var ab := a + b;
    var ka := |a|;
    var kb := |a| + |r|;
    var begin := Between(a, r + b);
    var end := Between(a + r, b);
    assert c[ka] == begin.current && c[kb - 1] == end.prev;
    if a != [] { assert c[ka - 1] == begin.prev; }
    if b != [] { assert c[kb] == end.current; }
    var j := if i < ka then i else i + |r|;
    assert ab[i] == c[j];
    assert LinkOk(link, c, j);
    if i < ka - 1 || i > ka {
      assert At(ab, i - 1) == At(c, j - 1) && At(ab, i + 1) == At(c, j + 1);
      assert c[j] != c[ka] && c[j] != c[kb - 1];
      if a != [] { assert c[j] != c[ka - 1]; }
      if b != [] { assert c[j] != c[kb]; }
    } else if i == ka - 1 {
      assert At(ab, i - 1) == At(c, ka - 2) && At(ab, i + 1) == end.current && At(c, j + 1) == begin.current;
      assert c[j] != c[ka] && c[j] != c[kb - 1];
      if b != [] { assert c[j] != c[kb]; }
      ReplaceSecond(At(c, ka - 2), begin.current, end.current);
    } else {
      assert At(ab, i - 1) == begin.prev && At(ab, i + 1) == At(c, kb + 1) && At(c, j - 1) == end.prev;
      assert c[j] != c[ka] && c[j] != c[kb - 1];
      ReplaceFirst(end.prev, At(c, kb + 1), begin.prev);
    }
  }

  lemma CutRunLinkOk(link: map<Ptr, Ptr>, a: seq<Ptr>, r: seq<Ptr>, b: seq<Ptr>, i: int)
    requires Chain(link, a + r + b) && r != [] && 0 <= i < |r|
    requires Between(a, r + b).current in link && Between(a + r, b).prev in link
    requires Between(a, r + b).prev != Null ==> Between(a, r + b).prev in link
    requires Between(a + r, b).current != Null ==> Between(a + r, b).current in link
    ensures LinkOk(CutLinks(link, Between(a, r + b), Between(a + r, b)), r, i)
  {
    var c := a + r + b;
    var ka := |a|;
    var kb := |a| + |r|;
    var begin := Between(a, r + b);
    var end := Between(a + r, b);
    assert c[ka] == begin.current && c[kb - 1] == end.prev;
    assert At(c, ka - 1) == begin.prev && At(c, kb) == end.current;
    var j := ka + i;
    assert r[i] == c[j];
    assert LinkOk(link, c, j);
    if a != [] { assert c[j] != c[ka - 1]; }
    if b != [] { assert c[j] != c[kb]; }
    if |r| == 1 {
      ReplaceFirst(begin.prev, end.current, Null);
      ReplaceSecond(Null, end.current, Null);
    } else if i == 0 {
      assert At(c, j + 1) == At(r, 1);
      assert c[j] != c[kb - 1];
      ReplaceFirst(begin.prev, At(r, 1), Null);
    } else if i == |r| - 1 {
      assert At(c, j - 1) == At(r, i - 1);
      assert c[j] != c[ka];
      ReplaceSecond(At(r, i - 1), end.current, Null);
    } else {
      assert At(c, j - 1) == At(r, i - 1) && At(c, j + 1) == At(r, i + 1);
      assert c[j] != c[ka] && c[j] != c[kb - 1];
    }
  }

  /**
    Inserting a detached chain `r` at the boundary between `a` and `b` of a
    chain gives the chain `a + r + b`.
  */
  lemma InsertSequenceChain(link: map<Ptr, Ptr>, a: seq<Ptr>, b: seq<Ptr>, r: seq<Ptr>)
    requires Chain(link, a + b) && Chain(link, r) && r != [] && Disjoint(r, a + b)
    ensures Between([], r).current in link && Between(r, []).prev in link
    ensures Between(a, b).prev != Null ==> Between(a, b).prev in link
    ensures Between(a, b).current != Null ==> Between(a, b).current in link
    ensures Chain(InsertSequenceLinks(link, Between(a, b), Between([], r), Between(r, [])), a + r + b)
  {
    var c := a + b;
    var k := |a|;
    ChainParts(link, a, b);
    assert Disjoint(a, r) && Disjoint(r, b);
    DistinctConcat(a, r);
    assert Disjoint(a + r, b);
    DistinctConcat(a + r, b);
    assert LinkOk(link, r, 0) && LinkOk(link, r, |r| - 1);
    if a != [] { assert c[k - 1] == Last0(a); assert LinkOk(link, c, k - 1); }
    if b != [] { assert c[k] == First0(b); assert LinkOk(link, c, k); }
    forall i | 0 <= i < |a + r + b|
      ensures LinkOk(InsertSequenceLinks(link, Between(a, b), Between([], r), Between(r, [])), a + r + b, i)
    {
      InsertSequenceLinkOk(link, a, b, r, i);
    }
  }

  lemma InsertSequenceLinkOk(link: map<Ptr, Ptr>, a: seq<Ptr>, b: seq<Ptr>, r: seq<Ptr>, i: int)
    requires Chain(link, a + b) && Chain(link, r) && r != [] && Disjoint(r, a + b)
    requires 0 <= i < |a + r + b|
    ensures Between([], r).current in link && Between(r, []).prev in link
    ensures Between(a, b).prev != Null ==> Between(a, b).prev in link
    ensures Between(a, b).current != Null ==> Between(a, b).current in link
    ensures LinkOk(InsertSequenceLinks(link, Between(a, b), Between([], r), Between(r, [])), a + r + b, i)
  {
    InsertSequenceFacts(link, a, b, r);
    if i < |a| - 1 || i > |a| + |r| {
      InsertSequenceOuter(link, a, b, r, i);
    } else if i == |a| - 1 || i == |a| + |r| {
      InsertSequenceBorder(link, a, b, r, i);
    } else {
      InsertSequenceInner(link, a, b, r, i);
    }
  }

  /** The facts about the four rewritten nodes that every case below relies on. */
  lemma InsertSequenceFacts(link: map<Ptr, Ptr>, a: seq<Ptr>, b: seq<Ptr>, r: seq<Ptr>)
    requires Chain(link, a + b) && Chain(link, r) && r != [] && Disjoint(r, a + b)
    ensures Between([], r).current in link && Between(r, []).prev in link
    ensures Between(a, b).prev != Null ==> Between(a, b).prev in link
    ensures Between(a, b).current != Null ==> Between(a, b).current in link
    ensures Distinct(a + b) && Null !in a + b && Null !in r && Distinct(r)
    ensures r[0] in r && r[|r| - 1] in r
    ensures a != [] ==> Last0(a) in a + b && Last0(a) != First0(b)
    ensures b != [] ==> First0(b) in a + b
  {
    var c := a + b;
    var k := |a|;
    assert LinkOk(link, r, 0) && LinkOk(link, r, |r| - 1);
    if a != [] { assert c[k - 1] == Last0(a); assert LinkOk(link, c, k - 1); }
    if b != [] { assert c[k] == First0(b); assert LinkOk(link, c, k); }
    if a != [] && b != [] { assert c[k - 1] != c[k]; }
  }

  lemma InsertSequenceOuter(link: map<Ptr, Ptr>, a: seq<Ptr>, b: seq<Ptr>, r: seq<Ptr>, i: int)
    requires Chain(link, a + b) && Chain(link, r) && r != [] && Disjoint(r, a + b)
    requires 0 <= i < |a + r + b| && (i < |a| - 1 || i > |a| + |r|)
    requires Between([], r).current in link && Between(r, []).prev in link
    requires Between(a, b).prev != Null ==> Between(a, b).prev in link
    requires Between(a, b).current != Null ==> Between(a, b).current in link
    ensures LinkOk(InsertSequenceLinks(link, Between(a, b), Between([], r), Between(r, [])), a + r + b, i)
  {
    var c := a + b;
    var c' := a + r + b;
    var k := |a|;
    var j := if i < k then i else i - |r|;
    assert c'[i] == c[j];
    assert LinkOk(link, c, j);
    assert At(c', i - 1) == At(c, j - 1) && At(c', i + 1) == At(c, j + 1);
    assert c[j] in c;
    if a != [] { assert c[j] != c[k - 1]; }
    if b != [] { assert c[j] != c[k]; }
  }

  lemma InsertSequenceBorder(link: map<Ptr, Ptr>, a: seq<Ptr>, b: seq<Ptr>, r: seq<Ptr>, i: int)
    requires Chain(link, a + b) && Chain(link, r) && r != [] && Disjoint(r, a + b)
    requires 0 <= i < |a + r + b| && (i == |a| - 1 || i == |a| + |r|)
    requires Between([], r).current in link && Between(r, []).prev in link
    requires Between(a, b).prev != Null ==> Between(a, b).prev in link
    requires Between(a, b).current != Null ==> Between(a, b).current in link
    requires Null !in r && r[0] in r && r[|r| - 1] in r
    requires a != [] ==> Last0(a) in a + b && Last0(a) != First0(b)
    requires b != [] ==> First0(b) in a + b
    ensures LinkOk(InsertSequenceLinks(link, Between(a, b), Between([], r), Between(r, [])), a + r + b, i)
  {
    var c := a + b;
    var c' := a + r + b;
    var k := |a|;
    var p := Between(a, b);
    if i == k - 1 {
      assert LinkOk(link, c, k - 1);
      assert c'[i] == p.prev == c[k - 1] && At(c', i - 1) == At(c, k - 2) && At(c', i + 1) == r[0];
      assert At(c, k) == p.current;
      ReplaceSecond(At(c, k - 2), p.current, r[0]);
    } else {
      assert LinkOk(link, c, k);
      assert c'[i] == p.current == c[k] && At(c', i - 1) == r[|r| - 1] && At(c', i + 1) == At(c, k + 1);
      assert At(c, k - 1) == p.prev;
      ReplaceFirst(p.prev, At(c, k + 1), r[|r| - 1]);
    }
  }

  lemma InsertSequenceInner(link: map<Ptr, Ptr>, a: seq<Ptr>, b: seq<Ptr>, r: seq<Ptr>, i: int)
    requires Chain(link, a + b) && Chain(link, r) && r != [] && Disjoint(r, a + b)
    requires |a| <= i < |a| + |r|
    requires Between([], r).current in link && Between(r, []).prev in link
    requires Between(a, b).prev != Null ==> Between(a, b).prev in link
    requires Between(a, b).current != Null ==> Between(a, b).current in link
    requires a != [] ==> Last0(a) in a + b
    requires b != [] ==> First0(b) in a + b
    ensures LinkOk(InsertSequenceLinks(link, Between(a, b), Between([], r), Between(r, [])), a + r + b, i)
  {
    var c' := a + r + b;
    var k := |a|;
    var p := Between(a, b);
    var j := i - k;
    assert c'[i] == r[j];
    assert LinkOk(link, r, j);
    assert r[j] in r;
    if |r| == 1 {
      assert At(c', i - 1) == p.prev && At(c', i + 1) == p.current;
      ReplaceFirst(Null, Null, p.prev);
      ReplaceSecond(p.prev, Null, p.current);
    } else if j == 0 {
      assert At(c', i - 1) == p.prev && At(c', i + 1) == At(r, 1);
      assert r[0] != r[|r| - 1];
      ReplaceFirst(Null, At(r, 1), p.prev);
    } else if j == |r| - 1 {
      assert At(c', i - 1) == At(r, j - 1) && At(c', i + 1) == p.current;
      ReplaceSecond(At(r, j - 1), Null, p.current);
    } else {
      assert At(c', i - 1) == At(r, j - 1) && At(c', i + 1) == At(r, j + 1);
      assert r[j] != r[0] && r[j] != r[|r| - 1];
    }
  }
}
