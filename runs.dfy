/**
  Sequence-level meaning of the list algorithms: what order of nodes `merge`,
  `sort`, `unique` and `reverse` are meant to leave behind, stated over the
  node addresses of a list and the payload map from address to value.
*/
module Runs {
  import opened XorLinks

  /** Every node of `ns` carries a payload. */
  ghost predicate Owns(value: map<Ptr, int>, ns: seq<Ptr>)
  {
    forall p :: p in ns ==> p in value
  }

  /** The payloads of `ns`, in list order (what iterating and dereferencing yields). */
  function Values(value: map<Ptr, int>, ns: seq<Ptr>): (r: seq<int>)
    requires Owns(value, ns)
    ensures |r| == |ns| && forall i :: 0 <= i < |ns| ==> r[i] == value[ns[i]]
  {
    if ns == [] then [] else [value[ns[0]]] + Values(value, ns[1..])
  }

  /** No link word and no payload outside `s` changed, and no node outside `s` went away. */
  ghost predicate KeptApart(link0: map<Ptr, Ptr>, value0: map<Ptr, int>,
                            link: map<Ptr, Ptr>, value: map<Ptr, int>, s: seq<Ptr>)
  {
    && (forall q :: q in link0 && q !in s ==> q in link && link[q] == link0[q])
    && (forall q :: q in value0 && q !in s ==> q in value && value[q] == value0[q])
  }

  /** A frame for a set also holds for any larger set. */
  lemma KeptApartMore(link0: map<Ptr, Ptr>, value0: map<Ptr, int>, link: map<Ptr, Ptr>, value: map<Ptr, int>,
                      s: seq<Ptr>, t: seq<Ptr>)
    requires KeptApart(link0, value0, link, value, s)
    ensures KeptApart(link0, value0, link, value, s + t)
  {
  }

  /** Three frames in a row, all inside `s`. */
  lemma KeptApartThree(link0: map<Ptr, Ptr>, link1: map<Ptr, Ptr>, link2: map<Ptr, Ptr>, link3: map<Ptr, Ptr>,
                       value: map<Ptr, int>, s1: seq<Ptr>, s2: seq<Ptr>, s3: seq<Ptr>, s: seq<Ptr>)
    requires KeptApart(link0, value, link1, value, s1) && KeptApart(link1, value, link2, value, s2)
    requires KeptApart(link2, value, link3, value, s3)
    requires forall q :: q in s1 + s2 + s3 ==> q in s
    ensures KeptApart(link0, value, link3, value, s)
  {
    forall q | q in link0 && q !in s ensures q in link3 && link3[q] == link0[q] {
      assert q !in s1 + s2 + s3;
    }
  }

  /**
    Two frames in a row: what the first kept apart and the second's set does
    not touch stays as it was.
  */
  lemma KeptApartTrans(link0: map<Ptr, Ptr>, value0: map<Ptr, int>, link1: map<Ptr, Ptr>, value1: map<Ptr, int>,
                       link2: map<Ptr, Ptr>, value2: map<Ptr, int>, s1: seq<Ptr>, s2: seq<Ptr>)
    requires KeptApart(link0, value0, link1, value1, s1) && KeptApart(link1, value1, link2, value2, s2)
    requires value0.Keys <= link0.Keys
    requires forall q :: q in s2 && q in link0 ==> q in s1
    ensures KeptApart(link0, value0, link2, value2, s1)
  {
  }

  /** Payloads never decrease along `ns` (ordered by `std::less`). */
  ghost predicate Ascending(value: map<Ptr, int>, ns: seq<Ptr>)
    requires Owns(value, ns)
  {
    forall i, j :: 0 <= i < j < |ns| ==> value[ns[i]] <= value[ns[j]]
  }

  /** No two neighbouring nodes carry equal payloads. */
  ghost predicate NoAdjacentEqual(value: map<Ptr, int>, ns: seq<Ptr>)
    requires Owns(value, ns)
  {
    forall i :: 0 <= i < |ns| - 1 ==> value[ns[i]] != value[ns[i + 1]]
  }

  /** `a` is `b` with some elements left out and the rest in the same order. */
  ghost predicate Subsequence(a: seq<Ptr>, b: seq<Ptr>)
    decreases |b|
  {
    if a == [] then true
    else if b == [] then false
    else if a[0] == b[0] then Subsequence(a[1..], b[1..])
    else Subsequence(a, b[1..])
  }

  // ---------------------------------------------------------------------------
  // merge
  // ---------------------------------------------------------------------------

  /**
    The order `mergeSequences` produces: the head of the from-run `f` goes
    first only when it is strictly less than the head of the to-run `t`, so
    equal payloads keep the to-run's node first; once either run is
    exhausted the rest of the other follows unchanged.
  */
  ghost function MergeRuns(value: map<Ptr, int>, t: seq<Ptr>, f: seq<Ptr>): (r: seq<Ptr>)
    requires Owns(value, t) && Owns(value, f)
    ensures multiset(r) == multiset(t) + multiset(f)
    ensures |r| == |t| + |f|
    decreases |t| + |f|
  {
    if f == [] then t
    else if t == [] then f
    else if value[f[0]] < value[t[0]] then
      assert f == [f[0]] + f[1..];
      [f[0]] + MergeRuns(value, t, f[1..])
    else
      assert t == [t[0]] + t[1..];
      [t[0]] + MergeRuns(value, t[1..], f)
  }

  /** Every payload of `ns` is at least `low`. */
  ghost predicate AtLeast(value: map<Ptr, int>, low: int, ns: seq<Ptr>)
    requires Owns(value, ns)
  {
    forall p :: p in ns ==> low <= value[p]
  }

  lemma AscendingCons(value: map<Ptr, int>, x: Ptr, rest: seq<Ptr>)
    requires x in value && Owns(value, rest)
    requires Ascending(value, rest) && AtLeast(value, value[x], rest)
    ensures Owns(value, [x] + rest) && Ascending(value, [x] + rest)
  {
    var s := [x] + rest;
    forall i, j | 0 <= i < j < |s| ensures value[s[i]] <= value[s[j]] {
      assert s[j] == rest[j - 1];
      if i > 0 {
        assert s[i] == rest[i - 1];
      } else {
        assert rest[j - 1] in rest;
      }
    }
  }

  lemma AscendingTail(value: map<Ptr, int>, s: seq<Ptr>)
    requires Owns(value, s) && Ascending(value, s) && s != []
    ensures Owns(value, s[1..]) && Ascending(value, s[1..]) && AtLeast(value, value[s[0]], s[1..])
  {
    forall p | p in s[1..] ensures value[s[0]] <= value[p] {
      var j :| 0 <= j < |s[1..]| && s[1..][j] == p;
      assert s[j + 1] == p;
    }
  }

  /** Merging two ascending runs gives an ascending run. */
  lemma {:induction false} MergeRunsAscending(value: map<Ptr, int>, t: seq<Ptr>, f: seq<Ptr>)
    requires Owns(value, t) && Owns(value, f)
    requires Ascending(value, t) && Ascending(value, f)
    ensures Owns(value, MergeRuns(value, t, f))
    ensures Ascending(value, MergeRuns(value, t, f))
    decreases |t| + |f|
  {
    var r := MergeRuns(value, t, f);
    assert forall p :: p in r ==> p in multiset(t) + multiset(f);
    if f == [] || t == [] {
    } else if value[f[0]] < value[t[0]] {
      AscendingTail(value, f);
      MergeRunsAscending(value, t, f[1..]);
      var m := MergeRuns(value, t, f[1..]);
      forall p | p in m ensures value[f[0]] <= value[p] {
        assert p in multiset(m);
        if p in t {
          var i :| 0 <= i < |t| && t[i] == p;
          assert value[t[0]] <= value[t[i]];
        } else {
          assert p in multiset(f[1..]);
        }
      }
      AscendingCons(value, f[0], m);
    } else {
      AscendingTail(value, t);
      MergeRunsAscending(value, t[1..], f);
      var m := MergeRuns(value, t[1..], f);
      forall p | p in m ensures value[t[0]] <= value[p] {
        assert p in multiset(m);
        if p in f {
          var i :| 0 <= i < |f| && f[i] == p;
          assert value[f[0]] <= value[f[i]];
        } else {
          assert p in multiset(t[1..]);
        }
      }
      AscendingCons(value, t[0], m);
    }
  }

  /** Both runs keep their own internal order inside the merge. */
  lemma {:induction false} MergeRunsKeepsOrder(value: map<Ptr, int>, t: seq<Ptr>, f: seq<Ptr>)
    requires Owns(value, t) && Owns(value, f)
    ensures Subsequence(t, MergeRuns(value, t, f))
    ensures Subsequence(f, MergeRuns(value, t, f))
    decreases |t| + |f|
  {
    var r := MergeRuns(value, t, f);
    if f == [] {
      SubsequenceRefl(t);
    } else if t == [] {
      SubsequenceRefl(f);
    } else if value[f[0]] < value[t[0]] {
      MergeRunsKeepsOrder(value, t, f[1..]);
      assert r[0] == f[0] && r[1..] == MergeRuns(value, t, f[1..]);
      SubsequenceSkip(t, r);
    } else {
      MergeRunsKeepsOrder(value, t[1..], f);
      assert r[0] == t[0] && r[1..] == MergeRuns(value, t[1..], f);
      SubsequenceSkip(f, r);
    }
  }

  /** `p` stands somewhere before `q` in `r`. */
  ghost predicate Precedes(r: seq<Ptr>, p: Ptr, q: Ptr)
  {
    exists i, j :: 0 <= i < j < |r| && r[i] == p && r[j] == q
  }

  lemma PrecedesCons(x: Ptr, m: seq<Ptr>, p: Ptr, q: Ptr)
    requires Precedes(m, p, q)
    ensures Precedes([x] + m, p, q)
  {
    var i, j :| 0 <= i < j < |m| && m[i] == p && m[j] == q;
    assert ([x] + m)[i + 1] == p && ([x] + m)[j + 1] == q;
  }

  lemma PrecedesHead(x: Ptr, m: seq<Ptr>, q: Ptr)
    requires q in m
    ensures Precedes([x] + m, x, q)
  {
    var j :| 0 <= j < |m| && m[j] == q;
    assert ([x] + m)[0] == x && ([x] + m)[j + 1] == q;
  }

  /**
    Stability: a node of the to-run comes before every node of the
    from-run whose payload it does not exceed.
  */
  lemma {:induction false} MergeRunsStable(value: map<Ptr, int>, t: seq<Ptr>, f: seq<Ptr>, p: Ptr, q: Ptr)
    requires Owns(value, t) && Owns(value, f) && Ascending(value, t)
    requires p in t && q in f && p != q && value[p] <= value[q]
    ensures Precedes(MergeRuns(value, t, f), p, q)
    decreases |t| + |f|
  {
    if value[f[0]] < value[t[0]] {
      var k :| 0 <= k < |t| && t[k] == p;
      assert value[t[0]] <= value[t[k]];
      assert f == [f[0]] + f[1..];
      MergeRunsStable(value, t, f[1..], p, q);
      PrecedesCons(f[0], MergeRuns(value, t, f[1..]), p, q);
    } else if p == t[0] {
      var m := MergeRuns(value, t[1..], f);
      assert q in multiset(m);
      PrecedesHead(t[0], m, q);
    } else {
      assert t == [t[0]] + t[1..];
      AscendingTail(value, t);
      MergeRunsStable(value, t[1..], f, p, q);
      PrecedesCons(t[0], MergeRuns(value, t[1..], f), p, q);
    }
  }

  lemma {:induction false} SubsequenceRefl(a: seq<Ptr>)
    ensures Subsequence(a, a)
    decreases |a|
  {
    if a != [] {
      SubsequenceRefl(a[1..]);
    }
  }

  /** A subsequence of the tail of `b` is a subsequence of `b`. */
  lemma {:induction false} SubsequenceSkip(a: seq<Ptr>, b: seq<Ptr>)
    requires b != [] && Subsequence(a, b[1..])
    ensures Subsequence(a, b)
    decreases |b|, |a|
  {
    if a != [] && a[0] == b[0] {
      SubsequenceTail(a, b[1..]);
    }
  }

  /** Dropping the head of a subsequence keeps it a subsequence. */
  lemma {:induction false} SubsequenceTail(a: seq<Ptr>, b: seq<Ptr>)
    requires a != [] && Subsequence(a, b)
    ensures Subsequence(a[1..], b)
    decreases |b|, |a|
  {
    if a[0] == b[0] {
      if a[1..] != [] {
        SubsequenceSkip(a[1..], b);
      }
    } else {
      SubsequenceTail(a, b[1..]);
      if a[1..] != [] {
        SubsequenceSkip(a[1..], b);
      }
    }
  }

  // ---------------------------------------------------------------------------
  // unique
  // ---------------------------------------------------------------------------

  /**
    The nodes of `rest` that `unique` keeps when the last kept node is
    `kept`: a node is erased when its payload equals the payload of the last
    kept node, and otherwise becomes the last kept node itself.
  */
  ghost function DropRepeats(value: map<Ptr, int>, kept: Ptr, rest: seq<Ptr>): (r: seq<Ptr>)
    requires kept in value && Owns(value, rest)
    ensures Owns(value, r)
    ensures r != [] ==> value[r[0]] != value[kept]
    ensures forall p :: p in r ==> p in rest
    decreases |rest|
  {
    if rest == [] then []
    else if value[rest[0]] == value[kept] then DropRepeats(value, kept, rest[1..])
    else [rest[0]] + DropRepeats(value, rest[0], rest[1..])
  }

  /** The nodes `unique` keeps: the first node of every run of equal payloads. */
  ghost function UniqueRuns(value: map<Ptr, int>, ns: seq<Ptr>): (r: seq<Ptr>)
    requires Owns(value, ns)
    ensures Owns(value, r)
    ensures forall p :: p in r ==> p in ns
  {
    if ns == [] then [] else [ns[0]] + DropRepeats(value, ns[0], ns[1..])
  }

  lemma {:induction false} DropRepeatsNoAdjacentEqual(value: map<Ptr, int>, kept: Ptr, rest: seq<Ptr>)
    requires kept in value && Owns(value, rest)
    ensures NoAdjacentEqual(value, [kept] + DropRepeats(value, kept, rest))
    decreases |rest|
  {
    var r := DropRepeats(value, kept, rest);
    if rest == [] {
    } else if value[rest[0]] == value[kept] {
      DropRepeatsNoAdjacentEqual(value, kept, rest[1..]);
    } else {
      DropRepeatsNoAdjacentEqual(value, rest[0], rest[1..]);
      var s := [kept] + r;
      assert r == [rest[0]] + DropRepeats(value, rest[0], rest[1..]);
      assert s[1..] == r;
      forall i | 0 <= i < |s| - 1 ensures value[s[i]] != value[s[i + 1]] {
        if i > 0 {
          assert s[i] == r[i - 1] && s[i + 1] == r[i];
        }
      }
    }
  }

  /** After `unique` no two neighbouring elements are equal. */
  lemma UniqueNoAdjacentEqual(value: map<Ptr, int>, ns: seq<Ptr>)
    requires Owns(value, ns)
    ensures NoAdjacentEqual(value, UniqueRuns(value, ns))
  {
    if ns != [] {
      DropRepeatsNoAdjacentEqual(value, ns[0], ns[1..]);
    }
  }

  lemma {:induction false} DropRepeatsSubsequence(value: map<Ptr, int>, kept: Ptr, rest: seq<Ptr>)
    requires kept in value && Owns(value, rest)
    ensures Subsequence(DropRepeats(value, kept, rest), rest)
    decreases |rest|
  {
    if rest == [] {
    } else if value[rest[0]] == value[kept] {
      DropRepeatsSubsequence(value, kept, rest[1..]);
      if DropRepeats(value, kept, rest) != [] {
        SubsequenceSkip(DropRepeats(value, kept, rest), rest);
      }
    } else {
      DropRepeatsSubsequence(value, rest[0], rest[1..]);
    }
  }

  /** `unique` only erases: the kept nodes are in their original order. */
  lemma UniqueSubsequence(value: map<Ptr, int>, ns: seq<Ptr>)
    requires Owns(value, ns)
    ensures Subsequence(UniqueRuns(value, ns), ns)
  {
    if ns != [] {
      DropRepeatsSubsequence(value, ns[0], ns[1..]);
    }
  }

  /**
    Which nodes `unique` keeps, exactly: with `last` the payload of the node
    before `rest`, the node `rest[i]` is kept if and only if its payload
    differs from its predecessor's.
  */
  lemma {:induction false} DropRepeatsKeeps(value: map<Ptr, int>, kept: Ptr, rest: seq<Ptr>, i: int)
    requires kept in value && Owns(value, rest) && kept !in rest && Distinct(rest)
    requires 0 <= i < |rest|
    ensures rest[i] in DropRepeats(value, kept, rest)
            <==> value[rest[i]] != (if i == 0 then value[kept] else value[rest[i - 1]])
    decreases |rest|
  {
    var r := DropRepeats(value, kept, rest);
    assert rest[0] !in rest[1..] by {
      forall j | 0 <= j < |rest[1..]| ensures rest[1..][j] != rest[0] {
        assert rest[1..][j] == rest[j + 1];
      }
    }
    assert Distinct(rest[1..]) by {
      forall a, b | 0 <= a < b < |rest[1..]| ensures rest[1..][a] != rest[1..][b] {
        assert rest[1..][a] == rest[a + 1] && rest[1..][b] == rest[b + 1];
      }
    }
    if i == 0 {
      if value[rest[0]] == value[kept] {
        assert r == DropRepeats(value, kept, rest[1..]);
      }
    } else if value[rest[0]] == value[kept] {
      assert rest[i] == rest[1..][i - 1];
      assert kept !in rest[1..];
      DropRepeatsKeeps(value, kept, rest[1..], i - 1);
      assert rest[1..][i - 1] != rest[0];
      if i - 1 == 0 {
        assert value[rest[0]] == value[kept];
      } else {
        assert rest[1..][i - 2] == rest[i - 1];
      }
    } else {
      assert rest[i] == rest[1..][i - 1];
      assert rest[0] !in rest[1..];
      DropRepeatsKeeps(value, rest[0], rest[1..], i - 1);
      assert rest[i] != rest[0] by { assert rest[i] in rest[1..]; }
      if i - 1 > 0 {
        assert rest[1..][i - 2] == rest[i - 1];
      }
    }
  }

  /** `unique` keeps exactly the nodes that start a run of equal payloads. */
  lemma UniqueKeeps(value: map<Ptr, int>, ns: seq<Ptr>, i: int)
    requires Owns(value, ns) && Distinct(ns) && 0 <= i < |ns|
    ensures ns[i] in UniqueRuns(value, ns) <==> i == 0 || value[ns[i - 1]] != value[ns[i]]
  {
    if i > 0 {
      assert ns[0] !in ns[1..] by {
        forall j | 0 <= j < |ns[1..]| ensures ns[1..][j] != ns[0] {
          assert ns[1..][j] == ns[j + 1];
        }
      }
      assert Distinct(ns[1..]) by {
        forall a, b | 0 <= a < b < |ns[1..]| ensures ns[1..][a] != ns[1..][b] {
          assert ns[1..][a] == ns[a + 1] && ns[1..][b] == ns[b + 1];
        }
      }
      assert ns[i] == ns[1..][i - 1];
      DropRepeatsKeeps(value, ns[0], ns[1..], i - 1);
      assert ns[i] != ns[0];
      if i > 1 {
        assert ns[1..][i - 2] == ns[i - 1];
      }
    }
  }

  /** Adjacent duplicates removed from a sequence of payloads, one per run. */
  function UniqueValues(es: seq<int>): (r: seq<int>)
  {
    if |es| <= 1 then es
    else if es[0] == es[1] then UniqueValues(es[1..])
    else [es[0]] + UniqueValues(es[1..])
  }

  lemma {:induction false} DropRepeatsValues(value: map<Ptr, int>, kept: Ptr, rest: seq<Ptr>)
    requires kept in value && Owns(value, rest)
    ensures Values(value, [kept] + DropRepeats(value, kept, rest)) == UniqueValues([value[kept]] + Values(value, rest))
    decreases |rest|
  {
    var es := [value[kept]] + Values(value, rest);
    if rest == [] {
      assert Values(value, [kept]) == [value[kept]];
    } else {
      var tail := Values(value, rest[1..]);
      assert Values(value, rest) == [value[rest[0]]] + tail;
      assert es[1..] == Values(value, rest);
      if value[rest[0]] == value[kept] {
        DropRepeatsValues(value, kept, rest[1..]);
        assert Values(value, rest) == [value[kept]] + tail;
      } else {
        DropRepeatsValues(value, rest[0], rest[1..]);
        var d := DropRepeats(value, rest[0], rest[1..]);
        assert [kept] + DropRepeats(value, kept, rest) == [kept] + ([rest[0]] + d);
        ValuesConcat(value, [kept], [rest[0]] + d);
      }
    }
  }

  lemma {:induction false} ValuesConcat(value: map<Ptr, int>, a: seq<Ptr>, b: seq<Ptr>)
    requires Owns(value, a) && Owns(value, b)
    ensures Owns(value, a + b) && Values(value, a + b) == Values(value, a) + Values(value, b)
    decreases |a|
  {
    if a == [] {
      assert a + b == b;
    } else {
      assert (a + b)[1..] == a[1..] + b;
      ValuesConcat(value, a[1..], b);
    }
  }

  /** Two orderings of the same nodes carry the same payloads, counted with multiplicity. */
  lemma {:induction false} ValuesPermute(value: map<Ptr, int>, a: seq<Ptr>, b: seq<Ptr>)
    requires Owns(value, a) && Owns(value, b) && multiset(a) == multiset(b)
    ensures multiset(Values(value, a)) == multiset(Values(value, b))
    decreases |a|
  {
    if a == [] {
      assert |b| == |multiset(b)| == 0;
    } else {
      assert a[0] in multiset(b);
      var k :| 0 <= k < |b| && b[k] == a[0];
      DropMatching(a, b, k);
      ValuesDrop(value, b, k);
      ValuesPermute(value, a[1..], b[..k] + b[k + 1..]);
      ValuesPermuteStep(value, a, b, k);
    }
  }

  /** The step of `ValuesPermute`: put back the node dropped from both orderings. */
  lemma ValuesPermuteStep(value: map<Ptr, int>, a: seq<Ptr>, b: seq<Ptr>, k: int)
    requires Owns(value, a) && Owns(value, b) && a != [] && 0 <= k < |b| && b[k] == a[0]
    requires Owns(value, b[..k] + b[k + 1..])
    requires multiset(Values(value, a[1..])) == multiset(Values(value, b[..k] + b[k + 1..]))
    requires multiset(Values(value, b)) == multiset(Values(value, b[..k] + b[k + 1..])) + multiset{value[b[k]]}
    ensures multiset(Values(value, a)) == multiset(Values(value, b))
  {
    assert Values(value, a) == [value[a[0]]] + Values(value, a[1..]);
  }

  /** Dropping the same node from two orderings of the same nodes leaves two orderings of the same nodes. */
  lemma DropMatching(a: seq<Ptr>, b: seq<Ptr>, k: int)
    requires multiset(a) == multiset(b) && a != [] && 0 <= k < |b| && b[k] == a[0]
    ensures multiset(a[1..]) == multiset(b[..k] + b[k + 1..])
  {
    assert b == b[..k] + [b[k]] + b[k + 1..];
    assert a == [a[0]] + a[1..];
    assert multiset(a[1..]) == multiset(a) - multiset{a[0]};
  }

  /** The payloads of `b` are those of `b` without its k-th node, plus that node's payload. */
  lemma ValuesDrop(value: map<Ptr, int>, b: seq<Ptr>, k: int)
    requires Owns(value, b) && 0 <= k < |b|
    ensures Owns(value, b[..k] + b[k + 1..])
    ensures multiset(Values(value, b)) == multiset(Values(value, b[..k] + b[k + 1..])) + multiset{value[b[k]]}
  {
    var p, x, q := b[..k], b[k], b[k + 1..];
    assert b == p + [x] + q;
    ValuesConcat(value, p, [x]);
    ValuesConcat(value, p + [x], q);
    ValuesConcat(value, p, q);
    var vp, vq := Values(value, p), Values(value, q);
    assert Values(value, [x]) == [value[x]];
    assert Values(value, b) == vp + [value[x]] + vq;
    assert Values(value, p + q) == vp + vq;
    assert multiset(vp + [value[x]] + vq) == multiset(vp + vq) + multiset{value[x]};
  }

  /** The payloads `unique` leaves are the payloads with adjacent duplicates removed. */
  lemma UniqueRunsValues(value: map<Ptr, int>, ns: seq<Ptr>)
    requires Owns(value, ns)
    ensures Values(value, UniqueRuns(value, ns)) == UniqueValues(Values(value, ns))
  {
    if ns != [] {
      DropRepeatsValues(value, ns[0], ns[1..]);
      assert ns == [ns[0]] + ns[1..];
      assert Values(value, ns) == [value[ns[0]]] + Values(value, ns[1..]);
    }
  }

  /** The node `unique` compares the next one against: the last one it kept. */
  function LastKept(kept: Ptr, r: seq<Ptr>): Ptr
  {
    if r == [] then kept else r[|r| - 1]
  }

  /** Feeding `unique` one more node: it is kept exactly when its payload differs from the last kept one. */
  lemma {:induction false} DropRepeatsSnoc(value: map<Ptr, int>, kept: Ptr, rest: seq<Ptr>, x: Ptr)
    requires kept in value && Owns(value, rest) && x in value
    ensures DropRepeats(value, kept, rest + [x])
            == DropRepeats(value, kept, rest)
               + (if value[x] == value[LastKept(kept, DropRepeats(value, kept, rest))] then [] else [x])
    decreases |rest|
  {
    if rest == [] {
      assert DropRepeats(value, x, []) == [];
    } else {
      assert (rest + [x])[0] == rest[0];
      assert (rest + [x])[1..] == rest[1..] + [x];
      if value[rest[0]] == value[kept] {
        DropRepeatsSnoc(value, kept, rest[1..], x);
      } else {
        DropRepeatsSnoc(value, rest[0], rest[1..], x);
        var d := DropRepeats(value, rest[0], rest[1..]);
        assert LastKept(kept, [rest[0]] + d) == LastKept(rest[0], d);
      }
    }
  }

  /** `unique` over one more node of the list, in the order the loop visits them. */
  lemma UniqueRunsSnoc(value: map<Ptr, int>, ns: seq<Ptr>, t: int)
    requires Owns(value, ns) && 1 <= t < |ns|
    ensures UniqueRuns(value, ns[..t]) != []
    ensures UniqueRuns(value, ns[..t + 1])
            == UniqueRuns(value, ns[..t])
               + (if value[ns[t]] == value[UniqueRuns(value, ns[..t])[|UniqueRuns(value, ns[..t])| - 1]]
                  then [] else [ns[t]])
  {
    var a := ns[..t];
    var b := ns[..t + 1];
    assert a[0] == ns[0] && b[0] == ns[0];
    assert a[1..] == ns[1..t];
    assert b[1..] == ns[1..t] + [ns[t]];
    DropRepeatsSnoc(value, ns[0], ns[1..t], ns[t]);
    var d := DropRepeats(value, ns[0], ns[1..t]);
    assert UniqueRuns(value, a) == [ns[0]] + d;
    assert LastKept(ns[0], d) == ([ns[0]] + d)[|[ns[0]] + d| - 1];
  }

  /** Lists shorter than two elements have nothing to erase. */
  lemma UniqueRunsShort(value: map<Ptr, int>, ns: seq<Ptr>)
    requires Owns(value, ns) && |ns| < 2
    ensures UniqueRuns(value, ns) == ns
  {
    if ns != [] {
      assert ns[1..] == [];
    }
  }

  // ---------------------------------------------------------------------------
  // reverse
  // ---------------------------------------------------------------------------

  /** The entries of `s` in the opposite order: nodes, or their payloads. */
  function Reversed<T>(s: seq<T>): seq<T>
  {
    seq(|s|, i requires 0 <= i < |s| => s[|s| - 1 - i])
  }

  /** Reversing twice restores the order. */
  lemma ReversedTwice(ns: seq<Ptr>)
    ensures Reversed(Reversed(ns)) == ns
  {
    var r := Reversed(Reversed(ns));
    assert forall i :: 0 <= i < |ns| ==> r[i] == ns[i];
  }

  lemma ReversedValues(value: map<Ptr, int>, ns: seq<Ptr>)
    requires Owns(value, ns)
    ensures Owns(value, Reversed(ns))
    ensures Values(value, Reversed(ns)) == Reversed(Values(value, ns))
  {
    var r := Reversed(ns);
    forall p | p in r ensures p in value {
      var i :| 0 <= i < |r| && r[i] == p;
      assert ns[|ns| - 1 - i] == p;
    }
    var vs := Values(value, ns);
    var a := Values(value, r);
    var b := Reversed(vs);
    forall i | 0 <= i < |a| ensures a[i] == b[i] {
      assert a[i] == value[ns[|ns| - 1 - i]] == vs[|ns| - 1 - i];
    }
    assert a == b;
  }

  // ---------------------------------------------------------------------------
  // fill
  // ---------------------------------------------------------------------------

  /** `n` copies of `v`. */
  function Repeat(v: int, n: nat): (r: seq<int>)
    ensures |r| == n && forall i :: 0 <= i < n ==> r[i] == v
  {
    if n == 0 then [] else [v] + Repeat(v, n - 1)
  }

  lemma RepeatSuffix(v: int, n: nat, i: nat)
    requires i <= n
    ensures Repeat(v, n)[i..] == Repeat(v, n - i)
  {
  }

  // ---------------------------------------------------------------------------
  // the pending runs of sort
  // ---------------------------------------------------------------------------

  /** All nodes held by a sequence of runs, with multiplicity. */
  ghost function Bag(runs: seq<seq<Ptr>>): multiset<Ptr>
  {
    if runs == [] then multiset{} else multiset(runs[0]) + Bag(runs[1..])
  }

  /** Replacing one run changes the bag by exactly that run. */
  lemma {:induction false} BagUpdate(runs: seq<seq<Ptr>>, i: int, x: seq<Ptr>)
    requires 0 <= i < |runs|
    ensures Bag(runs[i := x]) + multiset(runs[i]) == Bag(runs) + multiset(x)
    decreases |runs|
  {
    if i > 0 {
      assert runs[i := x][0] == runs[0];
      assert runs[i := x][1..] == runs[1..][i - 1 := x];
      assert runs[1..][i - 1] == runs[i];
      BagUpdate(runs[1..], i - 1, x);
      assert Bag(runs[i := x]) == multiset(runs[0]) + Bag(runs[1..][i - 1 := x]);
      assert Bag(runs) == multiset(runs[0]) + Bag(runs[1..]);
      calc {
        Bag(runs[i := x]) + multiset(runs[i]);
        multiset(runs[0]) + (Bag(runs[1..][i - 1 := x]) + multiset(runs[1..][i - 1]));
        multiset(runs[0]) + (Bag(runs[1..]) + multiset(x));
        Bag(runs) + multiset(x);
      }
    } else {
      assert runs[i := x][1..] == runs[1..];
    }
  }

  /** A node in one run is in the bag. */
  lemma {:induction false} BagHas(runs: seq<seq<Ptr>>, i: int)
    requires 0 <= i < |runs|
    ensures multiset(runs[i]) <= Bag(runs)
    decreases |runs|
  {
    if i > 0 {
      BagHas(runs[1..], i - 1);
    }
  }

  /** The bag of a suffix of runs is the first run plus the rest. */
  lemma BagSuffix(runs: seq<seq<Ptr>>, i: int)
    requires 0 <= i < |runs|
    ensures Bag(runs[i..]) == multiset(runs[i]) + Bag(runs[i + 1..])
  {
    assert runs[i..][1..] == runs[i + 1..];
  }
}
