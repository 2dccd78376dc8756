/**
  The bookkeeping of `sort()`: a bottom-up merge sort over an array of 32
  slots. Slot u is either empty or holds a detached, ascending chain of
  nodes; each node cut from the front of the list is carried upward,
  merging with every full slot it meets, until it lands in an empty slot.
  The states below are stated over the link map, the payload map and
  ghost copies of the runs, so that the methods of `XorList.Sort` only
  move from one state to the next.
*/
module SortSteps {
  import opened XorLinks
  import opened Runs
  import opened MergeSteps
  import opened ListShape

  /** `std::array<NullableRange, 32> sortedRanges`. */
  const Slots: int := 32

  /** A slot of `sortedRanges`: a pair of cursors and whether it is empty. */
  datatype NullableRange = NullableRange(range: Range, isNull: bool)

  /** A default-constructed `NullableRange`: empty. */
  const NoRange: NullableRange := NullableRange(Range(Cursor(Null, Null), Cursor(Null, Null)), true)

  /** `slot` is empty exactly when `run` is, and otherwise delimits the detached ascending chain `run`. */
  ghost predicate RunOk(link: map<Ptr, Ptr>, value: map<Ptr, int>, run: seq<Ptr>, slot: NullableRange)
  {
    && (slot.isNull <==> run == [])
    && (!slot.isNull ==>
          && slot.range == Range(Between([], run), Between(run, []))
          && Chain(link, run) && Owns(value, run) && Ascending(value, run))
  }

  /** Slots lo .. 31 agree with their runs. */
  ghost predicate SlotsOk(link: map<Ptr, Ptr>, value: map<Ptr, int>, runs: seq<seq<Ptr>>, slots: seq<NullableRange>,
                          lo: int)
  {
    && |runs| == |slots| == Slots && 0 <= lo <= Slots
    && forall u :: lo <= u < Slots ==> RunOk(link, value, runs[u], slots[u])
  }

  /** Runs lo .. 31 share no node with each other nor with `others`. */
  ghost predicate RunsApart(runs: seq<seq<Ptr>>, lo: nat, others: seq<Ptr>)
  {
    && (forall u, w :: lo <= u < w < |runs| ==> Disjoint(runs[u], runs[w]))
    && (forall u :: lo <= u < |runs| ==> Disjoint(runs[u], others))
  }

  /** Runs lo .. 31 hold nodes of `ns` only. */
  ghost predicate RunsWithin(runs: seq<seq<Ptr>>, lo: nat, ns: seq<Ptr>)
  {
    forall u, q :: lo <= u < |runs| && q in runs[u] ==> q in ns
  }

  /** Payloads never change, and link words change only on the list `ns` sorted. */
  ghost predicate Frame(link: map<Ptr, Ptr>, value: map<Ptr, int>, bh: Ptr, at: Ptr, ns: seq<Ptr>,
                        link0: map<Ptr, Ptr>, value0: map<Ptr, int>, full: seq<Ptr>)
  {
    && value == value0 && full == FullOf(bh, ns, at) && link.Keys == link0.Keys && Null !in link0
    && value0.Keys <= link0.Keys
    && KeptApart(link0, value0, link, value, full)
  }

  /**
    Between two rounds of the outer loop: the list holds `cur`, the slots
    hold `runs`, and together they are the nodes `ns` the sort started with.
  */
  ghost predicate SortState(link: map<Ptr, Ptr>, value: map<Ptr, int>, runs: seq<seq<Ptr>>, slots: seq<NullableRange>,
                            cur: seq<Ptr>, bh: Ptr, at: Ptr, ns: seq<Ptr>,
                            link0: map<Ptr, Ptr>, value0: map<Ptr, int>, full: seq<Ptr>)
  {
    && SlotsOk(link, value, runs, slots, 0)
    && RunsApart(runs, 0, FullOf(bh, cur, at)) && RunsWithin(runs, 0, ns)
    && Chain(link, FullOf(bh, cur, at)) && Owns(value, cur) && (forall q :: q in cur ==> q in ns)
    && multiset(cur) + Bag(runs) == multiset(ns)
    && Frame(link, value, bh, at, ns, link0, value0, full)
  }

  /**
    Inside the inner loop at slot i: slots 0 .. i - 1 are empty, and the
    detached ascending run `carry` (delimited by `nr`) is on its way up.
  */
  ghost predicate CarryState(link: map<Ptr, Ptr>, value: map<Ptr, int>, runs: seq<seq<Ptr>>, slots: seq<NullableRange>,
                             cur: seq<Ptr>, carry: seq<Ptr>, nr: Range, i: int, bh: Ptr, at: Ptr, ns: seq<Ptr>,
                             link0: map<Ptr, Ptr>, value0: map<Ptr, int>, full: seq<Ptr>)
  {
    && 0 <= i <= Slots && SlotsOk(link, value, runs, slots, 0)
    && (forall u :: 0 <= u < i ==> slots[u].isNull)
    && carry != [] && RunOk(link, value, carry, NullableRange(nr, false))
    && RunsApart(runs, 0, FullOf(bh, cur, at) + carry) && Disjoint(carry, FullOf(bh, cur, at))
    && RunsWithin(runs, 0, ns) && (forall q :: q in carry ==> q in ns)
    && Chain(link, FullOf(bh, cur, at)) && Owns(value, cur) && (forall q :: q in cur ==> q in ns)
    && multiset(cur) + Bag(runs) + multiset(carry) == multiset(ns)
    && Frame(link, value, bh, at, ns, link0, value0, full)
  }

  /**
    Inside the final loop at slot i: the list is empty, slots i .. 31 are
    still to be merged, and `res` (delimited by `result`) holds the rest.
  */
  ghost predicate FinalState(link: map<Ptr, Ptr>, value: map<Ptr, int>, runs: seq<seq<Ptr>>, slots: seq<NullableRange>,
                             i: int, res: seq<Ptr>, result: NullableRange, bh: Ptr, at: Ptr, ns: seq<Ptr>,
                             link0: map<Ptr, Ptr>, value0: map<Ptr, int>, full: seq<Ptr>)
  {
    && SlotsOk(link, value, runs, slots, i) && RunOk(link, value, res, result)
    && RunsApart(runs, i, FullOf(bh, [], at) + res) && Disjoint(res, FullOf(bh, [], at))
    && RunsWithin(runs, i, ns) && (forall q :: q in res ==> q in ns)
    && Chain(link, FullOf(bh, [], at))
    && Bag(runs[i..]) + multiset(res) == multiset(ns)
    && Frame(link, value, bh, at, ns, link0, value0, full)
  }

  // ---------------------------------------------------------------------------
  // Helpers
  // ---------------------------------------------------------------------------

  lemma {:induction false} BagEmpty(runs: seq<seq<Ptr>>)
    requires forall u :: 0 <= u < |runs| ==> runs[u] == []
    ensures Bag(runs) == multiset{}
    decreases |runs|
  {
    if runs != [] {
      BagEmpty(runs[1..]);
    }
  }

  /** The merge of two runs holds the nodes of the two and no other. */
  lemma MergedFrom(value: map<Ptr, int>, t: seq<Ptr>, f: seq<Ptr>)
    requires Owns(value, t) && Owns(value, f)
    ensures forall q :: q in MergeRuns(value, t, f) ==> q in t || q in f
  {
    var m := MergeRuns(value, t, f);
    forall q | q in m ensures q in t || q in f {
      assert q in multiset(m);
    }
  }

  /** `mergeSequences` on detached runs changes the link words of those runs only. */
  lemma MergeKept(link1: map<Ptr, Ptr>, link2: map<Ptr, Ptr>, t: seq<Ptr>, f: seq<Ptr>)
    requires KeptOutside(link1, link2, [], t, [], f) && Null !in link1
    ensures link2.Keys == link1.Keys
    ensures forall q :: q in link1 && q !in t + f ==> q in link2 && link2[q] == link1[q]
  {
  }

  /** Slots whose runs avoid `s` keep their chains when only link words in `s` change. */
  lemma SlotsFrame(link1: map<Ptr, Ptr>, link2: map<Ptr, Ptr>, value: map<Ptr, int>, runs: seq<seq<Ptr>>,
                   slots: seq<NullableRange>, lo: int, s: seq<Ptr>)
    requires SlotsOk(link1, value, runs, slots, lo)
    requires forall u :: lo <= u < Slots ==> Disjoint(runs[u], s)
    requires forall q :: q in link1 && q !in s ==> q in link2 && link2[q] == link1[q]
    ensures SlotsOk(link2, value, runs, slots, lo)
  {
    forall u | lo <= u < Slots ensures RunOk(link2, value, runs[u], slots[u]) {
      if !slots[u].isNull {
        assert Disjoint(s, runs[u]);
        ChainOutside(link1, link2, runs[u], s);
      }
    }
  }

  /** Chaining the frame of one more step, when the step changed links inside `ns` only. */
  lemma SortFrameStep(link1: map<Ptr, Ptr>, link2: map<Ptr, Ptr>, value: map<Ptr, int>, s: seq<Ptr>,
                  bh: Ptr, at: Ptr, ns: seq<Ptr>, link0: map<Ptr, Ptr>, value0: map<Ptr, int>, full: seq<Ptr>)
    requires Frame(link1, value, bh, at, ns, link0, value0, full)
    requires link2.Keys == link1.Keys && KeptApart(link1, value, link2, value, s)
    requires forall q :: q in s ==> q in FullOf(bh, ns, at)
    ensures Frame(link2, value, bh, at, ns, link0, value0, full)
  {
    KeptApartTrans(link0, value0, link1, value, link2, value, full, s);
  }

  // ---------------------------------------------------------------------------
  // The outer loop
  // ---------------------------------------------------------------------------

  lemma SortStart(link: map<Ptr, Ptr>, value: map<Ptr, int>, bh: Ptr, at: Ptr, ns: seq<Ptr>)
    requires Chain(link, FullOf(bh, ns, at)) && Owns(value, ns) && Null !in link && value.Keys <= link.Keys
    ensures SortState(link, value, seq(Slots, _ => []), seq(Slots, _ => NoRange), ns, bh, at, ns,
                      link, value, FullOf(bh, ns, at))
  {
    var runs: seq<seq<Ptr>> := seq(Slots, _ => []);
    BagEmpty(runs);
  }

  /** The front node, cut out of the list, starts its way up as a one-node run. */
  lemma CarryStart(link1: map<Ptr, Ptr>, link2: map<Ptr, Ptr>, value: map<Ptr, int>, runs: seq<seq<Ptr>>,
                   slots: seq<NullableRange>, cur1: seq<Ptr>, cur2: seq<Ptr>, carry: seq<Ptr>, nr: Range,
                   bh: Ptr, at: Ptr, ns: seq<Ptr>, link0: map<Ptr, Ptr>, value0: map<Ptr, int>, full: seq<Ptr>)
    requires SortState(link1, value, runs, slots, cur1, bh, at, ns, link0, value0, full) && cur1 != []
    requires cur2 == cur1[1..] && carry == cur1[..1]
    requires Chain(link2, carry) && Chain(link2, FullOf(bh, cur2, at)) && Disjoint(carry, FullOf(bh, cur2, at))
    requires nr == Range(Between([], carry), Between(carry, []))
    requires link2.Keys == link1.Keys && KeptApart(link1, value, link2, value, FullOf(bh, cur1, at))
    ensures CarryState(link2, value, runs, slots, cur2, carry, nr, 0, bh, at, ns, link0, value0, full)
  {
    var old1 := FullOf(bh, cur1, at);
    assert cur1 == carry + cur2;
    assert forall q :: q in FullOf(bh, cur2, at) + carry ==> q in old1;
    SlotsFrame(link1, link2, value, runs, slots, 0, old1);
    forall q | q in old1 ensures q in FullOf(bh, ns, at) {
      if q in cur1 {
        assert q in ns;
      }
    }
    SortFrameStep(link1, link2, value, old1, bh, at, ns, link0, value0, full);
  }

  /** What `mergeSequences(slot i, carry)` asks for holds in a `CarryState`. */
  lemma CarryMergeReady(link: map<Ptr, Ptr>, value: map<Ptr, int>, runs: seq<seq<Ptr>>, slots: seq<NullableRange>,
                        cur: seq<Ptr>, carry: seq<Ptr>, nr: Range, i: int, bh: Ptr, at: Ptr, ns: seq<Ptr>,
                        link0: map<Ptr, Ptr>, value0: map<Ptr, int>, full: seq<Ptr>)
    requires CarryState(link, value, runs, slots, cur, carry, nr, i, bh, at, ns, link0, value0, full)
    requires i < Slots && !slots[i].isNull
    ensures Chain(link, [] + runs[i] + []) && Chain(link, carry) && Disjoint(carry, [] + runs[i] + [])
    ensures Owns(value, runs[i]) && Owns(value, carry) && Null !in link
    ensures slots[i].range == Range(Between([], runs[i] + []), Between([] + runs[i], []))
    ensures nr == Range(Between([], carry), Between(carry, []))
  {
    assert [] + runs[i] + [] == runs[i] && runs[i] + [] == runs[i] && [] + runs[i] == runs[i];
    assert RunOk(link, value, runs[i], slots[i]);
    assert Disjoint(runs[i], FullOf(bh, cur, at) + carry);
  }

  /** Emptying slot i keeps the other slots as they were. */
  lemma SlotEmptied(link: map<Ptr, Ptr>, value: map<Ptr, int>, runs: seq<seq<Ptr>>, slots: seq<NullableRange>, i: int)
    requires SlotsOk(link, value, runs, slots, 0) && 0 <= i < Slots
    ensures SlotsOk(link, value, runs[i := []], slots[i := NullableRange(slots[i].range, true)], 0)
  {
    var runs' := runs[i := []];
    var slots' := slots[i := NullableRange(slots[i].range, true)];
    forall u | 0 <= u < Slots ensures RunOk(link, value, runs'[u], slots'[u]) {
      if u != i {
        assert runs'[u] == runs[u] && slots'[u] == slots[u];
      }
    }
  }

  /** The runs left after emptying slot i avoid the nodes that the merge relinks. */
  lemma OthersAvoid(runs: seq<seq<Ptr>>, runs': seq<seq<Ptr>>, i: int, carry: seq<Ptr>, fl: seq<Ptr>)
    requires 0 <= i < |runs| == Slots && RunsApart(runs, 0, fl + carry) && runs' == runs[i := []]
    ensures forall u :: 0 <= u < Slots ==> Disjoint(runs'[u], runs[i] + carry)
  {
    forall u | 0 <= u < Slots ensures Disjoint(runs'[u], runs[i] + carry) {
      if u != i {
        assert Disjoint(runs[u], fl + carry);
        if u < i {
          assert Disjoint(runs[u], runs[i]);
        } else {
          assert Disjoint(runs[i], runs[u]);
        }
      }
    }
  }

  /** The link-free half of `CarryMerge`: slots, runs and the bag after slot i is emptied into the merge. */
  lemma CarryMergeShape(link1: map<Ptr, Ptr>, value: map<Ptr, int>, runs: seq<seq<Ptr>>, runs': seq<seq<Ptr>>,
                        slots: seq<NullableRange>, slots': seq<NullableRange>, cur: seq<Ptr>, carry: seq<Ptr>,
                        nr: Range, i: int, m: seq<Ptr>,
                        bh: Ptr, at: Ptr, ns: seq<Ptr>, link0: map<Ptr, Ptr>, value0: map<Ptr, int>, full: seq<Ptr>)
    requires CarryState(link1, value, runs, slots, cur, carry, nr, i, bh, at, ns, link0, value0, full)
    requires i < Slots && !slots[i].isNull && Owns(value, runs[i]) && Owns(value, carry)
    requires m == MergeRuns(value, runs[i], carry)
    requires runs' == runs[i := []] && slots' == slots[i := NullableRange(slots[i].range, true)]
    ensures SlotsOk(link1, value, runs', slots', 0) && (forall u :: 0 <= u < i + 1 ==> slots'[u].isNull)
    ensures m != [] && Owns(value, m) && Ascending(value, m)
    ensures RunsApart(runs', 0, FullOf(bh, cur, at) + m) && Disjoint(m, FullOf(bh, cur, at))
    ensures RunsWithin(runs', 0, ns) && (forall q :: q in m ==> q in ns)
    ensures multiset(cur) + Bag(runs') + multiset(m) == multiset(ns)
    ensures forall u :: 0 <= u < Slots ==> Disjoint(runs'[u], runs[i] + carry)
    ensures Disjoint(runs[i] + carry, FullOf(bh, cur, at))
    ensures forall q :: q in runs[i] + carry ==> q in FullOf(bh, ns, at)
  {
    var fl := FullOf(bh, cur, at);
    assert RunOk(link1, value, runs[i], slots[i]);
    MergedFrom(value, runs[i], carry);
    MergeRunsAscending(value, runs[i], carry);
    SlotEmptied(link1, value, runs, slots, i);
    MergedApart(runs, i, carry, m, fl);
    OthersAvoid(runs, runs', i, carry, fl);
    assert Disjoint(runs[i], fl + carry);
    BagUpdate(runs, i, []);
    assert multiset(runs[i := []][i]) == multiset{};
    BagMerged(multiset(cur), Bag(runs), Bag(runs'), multiset(runs[i]), multiset(carry), multiset(m), multiset(ns));
    forall q | q in runs[i] + carry ensures q in FullOf(bh, ns, at) {
      assert q in ns;
    }
  }

  /** After `mergeSequences(slot i, carry)`: slot i is empty and the merged run goes on up. */
  lemma CarryMerge(link1: map<Ptr, Ptr>, link2: map<Ptr, Ptr>, value: map<Ptr, int>, runs: seq<seq<Ptr>>,
                   slots: seq<NullableRange>, cur: seq<Ptr>, carry: seq<Ptr>, nr: Range, i: int,
                   m: seq<Ptr>, nr': Range,
                   bh: Ptr, at: Ptr, ns: seq<Ptr>, link0: map<Ptr, Ptr>, value0: map<Ptr, int>, full: seq<Ptr>)
    requires CarryState(link1, value, runs, slots, cur, carry, nr, i, bh, at, ns, link0, value0, full)
    requires i < Slots && !slots[i].isNull && Owns(value, runs[i]) && Owns(value, carry)
    requires m == MergeRuns(value, runs[i], carry) && Chain(link2, m)
    requires nr' == Range(Between([], m), Between(m, []))
    requires KeptOutside(link1, link2, [], runs[i], [], carry)
    ensures CarryState(link2, value, runs[i := []], slots[i := NullableRange(slots[i].range, true)], cur, m, nr',
                       i + 1, bh, at, ns, link0, value0, full)
  {
    var s := runs[i] + carry;
    var runs' := runs[i := []];
    var slots' := slots[i := NullableRange(slots[i].range, true)];
    var fl := FullOf(bh, cur, at);
    CarryMergeShape(link1, value, runs, runs', slots, slots', cur, carry, nr, i, m, bh, at, ns, link0, value0, full);
    MergeKept(link1, link2, runs[i], carry);
    SlotsFrame(link1, link2, value, runs', slots', 0, s);
    ChainOutside(link1, link2, fl, s);
    SortFrameStep(link1, link2, value, s, bh, at, ns, link0, value0, full);
  }

  /** Moving a run from a slot into the carried merge keeps the total. */
  lemma BagMerged(c: multiset<Ptr>, b: multiset<Ptr>, b': multiset<Ptr>, t: multiset<Ptr>, f: multiset<Ptr>,
                  m: multiset<Ptr>, n: multiset<Ptr>)
    requires b' + t == b && m == t + f && c + b + f == n
    ensures c + b' + m == n
  {
  }

  /** The set side of `CarryMerge`: the merged run avoids the other runs and the list. */
  lemma MergedApart(runs: seq<seq<Ptr>>, i: int, carry: seq<Ptr>, m: seq<Ptr>, fl: seq<Ptr>)
    requires 0 <= i < |runs| && RunsApart(runs, 0, fl + carry) && Disjoint(carry, fl)
    requires forall q :: q in m ==> q in runs[i] || q in carry
    ensures RunsApart(runs[i := []], 0, fl + m) && Disjoint(m, fl)
  {
    var runs' := runs[i := []];
    forall u, w | 0 <= u < w < |runs'| ensures Disjoint(runs'[u], runs'[w]) {
    }
    forall u | 0 <= u < |runs'| ensures Disjoint(runs'[u], fl + m) {
      if u != i {
        assert Disjoint(runs[u], fl + carry);
        forall q | q in runs[u] ensures q !in m {
          if u < i {
            assert Disjoint(runs[u], runs[i]);
          } else {
            assert Disjoint(runs[i], runs[u]);
          }
        }
      }
    }
    assert Disjoint(runs[i], fl + carry);
  }

  /** The carried run lands in the empty slot k. */
  lemma CarryPlace(link: map<Ptr, Ptr>, value: map<Ptr, int>, runs: seq<seq<Ptr>>, slots: seq<NullableRange>,
                   cur: seq<Ptr>, carry: seq<Ptr>, nr: Range, i: int, k: int,
                   bh: Ptr, at: Ptr, ns: seq<Ptr>, link0: map<Ptr, Ptr>, value0: map<Ptr, int>, full: seq<Ptr>)
    requires CarryState(link, value, runs, slots, cur, carry, nr, i, bh, at, ns, link0, value0, full)
    requires 0 <= k < Slots && slots[k].isNull
    ensures SortState(link, value, runs[k := carry], slots[k := NullableRange(nr, false)], cur, bh, at, ns,
                      link0, value0, full)
  {
    var runs' := runs[k := carry];
    var fl := FullOf(bh, cur, at);
    assert RunOk(link, value, runs[k], slots[k]);
    assert runs[k] == [] && multiset(runs[k]) == multiset{};
    forall u, w | 0 <= u < w < |runs'| ensures Disjoint(runs'[u], runs'[w]) {
      if u == k {
        assert Disjoint(runs[w], fl + carry);
      } else if w == k {
        assert Disjoint(runs[u], fl + carry);
      }
    }
    forall u | 0 <= u < |runs'| ensures Disjoint(runs'[u], fl) {
      if u != k {
        assert Disjoint(runs[u], fl + carry);
      }
    }
    BagUpdate(runs, k, carry);
    BagPlaced(multiset(cur), Bag(runs), Bag(runs'), multiset(runs[k]), multiset(carry), multiset(ns));
  }

  /** Moving the carried run into an empty slot keeps the total. */
  lemma BagPlaced(c: multiset<Ptr>, b: multiset<Ptr>, b': multiset<Ptr>, e: multiset<Ptr>, f: multiset<Ptr>,
                  n: multiset<Ptr>)
    requires b' + e == b + f && e == multiset{} && c + b + f == n
    ensures c + b' == n
  {
    assert b' + e == b';
  }

  // ---------------------------------------------------------------------------
  // The final loop
  // ---------------------------------------------------------------------------

  lemma FinalStart(link: map<Ptr, Ptr>, value: map<Ptr, int>, runs: seq<seq<Ptr>>, slots: seq<NullableRange>,
                   bh: Ptr, at: Ptr, ns: seq<Ptr>, link0: map<Ptr, Ptr>, value0: map<Ptr, int>, full: seq<Ptr>)
    requires SortState(link, value, runs, slots, [], bh, at, ns, link0, value0, full)
    ensures FinalState(link, value, runs, slots, 0, [], NoRange, bh, at, ns, link0, value0, full)
  {
    assert runs[0..] == runs;
    assert FullOf(bh, [], at) + [] == FullOf(bh, [], at);
  }

  /** An empty slot adds nothing. */
  lemma FinalSkip(link: map<Ptr, Ptr>, value: map<Ptr, int>, runs: seq<seq<Ptr>>, slots: seq<NullableRange>,
                  i: int, res: seq<Ptr>, result: NullableRange,
                  bh: Ptr, at: Ptr, ns: seq<Ptr>, link0: map<Ptr, Ptr>, value0: map<Ptr, int>, full: seq<Ptr>)
    requires FinalState(link, value, runs, slots, i, res, result, bh, at, ns, link0, value0, full)
    requires i < Slots && slots[i].isNull
    ensures FinalState(link, value, runs, slots, i + 1, res, result, bh, at, ns, link0, value0, full)
  {
    assert RunOk(link, value, runs[i], slots[i]);
    BagSuffix(runs, i);
  }

  /** The first full slot becomes the result. */
  lemma FinalTake(link: map<Ptr, Ptr>, value: map<Ptr, int>, runs: seq<seq<Ptr>>, slots: seq<NullableRange>,
                  i: int, res: seq<Ptr>, result: NullableRange,
                  bh: Ptr, at: Ptr, ns: seq<Ptr>, link0: map<Ptr, Ptr>, value0: map<Ptr, int>, full: seq<Ptr>)
    requires FinalState(link, value, runs, slots, i, res, result, bh, at, ns, link0, value0, full)
    requires i < Slots && !slots[i].isNull && result.isNull
    ensures FinalState(link, value, runs, slots, i + 1, runs[i], slots[i], bh, at, ns, link0, value0, full)
  {
    var fl := FullOf(bh, [], at);
    assert RunOk(link, value, runs[i], slots[i]) && res == [];
    assert fl + [] == fl;
    forall u | i + 1 <= u < |runs| ensures Disjoint(runs[u], fl + runs[i]) {
      assert Disjoint(runs[u], fl) && Disjoint(runs[i], runs[u]);
    }
    assert Disjoint(runs[i], fl);
    BagSuffix(runs, i);
  }

  /** A later full slot is merged with the result, its nodes first among equal payloads. */
  lemma FinalMerge(link1: map<Ptr, Ptr>, link2: map<Ptr, Ptr>, value: map<Ptr, int>, runs: seq<seq<Ptr>>,
                   slots: seq<NullableRange>, i: int, res: seq<Ptr>, result: NullableRange, m: seq<Ptr>, nr': Range,
                   bh: Ptr, at: Ptr, ns: seq<Ptr>, link0: map<Ptr, Ptr>, value0: map<Ptr, int>, full: seq<Ptr>)
    requires FinalState(link1, value, runs, slots, i, res, result, bh, at, ns, link0, value0, full)
    requires i < Slots && !slots[i].isNull && !result.isNull && Owns(value, runs[i]) && Owns(value, res)
    requires m == MergeRuns(value, runs[i], res) && Chain(link2, m)
    requires nr' == Range(Between([], m), Between(m, []))
    requires KeptOutside(link1, link2, [], runs[i], [], res)
    ensures FinalState(link2, value, runs, slots, i + 1, m, NullableRange(nr', false), bh, at, ns, link0, value0, full)
  {
    var s := runs[i] + res;
    var fl := FullOf(bh, [], at);
    assert RunOk(link1, value, runs[i], slots[i]);
    MergeKept(link1, link2, runs[i], res);
    MergedFrom(value, runs[i], res);
    MergeRunsAscending(value, runs[i], res);
    assert Disjoint(runs[i], fl + res);
    forall u | i + 1 <= u < Slots ensures Disjoint(runs[u], s) && Disjoint(runs[u], fl + m) {
      assert Disjoint(runs[u], fl + res) && Disjoint(runs[i], runs[u]);
    }
    SlotsFrame(link1, link2, value, runs, slots, i + 1, s);
    assert Disjoint(s, fl);
    ChainOutside(link1, link2, fl, s);
    BagSuffix(runs, i);
    forall q | q in s ensures q in FullOf(bh, ns, at) {
      assert q in ns;
    }
    SortFrameStep(link1, link2, value, s, bh, at, ns, link0, value0, full);
  }

  /** After the last slot the result is one ascending run holding every node the sort started with. */
  lemma FinalEnd(link: map<Ptr, Ptr>, value: map<Ptr, int>, runs: seq<seq<Ptr>>, slots: seq<NullableRange>,
                 res: seq<Ptr>, result: NullableRange,
                 bh: Ptr, at: Ptr, ns: seq<Ptr>, link0: map<Ptr, Ptr>, value0: map<Ptr, int>, full: seq<Ptr>)
    requires FinalState(link, value, runs, slots, Slots, res, result, bh, at, ns, link0, value0, full) && ns != []
    ensures multiset(res) == multiset(ns) && |res| == |ns|
    ensures !result.isNull && res != [] && result.range == Range(Between([], res), Between(res, []))
    ensures Chain(link, res) && Owns(value, res) && Ascending(value, res) && Disjoint(res, FullOf(bh, [], at))
  {
    assert runs[Slots..] == [];
    assert |multiset(res)| == |multiset(ns)|;
  }

  /** Linking the result back in ends the sort inside the frame it started with. */
  lemma SortDone(link1: map<Ptr, Ptr>, link2: map<Ptr, Ptr>, value: map<Ptr, int>, runs: seq<seq<Ptr>>,
                 slots: seq<NullableRange>, res: seq<Ptr>, result: NullableRange,
                 bh: Ptr, at: Ptr, ns: seq<Ptr>, link0: map<Ptr, Ptr>, value0: map<Ptr, int>, full: seq<Ptr>)
    requires FinalState(link1, value, runs, slots, Slots, res, result, bh, at, ns, link0, value0, full)
    requires link2.Keys == link1.Keys && KeptApart(link1, value, link2, value, FullOf(bh, [], at) + res)
    ensures value == value0 && link2.Keys == link0.Keys && KeptApart(link0, value0, link2, value, full)
  {
    forall q | q in FullOf(bh, [], at) + res ensures q in FullOf(bh, ns, at) {
      if q in res {
        assert q in ns;
      }
    }
    SortFrameStep(link1, link2, value, FullOf(bh, [], at) + res, bh, at, ns, link0, value0, full);
  }
}
