/**
  `splice(position, *this, first, last)` as the source writes it: with
  `x == *this` the only early return is `first == last`, so a call with
  `position == last` cuts [first, last) and then inserts it before the
  cursor `position`, whose `prev` field names the last node of the run
  that was just cut out. The link words written then detach the run for
  good while `length` still counts it.

  The corrected operation is `XorListEngine.XorList.SpliceRange`, which
  returns early in that case (moving a run before the node that already
  follows it changes nothing).
*/
module SpliceFinding {
  import opened XorLinks
  import opened ListShape

  /**
    The link words after the self-splice as written: `cutSequenceFromThis(first,
    last)` followed by `insertSequenceToThisBefore(position, cutted.first,
    cutted.second)` with `position` as it was before the cut.
  */
  function SelfSpliceLinks(link: map<Ptr, Ptr>, position: Cursor, first: Cursor, last: Cursor): (r: map<Ptr, Ptr>)
    requires first.current in link && last.prev in link
    requires first.prev != Null ==> first.prev in link
    requires last.current != Null ==> last.current in link
    requires position.prev != Null ==> position.prev in link
    requires position.current != Null ==> position.current in link
    ensures r.Keys == link.Keys
    ensures forall q :: q in link && q !in [first.prev, first.current, last.prev, last.current, position.prev, position.current] ==> r[q] == link[q]
  {
    InsertSequenceLinks(CutLinks(link, first, last), position, Cursor(Null, first.current), Cursor(last.prev, Null))
  }

  /** beforeHead = 1, nodes a b c d = 2 3 4 5, afterTail = 6, each link word the XOR of its neighbours. */
  const SampleLinks: map<Ptr, Ptr> := map[1 := 2, 2 := 2, 3 := 6, 4 := 6, 5 := 2, 6 := 5]

  /** The exclusive ors the sample needs. */
  lemma SampleXors()
    ensures XorPointers(0, 2) == 2 && XorPointers(1, 3) == 2 && XorPointers(2, 4) == 6
    ensures XorPointers(3, 5) == 6 && XorPointers(4, 6) == 2 && XorPointers(5, 0) == 5
    ensures XorPointers(2, 2) == 0 && XorPointers(0, 4) == 4 && XorPointers(6, 3) == 5 && XorPointers(5, 1) == 4
    ensures XorPointers(2, 1) == 3 && XorPointers(3, 0) == 3 && XorPointers(6, 4) == 2 && XorPointers(2, 0) == 2
    ensures XorPointers(3, 3) == 0 && XorPointers(0, 3) == 3 && XorPointers(4, 3) == 7 && XorPointers(7, 3) == 4
    ensures XorPointers(1, 5) == 4 && XorPointers(4, 0) == 4 && XorPointers(1, 4) == 5
  {
    XorWithNull(2);
    XorWithNull(3);
    XorWithNull(4);
    XorWithNull(5);
  }

  /** The cut of a b: beforeHead and c now name each other, a and b only each other. */
  lemma SampleCut()
    ensures CutLinks(SampleLinks, Cursor(1, 2), Cursor(3, 4)) == map[1 := 4, 2 := 3, 3 := 2, 4 := 4, 5 := 2, 6 := 5]
  {
    SampleXors();
  }

  /** The insertion before the stale cursor (b, c). */
  lemma SampleInsert()
    ensures InsertSequenceLinks(map[1 := 4, 2 := 3, 3 := 2, 4 := 4, 5 := 2, 6 := 5], Cursor(3, 4), Cursor(Null, 2),
                                Cursor(3, Null))
         == map[1 := 4, 2 := 0, 3 := 0, 4 := 4, 5 := 2, 6 := 5]
  {
    SampleXors();
  }

  /** The sample is the list a b c d. */
  lemma SampleIsList()
    ensures Chain(SampleLinks, FullOf(1, [2, 3, 4, 5], 6))
  {
    SampleXors();
    var full := FullOf(1, [2, 3, 4, 5], 6);
    assert full == [1, 2, 3, 4, 5, 6];
    assert forall i :: 0 <= i < 6 ==> full[i] == i + 1;
    assert LinkOk(SampleLinks, full, 0) && LinkOk(SampleLinks, full, 1) && LinkOk(SampleLinks, full, 2);
    assert LinkOk(SampleLinks, full, 3) && LinkOk(SampleLinks, full, 4) && LinkOk(SampleLinks, full, 5);
  }

  /** The cursors on a and on c. */
  lemma SamplePositions()
    ensures PosIn(1, [2, 3, 4, 5], 6, 0) == Cursor(1, 2) && PosIn(1, [2, 3, 4, 5], 6, 2) == Cursor(3, 4)
  {
    assert [1] + [2, 3, 4, 5][..0] == [1] && [2, 3, 4, 5][0..] + [6] == [2, 3, 4, 5, 6];
    assert [1] + [2, 3, 4, 5][..2] == [1, 2, 3] && [2, 3, 4, 5][2..] + [6] == [4, 5, 6];
  }

  /** After the self-splice beforeHead reaches c, d and afterTail only; a and b are no longer on the list. */
  lemma SplicedSample(r: map<Ptr, Ptr>)
    requires r == map[1 := 4, 2 := 0, 3 := 0, 4 := 4, 5 := 2, 6 := 5]
    ensures Chain(r, FullOf(1, [4, 5], 6)) && !Chain(r, FullOf(1, [2, 3, 4, 5], 6))
  {
    SampleXors();
    var kept := FullOf(1, [4, 5], 6);
    assert kept == [1, 4, 5, 6];
    assert kept[0] == 1 && kept[1] == 4 && kept[2] == 5 && kept[3] == 6;
    assert forall i, j :: 0 <= i < j < 4 ==> kept[i] < kept[j];
    assert LinkOk(r, kept, 0) && LinkOk(r, kept, 1) && LinkOk(r, kept, 2) && LinkOk(r, kept, 3);
    var full := FullOf(1, [2, 3, 4, 5], 6);
    assert full == [1, 2, 3, 4, 5, 6];
    assert !LinkOk(r, full, 1);
  }

  /**
    `splice(c, *this, a, c)` on the list a b c d: the list should stay a b c d,
    but as written beforeHead then reaches c, d and afterTail only, and the
    link words of a and b are left pointing at nothing.
  */
  lemma SelfSpliceAtLastLosesRun()
    ensures Chain(SampleLinks, FullOf(1, [2, 3, 4, 5], 6))
    ensures PosIn(1, [2, 3, 4, 5], 6, 0) == Cursor(1, 2) && PosIn(1, [2, 3, 4, 5], 6, 2) == Cursor(3, 4)
    ensures Chain(SelfSpliceLinks(SampleLinks, Cursor(3, 4), Cursor(1, 2), Cursor(3, 4)), FullOf(1, [4, 5], 6))
    ensures !Chain(SelfSpliceLinks(SampleLinks, Cursor(3, 4), Cursor(1, 2), Cursor(3, 4)), FullOf(1, [2, 3, 4, 5], 6))
  {
    SampleIsList();
    SamplePositions();
    assert 1 in SampleLinks && 2 in SampleLinks && 3 in SampleLinks && 4 in SampleLinks;
    SampleCut();
    SampleInsert();
    SplicedSample(SelfSpliceLinks(SampleLinks, Cursor(3, 4), Cursor(1, 2), Cursor(3, 4)));
  }
}
