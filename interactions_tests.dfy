/** The unit-test fixtures of the interaction filter, each stated as a lemma
    about the model. */
module InteractionsTests {
  import opened Interaction
  import opened Interactions

  /** The fixture builder: every log it makes is an "attempt". */
  function MakeLog(id: int, learnerId: int, itemId: int): (r: InteractionLog)
    ensures r.id == id && r.learnerId == learnerId && r.itemId == itemId
    ensures r.kind == "attempt"
  {
    InteractionLog(id, learnerId, itemId, "attempt")
  }

  /** The identifiers of `logs`, position by position. */
  function Ids(logs: seq<InteractionLog>): (r: seq<int>)
    ensures |r| == |logs|
    ensures forall i :: 0 <= i < |logs| ==> r[i] == logs[i].id
  {
    if logs == [] then [] else [logs[0].id] + Ids(logs[1..])
  }

  lemma ReturnsAllWhenItemIdIsNone()
    ensures var logs := [MakeLog(1, 1, 1), MakeLog(2, 2, 2)];
            FilterByItemId(logs, None) == logs
  {
  }

  lemma ReturnsEmptyForEmptyInput()
    ensures FilterByItemId([], Some(1)) == []
  {
  }

  lemma ReturnsInteractionWithMatchingIds()
    ensures var r := FilterByItemId([MakeLog(1, 1, 1), MakeLog(2, 2, 2)], Some(1));
            |r| == 1 && r[0].id == 1
  {
  }

  lemma ExcludesInteractionWithDifferentLearnerId()
    ensures var r := FilterByItemId([MakeLog(1, 1, 1), MakeLog(2, 2, 1), MakeLog(3, 1, 2)], Some(1));
            && |r| == 2
            && r[0].id in {1, 2}
            && r[1].id in {1, 2}
            && forall x :: x in r ==> x.itemId == 1
  {
  }

  lemma ReturnsEmptyForNonexistentItemId()
    ensures FilterByItemId([MakeLog(1, 1, 1), MakeLog(2, 2, 2), MakeLog(3, 3, 3)], Some(999)) == []
  {
  }

  lemma HandlesNegativeItemId()
    ensures FilterByItemId([MakeLog(1, 1, 1), MakeLog(2, 2, 1)], Some(-1)) == []
  {
  }

  lemma ReturnsAllMatchingItemsWithSameId()
    ensures var r := FilterByItemId([MakeLog(1, 1, 5), MakeLog(2, 2, 5), MakeLog(3, 3, 5),
                                     MakeLog(4, 4, 6), MakeLog(5, 5, 6)], Some(5));
            && |r| == 3
            && (forall x :: x in r ==> x.itemId == 5)
            && (set x | x in r :: x.id) == {1, 2, 3}
  {
  }

  lemma PreservesOriginalOrder()
    ensures Ids(FilterByItemId([MakeLog(1, 1, 2), MakeLog(2, 2, 1), MakeLog(3, 3, 2),
                                MakeLog(4, 4, 1), MakeLog(5, 5, 2)], Some(2))) == [1, 3, 5]
  {
  }

  lemma HandlesZeroItemId()
    ensures var r := FilterByItemId([MakeLog(1, 1, 0), MakeLog(2, 2, 1), MakeLog(3, 3, 0)], Some(0));
            && |r| == 2
            && (forall x :: x in r ==> x.itemId == 0)
            && (set x | x in r :: x.id) == {1, 3}
  {
  }
}
