/** The interaction filter of the backend's interactions router: given the
    logs in storage order and an optional item id, keep the logs of that
    item in their original order, or keep everything when no id is given. */
module Interactions {
  import opened Interaction

  // ---------------------------------------------------------------------
  // Reference definitions the filter is measured against
  // ---------------------------------------------------------------------

  /** How many of `logs` concern item `itemId`. */
  function CountMatching(logs: seq<InteractionLog>, itemId: int): nat
  {
    if logs == [] then 0
    else (if logs[0].itemId == itemId then 1 else 0) + CountMatching(logs[1..], itemId)
  }

  /** `a` can be obtained from `b` by deleting elements, without reordering
      the ones that stay. */
  predicate IsSubsequence<T(==)>(a: seq<T>, b: seq<T>)
    decreases |b|
  {
    if a == [] then true
    else if b == [] then false
    else (a[0] == b[0] && IsSubsequence(a[1..], b[1..])) || IsSubsequence(a, b[1..])
  }

  /** Every record of `logs` concerns item `itemId`. */
  predicate AllAbout(logs: seq<InteractionLog>, itemId: int)
  {
    forall i :: 0 <= i < |logs| ==> logs[i].itemId == itemId
  }

  /** `a` and `b` hold, position by position, the same records except perhaps
      for their learner. */
  predicate SameExceptLearner(a: seq<InteractionLog>, b: seq<InteractionLog>)
  {
    && |a| == |b|
    && forall i :: 0 <= i < |a| ==>
         a[i].id == b[i].id && a[i].itemId == b[i].itemId && a[i].kind == b[i].kind
  }

  // ---------------------------------------------------------------------
  // The filter
  // ---------------------------------------------------------------------

  /** The records of `logs` whose item id is `itemId`, in their original order. */
  function Select(logs: seq<InteractionLog>, itemId: int): (r: seq<InteractionLog>)
    ensures |r| <= |logs|
    ensures AllAbout(r, itemId)
    ensures forall x :: x in r ==> x in logs
  {
    if logs == [] then []
    else if logs[0].itemId == itemId then [logs[0]] + Select(logs[1..], itemId)
    else Select(logs[1..], itemId)
  }

  /** `_filter_by_item_id`: no id keeps every record; an id keeps exactly the
      records of that item, as the order-preserving subsequence of `logs`
      that has as many elements as `logs` has matches. */
  function FilterByItemId(logs: seq<InteractionLog>, itemId: Option<int>): (r: seq<InteractionLog>)
    ensures itemId.None? ==> r == logs
    ensures itemId.Some? ==>
              && IsSubsequence(r, logs)
              && AllAbout(r, itemId.value)
              && |r| == CountMatching(logs, itemId.value)
  {
    match itemId
    case None => logs
    case Some(k) =>
      SelectIsSubsequence(logs, k);
      SelectLength(logs, k);
      Select(logs, k)
  }

  /** The filter as a single pass that appends each matching record. */
  method FilterByItemIdLoop(logs: seq<InteractionLog>, itemId: Option<int>) returns (r: seq<InteractionLog>)
    ensures r == FilterByItemId(logs, itemId)
  {
    match itemId
    case None =>
      r := logs;
    case Some(k) =>
      r := [];
      var i := 0;
      while i < |logs|
        invariant 0 <= i <= |logs|
        invariant r == Select(logs[..i], k)
      {
        SelectAppend(logs[..i], [logs[i]], k);
        assert logs[..i + 1] == logs[..i] + [logs[i]];
        if logs[i].itemId == k {
          r := r + [logs[i]];
        }
        i := i + 1;
      }
      assert logs[..i] == logs;
  }

  // ---------------------------------------------------------------------
  // Properties of Select
  // ---------------------------------------------------------------------

  /** Filtering a concatenation filters each part. */
  lemma {:induction false} SelectAppend(a: seq<InteractionLog>, b: seq<InteractionLog>, itemId: int)
    ensures Select(a + b, itemId) == Select(a, itemId) + Select(b, itemId)
  {
    if a == [] {
      assert a + b == b;
    } else {
      assert (a + b)[1..] == a[1..] + b;
      SelectAppend(a[1..], b, itemId);
    }
  }

  /** The result has one element per matching input record. */
  lemma {:induction false} SelectLength(logs: seq<InteractionLog>, itemId: int)
    ensures |Select(logs, itemId)| == CountMatching(logs, itemId)
  {
    if logs != [] {
      SelectLength(logs[1..], itemId);
    }
  }

  /** Each record occurs in the result exactly as often as in the input when
      it matches, and not at all otherwise. */
  lemma {:induction false} SelectMultiset(logs: seq<InteractionLog>, itemId: int)
    ensures forall x :: multiset(Select(logs, itemId))[x] ==
                        if x.itemId == itemId then multiset(logs)[x] else 0
  {
    if logs != [] {
      SelectMultiset(logs[1..], itemId);
      assert logs == [logs[0]] + logs[1..];
    }
  }

  /** A record is returned if and only if it is an input record of the item. */
  lemma {:induction false} SelectMembership(logs: seq<InteractionLog>, itemId: int, x: InteractionLog)
    ensures x in Select(logs, itemId) <==> x in logs && x.itemId == itemId
  {
    SelectMultiset(logs, itemId);
    assert x in Select(logs, itemId) <==> multiset(Select(logs, itemId))[x] > 0;
    assert x in logs <==> multiset(logs)[x] > 0;
  }

  /** The result keeps the input's relative order. */
  lemma {:induction false} SelectIsSubsequence(logs: seq<InteractionLog>, itemId: int)
    ensures IsSubsequence(Select(logs, itemId), logs)
  {
    if logs != [] {
      SelectIsSubsequence(logs[1..], itemId);
      var r := Select(logs, itemId);
      if logs[0].itemId == itemId {
        assert r[0] == logs[0] && r[1..] == Select(logs[1..], itemId);
      }
    }
  }

  /** No order-preserving selection of records of an item is longer than the
      number of input records of that item. */
  lemma {:induction false} SubsequenceMatchingBound(a: seq<InteractionLog>, b: seq<InteractionLog>, itemId: int)
    requires IsSubsequence(a, b)
    requires AllAbout(a, itemId)
    ensures |a| <= CountMatching(b, itemId)
    decreases |b|
  {
    if a != [] {
      if a[0] == b[0] && IsSubsequence(a[1..], b[1..]) {
        SubsequenceMatchingBound(a[1..], b[1..], itemId);
      } else {
        SubsequenceMatchingBound(a, b[1..], itemId);
      }
    }
  }

  /** Select is the only order-preserving selection of records of the item
      that misses none of them. */
  lemma {:induction false} SelectUnique(logs: seq<InteractionLog>, itemId: int, r: seq<InteractionLog>)
    requires IsSubsequence(r, logs)
    requires AllAbout(r, itemId)
    requires |r| == CountMatching(logs, itemId)
    ensures r == Select(logs, itemId)
    decreases |logs|
  {
    if logs != [] {
      var t := logs[1..];
      if r == [] {
        SelectLength(t, itemId);
      } else if r[0] == logs[0] && IsSubsequence(r[1..], t) {
        SelectUnique(t, itemId, r[1..]);
        assert r == [r[0]] + r[1..];
      } else {
        SubsequenceMatchingBound(r, t, itemId);
        SelectUnique(t, itemId, r);
      }
    }
  }

  /** Nothing is returned exactly when no input record concerns the item. */
  lemma {:induction false} SelectEmptyIff(logs: seq<InteractionLog>, itemId: int)
    ensures Select(logs, itemId) == [] <==> forall x :: x in logs ==> x.itemId != itemId
  {
    if logs != [] {
      SelectEmptyIff(logs[1..], itemId);
      assert forall x :: x in logs <==> x == logs[0] || x in logs[1..];
    }
  }

  /** The learner of a record plays no part in the selection: inputs that
      differ only in learners give results that differ only in learners. */
  lemma {:induction false} SelectIgnoresLearner(a: seq<InteractionLog>, b: seq<InteractionLog>, itemId: int)
    requires SameExceptLearner(a, b)
    ensures SameExceptLearner(Select(a, itemId), Select(b, itemId))
  {
    if a != [] {
      assert SameExceptLearner(a[1..], b[1..]);
      SelectIgnoresLearner(a[1..], b[1..], itemId);
    }
  }

  // ---------------------------------------------------------------------
  // Properties of FilterByItemId
  // ---------------------------------------------------------------------

  /** Filtering by an id returns exactly the records of that item in input
      order: FilterByItemId agrees with any selection that is order
      preserving, sound and complete. */
  lemma FilterCharacterization(logs: seq<InteractionLog>, k: int, r: seq<InteractionLog>)
    ensures (IsSubsequence(r, logs) && AllAbout(r, k) && |r| == CountMatching(logs, k))
            <==> r == FilterByItemId(logs, Some(k))
  {
    if IsSubsequence(r, logs) && AllAbout(r, k) && |r| == CountMatching(logs, k) {
      SelectUnique(logs, k, r);
    }
  }

  /** A record is in the result if and only if it is in the input and the
      filter, when given, names its item. */
  lemma FilterMembership(logs: seq<InteractionLog>, itemId: Option<int>, x: InteractionLog)
    ensures x in FilterByItemId(logs, itemId) <==>
              x in logs && (itemId.None? || x.itemId == itemId.value)
  {
    if itemId.Some? {
      SelectMembership(logs, itemId.value, x);
    }
  }

  /** No record is lost or duplicated among the records of the item. */
  lemma FilterMultiset(logs: seq<InteractionLog>, itemId: Option<int>)
    ensures forall x :: multiset(FilterByItemId(logs, itemId))[x] ==
                        if itemId.None? || x.itemId == itemId.value then multiset(logs)[x] else 0
  {
    if itemId.Some? {
      SelectMultiset(logs, itemId.value);
    }
  }

  /** An id that no record carries, whatever its value, yields nothing, and
      only such an id does. */
  lemma FilterEmptyIff(logs: seq<InteractionLog>, k: int)
    ensures FilterByItemId(logs, Some(k)) == [] <==> forall x :: x in logs ==> x.itemId != k
  {
    SelectEmptyIff(logs, k);
  }

  /** Filtering an empty list gives an empty list, with or without an id. */
  lemma FilterEmptyInput(itemId: Option<int>)
    ensures FilterByItemId([], itemId) == []
  {
  }

  /** The learner of a record has no influence on what the filter returns
      beyond being carried along. */
  lemma FilterIgnoresLearner(a: seq<InteractionLog>, b: seq<InteractionLog>, itemId: Option<int>)
    requires SameExceptLearner(a, b)
    ensures SameExceptLearner(FilterByItemId(a, itemId), FilterByItemId(b, itemId))
  {
    if itemId.Some? {
      SelectIgnoresLearner(a, b, itemId.value);
    }
  }
}
