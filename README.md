# Interaction filter

A model of the interaction-log filter `_filter_by_item_id` of a
learner-interaction backend. Given the interaction logs in storage order
and an optional item id, the filter returns every log when no id is given,
and otherwise the logs of that item, in their original relative order.

The filter's implementation (`app/routers/interactions.py`) and the record
type (`app/models/interaction.py`) are not part of this model. The model
follows the contract that the filter's unit tests fix,
`backend/tests/unit/test_interactions.py`, and nothing beyond it.

- `interaction.dfy` (module `Interaction`): the `InteractionLog` record
  (`id`, `learnerId`, `itemId`, `kind`) and an `Option` for the absent id.
- `interactions.dfy` (module `Interactions`): the filter. `Select` keeps the
  logs of one item. `FilterByItemId` is the filter itself. `FilterByItemIdLoop`
  is a single-pass version proved equal to it. Two reference definitions
  serve as its partners: `CountMatching`, the number of logs of an item, and
  `IsSubsequence`, an order-preserving embedding. The lemmas prove the
  following:
  - the result is the ONLY order-preserving selection of logs of the item
    that has `CountMatching` elements;
  - soundness and completeness, by membership and by multiplicity;
  - the result is empty exactly when no log carries the id;
  - the learner of a log plays no part in the result.
- `interactions_tests.dfy` (module `InteractionsTests`): the nine unit
  tests, each stated as a lemma over the same fixture data. `MakeLog` is
  the fixture builder; its `kind` is always `"attempt"`. `Ids` lists the
  ids of some logs in order.

Item ids are unbounded integers. Zero, negative and very large ids are
ordinary values: no contract treats any id specially.

## Model

| member | source | states |
|---|---|---|
| `Interactions.FilterByItemId` | backend/tests/unit/test_interactions.py:11-114 | With no id, the result is the input. With an id, the result is a subsequence of the input in input order. Every record in it has that item id. Its length is the number of input records with that id. |
| `Interactions.Select` | backend/tests/unit/test_interactions.py:41 | Every selected record carries the requested item id and comes from the input. The result is never longer than the input. |
| `Interactions.FilterByItemIdLoop` | backend/tests/unit/test_interactions.py:11-114 | A single pass that appends each matching record returns exactly what `FilterByItemId` returns, for both the absent and the present id. |
| `Interactions.SelectLength` | backend/tests/unit/test_interactions.py:69-83 | The result has as many records as the input has records of the item. |
| `Interactions.SelectMultiset` | backend/tests/unit/test_interactions.py:69-83 | Each matching record occurs in the result as often as in the input. Each other record does not occur. |
| `Interactions.SelectMembership` | backend/tests/unit/test_interactions.py:22-26 | A record is in the result if and only if it is in the input and carries the item id. |
| `Interactions.SelectIsSubsequence` | backend/tests/unit/test_interactions.py:86-99 | The result is an order-preserving subsequence of the input. |
| `Interactions.SubsequenceMatchingBound` | backend/tests/unit/test_interactions.py:69-83 | No order-preserving selection of records of one item is longer than the number of input records of that item. |
| `Interactions.SelectUnique` | backend/tests/unit/test_interactions.py:69-99 | Any order-preserving selection of records of the item that has as many records as the input has matches is the filter's result. |
| `Interactions.SelectEmptyIff` | backend/tests/unit/test_interactions.py:44-66 | The result is empty if and only if no input record carries the id. |
| `Interactions.SelectAppend` | backend/tests/unit/test_interactions.py:86-99 | Filtering a concatenation gives the concatenation of the filtered parts, which is what a single left-to-right pass relies on. |
| `Interactions.SelectIgnoresLearner` | backend/tests/unit/test_interactions.py:29-41 | Inputs that differ only in learner ids give results that differ only in learner ids. |
| `Interactions.FilterCharacterization` | backend/tests/unit/test_interactions.py:22-114 | A list is the filter's result for an id if and only if it is an order-preserving subsequence of the input, holds only records of that id, and has as many records as the input has of that id. |
| `Interactions.FilterMembership` | backend/tests/unit/test_interactions.py:11-41 | A record is in the result if and only if it is in the input and either no id was given or it carries the id. |
| `Interactions.FilterMultiset` | backend/tests/unit/test_interactions.py:11-14 | Every kept record keeps its multiplicity: all records with no id, and the matching ones with an id. |
| `Interactions.FilterEmptyIff` | backend/tests/unit/test_interactions.py:44-66 | For any id, including 999 and -1, the result is empty if and only if no record carries that id. |
| `Interactions.FilterEmptyInput` | backend/tests/unit/test_interactions.py:17-19 | Filtering the empty list gives the empty list, with or without an id. |
| `Interactions.FilterIgnoresLearner` | backend/tests/unit/test_interactions.py:29-41 | The learner id of a record has no influence on the filter's result. |
| `InteractionsTests.MakeLog` | backend/tests/unit/test_interactions.py:7-8 | Builds a log from id, learner and item, with kind "attempt". |
| `InteractionsTests.Ids` | backend/tests/unit/test_interactions.py:99 | The list has one entry per log, and each entry is the id of the log at the same position. |
| `InteractionsTests.ReturnsAllWhenItemIdIsNone` | backend/tests/unit/test_interactions.py:11-14 | With no id, the two fixture logs come back unchanged. |
| `InteractionsTests.ReturnsEmptyForEmptyInput` | backend/tests/unit/test_interactions.py:17-19 | Filtering `[]` by id 1 gives `[]`. |
| `InteractionsTests.ReturnsInteractionWithMatchingIds` | backend/tests/unit/test_interactions.py:22-26 | Filtering by item 1 returns one record, the log with id 1. |
| `InteractionsTests.ExcludesInteractionWithDifferentLearnerId` | backend/tests/unit/test_interactions.py:29-41 | Logs 1 and 2 of item 1 are kept, whatever their learners. Log 3 of item 2 is dropped although its learner is the learner of log 1. |
| `InteractionsTests.ReturnsEmptyForNonexistentItemId` | backend/tests/unit/test_interactions.py:44-54 | Filtering by item 999, which no log carries, gives `[]`. |
| `InteractionsTests.HandlesNegativeItemId` | backend/tests/unit/test_interactions.py:57-66 | Filtering by item -1 gives `[]`. |
| `InteractionsTests.ReturnsAllMatchingItemsWithSameId` | backend/tests/unit/test_interactions.py:69-83 | All three logs of item 5 are returned: ids {1, 2, 3}, all of item 5. |
| `InteractionsTests.PreservesOriginalOrder` | backend/tests/unit/test_interactions.py:86-99 | Filtering by item 2 returns the ids [1, 3, 5] in that order. |
| `InteractionsTests.HandlesZeroItemId` | backend/tests/unit/test_interactions.py:102-114 | Id 0 is an ordinary value: the two logs of item 0, ids {1, 3}, are returned. |

## Left out

- `frontend/src/App.tsx`: a React page that fetches `/items` with a bearer token and renders a table. It is network I/O and UI, with nothing to state about the filter.
- The HTTP router around the filter, the persistence model of `InteractionLog` and the database that supplies the logs: none of them is part of this model. The model takes the logs as a parameter.
- Aliasing: with no id, the filter in the model returns a value equal to the input. Whether Python returns the same list object or a copy (aliasing) is not modelled; the tests only assert equality.
- The meaning of `kind`. The filter never consults it, and the fixtures always set it to `"attempt"`.
