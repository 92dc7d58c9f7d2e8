# To-do list reducer (todo-ts)

A Dafny model of the state-transition core of the todo-ts front end: the
to-do item record (`TodoType`), the three-case `Action` union, the seed list
`initialTodos` and the reducer `todoReducer`, all in
`src/contexts/TodoContext.tsx`. The reducer is pure, so the model is a set of
functions over `seq<Todo>` in one module, `TodoContext`, with lemmas about
them.

- `Apply(s, a)` is the reducer. CREATE appends the caller's item to the list.
  TOGGLE is `ToggleAll`, a recursive `map` that flips `done` on every item
  with the given id. REMOVE is `RemoveAll`, a recursive `filter` that drops
  every item with that id.
- `ToggleAll` is specified position by position: ids and texts are kept, and
  `done` flips exactly where the id matches.
- `RemoveAll` is specified by what it keeps and in what order. No kept item
  has the id. The result is a subsequence of the input. `RemoveCount` adds
  that every other item is kept as many times as the input holds it.
  `RemoveUnique` proves that these facts determine the result completely.
- `DistinctIds` says no two items share an id. Callers are expected to keep
  it; the reducer does not enforce it. TOGGLE and REMOVE keep it always.
  CREATE keeps it exactly when the new id is fresh. `Replay` folds a run of
  actions the way `useReducer` does, and `ReplayKeepsDistinct` proves the
  invariant for any run whose CREATE actions bring fresh ids.

TOGGLE's `map` (TodoContext.tsx:53-55) flips every item with the given id,
not only the first, and `ToggleAll` does the same. CREATE (48-50) appends
whatever it is given, and `CreateAcceptsDuplicateId` shows the duplicate id
this allows.

## Model

| member | source | states |
|---|---|---|
| TodoContext.InitialTodos | src/contexts/TodoContext.tsx:11-32 | the seed list has four items, the i-th has id i+1, and the ids are distinct |
| TodoContext.Apply | src/contexts/TodoContext.tsx:45-59 | CREATE yields a list one longer whose first \|s\| items are `s` in order and whose last item is the supplied todo; TOGGLE keeps the length; REMOVE never lengthens the list |
| TodoContext.ToggleAll | src/contexts/TodoContext.tsx:53-55 | same length; every position keeps its id and text; `done` is inverted exactly at the positions whose id is `k` |
| TodoContext.RemoveAll | src/contexts/TodoContext.tsx:57 | no item of the result has id `k`; the result is a subsequence of the input (original relative order) and no longer than it |
| TodoContext.RemoveCount | src/contexts/TodoContext.tsx:57 | every item with id `k` is gone from the REMOVE result, and every item with another id occurs exactly as often as in the input |
| TodoContext.CreateDistinctIff | src/contexts/TodoContext.tsx:47-50 | on a list with distinct ids, the list after CREATE has distinct ids if and only if the new id is not already present |
| TodoContext.CreateAcceptsDuplicateId | src/contexts/TodoContext.tsx:47-50 | CREATE does not reject a used id: creating id 1 on the seed list gives five items, two of them with id 1 |
| TodoContext.ToggleUnchangedIff | src/contexts/TodoContext.tsx:53-55 | TOGGLE returns a list equal to its input if and only if no item has the id |
| TodoContext.ToggleInvolution | src/contexts/TodoContext.tsx:54 | toggling the same id twice returns the original list |
| TodoContext.ToggleDistinctIff | src/contexts/TodoContext.tsx:53-55 | the list after TOGGLE has distinct ids if and only if the input does |
| TodoContext.RemoveUnchangedIff | src/contexts/TodoContext.tsx:57 | REMOVE returns its input unchanged if and only if no item has the id, and a strictly shorter list otherwise |
| TodoContext.RemoveIdempotent | src/contexts/TodoContext.tsx:57 | removing the same id twice gives the same list as removing it once |
| TodoContext.RemoveUnique | src/contexts/TodoContext.tsx:57 | any subsequence of the input that holds no item with id `k` and every other item as often as the input does is exactly the REMOVE result |
| TodoContext.RemoveKeepsDistinct | src/contexts/TodoContext.tsx:57 | REMOVE keeps ids distinct |
| TodoContext.ApplyKeepsDistinct | src/contexts/TodoContext.tsx:45-59 | every action keeps ids distinct, provided a CREATE brings an id not yet in the list |
| TodoContext.Replay | src/contexts/TodoContext.tsx:72 | the list after a run of dispatched actions: no action leaves it unchanged, and a single action gives the reducer's result for it |
| TodoContext.ReplayAppend | src/contexts/TodoContext.tsx:72 | dispatching a run split in two gives the same list as replaying the first part and then the second from where it ended |
| TodoContext.ReplayKeepsDistinct | src/contexts/TodoContext.tsx:72 | from any list with distinct ids, every run of dispatched actions whose CREATEs bring fresh ids ends in a list with distinct ids |
| TodoContext.SeedReplayKeepsDistinct | src/contexts/TodoContext.tsx:11-32 | starting from the seed list, every run of dispatched actions whose CREATEs bring fresh ids ends in a list with distinct ids |
| TodoContext.SeedToggle3 | src/contexts/TodoContext.tsx:11-32 | toggling id 3 on the seed list marks item 3 done and leaves the others as they were |
| TodoContext.ToggledSeedRemove2 | src/contexts/TodoContext.tsx:57 | removing id 2 from the toggled seed list leaves items 1, 3 and 4 in that order |
| TodoContext.SeedScenario | src/contexts/TodoContext.tsx:45-59 | toggle 3, remove 2, create 5 on the seed list gives items 1, 3, 4 and then 5 |

## Left out

- `TodoProvider` and the three React contexts (lines 61-85): framework wiring around `useReducer` and `useRef`. The state replacement happens inside React. `Replay` stands in for the successive states `useReducer` holds.
- `useTodoState`, `useDispatch` and `useTodoNextId` (lines 87-103): they only look up a context value and throw a configuration error when it is missing. They hold no logic of their own.
- The `nextId` counter (line 73): a mutable ref that the reducer never reads or writes. `useRef<number>(0)` starts it at 0 while the seed ids are 1 to 4. The code that increments it and mints ids is not part of this model, and nothing in the reducer or the provider establishes `FreshCreates`, so freshness of created ids is an assumption about that UI code, not a proved fact.
- Ids are JavaScript numbers compared with `===`. The model uses unbounded integers, so fractional ids, NaN (never equal to itself) and floating-point precision are not modelled.
- The reducer always builds a new array (a spread copy for CREATE, `map` and `filter` otherwise), but the item objects are shared: the `map` at line 54 returns the same `todo` object for items that do not match, and `filter` (57) and the spread copy (48) keep the item references. Only the array itself is new. No item is ever mutated (a toggled item is a fresh spread copy), so modelling items as values loses nothing about their contents; the model does not represent object identity or which arrays share items.
- Item text is never validated or transformed; it is carried as an opaque string.
