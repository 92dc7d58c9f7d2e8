/**
 The to-do list state container of a small front-end application: a list of
 to-do items and the reducer that applies one of three actions (create,
 toggle, remove) to produce the next list. The reducer is pure: every
 action yields a new list value and the input list is never changed.
 */
module TodoContext {

  /** One to-do item (`TodoType`): an identifier, its text and whether it is done. */
  datatype Todo = Todo(id: int, text: string, done: bool)

  /** The actions the reducer accepts: append a caller-built item, flip the
      `done` flag of the items with a given id, or drop the items with that id. */
  datatype Action = Create(todo: Todo) | Toggle(id: int) | Remove(id: int)

  /** Some item of `s` carries identifier `k`. */
  predicate HasId(s: seq<Todo>, k: int) {
    exists i :: 0 <= i < |s| && s[i].id == k
  }

  /** No two items of `s` share an identifier. */
  predicate DistinctIds(s: seq<Todo>) {
    forall i, j :: 0 <= i < j < |s| ==> s[i].id != s[j].id
  }

  /** `r` is obtained from `s` by deleting some items, keeping the order of the rest. */
  predicate IsSubsequence(r: seq<Todo>, s: seq<Todo>)
    decreases |s|
  {
    r == [] || (s != [] && ((r[0] == s[0] && IsSubsequence(r[1..], s[1..])) || IsSubsequence(r, s[1..])))
  }

  /** The seed list the provider starts from (`initialTodos`). */
  function InitialTodos(): (s: seq<Todo>)
    ensures |s| == 4
    ensures forall i :: 0 <= i < |s| ==> s[i].id == i + 1
    ensures DistinctIds(s)
  {
    [ Todo(1, "Create Project", true),
      Todo(2, "Styling Components", true),
      Todo(3, "Create Context", false),
      Todo(4, "Implements function", false) ]
  }

  /** The TOGGLE branch: a `map` that flips `done` on every item whose id is `k`
      and passes every other item through as it is. */
  function ToggleAll(s: seq<Todo>, k: int): (r: seq<Todo>)
    ensures |r| == |s|
    ensures forall i :: 0 <= i < |s| ==>
      r[i].id == s[i].id && r[i].text == s[i].text && r[i].done == (s[i].done != (s[i].id == k))
  {
    if s == [] then []
    else
      var head := if s[0].id == k then s[0].(done := !s[0].done) else s[0];
      [head] + ToggleAll(s[1..], k)
  }

  /** The REMOVE branch: a `filter` keeping the items whose id is not `k`. */
  function RemoveAll(s: seq<Todo>, k: int): (r: seq<Todo>)
    ensures |r| <= |s|
    ensures forall i :: 0 <= i < |r| ==> r[i].id != k
    ensures IsSubsequence(r, s)
  {
    if s == [] then []
    else if s[0].id == k then RemoveAll(s[1..], k)
    else [s[0]] + RemoveAll(s[1..], k)
  }

  /** The reducer (`todoReducer`). CREATE appends to a copy of the list and
      never rejects its item, even when its id is already in use. */
  function Apply(s: seq<Todo>, a: Action): (r: seq<Todo>)
    ensures a.Create? ==> |r| == |s| + 1 && r[..|s|] == s && r[|s|] == a.todo
    ensures a.Toggle? ==> |r| == |s|
    ensures a.Remove? ==> |r| <= |s|
  {
    match a
    case Create(t) => s + [t]
    case Toggle(k) => ToggleAll(s, k)
    case Remove(k) => RemoveAll(s, k)
  }

  /** The successive lists the provider holds when the actions `acts` are
      dispatched one after another, starting from `s`. */
  function Replay(s: seq<Todo>, acts: seq<Action>): (r: seq<Todo>)
    ensures acts == [] ==> r == s
    ensures |acts| == 1 ==> r == Apply(s, acts[0])
    decreases |acts|
  {
    if acts == [] then s else Replay(Apply(s, acts[0]), acts[1..])
  }

  /** Every CREATE in `acts` carries an id that is not in the list it is applied to. */
  predicate FreshCreates(s: seq<Todo>, acts: seq<Action>)
    decreases |acts|
  {
    acts == [] ||
    ((acts[0].Create? ==> !HasId(s, acts[0].todo.id)) && FreshCreates(Apply(s, acts[0]), acts[1..]))
  }

  // ---------------------------------------------------------------------------
  // CREATE

  /** On a list with distinct ids, CREATE keeps them distinct exactly when the
      new item's id is fresh. */
  lemma CreateDistinctIff(s: seq<Todo>, t: Todo)
    requires DistinctIds(s)
    ensures DistinctIds(Apply(s, Create(t))) <==> !HasId(s, t.id)
  {
    var r := Apply(s, Create(t));
    if HasId(s, t.id) {
      var i :| 0 <= i < |s| && s[i].id == t.id;
      assert r[i].id == r[|s|].id;
    } else {
      forall i, j | 0 <= i < j < |r| ensures r[i].id != r[j].id {
        if j == |s| {
          assert r[i] == s[i];
        } else {
          assert r[i] == s[i] && r[j] == s[j];
        }
      }
    }
  }

  /** CREATE does not check ids: creating id 1 on the seed list succeeds and
      leaves two items with id 1. */
  lemma CreateAcceptsDuplicateId()
    ensures var r := Apply(InitialTodos(), Create(Todo(1, "Ship", false)));
      |r| == 5 && r[0].id == 1 && r[4].id == 1 && !DistinctIds(r)
  {
    var r := Apply(InitialTodos(), Create(Todo(1, "Ship", false)));
    assert r[0].id == r[4].id;
  }

  // ---------------------------------------------------------------------------
  // TOGGLE

  /** TOGGLE returns its input unchanged exactly when no item carries the id. */
  lemma {:induction false} ToggleUnchangedIff(s: seq<Todo>, k: int)
    ensures ToggleAll(s, k) == s <==> !HasId(s, k)
  {
    var r := ToggleAll(s, k);
    if HasId(s, k) {
      var i :| 0 <= i < |s| && s[i].id == k;
      assert r[i].done != s[i].done;
    } else {
      forall i | 0 <= i < |s| ensures r[i] == s[i] {
        assert s[i].id != k;
      }
    }
  }

  /** Toggling the same id twice restores the list. */
  lemma {:induction false} ToggleInvolution(s: seq<Todo>, k: int)
    ensures Apply(Apply(s, Toggle(k)), Toggle(k)) == s
  {
    var r := ToggleAll(ToggleAll(s, k), k);
    forall i | 0 <= i < |s| ensures r[i] == s[i] {
      assert r[i].id == s[i].id && r[i].text == s[i].text && r[i].done == s[i].done;
    }
  }

  /** TOGGLE leaves the ids in place, so it keeps (and never creates) id distinctness. */
  lemma ToggleDistinctIff(s: seq<Todo>, k: int)
    ensures DistinctIds(Apply(s, Toggle(k))) <==> DistinctIds(s)
  {
    var r := ToggleAll(s, k);
    assert forall i :: 0 <= i < |s| ==> r[i].id == s[i].id;
  }

  // ---------------------------------------------------------------------------
  // REMOVE

  /** A subsequence never holds an item more often than the sequence it comes from. */
  lemma {:induction false} SubsequenceMultiset(r: seq<Todo>, s: seq<Todo>)
    requires IsSubsequence(r, s)
    ensures multiset(r) <= multiset(s)
    decreases |s|
  {
    if r == [] {
    } else if r[0] == s[0] && IsSubsequence(r[1..], s[1..]) {
      SubsequenceMultiset(r[1..], s[1..]);
      assert r == [r[0]] + r[1..] && s == [s[0]] + s[1..];
    } else {
      SubsequenceMultiset(r, s[1..]);
      assert s == [s[0]] + s[1..];
    }
  }

  /** An id occurs in a list headed by `x` exactly when it is `x`'s or occurs in the tail. */
  lemma HasIdCons(x: Todo, rest: seq<Todo>, k: int)
    ensures HasId([x] + rest, k) <==> x.id == k || HasId(rest, k)
  {
    var r := [x] + rest;
    assert r[0] == x;
    if HasId(rest, k) {
      var m :| 0 <= m < |rest| && rest[m].id == k;
      assert r[m + 1].id == k;
    }
    if HasId(r, k) && x.id != k {
      var m :| 0 <= m < |r| && r[m].id == k;
      assert rest[m - 1].id == k;
    }
  }

  /** REMOVE returns its input unchanged exactly when no item carries the id,
      and otherwise returns a strictly shorter list. */
  lemma {:induction false} RemoveUnchangedIff(s: seq<Todo>, k: int)
    ensures RemoveAll(s, k) == s <==> !HasId(s, k)
    ensures HasId(s, k) ==> |RemoveAll(s, k)| < |s|
  {
    if s != [] {
      var x, rest := s[0], s[1..];
      assert s == [x] + rest;
      RemoveUnchangedIff(rest, k);
      HasIdCons(x, rest, k);
      if x.id == k {
        assert |RemoveAll(s, k)| < |s|;
      } else {
        var r := RemoveAll(s, k);
        assert r == [x] + RemoveAll(rest, k);
        assert r == s ==> RemoveAll(rest, k) == rest by {
          if r == s { assert r[1..] == RemoveAll(rest, k); }
        }
      }
    }
  }

  /** Removing an id a second time changes nothing. */
  lemma RemoveIdempotent(s: seq<Todo>, k: int)
    ensures Apply(Apply(s, Remove(k)), Remove(k)) == Apply(s, Remove(k))
  {
    RemoveUnchangedIff(RemoveAll(s, k), k);
  }

  /** REMOVE drops every copy of an item with id `k` and keeps every copy of
      any other item. */
  lemma {:induction false} RemoveCount(s: seq<Todo>, k: int, t: Todo)
    ensures multiset(RemoveAll(s, k))[t] == if t.id == k then 0 else multiset(s)[t]
  {
    if s != [] {
      var x, rest := s[0], s[1..];
      assert s == [x] + rest;
      RemoveCount(rest, k, t);
      if x.id != k {
        assert RemoveAll(s, k) == [x] + RemoveAll(rest, k);
      }
    }
  }

  /** REMOVE keeps exactly the items whose id is not `k`, in order: any
      subsequence of `s` with no item of id `k` that keeps every other item as
      often as `s` holds it is the result of REMOVE. */
  lemma {:induction false} RemoveUnique(s: seq<Todo>, k: int, r: seq<Todo>)
    requires IsSubsequence(r, s)
    requires forall t :: multiset(r)[t] == if t.id == k then 0 else multiset(s)[t]
    ensures r == RemoveAll(s, k)
    decreases |s|
  {
    if s == [] {
      assert r == [];
    } else {
      var x, s' := s[0], s[1..];
      assert s == [x] + s';
      assert forall t :: multiset(s)[t] == multiset(s')[t] + (if t == x then 1 else 0);
      if r == [] {
        assert x.id == k by { assert multiset(s)[x] > 0; }
        RemoveUnique(s', k, r);
      } else if r[0] == x && IsSubsequence(r[1..], s') {
        assert x.id != k by { assert multiset(r)[x] > 0; }
        assert r == [x] + r[1..];
        RemoveUnique(s', k, r[1..]);
      } else {
        assert IsSubsequence(r, s');
        if x.id != k {
          SubsequenceMultiset(r, s');
          assert false;
        }
        RemoveUnique(s', k, r);
      }
    }
  }

  /** A list headed by `x` has distinct ids exactly when its tail does and
      does not hold `x`'s id. */
  lemma DistinctCons(x: Todo, rest: seq<Todo>)
    ensures DistinctIds([x] + rest) <==> !HasId(rest, x.id) && DistinctIds(rest)
  {
    var r := [x] + rest;
    if DistinctIds(r) {
      forall m | 0 <= m < |rest| ensures rest[m].id != x.id {
        assert r[0] == x && r[m + 1] == rest[m];
      }
      forall i, j | 0 <= i < j < |rest| ensures rest[i].id != rest[j].id {
        assert r[i + 1] == rest[i] && r[j + 1] == rest[j];
      }
    }
    if !HasId(rest, x.id) && DistinctIds(rest) {
      forall i, j | 0 <= i < j < |r| ensures r[i].id != r[j].id {
        if i == 0 {
          assert r[j] == rest[j - 1];
        } else {
          assert r[i] == rest[i - 1] && r[j] == rest[j - 1];
        }
      }
    }
  }

  /** Every id found in a subsequence is found in the sequence it comes from. */
  lemma {:induction false} SubsequenceHasId(r: seq<Todo>, s: seq<Todo>, k: int)
    requires IsSubsequence(r, s)
    requires HasId(r, k)
    ensures HasId(s, k)
    decreases |s|
  {
    var i :| 0 <= i < |r| && r[i].id == k;
    if r[0] == s[0] && IsSubsequence(r[1..], s[1..]) {
      if i == 0 {
        assert s[0].id == k;
      } else {
        assert r[1..][i - 1].id == k;
        SubsequenceHasId(r[1..], s[1..], k);
        var m :| 0 <= m < |s[1..]| && s[1..][m].id == k;
        assert s[m + 1].id == k;
      }
    } else {
      SubsequenceHasId(r, s[1..], k);
      var m :| 0 <= m < |s[1..]| && s[1..][m].id == k;
      assert s[m + 1].id == k;
    }
  }

  /** Deleting items from a list with distinct ids leaves the ids distinct. */
  lemma {:induction false} SubsequenceKeepsDistinct(r: seq<Todo>, s: seq<Todo>)
    requires IsSubsequence(r, s)
    requires DistinctIds(s)
    ensures DistinctIds(r)
    decreases |s|
  {
    if r != [] {
      assert s == [s[0]] + s[1..];
      DistinctCons(s[0], s[1..]);
      if r[0] == s[0] && IsSubsequence(r[1..], s[1..]) {
        SubsequenceKeepsDistinct(r[1..], s[1..]);
        if HasId(r[1..], r[0].id) {
          SubsequenceHasId(r[1..], s[1..], r[0].id);
        }
        assert r == [r[0]] + r[1..];
        DistinctCons(r[0], r[1..]);
      } else {
        SubsequenceKeepsDistinct(r, s[1..]);
      }
    }
  }

  /** REMOVE keeps id distinctness. */
  lemma RemoveKeepsDistinct(s: seq<Todo>, k: int)
    requires DistinctIds(s)
    ensures DistinctIds(Apply(s, Remove(k)))
  {
    SubsequenceKeepsDistinct(RemoveAll(s, k), s);
  }

  // ---------------------------------------------------------------------------
  // The reducer as a whole

  /** Every action keeps ids distinct, provided a CREATE brings a fresh id. */
  lemma ApplyKeepsDistinct(s: seq<Todo>, a: Action)
    requires DistinctIds(s)
    requires a.Create? ==> !HasId(s, a.todo.id)
    ensures DistinctIds(Apply(s, a))
  {
    match a
    case Create(t) => CreateDistinctIff(s, t);
    case Toggle(k) => ToggleDistinctIff(s, k);
    case Remove(k) => RemoveKeepsDistinct(s, k);
  }

  /** From any list with distinct ids, ids stay distinct through any run of
      dispatched actions whose CREATEs bring fresh ids. */
  lemma {:induction false} ReplayKeepsDistinct(s: seq<Todo>, acts: seq<Action>)
    requires DistinctIds(s)
    requires FreshCreates(s, acts)
    ensures DistinctIds(Replay(s, acts))
    decreases |acts|
  {
    if acts != [] {
      ApplyKeepsDistinct(s, acts[0]);
      ReplayKeepsDistinct(Apply(s, acts[0]), acts[1..]);
    }
  }

  /** A run of actions split in two is replayed as its first part and then its second. */
  lemma {:induction false} ReplayAppend(s: seq<Todo>, acts: seq<Action>, more: seq<Action>)
    ensures Replay(s, acts + more) == Replay(Replay(s, acts), more)
    decreases |acts|
  {
    if acts != [] {
      assert (acts + more)[0] == acts[0] && (acts + more)[1..] == acts[1..] + more;
      ReplayAppend(Apply(s, acts[0]), acts[1..], more);
    } else {
      assert acts + more == more;
    }
  }

  /** Starting from the seed list, ids stay distinct through any run of
      dispatched actions whose CREATEs bring fresh ids. */
  lemma SeedReplayKeepsDistinct(acts: seq<Action>)
    requires FreshCreates(InitialTodos(), acts)
    ensures DistinctIds(Replay(InitialTodos(), acts))
  {
    ReplayKeepsDistinct(InitialTodos(), acts);
  }

  /** The seed list after toggling id 3: only item 3 is now done. */
  lemma SeedToggle3()
    ensures Apply(InitialTodos(), Toggle(3)) ==
      [ Todo(1, "Create Project", true), Todo(2, "Styling Components", true),
        Todo(3, "Create Context", true), Todo(4, "Implements function", false) ]
  {
    var s1 := ToggleAll(InitialTodos(), 3);
    assert s1[0].done && s1[1].done && s1[2].done && !s1[3].done;
  }

  /** Removing id 2 from the toggled seed list leaves items 1, 3 and 4. */
  lemma ToggledSeedRemove2()
    ensures Apply([ Todo(1, "Create Project", true), Todo(2, "Styling Components", true),
                    Todo(3, "Create Context", true), Todo(4, "Implements function", false) ], Remove(2)) ==
      [ Todo(1, "Create Project", true), Todo(3, "Create Context", true),
        Todo(4, "Implements function", false) ]
  {
    RemoveSecondOfFour(Todo(1, "Create Project", true), Todo(2, "Styling Components", true),
                       Todo(3, "Create Context", true), Todo(4, "Implements function", false), 2);
  }

  /** REMOVE on a four-item list where only the second item has the id. */
  lemma RemoveSecondOfFour(a: Todo, b: Todo, c: Todo, d: Todo, k: int)
    requires a.id != k && b.id == k && c.id != k && d.id != k
    ensures RemoveAll([a, b, c, d], k) == [a, c, d]
  {
    var s := [a, b, c, d];
    assert s[1..] == [b, c, d] && s[1..][1..] == [c, d];
    RemoveUnchangedIff([c, d], k);
    assert !HasId([c, d], k);
  }

  /** The walk-through on the seed list: toggle 3, then remove 2 leaves items
      1, 3 and 4; creating item 5 then appends it as the fourth item. */
  lemma SeedScenario()
    ensures Apply(Apply(InitialTodos(), Toggle(3)), Remove(2)) ==
      [ Todo(1, "Create Project", true), Todo(3, "Create Context", true),
        Todo(4, "Implements function", false) ]
    ensures Apply(Apply(Apply(InitialTodos(), Toggle(3)), Remove(2)), Create(Todo(5, "Ship", false))) ==
      [ Todo(1, "Create Project", true), Todo(3, "Create Context", true),
        Todo(4, "Implements function", false), Todo(5, "Ship", false) ]
  {
    SeedToggle3();
    ToggledSeedRemove2();
  }
}
