/**
 * The todo-list state machine: the reducer behind `useReducer`, the stats
 * derived from its state, and the invariants the transitions keep.
 *
 * The reducer is a pure function of the current state and the dispatched
 * action.  The two values `add` takes from the browser -- a random id
 * (`crypto.randomUUID`, or `Date.now()` and `Math.random()`) and the clock
 * (`Date.now()`) -- are passed in as an `Env`.
 */
module Todo {
  import opened Text
  import opened Seqs

  datatype Option<T> = None | Some(value: T)

  /** One todo as stored in the list (and, as JSON, in local storage). */
  datatype Item = Item(id: string, text: string, completed: bool, createdAt: int)

  /** The reducer state `{ items }`; the order of `items` is the display
      order, newest first. */
  datatype State = State(items: seq<Item>)

  /** `initialState`. */
  const InitialState: State := State([])

  /** The nondeterministic inputs of `add`: the id it generates and the time
      it reads. */
  datatype Env = Env(freshId: string, now: int)

  /** The dispatched actions, by their `type` and `payload`.  `Init` carries
      the payload as an option, `None` standing for a missing (falsy) one;
      `Unrecognized` stands for every `type` other than the five handled
      ones, which the reducer treats alike. */
  datatype Action =
    | Init(payload: Option<seq<Item>>)
    | Add(rawText: string)
    | Toggle(id: string)
    | Delete(id: string)
    | ClearCompleted
    | Unrecognized

  // ---------------------------------------------------------------------
  // The transitions.

  /** The `toggle` callback: the item keeps its id, text and timestamp, and
      its `completed` flag changes exactly when its id matches. */
  function Flip(it: Item, id: string): (r: Item)
    ensures r.id == it.id && r.text == it.text && r.createdAt == it.createdAt
    ensures r.completed != it.completed <==> it.id == id
  {
    if it.id == id then it.(completed := !it.completed) else it
  }

  /** `state.items.map(...)` of the `toggle` case: length, order, ids,
      texts and timestamps are kept, and `completed` flips exactly on the
      items whose id matches. */
  function ToggleItems(items: seq<Item>, id: string): (r: seq<Item>)
    ensures |r| == |items|
    ensures forall i :: 0 <= i < |items| ==>
      && r[i].id == items[i].id
      && r[i].text == items[i].text
      && r[i].createdAt == items[i].createdAt
      && (r[i].completed <==> (items[i].completed != (items[i].id == id)))
  {
    seq(|items|, i requires 0 <= i < |items| => Flip(items[i], id))
  }

  /** The `delete` test: keep items whose id differs. */
  function OtherThan(id: string): Item -> bool {
    (it: Item) => it.id != id
  }

  /** The `delete` case: an order-preserving subsequence in which no item
      has the id, and every item with another id keeps all its occurrences. */
  function DeleteItems(items: seq<Item>, id: string): (r: seq<Item>)
    ensures IsSubsequence(r, items)
    ensures forall i :: 0 <= i < |r| ==> r[i].id != id
    ensures forall x: Item :: x.id != id ==> multiset(r)[x] == multiset(items)[x]
  {
    Filter(items, OtherThan(id))
  }

  predicate IsOpen(it: Item) {
    !it.completed
  }

  predicate IsDone(it: Item) {
    it.completed
  }

  /** The `clearCompleted` case: an order-preserving subsequence with no
      completed item, in which every open item keeps all its occurrences. */
  function ClearCompletedItems(items: seq<Item>): (r: seq<Item>)
    ensures IsSubsequence(r, items)
    ensures forall i :: 0 <= i < |r| ==> !r[i].completed
    ensures forall x: Item :: !x.completed ==> multiset(r)[x] == multiset(items)[x]
  {
    Filter(items, IsOpen)
  }

  /** The `add` case: blank text leaves the list as it is; any other text
      puts one open item in front, with the fresh id, the current time and
      the sanitised text (non-empty, in sanitised shape), and keeps the old
      list behind it. */
  function AddItem(items: seq<Item>, rawText: string, env: Env): (r: seq<Item>)
    ensures r == items <==> AllWhitespace(rawText)
    ensures !AllWhitespace(rawText) ==>
      && |r| == |items| + 1 && r[1..] == items
      && r[0].id == env.freshId && r[0].createdAt == env.now && !r[0].completed
      && r[0].text == SanitizeText(rawText)
      && r[0].text != [] && IsSanitized(r[0].text)
  {
    var text := SanitizeText(rawText);
    if text == [] then items
    else [Item(env.freshId, text, false, env.now)] + items
  }

  /** `todoReducer`.  Apart from `init`, a step introduces no id except the
      one `add` draws and grows the list by at most one item; an
      unrecognised action returns the state unchanged. */
  function Reduce(s: State, a: Action, env: Env): (r: State)
    ensures !a.Init? ==> Ids(r.items) <= Ids(s.items) + {env.freshId}
    ensures !a.Init? && !a.Add? ==> Ids(r.items) <= Ids(s.items)
    ensures !a.Init? ==> |r.items| <= |s.items| + 1
    ensures a.Unrecognized? ==> r == s
  {
    match a
    case Init(payload) => State(if payload.Some? then payload.value else [])
    case Add(rawText) => State(AddItem(s.items, rawText, env))
    case Toggle(id) => State(ToggleItems(s.items, id))
    case Delete(id) => State(DeleteItems(s.items, id))
    case ClearCompleted => State(ClearCompletedItems(s.items))
    case Unrecognized => s
  }

  /** Dispatching a sequence of actions, one `Env` per action.  Without an
      `init`, the ids at the end are the ids at the start plus some of the
      generated ones, and the list grows by at most one item per action. */
  function Run(s: State, actions: seq<Action>, envs: seq<Env>): (r: State)
    requires |envs| == |actions|
    ensures NoInit(actions) ==> Ids(r.items) <= Ids(s.items) + FreshIds(envs)
    ensures NoInit(actions) ==> |r.items| <= |s.items| + |actions|
    decreases |actions|
  {
    if actions == [] then s
    else
      assert FreshIds(envs) == {envs[0].freshId} + FreshIds(envs[1..]) by {
        assert forall k :: 0 <= k < |envs[1..]| ==> envs[1..][k] == envs[k + 1];
      }
      assert NoInit(actions) ==> NoInit(actions[1..]) by {
        assert forall k :: 0 <= k < |actions[1..]| ==> actions[1..][k] == actions[k + 1];
      }
      Run(Reduce(s, actions[0], envs[0]), actions[1..], envs[1..])
  }

  predicate NoInit(actions: seq<Action>) {
    forall k :: 0 <= k < |actions| ==> !actions[k].Init?
  }

  /** The ids a run of `Env`s offers to `add`. */
  function FreshIds(envs: seq<Env>): set<string> {
    set k | 0 <= k < |envs| :: envs[k].freshId
  }

  // ---------------------------------------------------------------------
  // Derived stats.

  datatype Stats = Stats(total: int, completed: int, remaining: int)

  /** The `stats` memo.  Besides its definition, the remaining count is the
      number of items `clearCompleted` would keep. */
  function ComputeStats(items: seq<Item>): (st: Stats)
    ensures st.total == |items|
    ensures 0 <= st.completed <= st.total
    ensures st.remaining == st.total - st.completed
    ensures st.remaining == |ClearCompletedItems(items)|
  {
    var total := |items|;
    var completed := |Filter(items, IsDone)|;
    FilterPartition(items, IsDone, IsOpen);
    Stats(total, completed, total - completed)
  }

  // ---------------------------------------------------------------------
  // Invariants of the list.

  function Ids(items: seq<Item>): set<string> {
    set i | 0 <= i < |items| :: items[i].id
  }

  ghost predicate UniqueIds(items: seq<Item>) {
    forall i, j :: 0 <= i < |items| && 0 <= j < |items| && i != j ==> items[i].id != items[j].id
  }

  ghost predicate TextsSanitized(items: seq<Item>) {
    forall i :: 0 <= i < |items| ==> items[i].text != [] && IsSanitized(items[i].text)
  }

  /** Every item has its own id, and every text is non-empty and sanitised. */
  ghost predicate Valid(s: State) {
    UniqueIds(s.items) && TextsSanitized(s.items)
  }

  /** Newest first: `createdAt` never increases along the list. */
  ghost predicate NewestFirst(items: seq<Item>) {
    forall i, j :: 0 <= i < j < |items| ==> items[i].createdAt >= items[j].createdAt
  }

  /** What the environment and the payload must satisfy for a step to keep
      the invariant: `add` draws an id not in use, `init` loads a valid list. */
  ghost predicate Admissible(s: State, a: Action, env: Env) {
    match a
    case Init(payload) => payload.None? || Valid(State(payload.value))
    case Add(_) => env.freshId !in Ids(s.items)
    case _ => true
  }

  // ---------------------------------------------------------------------
  // toggle

  /** `toggle` leaves the list as it is exactly when no item has the id. */
  lemma ToggleNoopIff(items: seq<Item>, id: string)
    ensures ToggleItems(items, id) == items <==> id !in Ids(items)
  {
  }

  /** Toggling the same id twice gives back the original list. */
  lemma ToggleTwice(items: seq<Item>, id: string)
    ensures ToggleItems(ToggleItems(items, id), id) == items
  {
  }

  /** With unique ids, toggling one item moves the completed count by one:
      down if it was completed, up if it was open. */
  lemma ToggleCompletedCount(items: seq<Item>, k: int)
    requires UniqueIds(items)
    requires 0 <= k < |items|
    ensures ComputeStats(ToggleItems(items, items[k].id)).completed
         == ComputeStats(items).completed + (if items[k].completed then -1 else 1)
  {
    var id := items[k].id;
    var before, x, after := items[..k], items[k], items[k + 1..];
    assert items == before + [x] + after;
    var r := ToggleItems(items, id);
    assert r == before + [Flip(x, id)] + after;
    FilterConcat(before + [x], after, IsDone);
    FilterConcat(before, [x], IsDone);
    FilterConcat(before + [Flip(x, id)], after, IsDone);
    FilterConcat(before, [Flip(x, id)], IsDone);
  }

  // ---------------------------------------------------------------------
  // delete

  /** `delete` leaves the list as it is exactly when no item has the id. */
  lemma DeleteNoopIff(items: seq<Item>, id: string)
    ensures DeleteItems(items, id) == items <==> id !in Ids(items)
  {
    FilterKeepsAllIff(items, OtherThan(id));
    if id in Ids(items) {
      var k :| 0 <= k < |items| && items[k].id == id;
      assert !OtherThan(id)(items[k]);
    } else {
      forall x | x in items ensures OtherThan(id)(x) {
        var k :| 0 <= k < |items| && items[k] == x;
      }
    }
  }

  /** `delete` with unique ids removes exactly the matching item and keeps
      the others in order. */
  lemma DeleteRemovesExactlyOne(items: seq<Item>, k: int)
    requires UniqueIds(items)
    requires 0 <= k < |items|
    ensures DeleteItems(items, items[k].id) == items[..k] + items[k + 1..]
    ensures |DeleteItems(items, items[k].id)| == |items| - 1
  {
    FilterDropsOnlyAt(items, k, OtherThan(items[k].id));
  }

  // ---------------------------------------------------------------------
  // clearCompleted

  /** `clearCompleted` keeps exactly the open items in their order: any
      subsequence of open items as long as its result is its result. */
  lemma ClearCompletedIsOpenItems(items: seq<Item>, r: seq<Item>)
    requires IsSubsequence(r, items)
    requires forall i :: 0 <= i < |r| ==> !r[i].completed
    requires |r| == |ClearCompletedItems(items)|
    ensures r == ClearCompletedItems(items)
  {
    FilterUnique(r, items, IsOpen);
  }

  /** Clearing twice is clearing once. */
  lemma ClearCompletedIdempotent(items: seq<Item>)
    ensures ClearCompletedItems(ClearCompletedItems(items)) == ClearCompletedItems(items)
  {
    FilterIdempotent(items, IsOpen);
  }

  /** The "Clear completed" button is disabled (`completed === 0`) exactly
      when clearing would change nothing. */
  lemma NothingToClearIff(items: seq<Item>)
    ensures ComputeStats(items).completed == 0 <==> ClearCompletedItems(items) == items
  {
    FilterKeepsAllIff(items, IsOpen);
    FilterPartition(items, IsDone, IsOpen);
  }

  // ---------------------------------------------------------------------
  // add

  /** On non-blank text, `add` leaves the completed count as it is and adds
      one to the remaining count. */
  lemma AddStats(items: seq<Item>, rawText: string, env: Env)
    requires !AllWhitespace(rawText)
    ensures var r := AddItem(items, rawText, env);
      && ComputeStats(r).completed == ComputeStats(items).completed
      && ComputeStats(r).remaining == ComputeStats(items).remaining + 1
  {
    var r := AddItem(items, rawText, env);
    FilterConcat([r[0]], items, IsDone);
    assert r == [r[0]] + items;
  }

  /** `addTodo` sanitises the input before dispatching and the reducer
      sanitises it again; on text that is already sanitised the second pass
      changes nothing, so the stored text is exactly the dispatched one. */
  lemma AddSanitizedText(items: seq<Item>, text: string, env: Env)
    requires text != [] && IsSanitized(text)
    ensures AddItem(items, text, env) == [Item(env.freshId, text, false, env.now)] + items
  {
    SanitizedIsFixpoint(text);
  }

  // ---------------------------------------------------------------------
  // init and unknown actions

  /** `init` replaces the list wholesale with the payload, or with the empty
      list when there is none; what was there before does not matter. */
  lemma InitReplaces(s1: State, s2: State, payload: Option<seq<Item>>, e1: Env, e2: Env)
    ensures Reduce(s1, Init(payload), e1) == Reduce(s2, Init(payload), e2)
    ensures payload.None? ==> Reduce(s1, Init(payload), e1) == InitialState
    ensures payload.Some? ==> Reduce(s1, Init(payload), e1).items == payload.value
  {
  }

  /** Only `add` consumes the generated id and the clock. */
  lemma OnlyAddUsesEnv(s: State, a: Action, e1: Env, e2: Env)
    requires !a.Add?
    ensures Reduce(s, a, e1) == Reduce(s, a, e2)
  {
  }

  // ---------------------------------------------------------------------
  // The invariants are kept.

  lemma {:induction false} FilterKeepsUniqueIds(items: seq<Item>, keep: Item -> bool)
    requires UniqueIds(items)
    ensures UniqueIds(Filter(items, keep))
    decreases |items|
  {
    if items != [] {
      var tail := items[1..];
      assert UniqueIds(tail) by {
        forall i, j | 0 <= i < |tail| && 0 <= j < |tail| && i != j
          ensures tail[i].id != tail[j].id
        {
          assert tail[i] == items[i + 1] && tail[j] == items[j + 1];
        }
      }
      FilterKeepsUniqueIds(tail, keep);
      var rest := Filter(tail, keep);
      forall i | 0 <= i < |rest| ensures rest[i].id != items[0].id {
        assert rest[i] in multiset(rest);
        var m :| 0 <= m < |tail| && tail[m] == rest[i];
        assert items[m + 1] == rest[i];
      }
    }
  }

  lemma {:induction false} FilterKeepsNewestFirst(items: seq<Item>, keep: Item -> bool)
    requires NewestFirst(items)
    ensures NewestFirst(Filter(items, keep))
    decreases |items|
  {
    if items != [] {
      var tail := items[1..];
      FilterKeepsNewestFirst(tail, keep);
      var rest := Filter(tail, keep);
      forall i | 0 <= i < |rest| ensures items[0].createdAt >= rest[i].createdAt {
        assert rest[i] in multiset(rest);
        var m :| 0 <= m < |tail| && tail[m] == rest[i];
        assert items[m + 1] == rest[i];
      }
    }
  }

  lemma FilterKeepsTexts(items: seq<Item>, keep: Item -> bool)
    requires TextsSanitized(items)
    ensures TextsSanitized(Filter(items, keep))
  {
  }

  /** Every transition keeps ids unique and texts sanitised, given an unused
      id for `add` and a valid payload for `init`. */
  lemma ReducePreservesValid(s: State, a: Action, env: Env)
    requires Valid(s)
    requires Admissible(s, a, env)
    ensures Valid(Reduce(s, a, env))
  {
    match a
    case Init(_) =>
    case Add(rawText) =>
      if !AllWhitespace(rawText) {
        var r := AddItem(s.items, rawText, env);
        forall i, j | 0 <= i < |r| && 0 <= j < |r| && i != j ensures r[i].id != r[j].id {
          if i == 0 {
            assert r[j] == s.items[j - 1];
          } else if j == 0 {
            assert r[i] == s.items[i - 1];
          } else {
            assert r[i] == s.items[i - 1] && r[j] == s.items[j - 1];
          }
        }
        forall i | 0 <= i < |r| ensures r[i].text != [] && IsSanitized(r[i].text) {
          if i > 0 {
            assert r[i] == s.items[i - 1];
          }
        }
      }
    case Toggle(id) =>
    case Delete(id) =>
      FilterKeepsUniqueIds(s.items, OtherThan(id));
      FilterKeepsTexts(s.items, OtherThan(id));
    case ClearCompleted =>
      FilterKeepsUniqueIds(s.items, IsOpen);
      FilterKeepsTexts(s.items, IsOpen);
    case Unrecognized =>
  }

  /** Any run of add/toggle/delete/clearCompleted (and unrecognised) actions
      keeps ids unique and texts sanitised, as long as the generated ids are
      pairwise distinct and not already in the list. */
  lemma {:induction false} RunPreservesValid(s: State, actions: seq<Action>, envs: seq<Env>)
    requires |envs| == |actions|
    requires Valid(s)
    requires NoInit(actions)
    requires forall k :: 0 <= k < |envs| ==> envs[k].freshId !in Ids(s.items)
    requires forall k, l :: 0 <= k < l < |envs| ==> envs[k].freshId != envs[l].freshId
    ensures Valid(Run(s, actions, envs))
    decreases |actions|
  {
    if actions != [] {
      var s1 := Reduce(s, actions[0], envs[0]);
      ReducePreservesValid(s, actions[0], envs[0]);
      assert NoInit(actions[1..]) by {
        assert forall k :: 0 <= k < |actions[1..]| ==> actions[1..][k] == actions[k + 1];
      }
      forall k | 0 <= k < |envs[1..]| ensures envs[1..][k].freshId !in Ids(s1.items) {
        assert envs[1..][k] == envs[k + 1];
      }
      RunPreservesValid(s1, actions[1..], envs[1..]);
    }
  }

  /** The list stays newest first, provided the clock does not go back when
      `add` reads it and `init` loads a list that is already newest first. */
  lemma ReduceKeepsNewestFirst(s: State, a: Action, env: Env)
    requires NewestFirst(s.items)
    requires a.Add? ==> forall i :: 0 <= i < |s.items| ==> s.items[i].createdAt <= env.now
    requires a.Init? && a.payload.Some? ==> NewestFirst(a.payload.value)
    ensures NewestFirst(Reduce(s, a, env).items)
  {
    match a
    case Init(_) =>
    case Add(rawText) =>
      if !AllWhitespace(rawText) {
        var r := AddItem(s.items, rawText, env);
        forall i, j | 0 <= i < j < |r| ensures r[i].createdAt >= r[j].createdAt {
          assert r[j] == s.items[j - 1];
          if i > 0 {
            assert r[i] == s.items[i - 1];
          }
        }
      }
    case Toggle(id) =>
    case Delete(id) =>
      FilterKeepsNewestFirst(s.items, OtherThan(id));
    case ClearCompleted =>
      FilterKeepsNewestFirst(s.items, IsOpen);
    case Unrecognized =>
  }
}
