# Todo-list state machine, in Dafny

A model of the state logic of the "Ocean Tasks" single-page todo application
(`simple_todo_list_frontend/src/App.js`). The model covers three things:

- `sanitizeText`: trims a todo's text, then collapses every whitespace run to
  one space.
- `todoReducer`: the pure transition function behind `useReducer`. It handles
  `init`, `add`, `toggle`, `delete`, `clearCompleted` and any unrecognised
  action.
- The `stats` memo: total, completed and remaining counts.

Files:

- `text.dfy` (module `Text`): `SanitizeText` follows the source step by step
  (`Trim`, made of `TrimStart` and `TrimEnd`, then `Collapse`). The module
  also gives a second, independent definition: the text's
  whitespace-separated words, joined by single spaces. It proves that the
  two definitions agree on every input. Whitespace is the full set matched
  by the JavaScript class `\s`, which is also the set that
  `String.prototype.trim` strips.
- `seqs.dfy` (module `Seqs`): `Filter` models `Array.prototype.filter`. It is
  proved to return the order-preserving subsequence of the elements that pass
  the test, each as often as it occurs in the input. It is also proved to be
  the only such subsequence that keeps all of those elements.
- `todo.dfy` (module `Todo`): the item and action types, one function per
  reducer case, the reducer (`Reduce`), `ComputeStats`, the list invariants,
  and the lemmas about each transition.
- `scenario.dfy` (module `Scenario`): concrete runs. They cover sanitising
  `"  buy   milk  "`, adding two todos, completing one and clearing the
  completed ones.

The source reads two values from the browser: a random id (`crypto.randomUUID`,
or `Date.now()` with `Math.random()`) and the clock (`Date.now()`). The model
passes both in as a parameter of type `Env(freshId, now)`. The reducer itself
has no precondition, just as the source has none. A fresh id only appears as a
hypothesis of the lemmas about the id-uniqueness invariant.

Three details of the reducer that the model follows exactly:

- `init` (`App.js:29-30`) stores `action.payload || []`. Whatever list the
  payload holds replaces the current one, and a missing payload empties the
  list. `Todo.Reduce` models the payload as an option, and `None` gives the
  empty list. The mount effect (`App.js:75-87`) dispatches `init` only when
  the stored value parses to an array.
- `toggle` (`App.js:42-47`) maps over the whole list and flips every item
  whose id matches, not just the first. With unique ids that is exactly one
  item.
- Any action type other than the five handled ones falls through to the
  `default` case (`App.js:57-58`) and returns the state unchanged. The model
  has one `Unrecognized` action for all of them.

## Model

| member | source | states |
|---|---|---|
| `Text.TrimStartSpec` | simple_todo_list_frontend/src/App.js:24 | the leading part of `trim` drops exactly the maximal leading whitespace run: the result is a suffix of the input, it does not start with whitespace, and everything dropped is whitespace |
| `Text.TrimEndSpec` | simple_todo_list_frontend/src/App.js:24 | the trailing part of `trim` drops exactly the maximal trailing whitespace run: the result is a prefix, it does not end with whitespace, and everything dropped is whitespace |
| `Text.Trim` | simple_todo_list_frontend/src/App.js:24 | `trim` returns the middle of the input: what it drops before and after is whitespace; the result is empty exactly when the input is only whitespace, and otherwise it starts and ends with a non-whitespace character |
| `Text.Collapse` | simple_todo_list_frontend/src/App.js:24 | `replace(/\s+/g, " ")` leaves the plain space as the only whitespace character and no two whitespace characters adjacent; the result is empty, starts with whitespace or ends with whitespace exactly when the input does |
| `Text.SanitizeText` | simple_todo_list_frontend/src/App.js:23-25 | the result has no leading or trailing whitespace, no two adjacent whitespace characters, and the plain space is its only whitespace character; it is empty if and only if the input consists only of whitespace |
| `Text.SanitizeEqualsJoinedWords` | simple_todo_list_frontend/src/App.js:23-25 | `sanitizeText(s)` equals the whitespace-separated words of `s` joined by single spaces, for every `s` |
| `Text.SanitizedIsFixpoint` | simple_todo_list_frontend/src/App.js:23-25 | text that already has the sanitised shape is returned unchanged |
| `Text.SanitizeIdempotent` | simple_todo_list_frontend/src/App.js:105-108 | sanitising twice gives the same result as sanitising once, so `addTodo`'s own sanitising before dispatch does not change what the reducer stores |
| `Text.SanitizeTwoWords` | simple_todo_list_frontend/src/App.js:23-25 | two words with any whitespace before, between and after them sanitise to the two words separated by one space |
| `Seqs.Filter` | simple_todo_list_frontend/src/App.js:48-54 | `filter` returns a subsequence of its input, no longer than the input; every element it returns passes the test, and each element occurs in the result as often as in the input if it passes the test and not at all otherwise |
| `Seqs.FilterUnique` | simple_todo_list_frontend/src/App.js:48-54 | any subsequence of the input whose elements all pass the test and which is as long as the filtered result is that result, so the result is the order-preserving subsequence of the passing elements |
| `Todo.Flip` | simple_todo_list_frontend/src/App.js:43-45 | the `toggle` callback keeps an item's id, text and `createdAt`, and changes `completed` if and only if the item's id matches |
| `Todo.ToggleItems` | simple_todo_list_frontend/src/App.js:42-47 | `toggle` keeps the length, the order and every item's id, text and `createdAt`, and it flips `completed` exactly on the items whose id matches |
| `Todo.ToggleNoopIff` | simple_todo_list_frontend/src/App.js:42-47 | `toggle` returns the list unchanged if and only if no item has the id |
| `Todo.ToggleTwice` | simple_todo_list_frontend/src/App.js:42-47 | toggling the same id twice gives back the original list |
| `Todo.ToggleCompletedCount` | simple_todo_list_frontend/src/App.js:42-46 | with unique ids, toggling an item lowers the completed count by one if the item was completed and raises it by one if it was open |
| `Todo.DeleteItems` | simple_todo_list_frontend/src/App.js:48-51 | `delete` returns an order-preserving subsequence in which no item has the id, and every item with another id occurs as often as before |
| `Todo.DeleteNoopIff` | simple_todo_list_frontend/src/App.js:48-51 | `delete` returns the list unchanged if and only if no item has the id |
| `Todo.DeleteRemovesExactlyOne` | simple_todo_list_frontend/src/App.js:48-51 | with unique ids, deleting the id of item `k` gives the list without position `k`, with the other items in order, one item shorter |
| `Todo.ClearCompletedItems` | simple_todo_list_frontend/src/App.js:52-55 | `clearCompleted` returns an order-preserving subsequence with no completed item, in which every open item occurs as often as before |
| `Todo.ClearCompletedIsOpenItems` | simple_todo_list_frontend/src/App.js:52-55 | any subsequence of open items as long as the result of `clearCompleted` is that result, so the result is exactly the open items in their order |
| `Todo.ClearCompletedIdempotent` | simple_todo_list_frontend/src/App.js:52-55 | clearing completed items twice gives the same list as clearing once |
| `Todo.AddItem` | simple_todo_list_frontend/src/App.js:31-41 | `add` returns the list unchanged if and only if the raw text is only whitespace; otherwise it puts one open item in front, with the fresh id, the current time and the sanitised text (non-empty, in sanitised shape), and the old list follows unchanged |
| `Todo.AddStats` | simple_todo_list_frontend/src/App.js:31-41 | on non-blank text, `add` leaves the completed count as it is and raises the remaining count by one |
| `Todo.AddSanitizedText` | simple_todo_list_frontend/src/App.js:105-108 | when `addTodo` dispatches text it has already sanitised, the reducer stores exactly that text |
| `Todo.Reduce` | simple_todo_list_frontend/src/App.js:27-59 | apart from `init`, a transition introduces no id except the one `add` draws, toggle/delete/clear-completed introduce no id at all, the list grows by at most one item, and an unrecognised action type returns the state unchanged |
| `Todo.InitReplaces` | simple_todo_list_frontend/src/App.js:29-30 | `init` gives the same state whatever the previous state was: the payload's items, or the empty list when the payload is missing |
| `Todo.OnlyAddUsesEnv` | simple_todo_list_frontend/src/App.js:29-58 | no action other than `add` depends on the generated id or the clock |
| `Todo.Run` | simple_todo_list_frontend/src/App.js:27-59 | a run of actions without `init` ends with no ids except the initial ones and the generated ones, and with at most one more item per action |
| `Todo.ComputeStats` | simple_todo_list_frontend/src/App.js:99-103 | `total` is the list length; `0 <= completed <= total`; `remaining = total - completed`, which is also the number of items `clearCompleted` keeps |
| `Todo.NothingToClearIff` | simple_todo_list_frontend/src/App.js:196-204 | the "Clear completed" button is disabled (`completed === 0`) exactly when `clearCompleted` would leave the list unchanged |
| `Todo.ReducePreservesValid` | simple_todo_list_frontend/src/App.js:27-59 | every transition keeps ids unique and every text non-empty and sanitised, provided `add` draws an unused id and `init` loads a valid list |
| `Todo.RunPreservesValid` | simple_todo_list_frontend/src/App.js:27-59 | any sequence of add, toggle, delete, clear-completed and unrecognised actions keeps the invariant, provided the generated ids are pairwise distinct and not already in the list |
| `Todo.ReduceKeepsNewestFirst` | simple_todo_list_frontend/src/App.js:34-40 | the list stays ordered newest first by `createdAt`, provided the clock does not go back between adds and `init` loads an ordered list |
| `Scenario.SanitizeExample` | simple_todo_list_frontend/src/App.js:23-25 | `"  buy   milk  "` sanitises to `"buy milk"` |
| `Scenario.SanitizeBlankExample` | simple_todo_list_frontend/src/App.js:23-33 | `""` and `"   "` sanitise to the empty string, so `add` stores nothing for them |
| `Scenario.AddTwiceScenario` | simple_todo_list_frontend/src/App.js:31-41 | from the empty state, adding "Buy milk" and then "Walk dog" gives the list [Walk dog, Buy milk], both open, with stats 2/0/2 |
| `Scenario.ToggleClearScenario` | simple_todo_list_frontend/src/App.js:42-55 | completing "Buy milk" gives stats 2/1/1; clearing completed items then leaves [Walk dog], with stats 1/0/1 |

## Left out

- Loading from local storage on mount and saving on every change
  (`App.js:75-96`): browser storage I/O and `JSON.parse`/`JSON.stringify`,
  with their errors swallowed. They are not modelled. The `init` action they
  dispatch is modelled.
- `simple_todo_list_frontend/src/hooks/useLocalStorage.js` (a storage hook
  that also listens for cross-tab `storage` events) is not part of this model.
  `App.js` does not use it.
- Id and clock generation (`crypto.randomUUID`, `Math.random`, `Date.now`,
  `App.js:35,38`): they are random or time-dependent, so `Env` supplies them
  as inputs.
- The React component (`useState`, `useRef`, focus handling, the text of the
  `aria-live` announcements at `App.js:105-136`) and all JSX rendering
  (`App.js:138-252`). `simple_todo_list_frontend/src/components/TodoItem.jsx`
  and `simple_todo_list_frontend/src/theme.js` are presentation only and are
  not part of this model.
- Dynamic typing: an `init` payload that is an array of values that are not
  todo items is not modelled. The payload is typed as a sequence of items.
  Likewise, `add`'s payload is a string and `createdAt` is an integer
  (milliseconds).
- Strings are sequences of Unicode code points, not UTF-16 code units. This
  difference does not affect sanitising, because every whitespace character
  is a single code unit.
