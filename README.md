# Todo store

A Dafny model of the in-memory store behind the Todo API
(`app/main.py`). The service keeps every todo in one module-level
dictionary from id to record and offers five operations on it: create, list
with `skip`/`limit`, get by id, full replace by id and delete by id.

The model has three modules:

- `TodoModel` (`todo.dfy`): the record shapes. `TodoCreate` is the request
  body (`title`, optional `description`, `completed`). `Todo` is a stored
  record: the same fields plus `id`, `createdAt` and `updatedAt`.
  `WithDefaults` applies the body's defaults for omitted keys. `Stamp` turns a
  body into a stored record.
- `InsertionOrder` (`insertion_order.dfy`): the Python dictionary seen as a
  `map` plus the sequence of its keys in insertion order. It defines
  `list(d.values())` (`Values`), the key order after `del d[k]` (`Without`) and
  the slice `s[skip:skip + limit]` (`Page`), with lemmas relating them.
- `Store` (`store.dfy`): class `TodoStore` owns the `todos` map and the
  `order` sequence. `Valid()` says the order lists every stored id exactly
  once and each record is filed under its own id. `CreateTodo`, `UpdateTodo`
  and `DeleteTodo` are methods that change the store. `ReadTodos` and
  `ReadTodo` are functions over it. A missing id gives `NotFound` in place of
  the 404 error.

Two inputs come from the environment and are method parameters: the fresh
id (`uuid.uuid4()`) and the current time (`datetime.now()`), an integer
`now`. Three client methods and one lemma check the model against the test
suite:

- `LifecycleScenario` chains the tests' create, list, get, replace and delete
  checks (`tests/test_todo_api.py:68-79`, `108-120`, `138-166`, `209-224`). It
  adds three checks of its own:
  - a new record has `created_at == updated_at`;
  - after a delete, the id is `NotFound` for update and delete as well as for get;
  - the listing is empty at the end.
- `PaginationScenario` and the lemma `PageOfFive` cover the pagination test
  (`tests/test_todo_api.py:81-105`). `PaginationScenario` fills a store
  through `CreateAll`, one create per title in a loop as the test does, and
  then reads three pages of it.
- `NotFoundScenario` covers the get, update and delete of an unknown id
  (`tests/test_todo_api.py:122-128`, `168-175`, `226-232`).

Where the tests expect something other than what `app/main.py` does, the
model follows the code:

- Any string is a valid title, the empty one included (`title: str`,
  app/main.py:25); no non-empty rule is modelled.
- The path parameter is `todo_id: str`, so a string such as `"invalid-id"` is
  simply an absent id and gives `NotFound`. The tests at
  `tests/test_todo_api.py:130-135` and `:234-239` expect a validation error
  instead; the code never produces one.
- `create_todo` does not check that the generated id is new. The model keeps
  that behaviour: creating under an id already present overwrites the record
  and leaves its position in the order, as a Python dictionary does. Every
  property that needs a fresh id states `id !in old(todos)` as its premise.

## Model

| member | source | states |
|---|---|---|
| `TodoModel.WithDefaults` | app/main.py:24-30 | the title is kept; `completed` is true only when given as true; an omitted `description` becomes None, a given one is kept |
| `TodoModel.Stamp` | app/main.py:54-59 | the stored record carries exactly the body's title, description and completed, plus the given id and both timestamps |
| `InsertionOrder.Values` | app/main.py:67 | `list(todos.values())` has one entry per key in the order |
| `InsertionOrder.ValuesAt` | app/main.py:67 | entry i of the listing is the record stored under the i-th key |
| `InsertionOrder.ValuesConcat` | app/main.py:67 | listing a concatenated key order lists the two parts one after the other |
| `InsertionOrder.ValuesAgree` | app/main.py:67 | the listing depends only on the records under the listed keys |
| `InsertionOrder.Without` | app/main.py:98 | after `del`, exactly the other keys remain, none more than once if none was before |
| `InsertionOrder.IndexOf` | app/main.py:95-98 | helper over the model's key order: the position of a present key, the first one it occupies; `DeleteTodo`'s contract names the deleted position with it (the source only tests membership, at :95-96) |
| `InsertionOrder.WithoutAbsent` | app/main.py:98 | helper: `Without` of a key the order lacks is the identity; it serves `WithoutAt` (in the source the guard at :95-96 keeps `del` from ever seeing an absent key) |
| `InsertionOrder.WithoutAt` | app/main.py:98 | removing the key at position i of a duplicate-free order closes the gap at i and keeps the rest in order |
| `InsertionOrder.ValuesWithout` | app/main.py:98 | after `del todos[k]` the listing is the old listing with k's entry taken out |
| `InsertionOrder.Page` | app/main.py:67 | `s[skip:skip + limit]` has length 0 past the end and otherwise `min(limit, size - skip)`, and its i-th element is `s[skip + i]` |
| `InsertionOrder.PageEmpty` | app/main.py:67 | a page is empty exactly when `skip` is at or past the end or `limit` is 0; otherwise it starts at element `skip` |
| `InsertionOrder.PageSplit` | app/main.py:67 | consecutive pages tile the listing: a page of size a + b is the page of size a followed by the next page of size b |
| `InsertionOrder.PageOfFive` | tests/test_todo_api.py:81-105 | with five records, `skip=2` gives the last three, `limit=2` the first two, and `skip=1, limit=2` records 1 and 2 |
| `Store.TodoStore.constructor` | app/main.py:41 | the store starts empty and valid |
| `Store.TodoStore.Listing` | app/main.py:67 | all records in insertion order, entry i filed under the i-th id, ids pairwise distinct |
| `Store.TodoStore.ReadTodos` | app/main.py:65-67 | the records at listing positions `skip .. skip + limit`, clipped to the store size; empty exactly when `skip` is at or past the end or `limit` is 0 |
| `Store.TodoStore.ReadTodo` | app/main.py:70-74 | `Ok` with the stored record exactly when the id is present, `NotFound` otherwise |
| `Store.TodoStore.Assign` | app/main.py:61 | `todos[id] = t`: a new id goes last in the order; a present id keeps its position and only its listing entry changes |
| `Store.TodoStore.CreateTodo` | app/main.py:49-62 | the stored record has the body's fields and `created_at == updated_at == now`; with a fresh id it becomes the last listed record and earlier ones are unchanged; reading the id back gives it; timestamps stay ordered when `now` is not earlier than every stored update |
| `Store.TodoStore.UpdateTodo` | app/main.py:77-90 | `NotFound` and no change for an absent id (no upsert); otherwise the body's fields replace the old ones, `id` and `created_at` are kept, `updated_at == now`, the listing position is kept and every other record is unchanged |
| `Store.CreateAll` | tests/test_todo_api.py:84-86 | starting from an empty store, one create per title under distinct ids leaves exactly those ids in creation order, each record with its own title |
| `Store.TodoStore.DeleteTodo` | app/main.py:93-99 | `NotFound` and no change for an absent id; otherwise exactly that record goes, the others keep their relative order, and a later get of the id is `NotFound` |

## Left out

- FastAPI application set-up, route decorators, status codes, CORS middleware and the root greeting (`app/main.py:8-21`, `44-46`): framework wiring with no store logic.
- Pydantic validation and JSON coercion (422 responses for a missing title or a non-boolean `completed`): the typed `TodoCreate` makes such bodies unrepresentable.
- Response-model serialisation (`response_model=Todo`, the 204 empty body): the model returns the stored record, or `Ok(())` for a delete.
- `uuid.uuid4()` and `datetime.now()`: foreign calls, taken as parameters. Timestamps are integers on one clock, with no time zone or formatting.
- Negative `skip` or `limit`, which Python would read as counting from the end: both are `nat`.
- `async` handlers and concurrent access to the shared dictionary.
- The pytest fixtures and the HTTP test client.
