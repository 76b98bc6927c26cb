# Todo store model

A Dafny model of the in-memory todo store behind a small CRUD web service.
The store (`TodoService`) holds two pieces of state: an ordered list of todo
records and an id counter. It offers five operations:

- list every item;
- look an item up by id;
- create an item under a fresh id;
- replace the item with a given id;
- delete the items with a given id.

Everything lives in module `Todo` (`todo.dfy`):

- `TodoItem` is a value with the four fields `id`, `title`, `description`,
  `completed`. A Java `null` result becomes `Option.None`.
- Specification functions over `seq<TodoItem>`:
  - `HasId`: some item carries the id.
  - `FirstIndex`: the first position whose id matches.
  - `RemoveAll`: the list without the matching items.
  - `StoreInvariant`: ids are unique and all lie in `1..counter`.
- Class `TodoService` holds `todos: seq<TodoItem>` and `counter: nat`. Its
  `Valid()` is `StoreInvariant(todos, counter)`.
  - The two read-only queries are functions (`reads this`).
  - The three updates are methods (`modifies this`). Each one keeps `Valid()`
    and states the whole new state in terms of the old one.
- `Scenario` is a client method. It drives the seeded store through create,
  lookup, update and delete using the contracts alone.

Where the prose description of the service and the code differ, the model
follows the code:

- Delete removes every item whose id matches (`removeIf`), not just "the"
  item. Under the store invariant the two agree, because `RemoveAllCount`
  shows at most one item is removed.
- Update stores the caller's whole record at the first matching position with
  its id overwritten. It does not copy fields into the existing record.
  Because items are values here, the two cannot be told apart.

## Model

| member | source | states |
|---|---|---|
| `Todo.TodoService.constructor` | todo-microservice/src/main/java/com/example/todo/service/TodoService.java:16-21 | the store starts with exactly the three seed items, ids 1, 2, 3 in that order, all not completed; the counter is 3 and the invariant holds |
| `Todo.TodoService.GetAllTodos` | todo-microservice/src/main/java/com/example/todo/service/TodoService.java:23-25 | the snapshot has the same length as the stored list and equals it element for element in order; it only reads the store |
| `Todo.TodoService.GetTodoById` | todo-microservice/src/main/java/com/example/todo/service/TodoService.java:27-32 | the result is None exactly when no item has the id; otherwise it is an item with that id that sits at a position with no earlier match (the first match) |
| `Todo.FirstIndex` | todo-microservice/src/main/java/com/example/todo/service/TodoService.java:28-30 | the front-to-back search finds nothing exactly when no item has the id; when it finds a position, that item has the id and no earlier item does |
| `Todo.TodoService.CreateTodo` | todo-microservice/src/main/java/com/example/todo/service/TodoService.java:34-38 | the counter goes up by exactly one; the stored item is the argument with its id replaced by the new counter value; it is appended and earlier items stay the same; its id exceeds every existing id; a lookup of that id then returns it; the invariant is kept |
| `Todo.CreateInvariant` | todo-microservice/src/main/java/com/example/todo/service/TodoService.java:34-36 | under the invariant, counter + 1 is not yet in use; appending an item under counter + 1 keeps ids unique and bounded by the new counter; the first match for the new id is the appended position |
| `Todo.TodoService.UpdateTodo` | todo-microservice/src/main/java/com/example/todo/service/TodoService.java:40-49 | the result is None exactly when no item has the id, and then nothing changes; otherwise the result is the argument with its id forced to the given id, and only the first matching position is replaced by it; length and counter are unchanged; a lookup then returns it; the invariant is kept |
| `Todo.ReplaceInvariant` | todo-microservice/src/main/java/com/example/todo/service/TodoService.java:41-44 | replacing an item by one with the same id keeps the invariant, and the first match for that id is then the replaced position |
| `Todo.TodoService.DeleteTodo` | todo-microservice/src/main/java/com/example/todo/service/TodoService.java:51-53 | the new list is the old one without the matching items; the result is true exactly when some item had the id; exactly one item goes when it is true and none when it is false; the counter is unchanged; a later lookup of that id returns None; the invariant is kept |
| `Todo.RemoveAll` | todo-microservice/src/main/java/com/example/todo/service/TodoService.java:52 | no surviving item has the removed id; every survivor comes from the original list; the list never grows |
| `Todo.RemoveAllKeepsOthers` | todo-microservice/src/main/java/com/example/todo/service/TodoService.java:52 | every item whose id differs from the removed id survives the removal |
| `Todo.RemoveAllAppend` | todo-microservice/src/main/java/com/example/todo/service/TodoService.java:52 | removal from a concatenation is the concatenation of the removals, so the survivors keep their original relative order |
| `Todo.RemoveAllAbsent` | todo-microservice/src/main/java/com/example/todo/service/TodoService.java:52 | removing an id that no item carries leaves the list unchanged |
| `Todo.RemoveAllShrinks` | todo-microservice/src/main/java/com/example/todo/service/TodoService.java:52 | the list gets shorter if and only if some item carries the id, which is the boolean `removeIf` reports |
| `Todo.RemoveAllCount` | todo-microservice/src/main/java/com/example/todo/service/TodoService.java:52 | with unique ids, a removal takes out exactly one item when the id is present and none otherwise |
| `Todo.RemoveAllInvariant` | todo-microservice/src/main/java/com/example/todo/service/TodoService.java:52 | removal keeps ids unique and bounded by the unchanged counter |

## Left out

- `Todo.TodoService.CreateTodo`: the 64-bit wrap-around of the Java `AtomicLong` counter is not modelled. The counter is an unbounded natural number, so ids never repeat in the model. In the source they could repeat only after 2^63 creations.
- The atomicity of the `AtomicLong` counter and any thread safety are not modelled. Calls are modelled as single-threaded and sequential.
- The source's `createTodo` and `updateTodo` call `setId` on the caller's own object, then store and return that object. Later mutation through that alias is not modelled. Items are immutable values; the stored value is the one returned.
- `null` titles, descriptions or ids inside a `TodoItem` are not modelled. The store never inspects title, description or completion, and every id it compares was set by the store. The body of the `TodoItem` class is not part of this model; only the four fields passed to its constructor are.
- The HTTP controller (`src/main/java/com/example/todo/controller/TodoController.java`) is left out. It only maps a `null` or `false` store result to a 404 response and serves a fixed `/health` string. Routing, JSON (de)serialisation, Spring dependency injection and response codes are left out too.
