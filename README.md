# Todo store, entity and access guard

A Dafny model of the backend core of a small todo-list application:

- **Todo entity** (`Entities.Todo`): a mutable object with `id`, `title`,
  `completed` and `createdAt`. Its constructor takes the title, reads the
  clock for a provisional id and for the creation time, and starts the todo
  as not completed.
- **Todo store** (`Todos.TodosService`): an in-memory, ordered list of Todo
  objects and a counter `nextId` that starts at 1. `Create` builds a Todo,
  overwrites its clock-based id with the counter, appends it and returns it.
  `FindAll` lists the todos, filtered by a case-insensitive substring search
  when the search text is not blank. `FindOne` finds a todo by id.
  `ToggleCompleted` flips `completed` on the todo with an id, in place, or
  reports that there is none.
- **Access guard** (`Auth.CanActivate`): lets a request through only if its
  `x-user-id` header is present and not blank, and then annotates the request
  with that header value.

The store keeps Todo objects, as the TypeScript service does: `FindOne`, `FindAll`,
`Create` and `ToggleCompleted` hand out the stored objects themselves, so a
caller holding a todo sees later toggles on it. The store's invariant
`Valid()` says that the todo at position `i` has id `i + 1` and that
`nextId` is one more than the number of todos. This is stronger than "ids
increase and stay below `nextId`", and it holds in the TypeScript service because todos
are only ever appended, each with the current counter, and nothing removes
one or writes its id afterwards. `IdsIncreasing` derives the weaker
statement, including that no id and no object is stored twice.

The string operations follow JavaScript: `Text.Trim` removes exactly the
ECMAScript WhiteSpace and LineTerminator code points from both ends,
`Text.Contains` is `includes` (the empty string occurs in every string), and
`Text.Lower` is `toLowerCase` on ASCII letters.

The files are `wrappers.dfy` (Option), `text.dfy` (string operations),
`todo_entity.dfy`, `todos_service.dfy` and `auth_guard.dfy`.

## Model

| member | source | states |
|---|---|---|
| `Entities.Todo.constructor` | backend/src/todos/entities/todo.entity.ts:7-12 | the title is stored exactly as given, `completed` starts false, the id is the clock reading and `createdAt` the creation time |
| `Text.Lower` | backend/src/todos/todos.service.ts:14 | lower-casing keeps the length and maps each character on its own, ASCII capitals to small letters and everything else to itself |
| `Text.LowerKeepsBlank` | backend/src/todos/todos.service.ts:13-14 | a string is blank exactly when its lower-cased form is, so lower-casing before trimming cannot turn a non-blank search into an empty key |
| `Text.Contains` | backend/src/todos/todos.service.ts:16 | `includes` holds exactly when the needle occurs at some index of the haystack |
| `Text.Trim` | backend/src/auth/auth.guard.ts:14 | the result is empty exactly when the input is blank; otherwise it starts and ends with non-whitespace and sits in the input with only whitespace before and after it |
| `Todos.SearchKey` | backend/src/todos/todos.service.ts:13-14 | no key when the search is absent, empty or whitespace only; otherwise the key is the lower-cased search trimmed, which is non-empty and has no whitespace at either end |
| `Todos.Select` | backend/src/todos/todos.service.ts:15-17 | the filtered list keeps the original relative order, holds exactly the todos whose lower-cased title contains the key, and holds each of them as many times as the input does |
| `Todos.SelectIdempotent` | backend/src/todos/todos.service.ts:15-17 | filtering a filtered list again by the same key gives the same list |
| `Todos.SelectAppend` | backend/src/todos/todos.service.ts:15-17 | the matches of an earlier part of the list all come before those of a later part, in their own order |
| `Todos.SelectSnoc` | backend/src/todos/todos.service.ts:15-17 | appending one todo to the list appends it to the filtered list exactly when its title matches |
| `Todos.FirstWithId` | backend/src/todos/todos.service.ts:31 | the linear search returns the first position whose todo has the id, or the length when none has it |
| `Todos.TodosService.constructor` | backend/src/todos/todos.service.ts:7-8 | a new store holds no todos, its counter is 1 and the invariant holds |
| `Todos.TodosService.IdsIncreasing` | backend/src/todos/todos.service.ts:25-26 | under the invariant ids are positive, strictly increasing in list order and below `nextId`, and no object is stored twice |
| `Todos.TodosService.FindAll` | backend/src/todos/todos.service.ts:10-21 | with an absent or blank search every stored todo comes back in insertion order; otherwise exactly the todos whose lower-cased title contains the trimmed lower-cased search, in their original order and with their multiplicity; the store is only read |
| `Todos.TodosService.FindOne` | backend/src/todos/todos.service.ts:30-32 | the result, when there is one, is a stored todo with that id; there is none exactly when no stored todo has that id |
| `Todos.TodosService.FindOneAt` | backend/src/todos/todos.service.ts:30-32 | in a valid store id `n` finds the todo at position `n - 1` when `1 <= n < nextId`, and nothing otherwise |
| `Todos.TodosService.Create` | backend/src/todos/todos.service.ts:23-28 | the new todo is a fresh object appended at the end, with id equal to the old `nextId` whatever the clock gave, the given title, `completed` false and the given creation time; `nextId` grows by one, earlier todos are untouched and the invariant is kept; the unfiltered listing is the old one followed by the new todo |
| `Todos.TodosService.ToggleCompleted` | backend/src/todos/todos.service.ts:34-41 | returns what `FindOne` found; on a found todo negates `completed` and writes nothing else (not its id, title or `createdAt`, no other todo, not the list or `nextId`); on a missing id returns nothing and changes nothing; the invariant is kept |
| `Todos.ToggleTwice` | backend/src/todos/todos.service.ts:34-41 | toggling one id twice returns the same todo both times and restores every stored todo, field by field |
| `Todos.CreateThenFindAll` | backend/src/todos/todos.service.ts:23-28 | for any search, listing after a create is the listing before it followed by the new todo when the search is absent or blank or the title matches, so insertion order is kept across creates |
| `Auth.CanActivate` | backend/src/auth/auth.guard.ts:10-21 | an absent, empty or whitespace-only `x-user-id` header is rejected as Unauthorized with the guard's message; any header with a non-whitespace character is accepted, and the request is annotated with the untrimmed header value and otherwise left as it was; there is no outcome for returning false |

## Left out

- The HTTP controller (`todos.controller.ts`) is not part of this model: routing, `ParseIntPipe`, and turning the store's missing result into a NotFound error.
- Title validation from the create DTO (`create-todo.dto.ts`) is not part of this model. `Create` accepts any title, as the store itself does.
- The clock. `Date.now()` and `new Date()` become the parameters `clock` and `now` of the Todo constructor and of `Create`.
- `Text.Lower` lower-cases ASCII letters only; JavaScript's full Unicode case mapping (including characters whose lower-case form has a different length) is not modelled.
- Number precision. Ids and the counter are unbounded integers, whereas JavaScript numbers lose exactness above 2^53.
- Request plumbing. The framework's ExecutionContext is reduced to a `Request` value. A header that arrives as an array (a repeated header) or as a non-string value is not modelled, and neither is a repeated `search` query parameter.
- Todos.TodosService.FindAll returns a new sequence value rather than a new JavaScript array; a sequence cannot be aliased, so the "fresh copy" property holds by construction and is not stated.
