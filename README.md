# Snipster in-memory snippet repository, in Dafny

Snipster is a command-line manager for short code snippets. This project models its
storage core:

- the `Snippet` record, with its field defaults and its keyword-argument
  constructor (`models.dfy`, module `Models`);
- the in-memory repository, a table from integer keys to snippets that its methods
  update in place (`repo.dfy`, module `Repo`).

The repository is a class, `Repo.InMemorySnippetRepository`. It has two fields:

- `data: map<int, Snippet>`, the Python dict;
- `order: seq<int>`, the dict's keys in first-insertion order, which is the order
  Python iterates a dict in.

`Valid()` ties the two fields together: every key is listed exactly once. `Listing()`
is the abstract value of `list`. The contracts of `List`, `Add`, `Delete` and `Update`
are stated through it. Each method states its whole new state in terms of the old
one. Supporting lemmas state what the key rule and the key sequence guarantee:

- freshness of the assigned key;
- reuse of a key after its deletion, and the exact condition under which the largest
  key comes back;
- removal at exactly one position.

`scenarios.dfy` (module `Scenarios`) holds client runs stated by what a caller
observes. One follows `tests/test_repo.py`; the others follow the behaviour the
repository code implies.

The model follows the code where a reader might expect otherwise:

- `add` does not write the assigned key back into the snippet's `id` field. The key
  exists only in the table.
- `update` does not check that the key exists. It stores under the key either way:
  it replaces the entry if the key is present and appends a new one if it is not.
- There is no `search` and no `favourite` operation. The model invents neither.
- The record stored by `update` is exactly the one given, `id` field included. The
  key is not copied into it.
- Deleting the largest key and adding again gives that key back only when the key just
  below it is still present, or when 1 was the only key. The next key is one more than
  the largest key that remains, not a counter. For example, with keys 1, 2 and 3,
  deleting 2 and then 3 makes the next `add` assign 2.

## Model

| member | source | states |
|---|---|---|
| `Models.Construct` | src/snipster/models.py:4-9 | construction succeeds exactly when `title` and `code` are both given; otherwise the error names each missing required field. A built record has the given values, and the defaults for the fields left out: `id` None, `description` None, `favourite` false |
| `Models.AlternateConstructor` | src/snipster/models.py:11-13 | gives the same outcome as the constructor for every set of keyword arguments, the missing-field error included |
| `Models.ConstructRoundTrip` | src/snipster/models.py:4-9 | passing every field of a record explicitly rebuilds that same record |
| `Models.ConstructDefaults` | src/snipster/models.py:5-9 | passing only `title` and `code` gives a record with no id, no description and `favourite` false |
| `Repo.MaxKey` | src/snipster/repo.py:35 | `max(keys, default=0)`: 0 only for no keys; otherwise a present key that no key exceeds, negative keys included |
| `Repo.NextId` | src/snipster/repo.py:35 | the key `add` picks: 1 for an empty table; otherwise one more than a present key and greater than every key, so the picked key is never present |
| `Repo.RemoveKey` | src/snipster/repo.py:48 | after a pop, the keys present are exactly the old ones minus the popped key |
| `Repo.IndexOf` | src/snipster/repo.py:43 | the first position of a key in the insertion order |
| `Repo.ValuesInOrder` | src/snipster/repo.py:43 | `dict.values()`: one value per key, position `i` holding the value of the `i`-th inserted key |
| `Repo.RemoveKeyAt` | src/snipster/repo.py:48 | removing a key that occurs once removes exactly its position; the other keys keep their relative order |
| `Repo.ReuseAfterDelete` | src/snipster/repo.py:35-36 | if `add` assigns key `k` and `k` is then deleted, the next `add` assigns `k` again |
| `Repo.ReuseLargestIff` | src/snipster/repo.py:35-48 | after the largest key `m` is deleted, the next `add` assigns `m` if and only if `m - 1` is present or the keys were just 1 |
| `Repo.ReuseNeedsPredecessor` | src/snipster/repo.py:35-48 | when other keys remain after the largest key `m` is deleted, the next `add` assigns `m` if and only if `m - 1` is present |
| `Repo.LargestNotReusedAfterGap` | src/snipster/repo.py:35-48 | with keys 1, 2, 3, deleting 2 and then 3 makes the next `add` assign 2, not 3 |
| `Repo.ValuesAfterAppend` | src/snipster/repo.py:36 | inserting a new key appends its value at the end of the listing and leaves the earlier values in place |
| `Repo.ValuesAfterReplace` | src/snipster/repo.py:52 | overwriting a present key changes only that key's position in the listing |
| `Repo.ValuesAfterRemove` | src/snipster/repo.py:48 | popping a key removes exactly its position from the listing; the others keep their values and relative order |
| `Repo.KeysCount` | src/snipster/repo.py:32 | a key-order sequence that lists every key of the table once is as long as the table |
| `Repo.InMemorySnippetRepository.Listing` | src/snipster/repo.py:42-43 | the abstract value of `list`: the same length as the table and the key order, with position `i` holding the value of the `i`-th inserted key |
| `Repo.InMemorySnippetRepository.constructor` | src/snipster/repo.py:31-32 | a new repository holds no entries, and its listing is empty |
| `Repo.InMemorySnippetRepository.Add` | src/snipster/repo.py:34-37 | stores the snippet under `NextId` of the old keys, a key that was absent before. Every old entry is unchanged, the count grows by one, the key goes last in the order, and the listing gains the snippet at the end |
| `Repo.InMemorySnippetRepository.Get` | src/snipster/repo.py:39-40 | returns the stored snippet when the key is present and None otherwise; changes nothing |
| `Repo.InMemorySnippetRepository.List` | src/snipster/repo.py:42-43 | returns exactly the stored snippets, one per key, in key-insertion order; every stored snippet appears at its key's position |
| `Repo.InMemorySnippetRepository.Delete` | src/snipster/repo.py:45-49 | an absent key gives `SnippetNotFoundError` for that key and leaves everything unchanged. A present key is removed with nothing else changed: the other entries keep their values and relative order |
| `Repo.InMemorySnippetRepository.Update` | src/snipster/repo.py:51-53 | afterwards the key maps to the given snippet, present before or not, and the other entries are unchanged. A present key keeps its position in the listing; a new key is appended at the end |
| `Scenarios.FirstAddUsesKeyOne` | tests/test_repo.py:21-29 | the first snippet added to a fresh repository is found under key 1 and is the only one listed |
| `Scenarios.AddDeleteAddReusesKey` | src/snipster/repo.py:34-49 | add, delete key 1, add again: the delete succeeds, key 1 is gone in between, and the second snippet ends up under key 1 |
| `Scenarios.DeleteMissingFails` | src/snipster/repo.py:45-47 | deleting from an empty repository reports the missing key, and the repository stays empty |
| `Scenarios.UpdateReplacesAndInserts` | src/snipster/repo.py:51-53 | updating key 1 stores exactly the given record; updating an absent key lists it after the existing one |
| `Scenarios.TwoAddsListInOrder` | src/snipster/repo.py:34-43 | two adds into a fresh repository use keys 1 and 2 and are listed in the order added |
| `Scenarios.AddDeleteAddFromAnyState` | src/snipster/repo.py:34-49 | from any valid state: add, delete the key that add assigned, add again. The delete succeeds, and the second snippet is stored under the same key with the rest of the table as before |

## Left out

- The abstract `SnippetRepository` interface (src/snipster/repo.py:8-27) has no behaviour
  of its own. The class models the in-memory override directly, with no separate
  interface type. The interface declares `update(snippet_id)`; the model follows the
  override's `update(snippet_id, updated_snippet)`.
- `DatabaseSnippetRepository` (src/snipster/repo.py:56-57) has an empty body. Python
  refuses to instantiate it because its abstract methods are not implemented. SQL
  storage, sessions and engines (src/snipster/db.py) are not part of this model.
- The return values of `add`, `delete` and `update`: each returns the internal dict
  despite its `-> None` annotation. The model's methods return nothing, except that
  `delete` returns `Outcome`: `Pass`, or `Fail(SnippetNotFoundError(id))` where Python
  raises. The exception's message text is not modelled.
- Aliasing: Python stores the caller's snippet object itself, so later mutation of that
  object shows through the repository. Snippets are values here.
- `Models.Construct`: its missing-field error is the contract the field annotations
  declare, not what the program does at run time. `Snippet` is a `table=True` SQLModel
  class (src/snipster/models.py:4), and SQLModel does not validate such a class when it
  builds one. So `Snippet(code="x")` raises nothing and returns a record with `title`
  unset: in the program, the `Failed` outcome never happens. Unknown keyword arguments
  and type coercion are not modelled either.
- The command-line layer (src/snipster/cli.py) is not part of this model. This covers
  argument parsing, rendering, reading `DB_URL` from the environment, and its
  get-then-act guards, which only call the repository. Its call to `repo.favourite`
  names an operation that no repository defines.
- The commented-out session code in src/snipster/models.py:16-46, and
  tests/test_model.py, which refers to `Item` and `create_items`. Neither exists in the
  models file.
- Python integers are unbounded, as Dafny's `int` is, so no width is modelled.
