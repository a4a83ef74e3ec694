# licit-style-service: the `Styles` store, in Dafny

This project models the `Styles` class of `src/styles.ts`. It is the
case-insensitive, in-memory store of named styles behind the licit style
service. A style (`src/style.ts`) has one required field, `styleName`. Its
other properties are carried verbatim and never inspected. The store keeps
each style in a `Map` under `styleName.toLowerCase()`. Beside the map it
caches the sorted array of keys, which `list` follows. It saves the whole
collection to one JSON file when it is dirty: "dirty" means the cached key
array is not the same array object as the one last saved.

Files:

- `wrappers.dfy`: `Option`, used for falsy arguments and `Map.get` misses.
- `text.dfy`: ASCII lower-casing and the lexicographic string order used by `sort`, with their laws.
- `sorted_keys.dfy`: `Array.from(map.keys()).sort()` as a method, and the uniqueness of a sorted key list.
- `style.dfy`: the `Style` record, the errors the store throws, and `keyFor`.
- `store_spec.dfy`: what `merge`, `rename` and `list` do to the map, as functions, with lemmas.
- `styles.dfy`: the class `Styles`, whose methods are proved against those functions.
- `scenarios.dfy`: properties that span several calls, proved from the class contracts.

Modelling choices:

- JavaScript falsy values are modelled as follows:
  - A `null`, `undefined` or empty name is the empty string.
  - A missing style or array is `None`.
  - A `null` element of a `merge` array is `None`.
- Every `this.keys = …` makes a new array. The model stands for that array's identity with a revision number `rev`. Each such assignment increments `rev`, and `saved` holds the revision last written. `save` tests `saved != rev`, which is the source's `this.saved !== keys`.
- `save` is split at its one `await`:
  - `BeginSave` captures the token and the records.
  - `FinishSave` runs after the write and sets `saved` only if the write succeeded.
  - Other calls may run between the two; `Scenarios.ChangeDuringWrite` shows the result.
- File reading and decoding become the `loaded` argument of `Init`. `None` stands for a failed read or parse, or a payload that is not an array.
- Writing becomes the `writeOk` argument of `Save`, `Flush` and `Tick`, which return the records they tried to write.
- The interval timer is the field `saver`: its period, or `None`. The timer firing is the method `Tick`, whose callback is `flush`.
- Styles are values. `rename` changes `styleName` on the stored object itself. The model instead stores a renamed copy and returns it, so a caller sees the object the source would have changed.

The model follows `src/styles.ts` as written. Points of its behaviour that are easy to misread:

- `rename` with equal names is not a no-op. Its clash test is `this.styles.has(newName)`, on the raw name, not on its key. So:
  - `rename("oldName", "oldName")` stores the record under `"oldname"` and then deletes that key. The record is removed (`StoreSpec.RenameToSameKeyRemoves`). The same holds for any new name that has an upper-case letter and differs from the old one only in case.
  - A new name with an upper-case letter never clashes. If its key belongs to another style, that style is overwritten (`StoreSpec.RenameSize`, `StoreSpec.RenameWithUpperNeverClashes`).
  - A new name without upper-case letters clashes exactly when its key is stored, and the call throws "already exists" (`StoreSpec.RenameClashIff`). So `rename("foo", "foo")` with `"foo"` stored throws.
- `rename` returns nothing. Every missing-name error says `"styleName"`, whichever argument was missing.
- A failed write does not advance `saved`. The next `save` writes again (`Scenarios.FailedWriteRetries`).
- `init` takes no argument, and its timer period is fixed at 30000 ms.
- When reading fails, `init` keeps the current contents. It does not empty the store.
- The save timer fires at most once, because its callback `flush` clears it (`Scenarios.TimerFiresOnce`).

## Model

| member | source | states |
|---|---|---|
| `Text.Lower` | src/styles.ts:147 | lower-casing keeps the length, leaves no upper-case letter, and changes each character only in case |
| `Text.LowerIdempotent` | src/styles.ts:147 | a key lower-cases to itself |
| `Text.LowerEqualIff` | src/styles.ts:143-148 | two names get the same lower-case form exactly when they differ only in case |
| `Text.Less` | src/styles.ts:89 | the order `sort` uses; a proper prefix comes before the longer string |
| `Text.LessIrreflexive` | src/styles.ts:89 | no key comes before itself |
| `Text.LessAsymmetric` | src/styles.ts:89 | two keys are never each before the other |
| `Text.LessTransitive` | src/styles.ts:89 | the order is transitive |
| `Text.LessTotal` | src/styles.ts:89 | any two different keys are ordered one way or the other |
| `StyleRecord.Message` | src/styles.ts:52-53 | each error message names the argument or style at fault and says what went wrong: "required", "styles" and "invalid", "not found", "already exists" (the messages at lines 168, 191 and 195 too) |
| `StyleRecord.KeyFor` | src/styles.ts:143-148 | a falsy name throws the "styleName" argument error; any other name gives a non-empty, lower-case key equal to it up to case |
| `StyleRecord.KeyForCaseInsensitive` | src/styles.ts:143-148 | two names have the same key (or both throw) iff they differ only in case |
| `StyleRecord.KeyOf` | src/styles.ts:174 | a named style is stored under the key `keyFor` gives its name |
| `SortedKeys.SortKeys` | src/styles.ts:89 | the key array holds every map key once, in strictly ascending order |
| `SortedKeys.SortedListUnique` | src/styles.ts:14-17 | there is only one sorted key list for a key set, so `keys` is determined by the map |
| `SortedKeys.SortedListLength` | src/styles.ts:153-156 | the sorted key list is as long as the map is large |
| `StoreSpec.Inserted` | src/styles.ts:173-176 | the merge loop never drops a key |
| `StoreSpec.InsertedSize` | src/styles.ts:173-176 | the merge loop adds at most one key per record |
| `StoreSpec.InsertedKeys` | src/styles.ts:173-176 | after the merge loop a key is present iff it was before or some input record has it |
| `StoreSpec.InsertedLastWins` | src/styles.ts:173-176 | of several input records with one key, the last is stored |
| `StoreSpec.InsertedUntouched` | src/styles.ts:173-176 | a key no input record has keeps its old entry, or stays absent |
| `StoreSpec.InsertedKeyedByName` | src/styles.ts:173-176 | the merge loop stores every record under the key of its own name |
| `StoreSpec.MergeInput` | src/styles.ts:164-169 | a falsy array throws the "styles" argument error; any falsy element or name throws "invalid" before anything changes; otherwise every element is a named record |
| `StoreSpec.Merged` | src/styles.ts:163-178 | a merge fails exactly when validation fails, with its error; without `replace` no key is lost; with `replace` the map has at most as many entries as the array has elements |
| `StoreSpec.MergeReplaceExact` | src/styles.ts:170-177 | with `replace`, the map holds exactly the input keys, each with the last input record of that key |
| `StoreSpec.MergeKeepsOthers` | src/styles.ts:170-177 | without `replace`, no key is lost and styles the input does not name are unchanged |
| `StoreSpec.MergeKeyedByName` | src/styles.ts:170-177 | a successful merge keeps every style under the key of its name |
| `StoreSpec.Renamed` | src/styles.ts:187-201 | the four errors in the order the code checks them: an empty old name throws the "styleName" error, an absent old key "not found" with the old name, then an empty new name the "styleName" error, then a new name that is itself a key "already exists" with the new name; otherwise the rename succeeds; a success never grows the map |
| `StoreSpec.RenameMoves` | src/styles.ts:198-201 | renaming between different keys stores the renamed record under the new key, drops the old key, and changes no other entry |
| `StoreSpec.RenameToSameKeyRemoves` | src/styles.ts:193-200 | a successful rename to a case variant of the old name (possible only when the new name has an upper-case letter) removes the record |
| `StoreSpec.RenameSize` | src/styles.ts:194-200 | a rename loses one entry exactly when the new key was already taken (overwrite, or same key) |
| `StoreSpec.RenameWithUpperNeverClashes` | src/styles.ts:193-196 | a new name with an upper-case letter never raises "already exists", because stored keys are lower case |
| `StoreSpec.RenameClashIff` | src/styles.ts:193-196 | with the old style present, a non-empty new name is refused as taken exactly when it has no upper-case letter and its key is stored |
| `StoreSpec.RenameKeyedByName` | src/styles.ts:198-200 | a successful rename keeps every style under the key of its name |
| `StoreSpec.Listed` | src/styles.ts:153-156 | the listed records are the stored ones, each once, in ascending key order |
| `StoreSpec.ReloadRestores` | src/styles.ts:121-131 | merging with replace the records `save` writes rebuilds the same map |
| `Store.Styles.constructor` | src/styles.ts:38-44 | a new store is empty, clean, without a timer, and saves to `<dataRoot>/styles.json` |
| `Store.Styles.RebuildKeys` | src/styles.ts:236 | the key array becomes the sorted key list of the map, as a new array (the store becomes dirty) |
| `Store.Styles.Clear` | src/styles.ts:72-77 | the map becomes empty; an already empty store is not touched and stays clean |
| `Store.Styles.Delete` | src/styles.ts:86-93 | returns whether the key was present and removes only it; a miss changes nothing; a falsy name throws |
| `Store.Styles.Dirty` | src/styles.ts:211-212 | in a valid store, dirty means the current key array is newer than the last one written |
| `Store.Styles.Get` | src/styles.ts:102-104 | returns the record stored under the name's key, or none when the key is absent; the record's name equals the query up to case; a falsy name throws |
| `Store.Styles.GetIgnoresCase` | src/styles.ts:102-104 | every case variant of a name finds the same record |
| `Store.Styles.List` | src/styles.ts:153-156 | every stored record once, in strictly ascending key order, as many as the map holds |
| `Store.Styles.Set` | src/styles.ts:230-238 | a falsy style or name throws before any change; otherwise stores the style under its key and returns that key |
| `Store.Styles.Merge` | src/styles.ts:163-178 | all or nothing: an error leaves the whole store unchanged, and success gives the map `Merged` describes |
| `Store.Styles.StoreAll` | src/styles.ts:173-176 | the merge loop stores each record in order under its key |
| `Store.Styles.Rename` | src/styles.ts:187-202 | the errors in the order the code checks them, with no change, or the map `Renamed` describes and the renamed record |
| `Store.Styles.BeginSave` | src/styles.ts:209-214 | a write starts exactly when the store is dirty; it captures the current token and the records |
| `Store.Styles.FinishSave` | src/styles.ts:215-216 | a successful write marks the captured token saved; a failed one leaves `saved` alone |
| `Store.Styles.Save` | src/styles.ts:209-221 | writes only when dirty and writes every stored record; success makes the store clean, failure leaves it dirty |
| `Store.Styles.Flush` | src/styles.ts:109-115 | stops the timer, then saves as `Save` does |
| `Store.Styles.Tick` | src/styles.ts:134 | the timer fires `flush` while set: it stops the timer and, when dirty, writes the listed records and marks them saved if the write succeeds; once stopped, firing does nothing |
| `Store.Styles.Init` | src/styles.ts:121-135 | replaces the contents with the decoded records when they load, keeps them otherwise; always ends clean with the 30000 ms timer set |
| `Scenarios.DeleteTwice` | src/styles.ts:86-93 | the first `delete` reports whether the key was present and removes it; the second returns false and changes nothing; the key array is renewed once exactly when a style was removed, and the saved token and the timer are untouched |
| `Scenarios.SetThenGet` | src/styles.ts:230-237 | `set` returns the lower-case key, and `get` with any case variant returns the stored style |
| `Scenarios.ChangeDuringWrite` | src/styles.ts:209-217 | a change made while a write is in flight leaves the store dirty after the write |
| `Scenarios.FailedWriteRetries` | src/styles.ts:215-220 | after a failed write, the next save writes the same records and then the store is clean |
| `Scenarios.TimerFiresOnce` | src/styles.ts:109-113 | after the first firing the timer is gone, and a later change stays unsaved |
| `Scenarios.FlushClearInit` | src/styles.ts:109-131 | on a store with unsaved changes, flush, then clear, then init from the written records give the same list as before, and the store ends clean |
| `Scenarios.RenameToItself` | src/styles.ts:193-200 | `rename("oldName", "oldName")` succeeds and the style is then not found |

## Left out

- Unicode case mapping: `toLowerCase` is modelled on ASCII letters only; other characters are left unchanged.
- UTF-16 ordering: `sort` compares UTF-16 code units; the model compares characters by code point. The two differ only between characters above U+FFFF and those in U+E000–U+FFFF.
- Object identity of styles: styles are values. The model does not capture a caller changing a stored object afterwards, or one object stored under two keys. Either can break "every style sits under its own key" in the source.
- Store.Styles.BeginSave: the records it captures are in key order; the source writes them in the `Map`'s insertion order. Only the order of records in the file differs. `StoreSpec.ReloadRestores` proves that reading back restores the map for the key-ordered list only.
- File system and JSON: reading, parsing, serialising and writing are parameters. Path resolution (`resolve`/`join`) is reduced to appending `/styles.json`. A `JSON.stringify` failure is not modelled.
- Logging: `console.warn` and `console.error` are left out.
- Timers: only the current timer is tracked. A second `init` overwrites `saver`, and the source then leaves the first interval running; the model does not track it.
- Interleavings: only the one `await` inside `save` is split. `init` is modelled as one atomic step, without calls running during its read.
- `size`: the test file reads it, but the class in `src/styles.ts` has no such member. `Store.Styles.List` states the list's length instead.
- Non-string names are not modelled; names are strings or absent. A truthy non-string `styleName` (a number, say) passes the check at src/styles.ts:167, so `merge` with `replace` clears the map and then throws a `TypeError` from `toLowerCase` part-way through the loop. That merge is not all or nothing, and `keys` is left out of step with the map. Through `init` (src/styles.ts:124-130) the error is caught, and the half-loaded store is then marked clean.
