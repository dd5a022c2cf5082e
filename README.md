# Inventory page: a Dafny model of the client-side sync state machine

The repository is a small inventory demo: a REST collection of schemaless
inventory documents and a single React page (`react-app/src/App.jsx`) that
lists, creates, edits and deletes them. The only logic lives in that page: it
keeps a committed list of records, one optional edit target with a separate
draft, a create form, and loading/error flags, and each handler moves that
state one step, changing the list only after the server has confirmed the
request and then to what the server returned.

The model has three modules.

- `Js` (`values.dfy`): the JavaScript values the page handles (`Value` is
  `null`, a boolean, a number as an exact real or NaN, or a string; `None`
  in an `Option<Value>` is `undefined`) and the three operators the page
  applies to them: `??` (`Coalesce`), `||` (`Or`, on `Truthy`) and `===`
  (`StrictEquals`, proved to be structural equality except for NaN).
- `Inventory` (`inventory.dfy`): the `Record` datatype with every field
  optional (`id` stands for `_id`), the `Form` and `Draft`, the request
  `Payload`, the field-name fallback (`prodname`/`name`, `qty`/`quantity`)
  specified by the case predicate `ResolvesTo`, and the list transforms the
  handlers apply: prepend, filter by id, map-replace by id, with lemmas about
  order, uniqueness of ids, idempotence and delete undoing create.
- `App` (`app.dfy`): the class `InventoryApp`, whose fields are the page's
  state variables and whose methods are its handlers. Every server outcome
  is a parameter `Reply<T>`, `Ok(data)` or `Failed(err)`; each method states
  the whole new state in terms of the old one, including what stays the
  same. `Render` states what the page shows. A few scenario methods at the
  end run short sequences of handler calls and check the outcome with
  asserts; each says whether the sequence is one the page itself can produce
  or one only a direct call of the handler makes.

The page loads only once, on mount (react-app/src/App.jsx:29-31), and has no
retry path; `Load` models that one handler. Cancelling an edit clears only
`editingId` (App.jsx:76-78); the draft stays as it was, and so it does in the
model.

`deleteItem` leaves edit mode when the deleted id `===` `editingId`
(App.jsx:56-58), and `DeleteItem` models that branch. The page, however,
renders the Delete button only on an entry that is not in edit mode
(App.jsx:186, 201), and that entry's `_id` is by definition not `===`
`editingId` (App.jsx:167). `ViewingRowIsNotEditTarget` states this, so the
branch is reached only by calling the handler directly, as
`DeleteEditTargetScenario` does; `DeleteOtherWhileEditingScenario` shows
what the page does instead. This is unreachable code, not a defect.

## Model

| member | source | states |
|---|---|---|
| `Js.StrictEquals` | react-app/src/App.jsx:55 | `a === b` holds exactly when both sides are the same value and that value is not NaN; both sides `undefined` compare equal |
| `Js.Coalesce` | react-app/src/App.jsx:68 | `a ?? b` keeps `a` whenever it is neither `null` nor `undefined` (an empty string is kept) and the result is nullish only when both sides are |
| `Js.CoalesceAssociative` | react-app/src/App.jsx:68 | `a ?? b ?? c`, which JavaScript brackets as `(a ?? b) ?? c`, means the same under either bracketing |
| `Js.Or` | react-app/src/App.jsx:41 | JavaScript's logical or yields `a` when it is truthy and `b` otherwise, and is truthy exactly when one side is |
| `Js.CoalesceVersusOr` | react-app/src/App.jsx:71 | with a truthy default, `??` and logical or agree exactly when the value is truthy, `null`, or the default itself |
| `Inventory.Resolve` | react-app/src/App.jsx:168-169 | `primary ?? alternate ?? fallback` picks the first non-nullish of the two fields, else the fallback |
| `Inventory.DraftOf` | react-app/src/App.jsx:67-72 | the edit draft takes `prodname` else `name` else `""`, `qty` else `quantity` else `""`, `price` else `""`, `status` else `"S"` |
| `Inventory.DisplayOf` | react-app/src/App.jsx:168-171 | an entry shows `prodname` else `name` else `"(no name)"`, `qty` else `quantity` else `"-"`, `price` else `"-"`, `status` else `"-"` |
| `Inventory.DraftAgreesWithDisplay` | react-app/src/App.jsx:168-169 | the draft and the list entry resolve the same field of a record and differ only in the placeholder used when the record has none |
| `Inventory.LegacyFieldsDisplayed` | react-app/src/App.jsx:168-169 | a document stored with `name`/`quantity` only shows, and seeds the draft with, those values |
| `Inventory.CreatePayload` | react-app/src/App.jsx:37-42 | the create body carries the form's name, `Number` of its qty and price, and its status when non-empty, otherwise `"S"`; the status sent is always truthy |
| `Inventory.EditPayload` | react-app/src/App.jsx:83-88 | the update body carries the draft's name, `Number` of its qty and price, and its status when truthy, otherwise `"S"` |
| `Inventory.UntouchedDraftStatus` | react-app/src/App.jsx:71-87 | saving an untouched draft sends the record's status when it is truthy and `"S"` otherwise, so a stored `""`, `0` or `false` status is replaced |
| `Inventory.SetDraftField` | react-app/src/App.jsx:211-225 | after an input in the edited row, the field it writes reads the typed string and every other draft field reads as before |
| `Inventory.SetFormField` | react-app/src/App.jsx:125-153 | after an input in the create form, the field it writes reads the typed string and every other form field reads as before |
| `Inventory.Submittable` | react-app/src/App.jsx:122-146 | the `required` name, qty and price inputs must be filled in before the form is submitted, so a sent request always names the item and the blank form left by a create cannot be sent again as it stands |
| `Inventory.Prepend` | react-app/src/App.jsx:44 | the created record comes first, the list grows by one and the old list is the unchanged tail |
| `Inventory.RemoveById` | react-app/src/App.jsx:55 | the survivors are exactly the entries whose `_id !== id`, each with its original multiplicity |
| `Inventory.RemoveByIdAppend` | react-app/src/App.jsx:55 | the filter works entry by entry over concatenation, so survivors keep their relative order |
| `Inventory.RemoveByIdAbsent` | react-app/src/App.jsx:55 | deleting an id no entry carries leaves the list as it was |
| `Inventory.RemoveByIdSplit` | react-app/src/App.jsx:55 | a single matching entry between non-matching runs is the only one removed |
| `Inventory.RemoveByIdIdempotent` | react-app/src/App.jsx:55 | filtering twice by the same id is filtering once |
| `Inventory.RemoveByIdUnique` | react-app/src/App.jsx:55 | with unique ids, deleting the id at position k removes exactly that entry, the others in order |
| `Inventory.RemoveByIdKeepsUnique` | react-app/src/App.jsx:55 | deleting keeps the ids unique |
| `Inventory.ReplaceById` | react-app/src/App.jsx:90 | the list keeps its length, every entry whose `_id !== id` stays, and each position whose `_id === id` holds the server record |
| `Inventory.ReplaceByIdUnique` | react-app/src/App.jsx:90 | with unique ids, saving the entry at position k replaces just that position |
| `Inventory.ReplaceByIdAbsent` | react-app/src/App.jsx:90 | saving an id no entry carries leaves the list as it was |
| `Inventory.ReplaceByIdKeepsIds` | react-app/src/App.jsx:90 | a server record that keeps the saved id keeps every entry's id, hence their uniqueness |
| `Inventory.PrependKeepsUnique` | react-app/src/App.jsx:44 | prepending a record with a fresh id keeps the ids unique |
| `Inventory.DeleteUndoesCreate` | react-app/src/App.jsx:44-55 | deleting the just-created record (id fresh and not NaN) restores the previous list |
| `App.LoadErrorText` | react-app/src/App.jsx:23 | the load error is the error's message when non-empty, otherwise `"Failed to load"`, and is never empty |
| `App.NoticeNamesMutation` | react-app/src/App.jsx:47-93 | the failure alert text identifies which mutation failed (create, delete or update) and with which detail (the server's `error` field when non-empty, else the error's message) |
| `App.Rows` | react-app/src/App.jsx:166-241 | one entry per record in order; the entry whose `_id === editingId` shows the draft, every other shows its committed record |
| `App.AtMostOneEditingRow` | react-app/src/App.jsx:167 | with unique ids no two entries are in edit mode at once |
| `App.ViewingRowIsNotEditTarget` | react-app/src/App.jsx:186-201 | an entry showing its Delete button never has an `_id` `===` the edit target, so the page never reaches the leave-edit-mode branch of `deleteItem` |
| `App.NoEditingRowWhenIdle` | react-app/src/App.jsx:167 | after edit mode is left every entry shows its committed record, except one whose `_id` is `null` |
| `App.InventoryApp.constructor` | react-app/src/App.jsx:5-14 | the page starts with an empty list, loading, no error, a blank form with status `"S"`, no edit target and a blank draft |
| `App.InventoryApp.Load` | react-app/src/App.jsx:16-27 | success replaces the list and clears the error; failure keeps the list and sets the error text; loading is false after both; nothing else changes |
| `App.InventoryApp.CreateItem` | react-app/src/App.jsx:34-49 | sends the create body; success prepends the server record and resets the form; failure keeps list and form and alerts; edit state untouched |
| `App.InventoryApp.Submit` | react-app/src/App.jsx:106-146 | a form missing a required name, qty or price sends nothing and changes nothing; otherwise it behaves as `CreateItem` |
| `App.InventoryApp.DeleteItem` | react-app/src/App.jsx:52-62 | success filters the list by id and clears the edit target exactly when it `===` the id; failure changes nothing but alerts |
| `App.InventoryApp.StartEdit` | react-app/src/App.jsx:65-73 | sets the edit target to the record's `_id` and the draft to `DraftOf` the record; nothing else changes |
| `App.InventoryApp.CancelEdit` | react-app/src/App.jsx:76-78 | clears the edit target only; list and draft are untouched |
| `App.InventoryApp.SaveEdit` | react-app/src/App.jsx:81-95 | sends the draft's body; success replaces matching entries by id and clears the edit target; failure keeps list, target and draft and alerts |
| `App.InventoryApp.EditForm` | react-app/src/App.jsx:125-153 | one form input changes one form field and nothing else |
| `App.InventoryApp.EditDraft` | react-app/src/App.jsx:211-225 | one draft input changes one draft field and nothing else |
| `App.InventoryApp.IsEditing` | react-app/src/App.jsx:167 | an entry is in edit mode only when its `_id` equals the edit target and is not NaN; with no edit target (`null`) only an entry whose `_id` is `null` counts as in edit mode |
| `App.InventoryApp.Render` | react-app/src/App.jsx:97-171 | loading shows a loading notice, a non-empty error a page-level error, otherwise the list with one entry per record |

## Left out

- `Number(...)` conversion of qty and price: it is floating-point parsing with NaN cases; the model records only which value was converted (`NumberOf`).
- Asynchrony: each handler is one atomic step, so the functional `setItems(prev => ...)` updates act on the current list; overlapping in-flight requests and their races are not modelled.
- The server, its routes and the database (`node-mongo/server.js`, `node-mongo/models/Inventory.js`): their answers are parameters; the route module `./routes/inventories` is not part of this model.
- The `loading` flag set to true while a load is in flight: with an atomic load only its final value, false, is observable.
- Objects and arrays as field values, infinities and negative zero are not among the modelled values; the server's `error` field is modelled as a string.
- `null` and `undefined` are kept apart (`Some(Null)` and `None`), but a thrown value that is not an error object is not modelled.
- The browser's sanitising of `type="number"` inputs: `EditForm` and `EditDraft` accept any string.
- The status selects (App.jsx:151-158, 223-230) offer only S, R and T; `EditForm` and `EditDraft` accept any string for the status, so the model also covers values the page cannot produce, such as an empty status.
- Styling, layout, the API URL shown from the build environment, and how `alert` displays its text.
