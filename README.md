# EnhancedNotes: a verified model of the client-side note engine

This project models in Dafny the client-side note engine of the EnhancedNotes
web application. The model covers four parts:

- **Note store.** The `Note` record, the four reducer actions (`ADD_NOTE`,
  `UPDATE_NOTE`, `DELETE_NOTE`, `SET_NOTES`) and `notesReducer`. It is a pure
  function over the ordered list of notes.
- **Search view.** `filteredNotes` keeps a note when its lower-cased title or
  content contains the lower-cased search term.
- **Editor component.** The `EnhancedNotes` component is a class. Its fields
  are the component's state: `notes`, `activeNote`, `isSaving`, `isAnalyzing`,
  `noteToDelete`, `isDeleteDialogOpen`, `analysisResult` and `searchTerm`, plus
  the toast list it reports to. Each handler is a method.
- **Two toast lists.**
  - The `useToast` hook of `use-toast.ts` is the one the editor uses. A toast
    has a per-call `duration` that defaults to 3000.
  - The `ToastProvider` of `use-toast.tsx` uses a fixed window of 5000.
  - Both are classes holding the toast list, the pending `setTimeout`
    callbacks and an explicit clock that stands for `Date.now()`.

A remote call (`fetch` followed by `response.json()`) becomes a `Response<T>`
parameter of the handler: `Ok(body)` or `Failed`. Every handler is therefore
verified on both its success path and its failure path. Each handler also
returns the request it sends: the method, the path and the body. The server is
free to answer anything, and the model follows the code by dispatching whatever
note the server returns.

Files:

- `wrappers.dfy`: the shared `Option`, `Response` and `Result` types.
- `seq_filter.dfy`: `Array.prototype.filter` and its laws, shared by delete,
  search and both toast removals.
- `note_store.dfy`: the reducer.
- `note_search.dfy`: the search view.
- `toast_types.dfy`, `toast_hook.dfy`, `toast_context.dfy`: the toast lists.
- `notes_editor.dfy`: the component.

Where the code departs from what a reader might expect, the model follows the
code:

- `ADD_NOTE` appends even when the id is already present. It does not
  overwrite. `NoteStore.AddUniqueIff` and `NoteStore.AddThenDeleteDuplicateLoses`
  state the consequences.
- A successful delete opens the first note of the list as it was before the
  delete. That note can be the deleted note itself, so the selection is not
  always a remaining note. `NotesEditor.SelectionAfterDelete` states exactly
  when this happens.
- The dialog's Cancel button only closes the dialog. `noteToDelete` stays set.
- A failed list fetch leaves the store as it was. It does not force the store
  to be empty.

## Model

| member | source | states |
|---|---|---|
| NoteStore.Reduce | src/components/EnhancedNotes.tsx:28-41 | `notesReducer`: `ADD_NOTE` makes the list one longer, `UPDATE_NOTE` keeps its length, `DELETE_NOTE` never lengthens it and never adds a note. What each action does to the contents is stated by the lemmas below. |
| NoteStore.Replace | src/components/EnhancedNotes.tsx:32-33 | The `map` of `UPDATE_NOTE` keeps the length, and every note of the result is an old note or the payload. `NoteStore.UpdateAt` states it position by position. |
| NoteStore.AddAppends | src/components/EnhancedNotes.tsx:30-31 | `ADD_NOTE` adds exactly one note, the payload, at the end. Every earlier note keeps its position, and a duplicate id is not rejected. |
| NoteStore.AddUniqueIff | src/components/EnhancedNotes.tsx:30-31 | On a list with unique ids, `ADD_NOTE` keeps the ids unique if and only if the payload's id is not already present. |
| NoteStore.UpdateAt | src/components/EnhancedNotes.tsx:32-33 | `UPDATE_NOTE` keeps the length. Every note whose id equals the payload's id becomes the payload, and every other note is unchanged. |
| NoteStore.UpdateMissingIsNoOp | src/components/EnhancedNotes.tsx:32-33 | `UPDATE_NOTE` with an id that no note carries returns the list unchanged. |
| NoteStore.UpdateKeepsIds | src/components/EnhancedNotes.tsx:32-33 | `UPDATE_NOTE` never changes the sequence of ids. |
| NoteStore.UpdateKeepsUnique | src/components/EnhancedNotes.tsx:32-33 | `UPDATE_NOTE` preserves the invariant "at most one note per id". |
| NoteStore.DeleteRemoves | src/components/EnhancedNotes.tsx:34-35 | After `DELETE_NOTE` no note has that id. Every note with another id is kept, as many times as the input holds it. The result is a subsequence of the input, so order is preserved. |
| NoteStore.DeleteMissingIsNoOp | src/components/EnhancedNotes.tsx:34-35 | `DELETE_NOTE` with an absent id returns the list unchanged. |
| NoteStore.DeleteIdempotent | src/components/EnhancedNotes.tsx:34-35 | Deleting an id twice gives the same list as deleting it once. |
| NoteStore.DeleteKeepsUnique | src/components/EnhancedNotes.tsx:34-35 | `DELETE_NOTE` preserves the invariant "at most one note per id". |
| NoteStore.SetReplacesAll | src/components/EnhancedNotes.tsx:36-37 | `SET_NOTES` yields exactly its payload, whatever the prior list was. |
| NoteStore.AddThenDeleteRestores | src/components/EnhancedNotes.tsx:30-35 | `ADD_NOTE` of a note with a fresh id followed by `DELETE_NOTE` of that id returns the original list. |
| NoteStore.AddThenDeleteDuplicateLoses | src/components/EnhancedNotes.tsx:30-35 | When the added id was already present, the same round trip also removes the older note, so the list gets shorter. |
| NoteStore.UpdateAfterDeleteDoesNotReinsert | src/components/EnhancedNotes.tsx:32-35 | A save that resolves after the delete of its note changes nothing. The deleted note does not come back. |
| NoteStore.UpdateDeleteCommute | src/components/EnhancedNotes.tsx:32-35 | `UPDATE_NOTE` and `DELETE_NOTE` commute for any ids. A save and a delete that resolve in either order leave the same list. |
| NoteStore.DeleteDeleteCommute | src/components/EnhancedNotes.tsx:34-35 | Two deletes commute. |
| NoteSearch.LowerChar | src/components/EnhancedNotes.tsx:119-120 | ASCII `toLowerCase` of one character. The result is never an upper-case letter. An upper-case letter becomes its own lower-case letter, at the same offset from `a` as it has from `A`. Any other character is unchanged. |
| NoteSearch.LowerCharEqIff | src/components/EnhancedNotes.tsx:119-120 | Two characters fold to the same character if and only if they are equal or are an upper-case letter and its own lower-case letter. |
| NoteSearch.ToLower | src/components/EnhancedNotes.tsx:119-120 | `toLowerCase` keeps the length, folds each character on its own, and leaves no upper-case ASCII letter. `NoteSearch.ToLowerEqIff` states which strings it identifies. |
| NoteSearch.ToLowerEqIff | src/components/EnhancedNotes.tsx:119-120 | Two strings have the same lower-case form if and only if they have the same length and differ at each position at most in ASCII case. This is the equivalence the case-insensitive search relies on. |
| NoteSearch.Includes | src/components/EnhancedNotes.tsx:119-120 | `includes` holds only when the term is no longer than the string, and always holds for the empty term. `NoteSearch.IncludesIff` states its meaning. |
| NoteSearch.Matches | src/components/EnhancedNotes.tsx:118-121 | The filter's test: the empty term matches every note, and a term longer than both the title and the content matches none. |
| NoteSearch.FilteredNotes | src/components/EnhancedNotes.tsx:117-123 | `filteredNotes` is never longer than the store and holds only stored notes that match. `NoteSearch.SearchKeepsExactlyMatches` states the converse and the counts. |
| NoteSearch.IncludesIff | src/components/EnhancedNotes.tsx:119-120 | The recursive `includes` is true if and only if the term occurs at some offset of the string. |
| NoteSearch.IncludesEmpty | src/components/EnhancedNotes.tsx:119-120 | Every string includes the empty term. |
| NoteSearch.ToLowerIdempotent | src/components/EnhancedNotes.tsx:119-120 | Lower-casing twice gives the same string as lower-casing once. |
| NoteSearch.SearchIsSubsequence | src/components/EnhancedNotes.tsx:117-123 | The filtered list is a subsequence of `notes`, so it is never longer and keeps the store's order. |
| NoteSearch.SearchKeepsExactlyMatches | src/components/EnhancedNotes.tsx:117-123 | A note is shown if and only if it is in the store and its lower-cased title or content includes the lower-cased term. A matching note is shown as many times as the store holds it; a non-matching one not at all. |
| NoteSearch.SearchEmptyTermShowsAll | src/components/EnhancedNotes.tsx:117-123 | The empty term shows exactly `notes`. |
| NoteSearch.SearchNoMatchIsEmpty | src/components/EnhancedNotes.tsx:117-123 | A term that no note matches shows nothing. |
| NoteSearch.SearchCaseInsensitive | src/components/EnhancedNotes.tsx:117-123 | Two terms with the same lower-case form show the same notes. |
| NoteSearch.SearchFindsMeeting | src/components/EnhancedNotes.tsx:117-123 | The term "meet" finds a note titled "Meeting". |
| NotesEditor.NextActive | src/components/EnhancedNotes.tsx:160 | The note opened after a delete is none exactly when the pre-delete list held at most one note; otherwise it is a note of that list. `NotesEditor.SelectionAfterDelete` says which one. |
| NotesEditor.SelectionAfterDelete | src/components/EnhancedNotes.tsx:158-160 | After a successful delete, the open note is none exactly when the pre-delete list had at most one note. Otherwise it is the pre-delete first note, which is still in the store if and only if it was not the deleted one. |
| NotesEditor.CreateEditDeleteEmpties | src/components/EnhancedNotes.tsx:30-35 | Starting from an empty store, creating a note, saving an edit of it (whatever note the server returns) and deleting the created id leaves the store empty. |
| NotesEditor.EnhancedNotes.constructor | src/components/EnhancedNotes.tsx:44-60 | The initial state: no notes, nothing open, no dialog, not saving, not analyzing, no result, an empty term and no toasts. |
| NotesEditor.EnhancedNotes.Shown | src/components/EnhancedNotes.tsx:117-123 | The list shown for the current term is a subsequence of the store and holds exactly the matching notes, each as many times as the store holds it. |
| NotesEditor.EnhancedNotes.FetchNotes | src/components/EnhancedNotes.tsx:87-104 | Sends `GET /api/notes`. On success the store becomes the fetched list through `SET_NOTES` and no toast is posted. On failure the state is unchanged and one error toast is appended. |
| NotesEditor.EnhancedNotes.HandleUpdateNote | src/components/EnhancedNotes.tsx:64-85 | Sends `PUT` with the edited note. On success it applies `UPDATE_NOTE` with the server's note and posts a success toast. On failure `notes` is unchanged and one error toast is appended. `isSaving` is false afterwards, whatever the outcome. |
| NotesEditor.EnhancedNotes.SaveSettledEdit | src/components/EnhancedNotes.tsx:111-115 | One run of the save effect saves the open note through `handleUpdateNote`, with that call's outcome on the store and the toasts. With no open note it sends nothing and changes nothing. |
| NotesEditor.EnhancedNotes.HandleNewNote | src/components/EnhancedNotes.tsx:125-145 | Posts "New Note" with empty content. On success it appends the created note through `ADD_NOTE`, opens it and posts a success toast. On failure it changes nothing but appends one error toast. |
| NotesEditor.EnhancedNotes.HandleDeleteNote | src/components/EnhancedNotes.tsx:147-150 | Sets `noteToDelete` to the note and opens the dialog. Nothing else changes. |
| NotesEditor.EnhancedNotes.CancelDelete | src/components/EnhancedNotes.tsx:378 | Only closes the dialog. `notes` and `noteToDelete` are unchanged. |
| NotesEditor.EnhancedNotes.ConfirmDeleteNote | src/components/EnhancedNotes.tsx:152-172 | With no `noteToDelete` it sends nothing and changes nothing. On success it sends `DELETE`, applies `DELETE_NOTE`, sets the open note to the pre-delete `notes[0]` (none if that list had at most one note), clears `noteToDelete`, closes the dialog and posts a success toast. On failure the dialog stays open on the same note, `notes` is unchanged and one error toast is posted. |
| NotesEditor.EnhancedNotes.HandleCloseNote | src/components/EnhancedNotes.tsx:174-176 | Clears the open note and changes nothing else. |
| NotesEditor.EnhancedNotes.HandleAnalyze | src/components/EnhancedNotes.tsx:178-203 | With no open note it sends nothing and changes nothing. Otherwise it sends the open note's content. On success it stores the result and posts a success toast; on failure it posts an error toast. `isAnalyzing` is false afterwards. |
| NotesEditor.EnhancedNotes.HandleNoteChange | src/components/EnhancedNotes.tsx:209-211 | The edited note becomes the open note. The store is not touched. |
| NotesEditor.EnhancedNotes.SelectNote | src/components/EnhancedNotes.tsx:245 | Clicking a listed note opens it and changes nothing else. |
| NotesEditor.EnhancedNotes.SetSearchTerm | src/components/EnhancedNotes.tsx:233 | Typing in the search box sets the term and changes nothing else. |
| NotesEditor.EnhancedNotes.CloseAnalysis | src/components/EnhancedNotes.tsx:316 | Closing the analysis panel clears the result and changes nothing else. |
| NotesEditor.EnhancedNotes.DismissToast | src/components/EnhancedNotes.tsx:394 | The `onClose` callback passed to each toast filters that toast's id out of the toast list. The timers and the clock are unchanged. |
| ToastTypes.WithoutId | src/components/ui/use-toast.ts:29 | The filter of `removeToast` (the same at use-toast.tsx:42) is never longer than the list and holds only listed toasts with another id. `ToastTypes.RemoveLeavesNoId` states the converse and the counts. |
| ToastTypes.RemoveLeavesNoId | src/components/ui/use-toast.ts:28-30 | `removeToast(id)`, the same filter in both toast files, leaves no toast with that id, keeps every other toast as many times as the list holds it, and preserves their order. Toasts that share the id all go together. |
| ToastTypes.RemoveAbsentIsNoOp | src/components/ui/use-toast.ts:28-30 | `removeToast` of an absent id leaves the list unchanged. |
| ToastTypes.RemoveTwiceIsOnce | src/components/ui/use-toast.ts:28-30 | Calling `removeToast` twice with the same id gives the same list as calling it once. |
| ToastTypes.SameInstantRemovedTogether | src/components/ui/use-toast.ts:19-25 | Two toasts stamped with the same `Date.now()` are removed together by the later one's expiry or removal. |
| ToastHook.Toaster.constructor | src/components/ui/use-toast.ts:16 | The list starts empty, with no pending timers. |
| ToastHook.Toaster.AddToast | src/components/ui/use-toast.ts:18-26 | Appends one toast carrying the current time as its id, the message, the type and the duration (3000 when omitted). Earlier toasts are unchanged. Schedules a removal of that id at now plus the duration. |
| ToastHook.Toaster.RemoveToast | src/components/ui/use-toast.ts:28-30 | The list becomes the old list with that id filtered out. The timers and the clock are unchanged. |
| ToastHook.Toaster.Tick | src/components/ui/use-toast.ts:23-25 | Time advances. The toasts and the timers are unchanged. |
| ToastHook.Toaster.Expire | src/components/ui/use-toast.ts:23-25 | A timer fires if and only if it is due. Firing has the same effect on the list as `removeToast` of its id and drops that timer. A timer that is not due changes nothing. Every shown toast keeps a pending timer. |
| ToastHook.Toaster.PostThenWait | src/components/ui/use-toast.ts:18-25 | A toast posted with the default duration is shown at once. After 3000 its timer fires and no toast with its id remains. |
| ToastContext.ToastProvider.constructor | src/components/ui/use-toast.tsx:33 | The provider's list starts empty, with no pending timers. |
| ToastContext.ToastProvider.AddToast | src/components/ui/use-toast.tsx:35-39 | Appends `{id: now, message, type}` at the end and leaves earlier toasts unchanged. Schedules `removeToast(id)` at exactly now plus 5000, with no per-call duration. |
| ToastContext.ToastProvider.RemoveToast | src/components/ui/use-toast.tsx:41-43 | The list becomes the old list with that id filtered out, in order. |
| ToastContext.ToastProvider.Tick | src/components/ui/use-toast.tsx:38 | Time advances. The toasts and the timers are unchanged. |
| ToastContext.ToastProvider.Expire | src/components/ui/use-toast.tsx:38 | A due timer calls `removeToast` with its id and is dropped. A timer that is not due changes nothing. Every shown toast keeps a pending timer. |
| ToastContext.UseToast | src/components/ui/use-toast.tsx:20-26 | Outside a provider it throws "useToast must be used within a ToastProvider". Inside a provider it returns the context. It never returns nothing. |

## Left out

- Network and JSON: `fetch`, HTTP status codes and `response.json()` become a
  `Response<T>` parameter. The JSON the server returns is assumed to have the
  declared shape, because TypeScript does not check it at run time.
- Asynchronous interleaving: each handler runs to completion in one step. So
  `isSaving` and `isAnalyzing` are true only inside a handler. The "Analyze"
  button being disabled while an analysis runs is not modelled, because two
  analyses cannot overlap here. The render-time `notes` snapshot that
  `confirmDeleteNote` reads equals the current store. Out-of-order completion
  is covered on the reducer instead, by `UpdateDeleteCommute`,
  `UpdateAfterDeleteDoesNotReinsert` and `DeleteDeleteCommute`.
- The debounce hook `@/hooks/useDebounce` is not part of this model. A settled
  edit is the explicit step `SaveSettledEdit`; the 500 ms timer is not modelled.
- SaveSettledEdit: does not model how often the save effect runs. The effect
  at `EnhancedNotes.tsx:111-115` depends on `handleUpdateNote`, which is a new
  function on every render because it is not wrapped in `useCallback`. So the
  effect runs again after every render while a note is open. Each save's own
  `dispatch`, toast and `setIsSaving(false)` cause a render, which sends another
  PUT and posts another success toast. The model performs one save per
  explicit step and does not reproduce this repeated saving.
- Timers: `setTimeout` becomes a list of pending `Timer(id, due)`. `Expire` may
  fire any due timer, which allows more orders than the JavaScript event loop.
  Neither hook clears its timers. A callback that fires after the component
  has unmounted is not modelled.
- NotesEditor.EnhancedNotes.DismissToast: models the `onClose` callback at
  `EnhancedNotes.tsx:390-395`, not a click. The `Toast` component
  (`src/components/ui/Toast.tsx:7-13, 25`) takes `onDismiss`, not `onClose`,
  and its close button calls `onDismiss`, which the editor never passes. So
  in the code as written the close button does nothing, nothing calls
  `removeToast`, and a toast leaves the list only when its timer fires
  (`ToastHook.Toaster.Expire`).
- ToastHook.Toaster.AddToast: the `duration` is an unbounded integer and the
  timer is due exactly `duration` later. `setTimeout` converts its delay to a
  32-bit integer: a delay above 2147483647 or below 0 fires almost at once,
  and a fractional delay is truncated. That clamping is not modelled, so an
  out-of-range `duration` keeps the toast longer in the model than in the
  code. No caller in the component passes a `duration`.
- `toLowerCase` folds ASCII letters only. Unicode case mapping is not modelled.
- `console.error` logging, dark mode and its `localStorage` entry, focus mode,
  and all JSX rendering are not modelled. This includes the analysis tabs,
  `Toast.tsx`, `toaster.tsx` and `button.tsx`.
- The API routes, the database, authentication, the login and signup pages,
  and the layouts are not part of this model.
