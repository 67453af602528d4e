/** The `EnhancedNotes` component as a state machine: the note store, the
    open note, the saving/analyzing flags, the delete-confirmation dialog,
    the last analysis result, the search term, and the toast list it
    reports to. Each handler runs to completion in one step; the remote
    service's answer (`fetch` and `response.json()`) is a parameter, so
    every handler is verified for both its success and its failure path. */
module NotesEditor {
  import opened Wrappers
  import opened SeqFilter
  import opened NoteStore
  import opened NoteSearch
  import opened ToastTypes
  import ToastHook

  datatype Resource = Resource(url: string, title: string)

  datatype KnowledgeItem = KnowledgeItem(concept: string, explanation: string, resources: seq<Resource>)

  /** The analysis service's answer; every part of it may be absent. */
  datatype AnalysisResult = AnalysisResult(
    summary: Option<string>,
    knowledge: Option<seq<KnowledgeItem>>,
    actions: Option<seq<string>>)

  /** A request the component sends to the server. */
  datatype Request =
    | GetNotes                                  // GET /api/notes
    | PostNote(title: string, content: string)  // POST /api/notes
    | PutNote(id: string, body: Note)           // PUT /api/notes/{id}
    | DeleteById(id: string)                    // DELETE /api/notes/{id}
    | PostAnalyze(content: string)              // POST /api/analyze

  /** Everything the component holds besides the toast list. */
  datatype EditorState = EditorState(
    notes: seq<Note>,
    activeNote: Option<Note>,
    isAnalyzing: bool,
    analysisResult: Option<AnalysisResult>,
    searchTerm: string,
    isDeleteDialogOpen: bool,
    noteToDelete: Option<Note>,
    isSaving: bool)

  const NoteUpdated := "Note updated successfully."
  const UpdateFailed := "Failed to update note. Please try again."
  const FetchFailed := "Failed to fetch notes. Please try again."
  const NoteCreated := "New note created successfully."
  const CreateFailed := "Failed to create note. Please try again."
  const NoteDeleted := "Note deleted successfully."
  const DeleteFailed := "Failed to delete note. Please try again."
  const NoteAnalyzed := "Your note has been analyzed successfully."
  const AnalyzeFailed := "An error occurred while analyzing the note. Please try again."

  /** The title and content `handleNewNote` asks the server to create a
      note with. */
  const NewNoteTitle := "New Note"
  const NewNoteContent := ""

  /** The open note after a successful delete, chosen from the list as it
      was before the delete: its first note when it held more than one. */
  function NextActive(before: seq<Note>): (r: Option<Note>)
    ensures r.Some? ==> r.value in before
    ensures r.None? <==> |before| <= 1
  {
    if |before| > 1 then Some(before[0]) else None
  }

  /** After a successful delete the selection is cleared exactly when the
      list held at most one note; otherwise it is the old first note, which
      is still in the store exactly when it was not the deleted one. When
      the first note is the one deleted, the selection is left on a note
      the store no longer has. */
  lemma SelectionAfterDelete(before: seq<Note>, id: string)
    ensures NextActive(before).None? <==> |before| <= 1
    ensures NextActive(before).Some? ==>
      NextActive(before).value == before[0] &&
      (NextActive(before).value in Reduce(before, DeleteNote(id)) <==> before[0].id != id)
  {
  }

  /** Create, save an edit, then delete: the store ends empty again,
      whatever note the server returns to the save. */
  lemma CreateEditDeleteEmpties(created: Note, saved: Note)
    ensures Reduce(Reduce(Reduce([], AddNote(created)), UpdateNote(saved)), DeleteNote(created.id)) == []
  {
    assert Reduce([], AddNote(created)) == [created];
    assert [created][1..] == [];
    var stored := Reduce([created], UpdateNote(saved));
    var h := if created.id == saved.id then saved else created;
    assert stored == [h] + Replace([], saved);
    assert h.id == created.id;
    assert Filter(stored, OtherThan(created.id)) == [] + Filter([], OtherThan(created.id));
  }

  class EnhancedNotes {
    var notes: seq<Note>
    var activeNote: Option<Note>
    var isAnalyzing: bool
    var analysisResult: Option<AnalysisResult>
    var searchTerm: string
    var isDeleteDialogOpen: bool
    var noteToDelete: Option<Note>
    var isSaving: bool
    /** The toast list of the component's `useToast()` call. */
    const toaster: ToastHook.Toaster

    /** The toast list keeps its timers, and the dialog is only ever open
        with a note to delete. */
    ghost predicate Valid()
      reads this, toaster
    {
      toaster.Valid() && (isDeleteDialogOpen ==> noteToDelete.Some?)
    }

    ghost function State(): EditorState
      reads this
    {
      EditorState(notes, activeNote, isAnalyzing, analysisResult, searchTerm,
                  isDeleteDialogOpen, noteToDelete, isSaving)
    }

    /** The initial render: an empty store, nothing open, no dialog, no
        toasts, with the clock at `clock`. */
    constructor (clock: int)
      ensures Valid() && fresh(toaster)
      ensures State() == EditorState([], None, false, None, "", false, None, false)
      ensures toaster.toasts == [] && toaster.timers == [] && toaster.now == clock
    {
      notes, activeNote, isAnalyzing, analysisResult := [], None, false, None;
      searchTerm, isDeleteDialogOpen, noteToDelete, isSaving := "", false, None, false;
      toaster := new ToastHook.Toaster(clock);
    }

    /** `filteredNotes`: the notes of the store shown for the current search
        term, in store order, each matching the term. */
    function Shown(): (r: seq<Note>)
      reads this
      ensures IsSubsequence(r, notes)
      ensures forall n :: n in r <==> n in notes && Matches(searchTerm, n)
      ensures forall n :: multiset(r)[n] == if Matches(searchTerm, n) then multiset(notes)[n] else 0
    {
      SearchIsSubsequence(notes, searchTerm);
      forall n
        ensures n in FilteredNotes(notes, searchTerm) <==> n in notes && Matches(searchTerm, n)
        ensures multiset(FilteredNotes(notes, searchTerm))[n] ==
          if Matches(searchTerm, n) then multiset(notes)[n] else 0
      {
        SearchKeepsExactlyMatches(notes, searchTerm, n);
      }
      FilteredNotes(notes, searchTerm)
    }

    /** The initial fetch of the note list: on success the store becomes
        the server's list (`SET_NOTES`); on failure the store stays as it
        is and an error toast is posted. */
    method FetchNotes(response: Response<seq<Note>>) returns (sent: Request)
      requires Valid()
      modifies this, toaster
      ensures Valid()
      ensures sent == GetNotes
      ensures response.Ok? ==>
        State() == old(State()).(notes := response.body) && unchanged(toaster)
      ensures response.Failed? ==>
        State() == old(State()) && toaster.PostedOne(FetchFailed, Error, ToastHook.DefaultDuration)
    {
      sent := GetNotes;
      match response
      case Ok(fetched) =>
        notes := Reduce(notes, SetNotes(fetched));
      case Failed =>
        toaster.AddToast(FetchFailed, Error, None);
    }

    /** `handleUpdateNote`: sends the edited note; on success the server's
        copy replaces the note with its id (`UPDATE_NOTE`) and a success
        toast is posted; on failure the store is untouched and an error
        toast is posted. Either way `isSaving` is false afterwards. */
    method HandleUpdateNote(updatedNote: Note, response: Response<Note>) returns (sent: Request)
      requires Valid()
      modifies this, toaster
      ensures Valid()
      ensures sent == PutNote(updatedNote.id, updatedNote)
      ensures !isSaving
      ensures response.Ok? ==>
        State() == old(State()).(notes := Reduce(old(notes), UpdateNote(response.body)), isSaving := false) &&
        toaster.PostedOne(NoteUpdated, Success, ToastHook.DefaultDuration)
      ensures response.Failed? ==>
        State() == old(State()).(isSaving := false) &&
        toaster.PostedOne(UpdateFailed, Error, ToastHook.DefaultDuration)
    {
      isSaving := true;
      sent := PutNote(updatedNote.id, updatedNote);
      match response {
        case Ok(fromServer) =>
          notes := Reduce(notes, UpdateNote(fromServer));
          toaster.AddToast(NoteUpdated, Success, None);
        case Failed =>
          toaster.AddToast(UpdateFailed, Error, None);
      }
      isSaving := false;
    }

    /** One run of the save effect: when a note is open it is saved with
        `handleUpdateNote`, otherwise nothing happens. The effect depends on
        the debounced open note and on `handleUpdateNote`, which is a new
        function on every render, so it runs after every render, not only
        when the debounced note changes; each call here is one such run. */
    method SaveSettledEdit(response: Response<Note>) returns (sent: Option<Request>)
      requires Valid()
      modifies this, toaster
      ensures Valid()
      ensures sent == if old(activeNote).Some? then Some(PutNote(old(activeNote).value.id, old(activeNote).value)) else None
      ensures old(activeNote).None? ==> State() == old(State()) && unchanged(toaster)
      ensures old(activeNote).Some? && response.Ok? ==>
        State() == old(State()).(notes := Reduce(old(notes), UpdateNote(response.body)), isSaving := false) &&
        toaster.PostedOne(NoteUpdated, Success, ToastHook.DefaultDuration)
      ensures old(activeNote).Some? && response.Failed? ==>
        State() == old(State()).(isSaving := false) &&
        toaster.PostedOne(UpdateFailed, Error, ToastHook.DefaultDuration)
    {
      sent := None;
      if activeNote.Some? {
        var put := HandleUpdateNote(activeNote.value, response);
        sent := Some(put);
      }
    }

    /** `handleNewNote`: asks the server to create "New Note" with empty
        content; on success the created note is appended (`ADD_NOTE`),
        opened, and a success toast is posted; on failure nothing but an
        error toast changes. */
    method HandleNewNote(response: Response<Note>) returns (sent: Request)
      requires Valid()
      modifies this, toaster
      ensures Valid()
      ensures sent == PostNote(NewNoteTitle, NewNoteContent)
      ensures response.Ok? ==>
        State() == old(State()).(notes := Reduce(old(notes), AddNote(response.body)),
                                 activeNote := Some(response.body)) &&
        toaster.PostedOne(NoteCreated, Success, ToastHook.DefaultDuration)
      ensures response.Failed? ==>
        State() == old(State()) && toaster.PostedOne(CreateFailed, Error, ToastHook.DefaultDuration)
    {
      sent := PostNote(NewNoteTitle, NewNoteContent);
      match response
      case Ok(created) =>
        notes := Reduce(notes, AddNote(created));
        activeNote := Some(created);
        toaster.AddToast(NoteCreated, Success, None);
      case Failed =>
        toaster.AddToast(CreateFailed, Error, None);
    }

    /** `handleDeleteNote`: remembers the note and opens the confirmation
        dialog. */
    method HandleDeleteNote(note: Note)
      requires Valid()
      modifies this
      ensures Valid()
      ensures State() == old(State()).(noteToDelete := Some(note), isDeleteDialogOpen := true)
    {
      noteToDelete := Some(note);
      isDeleteDialogOpen := true;
    }

    /** The dialog's Cancel button (and closing the dialog): only the
        dialog closes; the remembered note and the store stay. */
    method CancelDelete()
      requires Valid()
      modifies this
      ensures Valid()
      ensures State() == old(State()).(isDeleteDialogOpen := false)
    {
      isDeleteDialogOpen := false;
    }

    /** `confirmDeleteNote`: with no remembered note nothing happens. With
        one, on success the note's id is deleted (`DELETE_NOTE`), the open
        note becomes the first note of the list as it was before the
        delete (none when it held at most one note), the dialog closes, the
        remembered note is cleared and a success toast is posted; on
        failure the dialog stays open on the same note and only an error
        toast is posted. */
    method ConfirmDeleteNote(response: Response<()>) returns (sent: Option<Request>)
      requires Valid()
      modifies this, toaster
      ensures Valid()
      ensures sent == if old(noteToDelete).Some? then Some(DeleteById(old(noteToDelete).value.id)) else None
      ensures old(noteToDelete).None? ==> State() == old(State()) && unchanged(toaster)
      ensures old(noteToDelete).Some? && response.Ok? ==>
        State() == old(State()).(notes := Reduce(old(notes), DeleteNote(old(noteToDelete).value.id)),
                                 activeNote := NextActive(old(notes)),
                                 noteToDelete := None,
                                 isDeleteDialogOpen := false) &&
        toaster.PostedOne(NoteDeleted, Success, ToastHook.DefaultDuration)
      ensures old(noteToDelete).Some? && response.Failed? ==>
        State() == old(State()) && toaster.PostedOne(DeleteFailed, Error, ToastHook.DefaultDuration)
    {
      sent := None;
      if noteToDelete.Some? {
        sent := Some(DeleteById(noteToDelete.value.id));
        match response
        case Ok(_) =>
          var before := notes;
          notes := Reduce(notes, DeleteNote(noteToDelete.value.id));
          activeNote := NextActive(before);
          noteToDelete := None;
          isDeleteDialogOpen := false;
          toaster.AddToast(NoteDeleted, Success, None);
        case Failed =>
          toaster.AddToast(DeleteFailed, Error, None);
      }
    }

    /** `handleCloseNote`: nothing is open any more. */
    method HandleCloseNote()
      requires Valid()
      modifies this
      ensures Valid()
      ensures State() == old(State()).(activeNote := None)
    {
      activeNote := None;
    }

    /** `handleAnalyze`: with no open note nothing happens. Otherwise the
        open note's content is sent for analysis; on success the result is
        kept and a success toast is posted, on failure only an error toast
        is posted. Either way `isAnalyzing` is false afterwards. */
    method HandleAnalyze(response: Response<AnalysisResult>) returns (sent: Option<Request>)
      requires Valid()
      modifies this, toaster
      ensures Valid()
      ensures sent == if old(activeNote).Some? then Some(PostAnalyze(old(activeNote).value.content)) else None
      ensures old(activeNote).None? ==> State() == old(State()) && unchanged(toaster)
      ensures old(activeNote).Some? ==> !isAnalyzing
      ensures old(activeNote).Some? && response.Ok? ==>
        State() == old(State()).(analysisResult := Some(response.body), isAnalyzing := false) &&
        toaster.PostedOne(NoteAnalyzed, Success, ToastHook.DefaultDuration)
      ensures old(activeNote).Some? && response.Failed? ==>
        State() == old(State()).(isAnalyzing := false) &&
        toaster.PostedOne(AnalyzeFailed, Error, ToastHook.DefaultDuration)
    {
      if activeNote.None? {
        return None;
      }
      isAnalyzing := true;
      sent := Some(PostAnalyze(activeNote.value.content));
      match response {
        case Ok(result) =>
          analysisResult := Some(result);
          toaster.AddToast(NoteAnalyzed, Success, None);
        case Failed =>
          toaster.AddToast(AnalyzeFailed, Error, None);
      }
      isAnalyzing := false;
    }

    /** `handleNoteChange`: the edited note becomes the open note; the store
        is not touched until the edit settles and is saved. */
    method HandleNoteChange(updatedNote: Note)
      requires Valid()
      modifies this
      ensures Valid()
      ensures State() == old(State()).(activeNote := Some(updatedNote))
    {
      activeNote := Some(updatedNote);
    }

    /** Clicking a note in the list opens it. */
    method SelectNote(note: Note)
      requires Valid()
      modifies this
      ensures Valid()
      ensures State() == old(State()).(activeNote := Some(note))
    {
      activeNote := Some(note);
    }

    /** Typing in the search box. */
    method SetSearchTerm(term: string)
      requires Valid()
      modifies this
      ensures Valid()
      ensures State() == old(State()).(searchTerm := term)
    {
      searchTerm := term;
    }

    /** Closing the analysis panel discards the result. */
    method CloseAnalysis()
      requires Valid()
      modifies this
      ensures Valid()
      ensures State() == old(State()).(analysisResult := None)
    {
      analysisResult := None;
    }

    /** The `onClose` callback each rendered toast is given: `removeToast`
        with the toast's id. The toast component shown never calls it, so
        in the component as written a toast leaves the list only when its
        timer fires (see `ToastHook.Toaster.Expire`). */
    method DismissToast(id: int)
      requires Valid()
      modifies toaster
      ensures Valid()
      ensures toaster.toasts == WithoutId(old(toaster.toasts), ToastHook.IdOf, id)
      ensures toaster.timers == old(toaster.timers) && toaster.now == old(toaster.now)
    {
      toaster.RemoveToast(id);
    }
  }
}
