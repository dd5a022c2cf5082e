/** The inventory page component: its state, its handlers and what it renders.

    Each handler runs as one atomic step. Where the handler awaits the server,
    the server's answer is a parameter: `Ok(data)` or `Failed(err)`. A handler
    changes the list only after an `Ok`, and then to what the server returned. */
module App {
  import opened Js
  import opened Inventory

  /** What a failed request carries: the error's own message, which may be
      missing, and the `error` field of the server's response body, if any. */
  datatype HttpError = HttpError(message: Option<string>, serverError: Option<string>)

  datatype Reply<T> = Ok(data: T) | Failed(err: HttpError)

  /** The three mutations, each with its own prefix in the failure alert. */
  datatype Mutation = CreateMutation | DeleteMutation | UpdateMutation

  /** `e?.message || "Failed to load"`. */
  function LoadErrorText(err: HttpError): (t: string)
    ensures t != ""
    ensures err.message.Some? && err.message.value != "" ==> t == err.message.value
    ensures !(err.message.Some? && err.message.value != "") ==> t == "Failed to load"
  {
    match err.message
    case Some(m) => if m != "" then m else "Failed to load"
    case None => "Failed to load"
  }

  /** `err?.response?.data?.error || err.message`, as the alert concatenates it
      (a missing message prints as "undefined"). */
  function FailureDetail(err: HttpError): string {
    if err.serverError.Some? && err.serverError.value != "" then err.serverError.value
    else
      match err.message
      case Some(m) => m
      case None => "undefined"
  }

  /** The words each failed mutation's alert starts with. */
  function NoticePrefix(op: Mutation): string {
    match op
    case CreateMutation => "Create failed: "
    case DeleteMutation => "Delete failed: "
    case UpdateMutation => "Update failed: "
  }

  /** The alert text for a failed mutation. */
  function FailureNotice(op: Mutation, err: HttpError): string {
    NoticePrefix(op) + FailureDetail(err)
  }

  /** An alert tells which mutation failed and with what detail: two alerts
      read the same only when both are. */
  lemma NoticeNamesMutation(op: Mutation, err: HttpError, op': Mutation, err': HttpError)
    requires FailureNotice(op, err) == FailureNotice(op', err')
    ensures op == op' && FailureDetail(err) == FailureDetail(err')
  {
    var t := FailureNotice(op, err);
    assert |NoticePrefix(op)| == 15 && |NoticePrefix(op')| == 15;
    assert t[..15] == NoticePrefix(op) && t[..15] == NoticePrefix(op');
    assert t[15..] == FailureDetail(err) && t[15..] == FailureDetail(err');
  }

  /** One list entry: the committed values, or the draft's inputs when the
      entry is the one under edit. */
  datatype Row = Viewing(shown: Display, id: Option<Value>) | Editing(draft: Draft)

  datatype Screen = LoadingScreen | ErrorScreen(message: string) | ListScreen(rows: seq<Row>)

  /** The list entries, one per record, in order. */
  function Rows(items: seq<Record>, editingId: Option<Value>, draft: Draft): (rows: seq<Row>)
    ensures |rows| == |items|
    ensures forall k :: 0 <= k < |items| ==>
      rows[k] == if StrictEquals(editingId, items[k].id) then Editing(draft) else Viewing(DisplayOf(items[k]), items[k].id)
  {
    if items == [] then []
    else
      [if StrictEquals(editingId, items[0].id) then Editing(draft) else Viewing(DisplayOf(items[0]), items[0].id)]
      + Rows(items[1..], editingId, draft)
  }

  /** With unique ids at most one entry is in edit mode, and every other entry
      shows its committed record: a draft never leaks into another row. */
  lemma AtMostOneEditingRow(items: seq<Record>, editingId: Option<Value>, draft: Draft, i: nat, j: nat)
    requires UniqueIds(items)
    requires i < j < |items|
    ensures !(Rows(items, editingId, draft)[i].Editing? && Rows(items, editingId, draft)[j].Editing?)
  {
  }

  /** The page offers Delete only on an entry that is not in edit mode, so
      the id it passes to `DeleteItem` is never `===` the edit target, and the
      handler's branch that leaves edit mode is not reached from the page. */
  lemma ViewingRowIsNotEditTarget(items: seq<Record>, editingId: Option<Value>, draft: Draft, k: nat)
    requires k < |items| && Rows(items, editingId, draft)[k].Viewing?
    ensures !StrictEquals(editingId, Rows(items, editingId, draft)[k].id)
  {
  }

  /** Outside edit mode every entry shows its committed record, unless the
      record's own `_id` is `null`, which `null === null` matches. */
  lemma NoEditingRowWhenIdle(items: seq<Record>, draft: Draft, k: nat)
    requires k < |items| && items[k].id != Some(Null)
    ensures Rows(items, Some(Null), draft)[k] == Viewing(DisplayOf(items[k]), items[k].id)
  {
  }

  class InventoryApp {
    var items: seq<Record>
    var loading: bool
    var error: string
    var form: Form
    var editingId: Option<Value>
    var editDraft: Draft

    /** The initial state, before the mount effect starts the first load. */
    constructor ()
      ensures items == [] && loading && error == ""
      ensures form == BLANK_FORM && editingId == Some(Null) && editDraft == BLANK_DRAFT
    {
      items := [];
      loading := true;
      error := "";
      form := BLANK_FORM;
      editingId := Some(Null);
      editDraft := BLANK_DRAFT;
    }

    /** Fetch the collection. */
    method Load(reply: Reply<seq<Record>>)
      modifies this
      ensures !loading
      ensures reply.Ok? ==> items == reply.data && error == ""
      ensures reply.Failed? ==> items == old(items) && error == LoadErrorText(reply.err)
      ensures form == old(form) && editingId == old(editingId) && editDraft == old(editDraft)
    {
      loading := true;
      match reply {
        case Ok(data) =>
          items := data;
          error := "";
        case Failed(err) =>
          error := LoadErrorText(err);
      }
      loading := false;
    }

    /** Post the create form. Returns the request body sent and the alert
        shown, if any. */
    method CreateItem(reply: Reply<Record>) returns (request: Payload, notice: Option<string>)
      modifies this
      ensures request == CreatePayload(old(form))
      ensures reply.Ok? ==> items == Prepend(reply.data, old(items)) && form == BLANK_FORM && notice == None
      ensures reply.Failed? ==> items == old(items) && form == old(form)
      ensures reply.Failed? ==> notice == Some(FailureNotice(CreateMutation, reply.err))
      ensures editingId == old(editingId) && editDraft == old(editDraft)
      ensures loading == old(loading) && error == old(error)
    {
      request := CreatePayload(form);
      match reply {
        case Ok(created) =>
          items := Prepend(created, items);
          form := BLANK_FORM;
          notice := None;
        case Failed(err) =>
          notice := Some(FailureNotice(CreateMutation, err));
      }
    }

    /** The form's submit: the browser runs the handler only when the
        required inputs are filled in; otherwise nothing is sent. */
    method Submit(reply: Reply<Record>) returns (request: Option<Payload>, notice: Option<string>)
      modifies this
      ensures !Submittable(old(form)) ==> request == None && notice == None
      ensures !Submittable(old(form)) ==> items == old(items) && form == old(form)
      ensures Submittable(old(form)) ==> request == Some(CreatePayload(old(form)))
      ensures Submittable(old(form)) && reply.Ok? ==>
        items == Prepend(reply.data, old(items)) && form == BLANK_FORM && notice == None
      ensures Submittable(old(form)) && reply.Failed? ==>
        items == old(items) && form == old(form) && notice == Some(FailureNotice(CreateMutation, reply.err))
      ensures editingId == old(editingId) && editDraft == old(editDraft)
      ensures loading == old(loading) && error == old(error)
    {
      if !Submittable(form) {
        request, notice := None, None;
      } else {
        var body;
        body, notice := CreateItem(reply);
        request := Some(body);
      }
    }

    /** Delete the record with `_id` `id`. */
    method DeleteItem(id: Option<Value>, reply: Reply<()>) returns (notice: Option<string>)
      modifies this
      ensures reply.Ok? ==> items == RemoveById(old(items), id) && notice == None
      ensures reply.Ok? ==> (editingId == Some(Null) <==> StrictEquals(old(editingId), id) || old(editingId) == Some(Null))
      ensures reply.Ok? && !StrictEquals(old(editingId), id) ==> editingId == old(editingId)
      ensures reply.Failed? ==> items == old(items) && editingId == old(editingId)
      ensures reply.Failed? ==> notice == Some(FailureNotice(DeleteMutation, reply.err))
      ensures editDraft == old(editDraft) && form == old(form)
      ensures loading == old(loading) && error == old(error)
    {
      match reply {
        case Ok(_) =>
          items := RemoveById(items, id);
          if StrictEquals(editingId, id) {
            editingId := Some(Null);
          }
          notice := None;
        case Failed(err) =>
          notice := Some(FailureNotice(DeleteMutation, err));
      }
    }

    /** Enter edit mode on `it`, seeding the draft from its fields. */
    method StartEdit(it: Record)
      modifies this
      ensures editingId == it.id && editDraft == DraftOf(it)
      ensures items == old(items) && form == old(form)
      ensures loading == old(loading) && error == old(error)
    {
      editingId := it.id;
      editDraft := DraftOf(it);
    }

    /** Leave edit mode; the draft is kept but no longer shown. */
    method CancelEdit()
      modifies this
      ensures editingId == Some(Null)
      ensures items == old(items) && editDraft == old(editDraft) && form == old(form)
      ensures loading == old(loading) && error == old(error)
    {
      editingId := Some(Null);
    }

    /** Put the draft as the new content of the record with `_id` `id`.
        Returns the request body sent and the alert shown, if any. */
    method SaveEdit(id: Option<Value>, reply: Reply<Record>) returns (request: Payload, notice: Option<string>)
      modifies this
      ensures request == EditPayload(old(editDraft))
      ensures reply.Ok? ==> items == ReplaceById(old(items), id, reply.data) && editingId == Some(Null) && notice == None
      ensures reply.Failed? ==> items == old(items) && editingId == old(editingId)
      ensures reply.Failed? ==> notice == Some(FailureNotice(UpdateMutation, reply.err))
      ensures editDraft == old(editDraft) && form == old(form)
      ensures loading == old(loading) && error == old(error)
    {
      request := EditPayload(editDraft);
      match reply {
        case Ok(updated) =>
          items := ReplaceById(items, id, updated);
          editingId := Some(Null);
          notice := None;
        case Failed(err) =>
          notice := Some(FailureNotice(UpdateMutation, err));
      }
    }

    /** One keystroke or selection in the create form. */
    method EditForm(f: Field, v: string)
      modifies this
      ensures form == SetFormField(old(form), f, v)
      ensures items == old(items) && editingId == old(editingId) && editDraft == old(editDraft)
      ensures loading == old(loading) && error == old(error)
    {
      form := SetFormField(form, f, v);
    }

    /** One keystroke or selection in the row under edit. */
    method EditDraft(f: Field, v: string)
      modifies this
      ensures editDraft == SetDraftField(old(editDraft), f, v)
      ensures items == old(items) && editingId == old(editingId) && form == old(form)
      ensures loading == old(loading) && error == old(error)
    {
      editDraft := SetDraftField(editDraft, f, v);
    }

    /** Whether the entry for `it` is the one under edit: `editingId === it._id`. */
    predicate IsEditing(it: Record)
      reads this
      ensures IsEditing(it) ==> editingId == it.id && it.id != Some(NaN)
      ensures editingId == Some(Null) ==> (IsEditing(it) <==> it.id == Some(Null))
    {
      StrictEquals(editingId, it.id)
    }

    /** What the page shows: a loading notice, a page-level error, or the list. */
    function Render(): (s: Screen)
      reads this
      ensures loading ==> s == LoadingScreen
      ensures !loading && error != "" ==> s == ErrorScreen(error)
      ensures !loading && error == "" ==> s.ListScreen? && |s.rows| == |items|
      ensures !loading && error == "" ==> forall k :: 0 <= k < |items| ==>
        s.rows[k] == if IsEditing(items[k]) then Editing(editDraft) else Viewing(DisplayOf(items[k]), items[k].id)
    {
      if loading then LoadingScreen
      else if error != "" then ErrorScreen(error)
      else ListScreen(Rows(items, editingId, editDraft))
    }
  }

  /** Loading an empty collection shows an empty list and no error. */
  method LoadEmptyScenario() {
    var app := new InventoryApp();
    app.Load(Ok([]));
    assert app.Render() == ListScreen([]);
  }

  /** A failed first load shows a page-level error instead of the list. */
  method FailedLoadScenario(err: HttpError) {
    var app := new InventoryApp();
    app.Load(Failed(err));
    assert app.Render().ErrorScreen?;
  }

  /** Editing a record, changing its name and cancelling leaves the committed
      record as it was, and its entry shows it again. */
  method EditCancelScenario(it: Record, newName: string)
    requires HasId(it, it.id) && it.id != Some(Null)
  {
    var app := new InventoryApp();
    app.Load(Ok([it]));
    app.StartEdit(it);
    assert app.Render().rows[0] == Editing(DraftOf(it));
    app.EditDraft(ProdNameField, newName);
    app.CancelEdit();
    assert app.items == [it];
    assert app.Render().rows[0] == Viewing(DisplayOf(it), it.id);
  }

  /** Handler behaviour: `DeleteItem` called with the edit target's own id
      removes the record and leaves edit mode. The page itself never makes
      this call, since it offers Delete only on entries not in edit mode. */
  method DeleteEditTargetScenario(it: Record, other: Record)
    requires StrictEquals(it.id, it.id) && !StrictEquals(it.id, other.id)
  {
    var app := new InventoryApp();
    app.Load(Ok([other, it]));
    app.StartEdit(it);
    var notice := app.DeleteItem(it.id, Ok(()));
    assert app.items == [other] by {
      assert app.items == RemoveById([other, it], it.id);
      RemoveByIdUnique([other, it], it.id, 1);
    }
    assert app.editingId == Some(Null);
  }

  /** As the page runs it: while `it` is being edited, the Delete button of
      another entry removes that entry and keeps `it` in edit mode. */
  method DeleteOtherWhileEditingScenario(it: Record, other: Record)
    requires StrictEquals(it.id, it.id) && StrictEquals(other.id, other.id)
    requires !StrictEquals(it.id, other.id)
  {
    var app := new InventoryApp();
    app.Load(Ok([other, it]));
    app.StartEdit(it);
    var k := 0;
    assert app.Render().rows[k].Viewing?;
    ViewingRowIsNotEditTarget(app.items, app.editingId, app.editDraft, k);
    var notice := app.DeleteItem(app.Render().rows[k].id, Ok(()));
    assert app.items == [it] by {
      RemoveByIdUnique([other, it], other.id, 0);
    }
    assert app.editingId == it.id && app.Render().rows[0] == Editing(DraftOf(it));
  }

  /** A failed create, sent through the form's submit with its required
      inputs filled in, keeps the list and the form and raises an alert. */
  method FailedCreateScenario(err: HttpError) {
    var app := new InventoryApp();
    app.Load(Ok([]));
    app.EditForm(ProdNameField, "Widget");
    app.EditForm(QtyField, "5");
    app.EditForm(PriceField, "9.99");
    app.EditForm(StatusField, "R");
    var request, notice := app.Submit(Failed(err));
    assert request.Some? && request.value.status == Str("R");
    assert app.items == [] && app.form.prodname == "Widget" && notice.Some?;
  }

  /** A successful create sent through the submit prepends the server's record
      and resets the form, which cannot then be sent again as it stands. */
  method CreateScenario(created: Record) {
    var app := new InventoryApp();
    app.Load(Ok([]));
    app.EditForm(ProdNameField, "Widget");
    app.EditForm(QtyField, "5");
    app.EditForm(PriceField, "9.99");
    var request, notice := app.Submit(Ok(created));
    assert request == Some(Payload(Str("Widget"), NumberOf(Str("5")), NumberOf(Str("9.99")), Str("S")));
    assert app.items == [created] && app.form == BLANK_FORM;
    var again, _ := app.Submit(Ok(created));
    assert again == None && app.items == [created];
  }
}
