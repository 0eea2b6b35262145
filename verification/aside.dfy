/** The editor side panel (client/src/components/Aside/Aside.jsx): the
    flavor-change confirmation, and the request `handleSaveSnippet` builds
    from the form. */
module Aside {
  import opened JsValues
  import opened JsStrings
  import opened SnippetModel
  import opened SnippetController
  import opened ClientStore

  /** The panel's own state: whether the confirmation dialog is open and
      the flavor waiting for confirmation (None for `null`). */
  datatype Ui = Ui(showConfirmModal: bool, pendingFlavor: Option<string>)

  const INITIAL_UI := Ui(false, None)

  /** The store together with the panel's state. */
  datatype Editor = Editor(store: State, ui: Ui)

  /** Choosing `newFlavor` needs confirmation: there is non-blank content
      and the flavor actually changes. */
  predicate AsksConfirmation(form: Form, newFlavor: Option<string>) {
    Trim(form.content) != "" && newFlavor != form.flavor
  }

  /** `handleFlavorChange` */
  function HandleFlavorChange(e: Editor, newFlavor: Option<string>): (r: Editor)
    ensures r.store.form.content == e.store.form.content
    ensures r.store.form.flavor == newFlavor || r.store.form.flavor == e.store.form.flavor
  {
    if AsksConfirmation(e.store.form, newFlavor) then
      e.(ui := e.ui.(pendingFlavor := newFlavor, showConfirmModal := true))
    else
      e.(store := SetFlavor(e.store, newFlavor))
  }

  /** `handleConfirmFlavorChange` */
  function HandleConfirmFlavorChange(e: Editor): (r: Editor)
    ensures r.ui == INITIAL_UI
    ensures r.store.form.content == ""
    ensures r.store.form.flavor == e.ui.pendingFlavor
  {
    var cleared := SetContent(e.store, "");
    Editor(SetFlavor(cleared, e.ui.pendingFlavor), e.ui.(showConfirmModal := false, pendingFlavor := None))
  }

  /** `handleCancelFlavorChange` */
  function HandleCancelFlavorChange(e: Editor): (r: Editor)
    ensures r.store == e.store
    ensures r.ui == INITIAL_UI
  {
    e.(ui := e.ui.(showConfirmModal := false, pendingFlavor := None))
  }

  /** A change that needs confirmation only opens the dialog; any other
      change applies the flavor at once and leaves the dialog alone. */
  lemma FlavorChangeRule(e: Editor, newFlavor: Option<string>)
    ensures AsksConfirmation(e.store.form, newFlavor) ==>
      var r := HandleFlavorChange(e, newFlavor);
      r.store == e.store && r.ui == Ui(true, newFlavor)
    ensures !AsksConfirmation(e.store.form, newFlavor) ==>
      var r := HandleFlavorChange(e, newFlavor);
      && r.ui == e.ui
      && r.store.form.flavor == newFlavor
      && Differ(e.store.form, r.store.form) <= {FlavorField}
  {
  }

  /** Confirming a change that asked for it clears the content and applies
      the flavor; cancelling it leaves the form exactly as it was. Either
      way the dialog closes with nothing pending. */
  lemma ConfirmOrCancel(e: Editor, newFlavor: Option<string>)
    requires AsksConfirmation(e.store.form, newFlavor)
    ensures var r := HandleConfirmFlavorChange(HandleFlavorChange(e, newFlavor));
      && r.store == e.store.(form := e.store.form.(flavor := newFlavor, content := ""))
      && r.ui == INITIAL_UI
    ensures HandleCancelFlavorChange(HandleFlavorChange(e, newFlavor)) == Editor(e.store, INITIAL_UI)
  {
  }

  // ---------------------------------------------------------------------------
  // handleSaveSnippet
  // ---------------------------------------------------------------------------

  /** The JSON body the client sends. `language` is None when the key is
      left out; `flavor` is None when it is `null`. */
  datatype Payload = Payload(
    name: string,
    content: string,
    flavor: Option<string>,
    exposure: string,
    password: string,
    language: Option<string>)

  /** What a save does: nothing, a create request, or an update request
      for the snippet with the given `uniqueId`. */
  datatype SaveRequest = NoRequest | CreateRequest(payload: Payload) | UpdateRequest(uniqueId: string, payload: Payload)

  /** The panel is editing a stored snippet: the current snippet has a
      truthy `uniqueId`. Every snippet the server stores has one, so a
      loaded snippet is saved by update and a fresh form by create. */
  predicate IsUpdating(st: State)
    ensures st.currentSnippet.None? ==> !IsUpdating(st)
    ensures st.currentSnippet.Some? && Valid(st.currentSnippet.value) ==> IsUpdating(st)
  {
    st.currentSnippet.Some? && st.currentSnippet.value.uniqueId != ""
  }

  /** The body `handleSaveSnippet` builds from the form. */
  function SavePayload(form: Form): (p: Payload)
    ensures p.password == (if form.exposure == UNLISTED then form.password else "")
    ensures p.language.Some? <==> form.flavor == Some(CODE)
    ensures p.language.Some? ==> p.language.value == form.language
    ensures p.name == form.name && p.content == form.content
    ensures p.flavor == form.flavor && p.exposure == form.exposure
  {
    Payload(
      form.name,
      form.content,
      form.flavor,
      form.exposure,
      if form.exposure == UNLISTED then form.password else "",
      if form.flavor == Some(CODE) then Some(form.language) else None)
  }

  /** `handleSaveSnippet`: nothing for blank content, otherwise an update
      when editing a stored snippet and a create when not. */
  function HandleSaveSnippet(st: State): (r: SaveRequest)
    ensures r.NoRequest? <==> Trim(st.form.content) == ""
    ensures r.UpdateRequest? <==> Trim(st.form.content) != "" && IsUpdating(st)
    ensures r.UpdateRequest? ==> r.uniqueId == st.currentSnippet.value.uniqueId
    ensures !r.NoRequest? ==> r.payload == SavePayload(st.form)
  {
    if Trim(st.form.content) == "" then NoRequest
    else if IsUpdating(st) then UpdateRequest(st.currentSnippet.value.uniqueId, SavePayload(st.form))
    else CreateRequest(SavePayload(st.form))
  }

  /** The request body as the server's handlers receive it. */
  function ToBody(p: Payload): (b: Body)
    ensures b.password == Str(p.password)
    ensures b.exposure == Str(p.exposure)
    ensures b.flavor.Null? <==> p.flavor.None?
    ensures b.language.Undefined? <==> p.language.None?
  {
    Body(Str(p.name), Str(p.content), FieldOfNullable(p.flavor), Str(p.exposure), Str(p.password), FieldOfOptional(p.language))
  }
}
