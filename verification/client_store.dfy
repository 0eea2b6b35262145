/** The client's snippet store (client/src/store/snippet.store.js): the editor
    form's fields and defaults, their setters, `resetForm` and
    `setCurrentSnippet`. The asynchronous actions that call the server are
    not part of this model. */
module ClientStore {
  import opened JsValues
  import opened SnippetModel

  const DEFAULT_LANGUAGE := "javascript"
  /** Form names are "Snippet-" followed by the current time in milliseconds. */
  const NAME_PREFIX := "Snippet-"

  /** The editor form. `flavor` is None once it has been set to `null`. */
  datatype Form = Form(
    flavor: Option<string>,
    name: string,
    exposure: string,
    password: string,
    content: string,
    language: string)

  /** The part of the store the modelled logic reads and writes. The
      snippets are as the server sent them. */
  datatype State = State(currentSnippet: Option<Snippet>, form: Form, userSnippets: seq<Snippet>)

  /** The names of the form's fields. */
  datatype FormField = FlavorField | NameField | ExposureField | PasswordField | ContentField | LanguageField

  /** The fields on which two forms differ. */
  function Differ(f: Form, g: Form): (d: set<FormField>)
    ensures d == {} <==> f == g
  {
    (if f.flavor != g.flavor then {FlavorField} else {})
    + (if f.name != g.name then {NameField} else {})
    + (if f.exposure != g.exposure then {ExposureField} else {})
    + (if f.password != g.password then {PasswordField} else {})
    + (if f.content != g.content then {ContentField} else {})
    + (if f.language != g.language then {LanguageField} else {})
  }

  /** The form of a fresh store and of `resetForm`, `stamp` standing for
      the `Date.now()` digits in the name. */
  function DefaultForm(stamp: string): Form {
    Form(Some(PLAIN), NAME_PREFIX + stamp, PUBLIC, "", "", DEFAULT_LANGUAGE)
  }

  /** The store when the page loads. */
  function Initial(stamp: string): State {
    State(None, DefaultForm(stamp), [])
  }

  function SetFlavor(st: State, flavor: Option<string>): State {
    st.(form := st.form.(flavor := flavor))
  }

  function SetName(st: State, name: string): State {
    st.(form := st.form.(name := name))
  }

  function SetExposure(st: State, exposure: string): State {
    st.(form := st.form.(exposure := exposure))
  }

  function SetPassword(st: State, password: string): State {
    st.(form := st.form.(password := password))
  }

  function SetContent(st: State, content: string): State {
    st.(form := st.form.(content := content))
  }

  function SetLanguage(st: State, language: string): State {
    st.(form := st.form.(language := language))
  }

  /** Each setter stores its value in its own field, leaves every other
      field of the form as it was, and touches nothing outside the form. */
  lemma SettersTouchOnlyTheirField(st: State, f: Option<string>, v: string)
    ensures SetFlavor(st, f).form.flavor == f && Differ(st.form, SetFlavor(st, f).form) <= {FlavorField}
    ensures SetName(st, v).form.name == v && Differ(st.form, SetName(st, v).form) <= {NameField}
    ensures SetExposure(st, v).form.exposure == v && Differ(st.form, SetExposure(st, v).form) <= {ExposureField}
    ensures SetPassword(st, v).form.password == v && Differ(st.form, SetPassword(st, v).form) <= {PasswordField}
    ensures SetContent(st, v).form.content == v && Differ(st.form, SetContent(st, v).form) <= {ContentField}
    ensures SetLanguage(st, v).form.language == v && Differ(st.form, SetLanguage(st, v).form) <= {LanguageField}
    ensures SetName(st, v).(form := st.form) == st && SetFlavor(st, f).(form := st.form) == st
  {
  }

  /** `resetForm`: every form field back to its default; the current
      snippet and the snippet list are kept. */
  function ResetForm(st: State, stamp: string): (r: State)
    ensures r.form == Initial(stamp).form
    ensures r.form.flavor == Some(PLAIN) && r.form.exposure == PUBLIC && r.form.password == ""
    ensures r.form.content == "" && r.form.language == DEFAULT_LANGUAGE
    ensures r.currentSnippet == st.currentSnippet && r.userSnippets == st.userSnippets
  {
    st.(form := DefaultForm(stamp))
  }

  /** `setCurrentSnippet`: with a snippet, load it into the form, blanking
      the password and falling back to "javascript" for a missing or empty
      language; with `null`, only the current snippet is cleared. */
  function SetCurrentSnippet(st: State, snippet: Option<Snippet>): (r: State)
    ensures r.currentSnippet == snippet && r.userSnippets == st.userSnippets
    ensures snippet.None? ==> r.form == st.form
    ensures snippet.Some? ==>
      && r.form.name == snippet.value.name
      && r.form.content == snippet.value.content
      && r.form.flavor == Some(snippet.value.flavor)
      && r.form.exposure == snippet.value.exposure
      && r.form.password == ""
      && (r.form.language == DEFAULT_LANGUAGE <==>
            snippet.value.language.GetOr("") in {"", DEFAULT_LANGUAGE})
      && (r.form.language != DEFAULT_LANGUAGE ==> Some(r.form.language) == snippet.value.language)
  {
    match snippet
    case None => st.(currentSnippet := None)
    case Some(s) =>
      var language := if s.language.Some? && s.language.value != "" then s.language.value else DEFAULT_LANGUAGE;
      st.(currentSnippet := snippet,
          form := Form(Some(s.flavor), s.name, s.exposure, "", s.content, language))
  }

  /** Resetting twice is resetting once, and a reset forgets every setter
      applied before it. */
  lemma ResetForgetsEdits(st: State, stamp: string, v: string)
    ensures ResetForm(ResetForm(st, stamp), stamp) == ResetForm(st, stamp)
    ensures ResetForm(SetPassword(SetContent(st, v), v), stamp) == ResetForm(st, stamp)
  {
  }
}
