/** How the editor's save request meets `updateSnippet`: the client always
    sends a password string, so on the server the stored hash is never kept
    by a save from the editor. */
module SaveFlow {
  import opened JsValues
  import opened JsStrings
  import opened PasswordHash
  import opened SnippetModel
  import opened SnippetController
  import opened ClientStore
  import opened Aside

  /** The hash a save from the editor leaves on the snippet: the hash of the
      form's password when the form says unlisted and the password is not
      blank, and no password otherwise. */
  lemma EditorSaveSetsHash(db: Db, user: UserId, st: State, h: Hasher)
    requires HandleSaveSnippet(st).UpdateRequest?
    ensures var req := HandleSaveSnippet(st);
      var r := UpdateSnippet(db, req.uniqueId, user, ToBody(req.payload), h);
      r.1.Updated? ==>
        r.1.snippet.password ==
          if st.form.exposure == UNLISTED && !AllWhitespace(st.form.password)
          then h.hash(st.form.password) else NO_PASSWORD
  {
    var req := HandleSaveSnippet(st);
    UpdatePasswordRule(db, req.uniqueId, user, ToBody(req.payload), h, Undefined);
  }

  /** Switching a password-protected unlisted snippet to public in the
      editor and saving clears its hash, whatever the password field holds. */
  lemma EditorUnlistedToPublicClears(db: Db, st: State, user: UserId, h: Hasher)
    requires HandleSaveSnippet(st).UpdateRequest?
    requires st.form.exposure == PUBLIC
    ensures var req := HandleSaveSnippet(st);
      var r := UpdateSnippet(db, req.uniqueId, user, ToBody(req.payload), h);
      r.1.Updated? ==> r.1.snippet.password == NO_PASSWORD && r.1.snippet.exposure == PUBLIC
  {
    var req := HandleSaveSnippet(st);
    var body := ToBody(req.payload);
    var r := UpdateSnippet(db, req.uniqueId, user, body, h);
    if r.1.Updated? {
      assert body.password == Str("");
      assert r.1.snippet == Merge(db[req.uniqueId], body, NO_PASSWORD);
    }
  }

  /** The body a save sends for a snippet just loaded into the form. */
  function ReloadBody(s: Snippet): Body {
    Body(Str(s.name), Str(s.content), Str(s.flavor), Str(s.exposure), Str(""),
         if s.flavor == CODE then Str(s.language.GetOr("")) else Undefined)
  }

  /** Saving a freshly loaded, valid, unlisted snippet with non-blank
      content sends an update carrying `ReloadBody`. */
  lemma LoadedSaveRequest(s: Snippet, st0: State)
    requires Valid(s) && s.exposure == UNLISTED && !AllWhitespace(s.content)
    ensures var st := SetCurrentSnippet(st0, Some(s));
      && HandleSaveSnippet(st) == UpdateRequest(s.uniqueId, SavePayload(st.form))
      && ToBody(SavePayload(st.form)) == ReloadBody(s)
  {
    var st := SetCurrentSnippet(st0, Some(s));
    var language := if s.language.Some? && s.language.value != "" then s.language.value else DEFAULT_LANGUAGE;
    assert st.form == Form(Some(s.flavor), s.name, s.exposure, "", s.content, language);
    assert Trim(st.form.content) != "";
    assert IsUpdating(st);
    var p := SavePayload(st.form);
    assert p.password == "";
    assert FieldOfOptional(p.language) == ReloadBody(s).language;
  }

  /** The update `ReloadBody` performs on the stored snippet. */
  lemma ReloadUpdate(db: Db, id: string, h: Hasher)
    requires DbInvariant(db) && id in db
    ensures var s := db[id];
      var expected := s.(password := NO_PASSWORD, language := if s.flavor == CODE then s.language else None);
      UpdateSnippet(db, id, s.author, ReloadBody(s), h) == (db[id := expected], Updated(expected))
  {
    var s := db[id];
    assert Valid(s) && s.uniqueId == id;
    var body := ReloadBody(s);
    var expected := s.(password := NO_PASSWORD, language := if s.flavor == CODE then s.language else None);
    TrimOfTrimmed(s.name);
    assert Or(body.name, s.name) == s.name;
    assert Or(body.content, s.content) == s.content;
    assert Or(body.flavor, s.flavor) == s.flavor;
    assert Or(body.exposure, s.exposure) == s.exposure;
    if s.flavor == CODE {
      TrimOfTrimmed(s.language.value);
      assert UpdateLanguage(s.language, body.flavor, body.language) == s.language;
    } else {
      assert UpdateLanguage(s.language, body.flavor, body.language) == None;
    }
    assert UpdateHash(s.password, body.password, h) == Some(NO_PASSWORD);
    assert Merge(s, body, NO_PASSWORD) == expected;
    assert Valid(expected);
  }

  /** Loading a password-protected unlisted snippet into the editor and
      saving it untouched removes its password: the form's password is
      blanked on load and sent as "", which the server reads as "clear".
      Every other field is stored as it was, except a language left over on
      a non-Code snippet, which the non-Code flavor in the request unsets. */
  lemma LoadThenSaveClearsPassword(db: Db, id: string, st0: State, h: Hasher)
    requires DbInvariant(db) && id in db
    requires Locked(db[id])
    requires !AllWhitespace(db[id].content)
    ensures var s := db[id];
      var st := SetCurrentSnippet(st0, Some(s));
      var expected := s.(password := NO_PASSWORD, language := if s.flavor == CODE then s.language else None);
      && HandleSaveSnippet(st) == UpdateRequest(id, SavePayload(st.form))
      && UpdateSnippet(db, id, s.author, ToBody(SavePayload(st.form)), h) == (db[id := expected], Updated(expected))
  {
    LoadedSaveRequest(db[id], st0);
    ReloadUpdate(db, id, h);
  }
}
