# snipit: snippet access and credential policy, in Dafny

snipit is a snippet-sharing web application. A signed-in user writes a
snippet in one of three flavors ("Plain", "Code", "Rich Text"). They give it
an exposure: "public", "unlisted" or "private". An unlisted snippet may carry
a password, stored as a bcrypt hash.

This project models the server's part:

- who may read a snippet (`getSnippet`);
- how create, update and delete change the collection and the stored hash;
- the schema rules every stored document obeys;
- the `requireAuth` bearer-token gate.

It also models the client logic that feeds the server:

- the editor panel's flavor-change confirmation and its save request;
- the form store's fields, setters, `resetForm` and `setCurrentSnippet`;
- the navigation panel's name search and its "create new" handler;
- the code block's language parsing and language picker.

Every handler is a pure function. A write handler maps the collection (a map
from `uniqueId` to document) and the request to the collection afterwards
and the response. The password hash is a `Hasher` parameter, a pair of
functions. The lemmas that need the hash to behave assume only that it is
`Sound`: a plaintext verifies against its own hash, and no hash is the empty
string. `PasswordHash.Reference` is a concrete hasher showing that `Sound`
can be met.

The JavaScript built-ins the code branches on are written out by hand.
Truthiness of a request or form value is `Field.Truthy` in `JsValues`.
`JsStrings` holds the string built-ins:

- `trim`, over the ECMAScript whitespace set;
- `startsWith` and `replace` with a string pattern;
- `toLowerCase`, on the ASCII letters only;
- `includes`;
- `split(" ")`;
- the default `sort` order, comparing code points rather than UTF-16 code
  units.

The `toLowerCase` and `sort` entries are approximations; "## Left out" says what they miss.

Behaviours of the code that a reader might not expect, one of them at odds
with the editor's own UI text:

- A whitespace-only password on read is not treated as absent. It is truthy,
  so it is handed to the comparison (`WhitespacePasswordIsCompared`).
- A stored exposure outside the three values is not refused by `getSnippet`:
  it falls through to a grant (`UnknownExposureFallsThrough`). Only the
  schema enum keeps such documents out (`StoredExposureKnown`).
- Changing the exposure on update never clears the hash by itself
  (`ExposureChangeKeepsHash`). The hash is cleared only because the client
  sends `""` for any exposure but unlisted (`EditorUnlistedToPublicClears`).
- When an existing snippet is edited, the password field reads "Leave empty
  to keep existing password". But the loaded form's password is blank, and
  the client sends it as `""`. The server reads `""` as "clear". So saving a
  protected snippet without retyping its password removes the password
  (`LoadThenSaveClearsPassword`).
- `getSnippet` sends the document as stored, hash included, to anyone it
  grants access to. `Granted` carries the whole `Snippet`, `password` field
  and all.

## Model

| member | source | states |
|---|---|---|
| JsValues.FieldOfNullable | client/src/components/Aside/Aside.jsx:141 | a nullable form value reaches the server as `null` or as the same string, never as a missing key |
| JsValues.FieldOfOptional | client/src/components/Aside/Aside.jsx:146-148 | an optional key reaches the server as missing or as the same string, never as `null` |
| JsStrings.Trim | server/src/apps/snippets/snippet.controller.js:143 | the result has no whitespace at either end, and is empty exactly when the input is all whitespace |
| JsStrings.TrimIsInfix | server/src/apps/snippets/snippet.controller.js:143 | the result is a contiguous part of the input with only whitespace before and after it |
| JsStrings.TrimIdempotent | server/src/apps/snippets/snippet.model.js:8 | trimming an already-trimmed value (the setter runs on every assignment) changes nothing |
| JsStrings.TrimOfTrimmed | server/src/apps/snippets/snippet.model.js:24 | a value with no whitespace at either end is its own trim |
| JsStrings.ReplaceFirst | client/src/pages/MainPage/components/Editor/CustomCodeBlockLowlight.jsx:77 | for a class name that starts with the prefix, removing the first occurrence removes exactly that leading prefix; a name without the prefix is unchanged |
| JsStrings.ToLower | client/src/components/Navbar/Navbar.jsx:24 | lower-casing keeps the length and maps each character on its own, A-Z to a-z |
| JsStrings.SearchIncludes | client/src/components/Navbar/Navbar.jsx:24 | a scan of every start position answers true exactly when the term occurs somewhere in the name |
| JsStrings.IncludesEmpty | client/src/components/Navbar/Navbar.jsx:24 | every name includes the empty search term |
| JsStrings.Split | server/src/middlewares/requireAuth.js:14 | splitting on a space gives at least one piece and no piece contains a space |
| JsStrings.JoinSplit | server/src/middlewares/requireAuth.js:14 | joining the pieces of a split gives the header back, so no character is lost |
| JsStrings.SplitJoin | server/src/middlewares/requireAuth.js:14 | splitting a join of space-free pieces gives the same pieces back |
| JsStrings.SplitAfterWord | server/src/middlewares/requireAuth.js:14 | splitting "Bearer " plus a rest yields "Bearer" followed by the pieces of the rest |
| JsStrings.SplitWord | server/src/middlewares/requireAuth.js:14 | a space-free string splits into itself alone |
| JsStrings.FirstPiece | server/src/middlewares/requireAuth.js:14 | the first piece of a token followed by nothing or by a space is the token |
| JsStrings.SplitHead | server/src/middlewares/requireAuth.js:14 | the first piece of a split is a prefix of the string, followed by a space or by the end |
| JsStrings.LessEqTotal | client/src/pages/MainPage/components/Editor/CustomCodeBlockLowlight.jsx:17 | any two language names are ordered one way or the other by the default sort order |
| JsStrings.LessEqTransitive | client/src/pages/MainPage/components/Editor/CustomCodeBlockLowlight.jsx:17 | the default sort order is transitive |
| JsStrings.Insert | client/src/pages/MainPage/components/Editor/CustomCodeBlockLowlight.jsx:17 | inserting into a sorted list keeps it sorted and adds exactly that one element |
| JsStrings.SortStrings | client/src/pages/MainPage/components/Editor/CustomCodeBlockLowlight.jsx:15-17 | the sorted language list is in order and is a permutation of the input |
| PasswordHash.ReferenceIsSound | server/src/apps/snippets/snippet.controller.js:93 | some hasher meets the soundness assumption: it verifies its own hashes and never yields "" |
| SnippetModel.ValidMeansSchema | server/src/apps/snippets/snippet.model.js:3-48 | a valid document has a flavor and an exposure from the enums, a language when it is Code, a non-empty trimmed name, content, author and id |
| SnippetModel.Valid | server/src/apps/snippets/snippet.model.js:3-48 | a valid document is left unchanged by the name and language trim setters |
| SnippetModel.LanguageAllowedOffCode | server/src/apps/snippets/snippet.model.js:19-25 | the schema lets a non-Code snippet hold any trimmed language, or none |
| SnippetModel.UniqueIds | server/src/apps/snippets/snippet.model.js:41-45 | in a well-formed collection no two stored snippets share a uniqueId |
| SnippetController.AuthorFlag | server/src/apps/snippets/snippet.controller.js:73 | isAuthor is undefined without a user and true exactly for the author |
| SnippetController.MayRead | server/src/apps/snippets/snippet.controller.js:72-106 | the author may always read; a non-author may never read a private snippet, nor a protected unlisted one without a password |
| SnippetController.Access | server/src/apps/snippets/snippet.controller.js:72-106 | a found snippet is returned exactly when the independent read policy allows it, with the isAuthor flag; otherwise one of the refusals |
| SnippetController.GetSnippet | server/src/apps/snippets/snippet.controller.js:55-106 | not found exactly when no snippet has the id; a grant returns the stored snippet |
| SnippetController.ReadMissing | server/src/apps/snippets/snippet.controller.js:65-70 | a missing id gives 404 whoever asks and whatever password is sent |
| SnippetController.AuthorOverride | server/src/apps/snippets/snippet.controller.js:73-106 | the author reads the snippet with isAuthor true whatever its exposure, stored hash or supplied password |
| SnippetController.PrivateDeniesOthers | server/src/apps/snippets/snippet.controller.js:76-81 | a private snippet is refused with 403 to any non-author, anonymous included |
| SnippetController.LockedOutcomes | server/src/apps/snippets/snippet.controller.js:84-100 | for a non-author and an unlisted snippet with a hash: a falsy password gives 401 with requiresPassword, a failing comparison gives 401 invalid, a passing one grants |
| SnippetController.WhitespacePasswordIsCompared | server/src/apps/snippets/snippet.controller.js:85 | a whitespace-only password is not treated as missing; the comparison alone decides |
| SnippetController.CorrectPasswordOpens | server/src/apps/snippets/snippet.controller.js:93-99 | the password a snippet was protected with opens it for anyone |
| SnippetController.OpenAccess | server/src/apps/snippets/snippet.controller.js:84-106 | public snippets and unlisted ones without a hash are returned unchanged to anyone; a non-author never gets isAuthor true |
| SnippetController.UnknownExposureFallsThrough | server/src/apps/snippets/snippet.controller.js:76-106 | an exposure outside the three values is granted, since no branch refuses it |
| SnippetController.StoredExposureKnown | server/src/apps/snippets/snippet.model.js:26-31 | a stored snippet's exposure is always one of the three values |
| SnippetController.Given | server/src/apps/snippets/snippet.model.js:7 | a string field is stored as sent; a missing or null one becomes a value `required` rejects |
| SnippetController.StoreKeepsInvariant | server/src/apps/snippets/snippet.model.js:41-45 | filing a valid document under its own id keeps every stored document valid and under its own id |
| SnippetController.CreateHash | server/src/apps/snippets/snippet.controller.js:14-18 | the hash is that of the password as sent when it has a non-whitespace character, and "" when it is missing, null or blank |
| SnippetController.NewDocument | server/src/apps/snippets/snippet.controller.js:20-34 | the document carries the author and the fresh id, trimmed name and language, a language only for Code, public for an undefined exposure, a missing value for a null one, and (for a sound hash) no hash exactly when the password is absent or blank |
| SnippetController.CreateSnippet | server/src/apps/snippets/snippet.controller.js:6-52 | create stores exactly the document built from the body under the fresh id, and succeeds exactly when that document is valid and the id is free; otherwise it fails with 500 and leaves the collection unchanged |
| SnippetController.CreatePasswordRule | server/src/apps/snippets/snippet.controller.js:14-18 | the stored hash is "" exactly when the password is absent or blank, and otherwise the hash of the password as sent; the exposure plays no part |
| SnippetController.CreateLanguageRule | server/src/apps/snippets/snippet.controller.js:30-32 | a language is stored exactly when the flavor is Code and the language is truthy |
| SnippetController.CreateCodeNeedsLanguage | server/src/apps/snippets/snippet.model.js:19-23 | a Code snippet without a non-blank language is rejected with 500 and nothing is stored |
| SnippetController.CreateExposureDefault | server/src/apps/snippets/snippet.model.js:26-31 | an undefined exposure is stored as public |
| SnippetController.CreateNullExposureFails | server/src/apps/snippets/snippet.model.js:26-31 | a null exposure is not defaulted: the document fails validation with 500 and nothing is stored |
| SnippetController.CreateKeepsInvariant | server/src/apps/snippets/snippet.controller.js:34-36 | after a create every stored document is still valid and filed under its own id |
| SnippetController.CreateSucceeds | server/src/apps/snippets/snippet.controller.js:20-43 | a well-formed body with a fresh id is stored under that id and answered with 201; the document is the one built from the body, by the author, name trimmed, content and flavor as sent, exposure as sent or public when undefined |
| SnippetController.UpdateHash | server/src/apps/snippets/snippet.controller.js:140-148 | an undefined password keeps the stored hash, a blank one clears it, any other is hashed as sent, and only a null one makes the handler fail |
| SnippetController.UpdateLanguage | server/src/apps/snippets/snippet.controller.js:156-160 | no truthy flavor leaves the language alone, a truthy non-Code flavor clears it, and a new language comes only from Code with a truthy language, trimmed; Code with a non-blank language always sets one |
| SnippetController.Merge | server/src/apps/snippets/snippet.controller.js:150-154 | the merge keeps author and id, installs the new hash, trims the name, takes each other field from the body or the stored document, and never empties a present field |
| SnippetController.UpdateSnippet | server/src/apps/snippets/snippet.controller.js:118-178 | 404 exactly for a missing id, 403 exactly for a non-author; the author's update succeeds exactly when the password is not null and the merged document is valid, and then stores that merge under the id; on failure nothing changes |
| SnippetController.UpdateKeepsInvariant | server/src/apps/snippets/snippet.controller.js:150-162 | after an update every stored document is still valid and filed under its own id |
| SnippetController.UpdatePasswordRule | server/src/apps/snippets/snippet.controller.js:140-154 | an undefined password keeps the hash, a blank one clears it, any other rehashes it, a null one fails with 500; the exposure sent is not an input of the hash computation |
| SnippetController.ExposureChangeKeepsHash | server/src/apps/snippets/snippet.controller.js:141-154 | making a protected unlisted snippet public without sending a password keeps its hash |
| SnippetController.UpdateMergeRule | server/src/apps/snippets/snippet.controller.js:150-153 | name, content, flavor and exposure take the value sent when it is truthy and keep the stored one otherwise |
| SnippetController.UpdateLanguageRule | server/src/apps/snippets/snippet.controller.js:156-160 | the language is set for Code with a truthy language, cleared by any other truthy flavor, otherwise kept |
| SnippetController.UpdateToCodeNeedsLanguage | server/src/apps/snippets/snippet.model.js:19-23 | switching a snippet without a language to Code without sending one fails with 500 and stores nothing |
| SnippetController.DeleteSnippet | server/src/apps/snippets/snippet.controller.js:235-270 | delete removes exactly the named snippet, and succeeds exactly when it exists and the user is its author; every other snippet is kept |
| SnippetController.DeleteKeepsInvariant | server/src/apps/snippets/snippet.controller.js:256 | after a delete every stored document is still valid and filed under its own id |
| SnippetController.NotFoundFirst | server/src/apps/snippets/snippet.controller.js:125-130 | a missing id gives 404 on read, update and delete before any author check or body rule |
| SnippetController.OnlyAuthorWrites | server/src/apps/snippets/snippet.controller.js:133-138 | update and delete by a non-author answer 403 and change nothing |
| SnippetController.UpdateIsLocal | server/src/apps/snippets/snippet.controller.js:162 | an update leaves every other snippet as it was |
| SnippetController.DeleteIsLocal | server/src/apps/snippets/snippet.controller.js:256 | a delete leaves every other snippet as it was |
| SnippetController.CreateIsLocal | server/src/apps/snippets/snippet.controller.js:36 | a create leaves every other snippet as it was |
| RequireAuth.BearerTokenIsSecondField | server/src/middlewares/requireAuth.js:14 | the token checked is the text after "Bearer " up to the next space or the end |
| RequireAuth.BearerToken | server/src/middlewares/requireAuth.js:14 | the token taken from a Bearer header holds no space, starts right after "Bearer ", and is followed by a space or the end |
| RequireAuth.Authenticate | server/src/middlewares/requireAuth.js:4-49 | next is called exactly when the header has the Bearer prefix, the token decodes and the user is found, with that user attached; every refusal is 401, or 500 for a lookup fault |
| RequireAuth.MissingBearerRejected | server/src/middlewares/requireAuth.js:6-11 | a missing header or one without the prefix gets 401 before the verifier or the lookup is consulted |
| RequireAuth.TokenFailures | server/src/middlewares/requireAuth.js:17-29 | an expired token gets 401 with code TOKEN_EXPIRED, any other rejected token 401 invalid, and the lookup is not consulted |
| RequireAuth.LookupFailures | server/src/middlewares/requireAuth.js:31-48 | for a valid token, a missing user gets 401 and a failed lookup 500 |
| RequireAuth.ValidTokenPasses | server/src/middlewares/requireAuth.js:40-42 | a well-formed header whose token names an existing user passes with that user attached |
| SnippetRoutes.PublicView | server/src/apps/snippets/snippet.routes.js:16 | the public-view route never reports isAuthor, and answers 404 exactly for a missing id |
| SnippetRoutes.View | server/src/apps/snippets/snippet.routes.js:23 | the view route is refused exactly when the gate refuses, and a grant there always carries an isAuthor flag |
| SnippetRoutes.Create | server/src/apps/snippets/snippet.routes.js:19 | create is refused exactly when the gate refuses, a refusal stores nothing, and a created snippet belongs to the authenticated user |
| SnippetRoutes.Update | server/src/apps/snippets/snippet.routes.js:21 | update is refused exactly when the gate refuses; the collection changes only by the authenticated author's update of that snippet |
| SnippetRoutes.Delete | server/src/apps/snippets/snippet.routes.js:22 | delete is refused exactly when the gate refuses; the collection changes only by the authenticated author's removal of that snippet |
| SnippetRoutes.AuthorViewsOwnPrivate | server/src/apps/snippets/snippet.routes.js:16-23 | the author reads their private snippet on the view route, while the public-view route refuses it |
| SnippetRoutes.RefusedWritesChangeNothing | server/src/apps/snippets/snippet.routes.js:19-22 | without a valid bearer token no write route changes the collection |
| ClientStore.Differ | client/src/store/snippet.store.js:26-31 | the set of differing form fields is empty exactly when the forms are equal |
| ClientStore.SettersTouchOnlyTheirField | client/src/store/snippet.store.js:26-31 | each setter stores its value in its own field and changes no other field |
| ClientStore.ResetForm | client/src/store/snippet.store.js:33-41 | reset gives the initial form, Plain, public, blank password and content, javascript, and keeps the current snippet and the list |
| ClientStore.SetCurrentSnippet | client/src/store/snippet.store.js:123-137 | loading copies name, content, flavor and exposure, blanks the password, and takes the language or "javascript"; null changes only the current snippet |
| ClientStore.ResetForgetsEdits | client/src/store/snippet.store.js:33-41 | resetting twice is resetting once, and a reset forgets earlier edits |
| Aside.HandleFlavorChange | client/src/components/Aside/Aside.jsx:44-51 | a flavor change keeps the content and leaves the flavor either as it was or as chosen |
| Aside.HandleConfirmFlavorChange | client/src/components/Aside/Aside.jsx:53-58 | confirming clears the content, applies the pending flavor, closes the dialog and clears the pending flavor |
| Aside.HandleCancelFlavorChange | client/src/components/Aside/Aside.jsx:60-63 | cancelling leaves the store unchanged, closes the dialog and clears the pending flavor |
| Aside.FlavorChangeRule | client/src/components/Aside/Aside.jsx:44-51 | with non-blank content and a different flavor only the dialog opens; otherwise the flavor is applied and nothing else changes |
| Aside.ConfirmOrCancel | client/src/components/Aside/Aside.jsx:44-63 | after a change that asked for it, confirm clears the content and applies the flavor, and cancel restores the exact prior state |
| Aside.SavePayload | client/src/components/Aside/Aside.jsx:138-148 | the payload password is the form's only for unlisted, otherwise ""; the language is sent exactly for Code; the other fields are the form's |
| Aside.IsUpdating | client/src/components/Aside/Aside.jsx:150 | with no current snippet a save creates; a current snippet as the server stores it, which always has an id, is saved by update |
| Aside.HandleSaveSnippet | client/src/components/Aside/Aside.jsx:128-157 | no request exactly for blank content; an update of the current snippet exactly when it has a uniqueId, otherwise a create, with the payload |
| Aside.ToBody | client/src/components/Aside/Aside.jsx:138-144 | the password and exposure always reach the server as strings; a null flavor arrives as `null` and an omitted language as a missing key |
| SaveFlow.EditorSaveSetsHash | client/src/components/Aside/Aside.jsx:143 | a save from the editor leaves the hash of the form password when unlisted and non-blank, and no password otherwise; it never keeps the old hash |
| SaveFlow.EditorUnlistedToPublicClears | client/src/components/Aside/Aside.jsx:143 | switching a snippet to public in the editor and saving clears its hash |
| SaveFlow.LoadedSaveRequest | client/src/store/snippet.store.js:123-133 | saving a freshly loaded unlisted snippet sends an update whose body carries a blank password and the stored fields |
| SaveFlow.ReloadUpdate | server/src/apps/snippets/snippet.controller.js:140-162 | that update stores the snippet unchanged except for a cleared hash and, off Code, a cleared language |
| SaveFlow.LoadThenSaveClearsPassword | client/src/components/Aside/Aside.jsx:205-212 | loading a protected snippet and saving it untouched removes its password, despite the form's "leave empty to keep" text |
| Navbar.FilterUserSnippets | client/src/components/Navbar/Navbar.jsx:23-25 | the result holds exactly the snippets whose lower-cased name includes the lower-cased term |
| Navbar.FilterKeepsMultiplicity | client/src/components/Navbar/Navbar.jsx:23-25 | each matching snippet appears in the result as many times as in the list, every other one not at all |
| Navbar.FilterIsSubsequence | client/src/components/Navbar/Navbar.jsx:23 | the filtered list keeps the snippets in their original order |
| Navbar.SubsequenceOfTail | client/src/components/Navbar/Navbar.jsx:23 | a subsequence of the tail is a subsequence of the whole list |
| Navbar.EmptyTermKeepsAll | client/src/components/Navbar/Navbar.jsx:23-25 | an empty term keeps every snippet, in order |
| Navbar.FilterIgnoresCase | client/src/components/Navbar/Navbar.jsx:24 | terms that agree once lower-cased give the same result |
| Navbar.UserSnippetList | client/src/components/Navbar/Navbar.jsx:79-99 | a message is shown exactly when nothing matches: "No snippets found" exactly for a non-empty term, "No snippets yet" exactly for an empty one |
| Navbar.NothingYetMeansEmpty | client/src/components/Navbar/Navbar.jsx:97 | with no term, "No snippets yet" appears exactly when the user has no snippets |
| Navbar.HandleCreateNew | client/src/components/Navbar/Navbar.jsx:32-35 | create-new gives the default form and no current snippet, and keeps the list |
| Navbar.HandleSnippetClick | client/src/components/Navbar/Navbar.jsx:27-30 | clicking a snippet makes it current and loads its name and content with a blank password |
| CodeBlock.LanguageClasses | client/src/pages/MainPage/components/Editor/CustomCodeBlockLowlight.jsx:75-77 | the list is no longer than the class list, is empty exactly when no class has the prefix, and otherwise starts with the first prefixed class minus the prefix |
| CodeBlock.ParseLanguage | client/src/pages/MainPage/components/Editor/CustomCodeBlockLowlight.jsx:72-85 | no child element or no prefixed class gives null; a language, when given, is non-empty and is the first prefixed class minus the prefix |
| CodeBlock.ParseLanguageFirstMatch | client/src/pages/MainPage/components/Editor/CustomCodeBlockLowlight.jsx:72-85 | with a prefixed class, the parsed language is the first prefixed class minus the prefix, or null exactly when that class is the bare prefix; later prefixed classes play no part |
| CodeBlock.LanguageOptions | client/src/pages/MainPage/components/Editor/CustomCodeBlockLowlight.jsx:13-22 | the options are "auto" followed by the available languages, sorted and none lost or added |
| CodeBlock.LanguageAttribute | client/src/pages/MainPage/components/Editor/CustomCodeBlockLowlight.jsx:24-30 | choosing "auto" or deselecting (null) stores null; any other choice is stored unchanged |
| CodeBlock.InitialSelection | client/src/pages/MainPage/components/Editor/CustomCodeBlockLowlight.jsx:10 | the picker opens on "auto" exactly when the attribute is null, empty or "auto", and otherwise on the stored language |
| CodeBlock.ChoiceRoundTrip | client/src/pages/MainPage/components/Editor/CustomCodeBlockLowlight.jsx:10-30 | reopening a block shows the language that was chosen, or "auto" after a deselect |
| CodeBlock.AttributeRoundTrip | client/src/pages/MainPage/components/Editor/CustomCodeBlockLowlight.jsx:10 | a null or ordinary stored language is reproduced by choosing the initial selection |

## Left out

- bcrypt: the salt and cost factor, the 72-byte input limit, and the real comparison. `Hasher` stands in for them, with `Sound` as the only assumption.
- nanoid: the fresh 10-character id is a parameter of `CreateSnippet`; a collision is modelled as the duplicate-key failure (500).
- JWT signing, secrets and expiry (server/src/config/jwt.config.js): `verifyToken` is a parameter returning one of its three results. A valid payload that itself carries an `expired` claim is not modelled.
- The user lookup `User.findById` is a parameter; the user document is reduced to its id.
- Google OAuth, passport, refresh cookies, and the auth controller and routes.
- Mongo persistence, `populate`, indexes, timestamps and the queries of `getUserSnippets` and `getPublicSnippets` (sort, skip, limit on string query parameters).
- A stored snippet whose author no longer exists: `populate` yields null. On the `/view` route `getSnippet` then reads `snippet.author._id` and fails with 500; on `/public-view` there is no user, the `&&` stops before that read, and the snippet is served with a null author. The model always has the author.
- Request bodies whose fields are numbers, booleans, arrays or objects: a `Field` is missing, null or a string.
- Express bootstrap and route mounting beyond the five snippet routes, and the client's axios layer with its token-refresh retry.
- The store's asynchronous actions (create, update, fetch), its loading and error flags, and the public snippet list.
- `handleDeleteSnippet`, `handleCopyLink` and `handleCopyContent` in the editor panel: clipboard, notifications and a `deleteSnippet` action that snippet.store.js does not define.
- The view-only page, React rendering, the editors and the layout components.
- `Date.now()`: the name stamp of a fresh form is a parameter.
- Navigation: `navigate("/")` in `handleSnippetClick` is not modelled.
- JsStrings.ToLower: maps only the ASCII letters; `toLowerCase` also maps other Unicode letters.
- JsStrings.LessEq: compares characters by code point, where JavaScript's default sort compares UTF-16 code units; the two differ only above U+FFFF.
- Aside.HandleFlavorChange: its own contract says only that the content is kept and the flavor is the old or the chosen one; the branch-by-branch rule is `Aside.FlavorChangeRule`.
