/**
 The credential store behind the Add, Search, Edit and Delete buttons.

 The store is the JSON object kept in `data.json`: site name -> record, a record
 being the JSON object `{"email": ..., "password": ...}`. Each handler is a pure
 function of what the read produced (for Save changes, the edit window), the form
 fields and the answers to the confirmation dialogs. Add, Save changes and Delete
 return an `Outcome`, which says whether the whole file is rewritten and with what.
 Search returns a `Found`, and opening the edit window returns an `Opened`.
 */
module CredentialStore {
  import opened Text

  /** One JSON object of the file: field name -> string value. */
  type Record = map<string, string>

  type Store = map<string, Record>

  /** The record every writer puts in the file. */
  function Credential(email: string, password: string): Record {
    map["email" := email, "password" := password]
  }

  /** A written record is non-empty (truthy) and reads back its two fields. */
  lemma CredentialFields(email: string, password: string)
    ensures Credential(email, password) != map[]
    ensures Field(Credential(email, password), "email") == email
    ensures Field(Credential(email, password), "password") == password
  {
    assert "email" in Credential(email, password);
  }

  /** `record.get(name, "")`. */
  function Field(record: Record, name: string): string {
    if name in record then record[name] else ""
  }

  /** What reading `data.json` produced. */
  datatype FileRead =
    | Missing           // FileNotFoundError / os.path.exists is false
    | Corrupt           // json.JSONDecodeError
    | Parsed(data: Store)

  /** `safe_load`: a missing or undecodable file reads as the empty store. */
  function SafeLoad(file: FileRead): (m: Store)
    ensures file.Parsed? ==> m == file.data
    ensures m == map[] <==> !file.Parsed? || file.data == map[]
  {
    match file
    case Parsed(data) => data
    case _ => map[]
  }

  datatype Error =
    | BlankField        // a required field is empty once stripped
    | NotFound          // "Entry not found."

  /** What a mutating handler does to the file. */
  datatype Outcome =
    | Written(store: Store)   // the whole file is rewritten with `store`
    | Rejected(error: Error)  // an error dialog; the file is untouched
    | Declined                // the user answered "no"; the file is untouched

  /** The file as the next handler reads it. */
  function After(file: FileRead, o: Outcome): FileRead {
    if o.Written? then Parsed(o.store) else file
  }

  /** `m2` is `m` with `site` bound to `record` and every other binding kept. */
  ghost predicate SetsOnly(m: Store, m2: Store, site: string, record: Record) {
    && m2.Keys == m.Keys + {site}
    && m2[site] == record
    && forall k :: k in m && k != site ==> m2[k] == m[k]
  }

  /** `m2` is `m` without `site` and with every other binding kept. */
  ghost predicate RemovesOnly(m: Store, m2: Store, site: string) {
    && m2.Keys == m.Keys - {site}
    && forall k :: k in m2 ==> m2[k] == m[k]
  }

  // ---------------------------------------------------------------- save

  /**
   `save`: the Add button. The three fields are stripped; any blank one is an
   error. A missing or undecodable file is replaced by a file holding only the
   new entry. Otherwise an existing site is overwritten only if the user
   confirms, and `data.update` merges the new entry in.
   */
  function Save(file: FileRead, website: string, email: string, password: string,
                confirmOverwrite: bool): (o: Outcome)
    ensures o.Rejected? <==> IsBlank(website) || IsBlank(email) || IsBlank(password)
    ensures o.Rejected? ==> o.error == BlankField
    ensures o.Declined? <==>
              && !(IsBlank(website) || IsBlank(email) || IsBlank(password))
              && file.Parsed? && Strip(website) in file.data && !confirmOverwrite
    ensures o.Written? && !file.Parsed? ==>
              o.store == map[Strip(website) := Credential(Strip(email), Strip(password))]
    ensures o.Written? && file.Parsed? ==>
              SetsOnly(file.data, o.store, Strip(website), Credential(Strip(email), Strip(password)))
  {
    StripEmptyIffBlank(website);
    StripEmptyIffBlank(email);
    StripEmptyIffBlank(password);
    var site := Strip(website);
    var entry := Credential(Strip(email), Strip(password));
    if site == "" || Strip(email) == "" || Strip(password) == "" then
      Rejected(BlankField)
    else
      match file
      case Parsed(data) =>
        if site in data && !confirmOverwrite then Declined
        else Written(data[site := entry])
      case _ => Written(map[site := entry])
  }

  // ---------------------------------------------------------------- edit

  /** The edit window: the snapshot read when it opened and the selected site. */
  datatype Editor = Editor(data: Store, website: string, email: string, password: string)

  datatype Opened =
    | Editing(editor: Editor)
    | Refused(error: Error)

  /**
   `edit_password`: opening the edit window for the (stripped) selection. The
   selection must be non-blank and present in the store; the window's fields
   are prefilled with the record's email and password, "" when absent.
   */
  function OpenEditor(file: FileRead, selection: string): (o: Opened)
    ensures o.Refused? <==> IsBlank(selection) || Strip(selection) !in SafeLoad(file)
    ensures o.Refused? ==> (o.error == BlankField <==> IsBlank(selection))
    ensures o.Editing? ==>
              && o.editor.data == SafeLoad(file)
              && o.editor.website == Strip(selection)
              && o.editor.website in o.editor.data
              && o.editor.email == Field(o.editor.data[o.editor.website], "email")
              && o.editor.password == Field(o.editor.data[o.editor.website], "password")
  {
    StripEmptyIffBlank(selection);
    var site := Strip(selection);
    var data := SafeLoad(file);
    if site == "" then Refused(BlankField)
    else if site !in data then Refused(NotFound)
    else Editing(Editor(data, site, Field(data[site], "email"), Field(data[site], "password")))
  }

  /**
   `save_changes`: the "Save changes" button of the edit window. Both fields are
   stripped and must be non-blank; then the snapshot with only the edited site
   replaced is written.
   */
  function SaveChanges(editor: Editor, email: string, password: string): (o: Outcome)
    ensures !o.Declined?
    ensures o.Rejected? <==> IsBlank(email) || IsBlank(password)
    ensures o.Rejected? ==> o.error == BlankField
    ensures o.Written? ==>
              SetsOnly(editor.data, o.store, editor.website, Credential(Strip(email), Strip(password)))
  {
    StripEmptyIffBlank(email);
    StripEmptyIffBlank(password);
    if Strip(email) == "" || Strip(password) == "" then Rejected(BlankField)
    else Written(editor.data[editor.website := Credential(Strip(email), Strip(password))])
  }

  /** Opening the edit window and saving it with the given field contents. */
  function Edit(file: FileRead, selection: string, email: string, password: string): (o: Outcome)
    ensures !o.Declined?
    ensures o.Rejected? <==>
              IsBlank(selection) || Strip(selection) !in SafeLoad(file) || IsBlank(email) || IsBlank(password)
    ensures o.Rejected? ==> (o.error == NotFound <==> !IsBlank(selection) && Strip(selection) !in SafeLoad(file))
    ensures o.Written? ==>
              && Strip(selection) in SafeLoad(file)
              && o.store.Keys == SafeLoad(file).Keys
              && SetsOnly(SafeLoad(file), o.store, Strip(selection), Credential(Strip(email), Strip(password)))
  {
    match OpenEditor(file, selection)
    case Refused(e) => Rejected(e)
    case Editing(editor) => SaveChanges(editor, email, password)
  }

  // ---------------------------------------------------------------- delete

  /**
   `delete_password`: the (stripped) selection must be non-blank and present;
   the user must confirm; then the store without that site is written.
   */
  function Delete(file: FileRead, selection: string, confirm: bool): (o: Outcome)
    ensures o.Rejected? <==> IsBlank(selection) || Strip(selection) !in SafeLoad(file)
    ensures o.Rejected? ==> (o.error == BlankField <==> IsBlank(selection))
    ensures o.Declined? <==> !IsBlank(selection) && Strip(selection) in SafeLoad(file) && !confirm
    ensures o.Written? ==> RemovesOnly(SafeLoad(file), o.store, Strip(selection))
    ensures o.Written? ==> |o.store| == |SafeLoad(file)| - 1
  {
    StripEmptyIffBlank(selection);
    var site := Strip(selection);
    var data := SafeLoad(file);
    if site == "" then Rejected(BlankField)
    else if site !in data then Rejected(NotFound)
    else if !confirm then Declined
    else Written(data - {site})
  }

  // ---------------------------------------------------------------- find

  datatype Found =
    | Shown(email: string, password: string)  // the details popup
    | BlankQuery                              // "Select or enter a page name."
    | NoEntry                                 // "No details for the specified page."

  /**
   `find_password`: a blank query is an error; a site whose record is absent or
   empty (falsy in Python) has no entry; otherwise its email and password are
   shown, each "" when the record lacks it.
   */
  function Find(file: FileRead, query: string): (r: Found)
    ensures r.BlankQuery? <==> IsBlank(query)
    ensures r.NoEntry? <==>
              !IsBlank(query) && (Strip(query) !in SafeLoad(file) || SafeLoad(file)[Strip(query)] == map[])
    ensures r.Shown? ==>
              && Strip(query) in SafeLoad(file)
              && r.email == Field(SafeLoad(file)[Strip(query)], "email")
              && r.password == Field(SafeLoad(file)[Strip(query)], "password")
  {
    StripEmptyIffBlank(query);
    var site := Strip(query);
    var data := SafeLoad(file);
    if site == "" then BlankQuery
    else if site in data && data[site] != map[] then
      Shown(Field(data[site], "email"), Field(data[site], "password"))
    else NoEntry
  }

  // ---------------------------------------------------------------- properties across handlers

  /** What Add wrote is what Search shows for the stripped site name. */
  lemma SaveThenFind(file: FileRead, website: string, email: string, password: string, confirm: bool)
    requires Save(file, website, email, password, confirm).Written?
    ensures Find(After(file, Save(file, website, email, password, confirm)), website)
            == Shown(Strip(email), Strip(password))
  {
    var o := Save(file, website, email, password, confirm);
    assert After(file, o) == Parsed(o.store);
    assert o.store[Strip(website)] == Credential(Strip(email), Strip(password));
    CredentialFields(Strip(email), Strip(password));
  }

  /** Adding the same entry twice, confirming the overwrite, leaves the store of the first add. */
  lemma SaveIdempotent(file: FileRead, website: string, email: string, password: string)
    requires Save(file, website, email, password, true).Written?
    ensures var f1 := After(file, Save(file, website, email, password, true));
            Save(f1, website, email, password, true) == Save(file, website, email, password, true)
  {
  }

  /** After a confirmed delete the site has no entry, and a second delete finds nothing. */
  lemma DeleteThenFind(file: FileRead, selection: string)
    requires Delete(file, selection, true).Written?
    ensures Find(After(file, Delete(file, selection, true)), selection) == NoEntry
    ensures Delete(After(file, Delete(file, selection, true)), selection, true) == Rejected(NotFound)
  {
  }

  /** After an edit, Search shows the new (stripped) values. */
  lemma EditThenFind(file: FileRead, selection: string, email: string, password: string)
    requires Edit(file, selection, email, password).Written?
    ensures Find(After(file, Edit(file, selection, email, password)), selection)
            == Shown(Strip(email), Strip(password))
  {
    var o := Edit(file, selection, email, password);
    assert After(file, o) == Parsed(o.store);
    assert o.store[Strip(selection)] == Credential(Strip(email), Strip(password));
    CredentialFields(Strip(email), Strip(password));
    StripEmptyIffBlank(selection);
  }

  /**
   The edit window saves the snapshot it read when it opened. A confirmed Add of
   a new site made while the window is open shows up in Search, and is gone again
   once the window's changes are saved.
   */
  lemma EditWindowOverwritesAdd(file: FileRead, selection: string, website: string,
                                email: string, password: string, newEmail: string, newPassword: string)
    requires OpenEditor(file, selection).Editing?
    requires !IsBlank(website) && !IsBlank(email) && !IsBlank(password)
    requires Strip(website) !in SafeLoad(file)
    requires !IsBlank(newEmail) && !IsBlank(newPassword)
    ensures var added := After(file, Save(file, website, email, password, true));
            Find(added, website) == Shown(Strip(email), Strip(password))
    ensures var added := After(file, Save(file, website, email, password, true));
            var saved := After(added, SaveChanges(OpenEditor(file, selection).editor, newEmail, newPassword));
            Find(saved, website) == NoEntry
  {
    SaveThenFind(file, website, email, password, true);
    StripEmptyIffBlank(website);
  }

  /** Searching, editing or deleting never succeeds on a file that is missing or undecodable. */
  lemma UnreadableFileHasNoEntries(file: FileRead, selection: string, email: string, password: string, confirm: bool)
    requires !file.Parsed?
    ensures Edit(file, selection, email, password).Rejected?
    ensures Delete(file, selection, confirm).Rejected?
    ensures !Find(file, selection).Shown?
  {
  }
}
