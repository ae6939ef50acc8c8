# Password manager: credential store and password generator

A Dafny model of the logic inside the event handlers of a small desktop password
manager. The application keeps website/email/password triples in `data.json`, a
JSON object mapping a site name to a record `{"email": ..., "password": ...}`,
and offers Add, Search, Edit and Delete buttons, a site selector and a password
generator. All of that logic lives in `main.py`, mixed with widget code. The
model lifts it out as pure functions and methods:

- `Text` (`text.dfy`): Python's `str.strip()` over the code points `str.isspace()`
  accepts, and "blank" (nothing left after stripping).
- `CredentialStore` (`store.dfy`): the store as `map<string, Record>`, where a
  record is the JSON object of its string fields. A file read is one of three
  inputs: `Missing`, `Corrupt` (a JSON decode error) or `Parsed(store)`. `safe_load`
  is `SafeLoad`, from a read to a `Store`. Each handler is a function of the read
  (for Save changes, the edit window's `Editor`), the form fields and the answers
  to the yes/no dialogs:
  - Add (`save`), Save changes (`save_changes`) and Delete (`delete_password`)
    return an `Outcome`. It says whether the whole file is rewritten and with
    what (`Written`), or why not (`Rejected`, `Declined`).
  - Search (`find_password`) returns a `Found`: the details shown or the error.
  - Opening the edit window (`edit_password`) returns an `Opened`: the window's
    contents or the error.

  `After` gives the file the next handler reads. The lemmas that chain two
  handlers use it.
- `Lexicographic` (`order.dfy`) and `SiteListing` (`listing.dfy`): Python's string
  order, and `refresh_site_list`, which lists the store's keys with `sorted`.
- `Generator` (`generator.dfy`): `generate_password`, with every random draw
  supplied by the caller. The draws are the counts (as lengths of the pick
  sequences), the pool index of each character, and the draws of
  `random.shuffle`.

Two behaviours of the code are worth stating, since the model keeps both as written:

- The symbol pool is `'!#$%&()*+'`, which has 9 characters (main.py:130).
- Add to a missing or undecodable file writes a file holding only the new entry,
  so any unreadable prior content is discarded (main.py:176-183).

## Model

| member | source | states |
|---|---|---|
| `Text.Strip` | main.py:165-167 | the stripped value is an infix of the input with only whitespace around it, and it neither starts nor ends with whitespace. Whitespace is `IsSpace`, the code points Python's `str.isspace` accepts |
| `Text.StripEmptyIffBlank` | main.py:170 | `not value.strip()` holds exactly when every character of the field is whitespace |
| `Text.StripIdempotent` | main.py:165-167 | a stripped value strips to itself |
| `CredentialStore.CredentialFields` | main.py:168 | the record Add and Edit write (`Credential`, the literal `{"email": ..., "password": ...}`, also at main.py:240) is non-empty and reads back both fields |
| `CredentialStore.SafeLoad` | main.py:89-97 | a missing or undecodable file reads as the empty store; a parsed file reads as its content |
| `CredentialStore.Save` | main.py:164-193 | any blank field (after stripping) is rejected and nothing is written. On a missing or undecodable file the result holds exactly one entry, the new one. On a readable file an existing site with overwrite declined leaves the file untouched. Otherwise only the stripped site is set to the stripped email and password, and every other entry is unchanged |
| `CredentialStore.OpenEditor` | main.py:208-232 | a blank selection or a site not in the store is refused (blank vs not found). Otherwise the window holds the loaded snapshot, the stripped site, and the record's email and password, each defaulting to `""` (`Field`, Python's `record.get(name, "")` at main.py:227 and 232) |
| `CredentialStore.SaveChanges` | main.py:234-242 | a blank new email or password is rejected. Otherwise the snapshot is written with only the edited site replaced by the stripped values |
| `CredentialStore.Edit` | main.py:208-242 | the whole edit: rejected exactly when the selection is blank, absent, or a new field is blank. A success keeps the key set, replaces only the selected site, and is never a declined outcome |
| `CredentialStore.Delete` | main.py:250-263 | a blank or absent selection is rejected, and a declined confirmation writes nothing. A confirmed delete writes the old store minus that site, with every other entry equal and one fewer entry |
| `CredentialStore.Find` | main.py:149-161 | a blank query is an error. An absent site or an empty record gives "no entry". Otherwise the record's email and password are shown, each defaulting to `""` (`Field`, as `credentials.get(name, "")` at main.py:159) |
| `CredentialStore.SaveThenFind` | main.py:149-193 | after a successful Add, Search for the same text shows the stripped email and password |
| `CredentialStore.SaveIdempotent` | main.py:184-192 | repeating a confirmed Add of the same entry writes the same store again |
| `CredentialStore.EditThenFind` | main.py:234-242 | after a successful edit, Search for the selection shows the new stripped values |
| `CredentialStore.DeleteThenFind` | main.py:250-263 | after a confirmed delete, Search finds no entry and a second delete reports not found |
| `CredentialStore.EditWindowOverwritesAdd` | main.py:213-242 | with the edit window open, an Add of a new site shows in Search, and saving the window writes its old snapshot, after which Search finds no entry for the added site |
| `CredentialStore.UnreadableFileHasNoEntries` | main.py:89-97 | with a missing or undecodable file, Search shows nothing, and Edit and Delete are always rejected |
| `Lexicographic.Insert` | main.py:341 | inserting into a strictly ascending list keeps it strictly ascending, adds exactly the new key, and never duplicates it |
| `Lexicographic.SortedUnique` | main.py:341 | two strictly ascending lists with the same elements are equal, so `sorted` of a key set has one possible result |
| `SiteListing.SortedSites` | main.py:341 | the listing is strictly ascending in Python's string order, and holds exactly the store's keys, each once. By `SortedUnique` it is the one such listing, whatever order the keys are visited in |
| `SiteListing.RefreshSiteList` | main.py:339-342 | the selector lists exactly the keys of what `safe_load` returns, ascending; a missing or undecodable file lists nothing |
| `Generator.LetterAt` | main.py:128 | every character of the letter pool is an ASCII letter |
| `Generator.SymbolAt` | main.py:130 | every character of the 9-character symbol pool is one of `!#$%&()*+` |
| `Generator.DigitAt` | main.py:129 | every character of the digit pool is a decimal digit |
| `Generator.Drawn` | main.py:137-139 | one character per pick, each a character of the pool it is drawn from |
| `Generator.Shuffle` | main.py:141 | the shuffle keeps the length and is a rearrangement: the multiset of characters is unchanged |
| `Generator.CountPermutation` | main.py:141 | rearranging a string keeps the number of characters of every class |
| `Generator.ClassCounts` | main.py:136-140 | the letters, then symbols, then digits hold exactly as many characters of each class as were drawn from it |
| `Generator.Compose` | main.py:128-140 | the unshuffled list is the drawn letters, then the drawn symbols, then the drawn digits, each the pool character at its pick. It has one character per draw, each a letter, symbol or digit, with exactly as many of each class as were drawn |
| `Generator.Rearranged` | main.py:141-142 | any rearrangement of the unshuffled list keeps its length, its classes and its per-class counts |
| `Generator.GeneratePassword` | main.py:127-142 | the password has 12 to 18 characters. Each is a letter, a symbol from `!#$%&()*+` or a digit. It holds exactly as many letters, symbols and digits as were drawn: 8-10, 2-4 and 2-4. Its characters are exactly the drawn pool characters, rearranged |

## Left out

- Widget layout, styling, popups, the show/hide toggle and keyboard bindings (main.py:34-86, 103-124, 268-349): presentation only. This includes clearing the website and password fields of the Add section in `save`'s `finally` block (main.py:205-206), which also runs after a declined overwrite, while the email field keeps its value. It also includes resetting the selector after a delete.
- Clipboard copies (`pyperclip.copy`, `clipboard_append`): an operating-system service.
- File I/O and JSON formatting (`indent=4`, `ensure_ascii=False`). A read is the three-way input `FileRead`, and a write is the store in `Written`. A write that fails is not modelled. `After`: a store written by `json.dump` (main.py:182, 192, 242, 263) is read back unchanged by the next `json.load`. This is an assumption of the model, and every lemma that chains two handlers rests on it.
- Read errors other than a missing file or a JSON decode error: an undecodable UTF-8 byte, a permission error, or a directory in the file's place. main.py does not catch these, so the handler aborts.
- JSON content other than an object of objects of strings. The code has no check for it, and what happens depends on the value and the handler:
  - A top-level value that is not an object: an empty list makes Edit and Delete report "Entry not found." (main.py:214-216, 256-258). Search raises on a list, since a list has no `.get` (main.py:155). Add raises at `data.update` on a list (main.py:190), possibly after asking whether to overwrite. `refresh_site_list` raises on `.keys()` for any non-object (main.py:341), and it runs at startup (main.py:344), so the application does not start. Other values raise or are treated as not found, depending on the value.
  - A record that is not an object: Search reports no entry when the record is falsy (`null`, `""`, `0`, `[]`, `false`) and raises on `.get` otherwise (main.py:157-161). Opening Edit raises on `.get` (main.py:227). Delete removes the record whatever its type (main.py:260-261).
  - Field values that are not strings: Search and Edit show them as they are (main.py:159, 227, 232).
- `random` internals. The counts, the pool indices and the shuffle draws are inputs. Nothing is claimed about their distribution or entropy.
- Generator.Shuffle: modelled as CPython's `random.shuffle` walk: position `i` goes from the last index down to 1 and is swapped with a drawn `j <= i`. Its contract states only that the result is a rearrangement, not which rearrangement is produced.
- `resource_path` and `_MEIPASS` (main.py:24-30): packaging plumbing.
- The edit window writes the snapshot read when it opened (main.py:213, 240-242). The window has no grab (main.py:220), so an Add or a Delete made in the main window while it is open is overwritten when the window is saved. `EditWindowOverwritesAdd` states this for an Add of a new site. Other interleavings, such as a Delete or a second edit window, are not stated as lemmas.
