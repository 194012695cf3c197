# Contacts application: record, table and route decisions

This project models the server side of a small contact-management web
application (`server.py`). It has three parts, one module each.

- `contact.dfy`, module `ContactRecord`: the `Contact` record, with an id and
  four text attributes (first name, last name, phone, email). `FromDict` reads
  a record from a dictionary keyed by the storage column names. `Errors` is the
  required-field validator. A Python `None` (SQL NULL) is `None`, and a string
  is `Some(s)`. Python's `not value` is `Blank`: None or the empty string.
- `contact_table.dfy`, module `ContactTable`: the `contacts` table as a class
  `ContactStore`. It holds a map from id to row and the next id to hand out.
  The schema declares `id integer primary key autoincrement`, so an inserted
  row gets an id above every id used before, and ids are never reused.
  `create`, `get`, `update`, `delete`, `all` and `search` are methods of this
  class. Each is proved against `Contents()`, the table read in id order
  (`Listing`), and against lemmas about that listing.
- `handlers.dfy`, module `Routes`: the decisions of the route handlers. The
  listing route chooses between search and full list. Creating a contact always
  redirects, because `create` always reports success. Editing overwrites the
  four attributes and keeps the id. Editing or deleting an id with no row fails,
  because the fetch raises.

No form is ever rejected. `contacts_new` never calls `errors`, and `create`
inserts unconditionally and returns `True`. `Routes.NewContact` therefore
stores the contact whatever its attributes are, and its `ShowNewForm` branch
cannot be reached. The same holds for `Routes.EditContact` and its
`ShowEditForm` branch, because `update` also returns `True`.

The statement that creates the table is commented out in `server.py`
(line 9), so the program expects a `contacts` table with that schema to exist
already. The constructor of `ContactStore` stands for a freshly created table
with that schema. `ContactStore.Valid()` is what the model assumes about an
existing database: every id lies in [1, nextId), and nextId is the id the next
insertion receives.

## Model

| member | source | states |
|---|---|---|
| `ContactRecord.FromDict` | server.py:20-28 | each attribute is set from its storage key (`id`, `first_name`, `last_name`, `phone`, `email`), and it is None exactly when that key is missing or holds a value of the wrong kind |
| `ContactRecord.FromDictOfStorageDict` | server.py:21-28 | reading back the dictionary a contact is stored as gives the same contact |
| `ContactRecord.FromDictMissingKeys` | server.py:21-28 | a dictionary with none of the storage keys gives a contact whose five attributes are all None |
| `ContactRecord.Errors` | server.py:30-37 | the result has exactly the keys first, last, phone and email; each entry is "… is required." exactly when that attribute is blank, and None otherwise |
| `ContactRecord.NoErrorsIffFilled` | server.py:31-37 | every entry is None if and only if all four attributes are non-blank |
| `ContactRecord.ErrorsDependOnFieldsOnly` | server.py:31-37 | two contacts with the same four attributes get the same errors, whatever their ids |
| `ContactTable.OccursIff` | server.py:69-74 | the search term matches an attribute exactly when it stands at some position of it (the `'%' + term + '%'` pattern) |
| `ContactTable.ListingMembers` | server.py:64-66 | a contact is read from the table exactly when it is the contact of a stored row |
| `ContactTable.ListingAscending` | server.py:64-66 | rows are read in strictly ascending id order, so no row is read twice |
| `ContactTable.ListingAgree` | server.py:64-66 | the rows read below an id depend only on the rows stored below it |
| `ContactTable.ListingInsertAbove` | server.py:40-44 | a row inserted above every existing id is read last, after all earlier rows |
| `ContactTable.ListingRemove` | server.py:59-61 | after deleting an id, the table reads as before minus the contacts with that id |
| `ContactTable.ListingReplace` | server.py:52-56 | after rewriting a stored row, the table reads as before with that one contact replaced |
| `ContactTable.ListingReplaceMissing` | server.py:52-56 | an update naming an id with no row leaves the table's reading unchanged |
| `ContactTable.MatchingMembers` | server.py:68-75 | a contact is found exactly when it is in the table and the term occurs in one of its four attributes |
| `ContactTable.MatchingEmptyTerm` | server.py:68-75 | an empty term finds every contact with at least one non-NULL attribute |
| `ContactTable.ContactStore.constructor` | server.py:9 | a new table is empty and hands out id 1 first |
| `ContactTable.ContactStore.Create` | server.py:39-44 | returns True; adds one row with the contact's four attributes under an id not in the table before; every other row is unchanged; the new contact is read last; the contact's own id is ignored |
| `ContactTable.ContactStore.Get` | server.py:46-49 | gives the contact stored under the id, with that id; gives None exactly when no row has it (where Python raises) |
| `ContactTable.ContactStore.Update` | server.py:51-56 | returns True; replaces the four columns of the row whose id is the contact's id; no other row changes; nothing changes when the id is None or has no row |
| `ContactTable.ContactStore.Delete` | server.py:58-61 | removes the row with that id and no other; an absent id leaves the table unchanged; the next id is not lowered |
| `ContactTable.ContactStore.All` | server.py:63-66 | returns every stored row and nothing else, as contacts, in ascending id order |
| `ContactTable.ContactStore.Search` | server.py:68-75 | returns exactly the rows of the full listing, in its order, in which the term occurs in first name, last name, phone or email |
| `Routes.ListContacts` | server.py:83-90 | with `q` present the listing is the search for `q`, otherwise all contacts; either way only stored contacts are shown |
| `Routes.NewContact` | server.py:99-111 | always redirects to the list; the form's four values are stored as a new row under a fresh id, without validation |
| `Routes.Edited` | server.py:128-132 | the edited contact keeps the fetched id and takes the four form values |
| `Routes.EditContact` | server.py:126-137 | for an existing id, overwrites that row's four columns and redirects to that contact's page; for a missing id, fails and changes nothing |
| `Routes.DeleteContact` | server.py:140-145 | for an existing id, removes that row only and redirects to the list; for a missing id, fails and changes nothing |

## Left out

- Flask routing, `render_template`, `redirect`, flash messages and reading `request.form` / `request.args`. Rendering is the `Response` value. A form missing a field (Flask answers 400) is not modelled: the handlers take the four strings as parameters.
- `index` and `contacts_new_get` only redirect or render and do not touch the table. `contacts_view` and `contacts_edit_get` fetch with `ContactStore.Get` and render; for an id with no row they fail with a server error, as `Routes.EditContact` does. Their rendering is not modelled.
- The sqlite3 connection, cursor and `commit`. The table is a map held in memory. The cursor is shared across threads (`check_same_thread=False`), and concurrent requests are not modelled.
- ContactTable.Matches: SQL `LIKE` is read as plain substring matching. `%` and `_` inside the term are not wildcards here, and ASCII case-insensitivity is not modelled. A NULL attribute never matches, as in SQL.
- ContactTable.ContactStore.Get: where Python raises `TypeError` (`cls(*None)`), the model returns `None`. The handlers turn that into `ServerError`.
- ContactRecord.FromDict: the record is typed, so a value of the wrong kind (text under `id`, or a number under a name key) reads as absent. Python would copy it as it is.
- Route ids are integers here. Flask passes the URL segment as a string, and SQLite converts it by type affinity; that conversion is not modelled. A redirect target is a `Location` value, not the string `"/contacts/" + str(id)`.
- ContactTable.ContactStore.All: `SELECT *` without `ORDER BY` is taken to return rows in id order, as a table scan does.
- ContactTable.ContactStore.Search: the search query has no `ORDER BY` either; it too is taken to return rows in id order.
- ContactTable.ContactStore.Create: SQLite's failure when the id space is exhausted (`SQLITE_FULL` at the largest 64-bit id) is not modelled; ids are unbounded.
- static/js/overflow-menu.js, chapter09/counter-js-rsjs.js and hello.py are browser UI code or a constant route. They have no logic to model.
