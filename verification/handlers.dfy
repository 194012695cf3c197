/**
  The decisions the contact routes make around the table: which query the
  listing runs, and what the create, edit and delete forms answer. Rendering
  and redirection are reduced to a `Response` value.
 */
module Routes {
  import opened ContactRecord
  import opened ContactTable

  /** Where a redirect sends the browser: `/contacts` or `/contacts/<id>`. */
  datatype Location = ContactsIndex | ContactPage(id: int)

  datatype Response =
    | Redirect(to: Location)
    | ShowList(contacts: seq<Contact>)   // index.html with these contacts
    | ShowNewForm(contact: Contact)      // new.html, filled in with this contact
    | ShowEditForm(contact: Contact)     // edit.html, filled in with this contact
    | ServerError                        // an exception escapes the handler

  /** `contacts`: a `q` parameter selects search, its absence the full list. */
  method ListContacts(store: ContactStore, q: Option<string>) returns (resp: Response)
    requires store.Valid()
    ensures q.None? ==> resp == ShowList(store.Contents())
    ensures q.Some? ==> resp == ShowList(Matching(store.Contents(), q.value))
    ensures forall c :: c in resp.contacts ==> c in store.Contents()
  {
    var found: seq<Contact>;
    if q.Some? {
      found := store.Search(q.value);
    } else {
      found := store.All();
    }
    resp := ShowList(found);
  }

  /** The contact the edit form makes of a fetched one: the four attributes replaced, the id kept. */
  function Edited(c: Contact, first: string, last: string, phone: string, email: string): (r: Contact)
    ensures r.id == c.id
    ensures RowOf(r) == Row(Some(first), Some(last), Some(phone), Some(email))
  {
    c.(first := Some(first), last := Some(last), phone := Some(phone), email := Some(email))
  }

  /** `contacts_new`: inserts the form's contact, without validating it, and redirects to the list. */
  method NewContact(store: ContactStore, first: string, last: string, phone: string, email: string)
    returns (resp: Response)
    requires store.Valid()
    modifies store
    ensures store.Valid()
    ensures resp == Redirect(ContactsIndex)
    ensures store.nextId == old(store.nextId) + 1
    ensures store.rows == old(store.rows)[old(store.nextId) := Row(Some(first), Some(last), Some(phone), Some(email))]
    ensures store.Contents() ==
              old(store.Contents()) + [Contact(Some(old(store.nextId)), Some(first), Some(last), Some(phone), Some(email))]
  {
    var c := Contact(None, Some(first), Some(last), Some(phone), Some(email));
    var ok := store.Create(c);
    if ok {
      resp := Redirect(ContactsIndex);
    } else {
      resp := ShowNewForm(c);
    }
  }

  /** `contacts_edit_post`: overwrites the four attributes of an existing contact and shows it. */
  method EditContact(store: ContactStore, contactId: int, first: string, last: string, phone: string, email: string)
    returns (resp: Response)
    requires store.Valid()
    modifies store
    ensures store.Valid()
    ensures store.nextId == old(store.nextId)
    ensures contactId in old(store.rows) ==>
              resp == Redirect(ContactPage(contactId)) &&
              store.rows == old(store.rows)[contactId := Row(Some(first), Some(last), Some(phone), Some(email))]
    ensures contactId !in old(store.rows) ==> resp == ServerError && store.rows == old(store.rows)
  {
    var got := store.Get(contactId);
    if got.None? {
      resp := ServerError;
      return;
    }
    var c := Edited(got.value, first, last, phone, email);
    var ok := store.Update(c);
    if ok {
      resp := Redirect(ContactPage(contactId));
    } else {
      resp := ShowEditForm(c);
    }
  }

  /** `contacts_delete`: removes an existing contact and redirects to the list. */
  method DeleteContact(store: ContactStore, contactId: int) returns (resp: Response)
    requires store.Valid()
    modifies store
    ensures store.Valid()
    ensures store.nextId == old(store.nextId)
    ensures contactId in old(store.rows) ==>
              resp == Redirect(ContactsIndex) && store.rows == old(store.rows) - {contactId}
    ensures contactId !in old(store.rows) ==> resp == ServerError && store.rows == old(store.rows)
  {
    var got := store.Get(contactId);
    if got.None? {
      resp := ServerError;
      return;
    }
    store.Delete(got.value.id.value);
    resp := Redirect(ContactsIndex);
  }
}
