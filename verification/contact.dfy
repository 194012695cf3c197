/**
  The contact record of the contacts application: its five attributes, how a
  record is read from a dictionary keyed by the storage column names, and the
  required-field validator.
 */
module ContactRecord {

  datatype Option<+T> = None | Some(value: T)

  /** A text attribute: `None` is Python's None (SQL NULL), `Some(s)` a string. */
  type Field = Option<string>

  /** A contact as the application holds it; `id` is `None` before insertion. */
  datatype Contact = Contact(id: Option<int>, first: Field, last: Field, phone: Field, email: Field)

  /** The four stored columns of one table row (first_name, last_name, phone, email). */
  datatype Row = Row(first: Field, last: Field, phone: Field, email: Field)

  /** A value in a dictionary handed to FromDict. */
  datatype Value = Number(n: int) | Text(s: string)

  const FirstRequired := "First name is required."
  const LastRequired := "Last name is required."
  const PhoneRequired := "Phone is required."
  const EmailRequired := "Email is required."

  /** Python's `not f` for a text attribute: None and the empty string are falsy. */
  predicate Blank(f: Field) {
    f == None || f == Some("")
  }

  /** The columns a contact contributes to a row; the id is not one of them. */
  function RowOf(c: Contact): (r: Row)
    ensures r.first == c.first && r.last == c.last && r.phone == c.phone && r.email == c.email
  {
    Row(c.first, c.last, c.phone, c.email)
  }

  /** The contact built from a fetched row `(id, first_name, last_name, phone, email)`. */
  function ContactOf(id: int, r: Row): (c: Contact)
    ensures c.id == Some(id) && RowOf(c) == r
  {
    Contact(Some(id), r.first, r.last, r.phone, r.email)
  }

  /** Reads a text attribute: the key's string, or None when the key is missing. */
  function TextAt(data: map<string, Value>, key: string): (f: Field)
    ensures f.Some? <==> key in data && data[key].Text?
    ensures f.Some? ==> data[key] == Text(f.value)
  {
    if key in data && data[key].Text? then Some(data[key].s) else None
  }

  /** Reads the id attribute: the key's number, or None when the key is missing. */
  function NumberAt(data: map<string, Value>, key: string): (i: Option<int>)
    ensures i.Some? <==> key in data && data[key].Number?
    ensures i.Some? ==> data[key] == Number(i.value)
  {
    if key in data && data[key].Number? then Some(data[key].n) else None
  }

  /** `Contact.from_dict`: the storage keys are mapped onto the record's attributes. */
  function FromDict(data: map<string, Value>): (c: Contact)
    ensures c.id.Some? <==> "id" in data && data["id"].Number?
    ensures c.first.Some? <==> "first_name" in data && data["first_name"].Text?
    ensures c.last.Some? <==> "last_name" in data && data["last_name"].Text?
    ensures c.phone.Some? <==> "phone" in data && data["phone"].Text?
    ensures c.email.Some? <==> "email" in data && data["email"].Text?
    ensures c.id.Some? ==> data["id"] == Number(c.id.value)
    ensures c.first.Some? ==> data["first_name"] == Text(c.first.value)
    ensures c.last.Some? ==> data["last_name"] == Text(c.last.value)
    ensures c.phone.Some? ==> data["phone"] == Text(c.phone.value)
    ensures c.email.Some? ==> data["email"] == Text(c.email.value)
  {
    Contact(NumberAt(data, "id"), TextAt(data, "first_name"), TextAt(data, "last_name"),
            TextAt(data, "phone"), TextAt(data, "email"))
  }

  /** The dictionary that stores a contact under the storage keys, leaving out absent attributes. */
  function StorageDict(c: Contact): (data: map<string, Value>)
    ensures data.Keys <= {"id", "first_name", "last_name", "phone", "email"}
  {
    var withId := if c.id.Some? then map["id" := Number(c.id.value)] else map[];
    var withFirst := if c.first.Some? then withId["first_name" := Text(c.first.value)] else withId;
    var withLast := if c.last.Some? then withFirst["last_name" := Text(c.last.value)] else withFirst;
    var withPhone := if c.phone.Some? then withLast["phone" := Text(c.phone.value)] else withLast;
    if c.email.Some? then withPhone["email" := Text(c.email.value)] else withPhone
  }

  /** Reading back the dictionary a contact is stored as gives the same contact. */
  lemma FromDictOfStorageDict(c: Contact)
    ensures FromDict(StorageDict(c)) == c
  {
  }

  /** A dictionary with none of the storage keys yields a contact with every attribute None. */
  lemma FromDictMissingKeys(data: map<string, Value>)
    requires data.Keys !! {"id", "first_name", "last_name", "phone", "email"}
    ensures FromDict(data) == Contact(None, None, None, None, None)
  {
  }

  /** The message for one attribute: the fixed text when it is blank, None otherwise. */
  function Message(f: Field, text: string): (m: Option<string>)
    ensures m.Some? <==> Blank(f)
    ensures m.Some? ==> m.value == text
  {
    if Blank(f) then Some(text) else None
  }

  /** `Contact.errors`: one entry per required attribute, keyed first, last, phone and email. */
  function Errors(c: Contact): (e: map<string, Option<string>>)
    ensures e.Keys == {"first", "last", "phone", "email"}
    ensures e["first"].Some? <==> Blank(c.first)
    ensures e["last"].Some? <==> Blank(c.last)
    ensures e["phone"].Some? <==> Blank(c.phone)
    ensures e["email"].Some? <==> Blank(c.email)
    ensures e["first"].Some? ==> e["first"].value == FirstRequired
    ensures e["last"].Some? ==> e["last"].value == LastRequired
    ensures e["phone"].Some? ==> e["phone"].value == PhoneRequired
    ensures e["email"].Some? ==> e["email"].value == EmailRequired
  {
    map["first" := Message(c.first, FirstRequired),
        "last" := Message(c.last, LastRequired),
        "phone" := Message(c.phone, PhoneRequired),
        "email" := Message(c.email, EmailRequired)]
  }

  /** No attribute is reported exactly when all four attributes are filled in. */
  lemma NoErrorsIffFilled(c: Contact)
    ensures (forall k :: k in Errors(c) ==> Errors(c)[k] == None)
            <==> !Blank(c.first) && !Blank(c.last) && !Blank(c.phone) && !Blank(c.email)
  {
    var e := Errors(c);
    if !Blank(c.first) && !Blank(c.last) && !Blank(c.phone) && !Blank(c.email) {
      forall k | k in e ensures e[k] == None {
        assert k == "first" || k == "last" || k == "phone" || k == "email";
      }
    } else {
      assert e["first"] != None || e["last"] != None || e["phone"] != None || e["email"] != None;
    }
  }

  /** The validator looks at the four attributes only: the id plays no part. */
  lemma ErrorsDependOnFieldsOnly(c: Contact, d: Contact)
    requires RowOf(c) == RowOf(d)
    ensures Errors(c) == Errors(d)
  {
  }
}
