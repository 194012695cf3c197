/**
  The contacts table: rows keyed by an integer id that the table assigns on
  insertion (an AUTOINCREMENT primary key, so an id is never handed out twice),
  and the six statements the application runs against it.
 */
module ContactTable {
  import opened ContactRecord

  // ---------------------------------------------------------------------------
  // Search terms

  /** Whether `t` occurs as a contiguous part of `s`. */
  function Occurs(t: string, s: string): bool
    decreases |s|
  {
    |t| <= |s| && (s[..|t|] == t || Occurs(t, s[1..]))
  }

  /** `t` stands at position `i` of `s`. */
  predicate OccursAt(t: string, s: string, i: int) {
    0 <= i && i + |t| <= |s| && s[i..i + |t|] == t
  }

  /** Occurs is substring search: `t` occurs in `s` exactly when it stands at some position. */
  lemma {:induction false} OccursIff(t: string, s: string)
    ensures Occurs(t, s) <==> exists i :: OccursAt(t, s, i)
    decreases |s|
  {
    if Occurs(t, s) {
      if s[..|t|] == t {
        assert OccursAt(t, s, 0);
      } else {
        OccursIff(t, s[1..]);
        var j :| OccursAt(t, s[1..], j);
        assert s[j + 1..j + 1 + |t|] == s[1..][j..j + |t|];
        assert OccursAt(t, s, j + 1);
      }
    }
    if exists i :: OccursAt(t, s, i) {
      var i :| OccursAt(t, s, i);
      if i > 0 {
        assert s[1..][i - 1..i - 1 + |t|] == s[i..i + |t|];
        assert OccursAt(t, s[1..], i - 1);
        OccursIff(t, s[1..]);
      }
    }
  }

  /** `f LIKE '%t%'` read as plain substring matching; a NULL attribute never matches. */
  predicate FieldMatches(f: Field, t: string) {
    f.Some? && Occurs(t, f.value)
  }

  /** The WHERE clause of `search`: the term occurs in one of the four attributes. */
  predicate Matches(c: Contact, t: string) {
    FieldMatches(c.first, t) || FieldMatches(c.last, t) || FieldMatches(c.phone, t) || FieldMatches(c.email, t)
  }

  // ---------------------------------------------------------------------------
  // Reading the table in id order

  /** The rows with an id in [1, hi), as contacts, in ascending id order. */
  function Listing(rows: map<int, Row>, hi: int): seq<Contact>
    decreases hi
  {
    if hi <= 1 then []
    else Listing(rows, hi - 1) + (if hi - 1 in rows then [ContactOf(hi - 1, rows[hi - 1])] else [])
  }

  /** A contact is listed exactly when it is the contact of a row whose id is in range. */
  lemma {:induction false} ListingMembers(rows: map<int, Row>, hi: int, c: Contact)
    ensures c in Listing(rows, hi) <==>
              c.id.Some? && 1 <= c.id.value < hi && c.id.value in rows && c == ContactOf(c.id.value, rows[c.id.value])
    decreases hi
  {
    if hi > 1 {
      ListingMembers(rows, hi - 1, c);
    }
  }

  /** Ids strictly increase along a listing (so no row is listed twice). */
  predicate AscendingIds(cs: seq<Contact>) {
    forall j, k :: 0 <= j < k < |cs| ==> cs[j].id.Some? && cs[k].id.Some? && cs[j].id.value < cs[k].id.value
  }

  lemma {:induction false} ListingAscending(rows: map<int, Row>, hi: int)
    ensures AscendingIds(Listing(rows, hi))
    decreases hi
  {
    if hi > 1 {
      ListingAscending(rows, hi - 1);
      var prefix := Listing(rows, hi - 1);
      forall c | c in prefix ensures c.id.Some? && c.id.value < hi - 1 {
        ListingMembers(rows, hi - 1, c);
      }
      var cs := Listing(rows, hi);
      forall j, k | 0 <= j < k < |cs|
        ensures cs[j].id.Some? && cs[k].id.Some? && cs[j].id.value < cs[k].id.value
      {
        assert cs[j] == prefix[j];
        if k < |prefix| {
          assert cs[k] == prefix[k];
        } else {
          assert cs[j] in prefix;
        }
      }
    }
  }

  /** Listings agree below `hi` when the two tables agree on every id below `hi`. */
  lemma {:induction false} ListingAgree(rows: map<int, Row>, other: map<int, Row>, hi: int)
    requires forall id :: id < hi ==> (id in rows <==> id in other)
    requires forall id :: id < hi && id in rows ==> rows[id] == other[id]
    ensures Listing(rows, hi) == Listing(other, hi)
    decreases hi
  {
    if hi > 1 {
      ListingAgree(rows, other, hi - 1);
    }
  }

  /** Inserting above every existing id appends the new contact at the end of the listing. */
  lemma ListingInsertAbove(rows: map<int, Row>, hi: int, row: Row)
    requires forall id :: id in rows ==> id < hi
    requires hi >= 1
    ensures Listing(rows[hi := row], hi + 1) == Listing(rows, hi) + [ContactOf(hi, row)]
  {
    ListingAgree(rows, rows[hi := row], hi);
  }

  /** The listing with every contact carrying `id` left out. */
  function WithoutId(cs: seq<Contact>, id: int): seq<Contact>
  {
    if cs == [] then []
    else (if cs[0].id == Some(id) then [] else [cs[0]]) + WithoutId(cs[1..], id)
  }

  lemma {:induction false} WithoutIdAppend(a: seq<Contact>, b: seq<Contact>, id: int)
    ensures WithoutId(a + b, id) == WithoutId(a, id) + WithoutId(b, id)
    decreases |a|
  {
    if a != [] {
      assert (a + b)[0] == a[0] && (a + b)[1..] == a[1..] + b;
      WithoutIdAppend(a[1..], b, id);
    } else {
      assert a + b == b;
    }
  }

  lemma {:induction false} ListingRemove(rows: map<int, Row>, hi: int, id: int)
    ensures Listing(rows - {id}, hi) == WithoutId(Listing(rows, hi), id)
    decreases hi
  {
    if hi > 1 {
      ListingRemove(rows, hi - 1, id);
      var tail := if hi - 1 in rows then [ContactOf(hi - 1, rows[hi - 1])] else [];
      WithoutIdAppend(Listing(rows, hi - 1), tail, id);
    }
  }

  /** The listing with the contact carrying `id` given the columns `row`. */
  function Replaced(cs: seq<Contact>, id: int, row: Row): seq<Contact>
  {
    if cs == [] then []
    else [if cs[0].id == Some(id) then ContactOf(id, row) else cs[0]] + Replaced(cs[1..], id, row)
  }

  lemma {:induction false} ReplacedAppend(a: seq<Contact>, b: seq<Contact>, id: int, row: Row)
    ensures Replaced(a + b, id, row) == Replaced(a, id, row) + Replaced(b, id, row)
    decreases |a|
  {
    if a != [] {
      assert (a + b)[0] == a[0] && (a + b)[1..] == a[1..] + b;
      ReplacedAppend(a[1..], b, id, row);
    } else {
      assert a + b == b;
    }
  }

  lemma {:induction false} ListingReplace(rows: map<int, Row>, hi: int, id: int, row: Row)
    requires id in rows
    ensures Listing(rows[id := row], hi) == Replaced(Listing(rows, hi), id, row)
    decreases hi
  {
    if hi > 1 {
      ListingReplace(rows, hi - 1, id, row);
      var tail := if hi - 1 in rows then [ContactOf(hi - 1, rows[hi - 1])] else [];
      ReplacedAppend(Listing(rows, hi - 1), tail, id, row);
    }
  }

  /** The contacts of `cs` that match `t`, in the order of `cs`. */
  function Matching(cs: seq<Contact>, t: string): seq<Contact>
  {
    if cs == [] then []
    else (if Matches(cs[0], t) then [cs[0]] else []) + Matching(cs[1..], t)
  }

  lemma {:induction false} MatchingAppend(a: seq<Contact>, b: seq<Contact>, t: string)
    ensures Matching(a + b, t) == Matching(a, t) + Matching(b, t)
    decreases |a|
  {
    if a != [] {
      assert (a + b)[0] == a[0] && (a + b)[1..] == a[1..] + b;
      MatchingAppend(a[1..], b, t);
    } else {
      assert a + b == b;
    }
  }

  /** A contact is found exactly when it is listed and matches the term. */
  lemma {:induction false} MatchingMembers(cs: seq<Contact>, t: string, c: Contact)
    ensures c in Matching(cs, t) <==> c in cs && Matches(c, t)
    decreases |cs|
  {
    if cs != [] {
      MatchingMembers(cs[1..], t, c);
      assert cs == [cs[0]] + cs[1..];
    }
  }

  /** The empty term finds every contact that has at least one non-NULL attribute. */
  lemma {:induction false} MatchingEmptyTerm(cs: seq<Contact>, c: Contact)
    ensures c in Matching(cs, "") <==>
              c in cs && (c.first.Some? || c.last.Some? || c.phone.Some? || c.email.Some?)
  {
    MatchingMembers(cs, "", c);
    forall f: Field | f.Some? ensures FieldMatches(f, "") {
      assert f.value[..0] == "";
    }
  }

  // ---------------------------------------------------------------------------
  // The table

  class ContactStore {
    /** The rows, keyed by id. */
    var rows: map<int, Row>
    /** The id the next insertion receives: one above every id handed out so far. */
    var nextId: int

    /**
      What the model assumes of the table, whether freshly created or already
      present in the database: every id lies in [1, nextId).
     */
    ghost predicate Valid()
      reads this
    {
      1 <= nextId && forall id :: id in rows ==> 1 <= id < nextId
    }

    /** The table as `SELECT * FROM contacts` reads it: every row, in id order. */
    function Contents(): seq<Contact>
      reads this
    {
      Listing(rows, nextId)
    }

    /** A freshly created, empty table with the schema of `server.py` line 9 (commented out there). */
    constructor ()
      ensures Valid() && rows == map[] && nextId == 1
    {
      rows := map[];
      nextId := 1;
    }

    /** `Contact.create`: inserts the four attributes under a fresh id; the contact's own id is ignored. */
    method Create(c: Contact) returns (ok: bool)
      requires Valid()
      modifies this
      ensures Valid()
      ensures ok
      ensures old(nextId) !in old(rows)
      ensures rows == old(rows)[old(nextId) := RowOf(c)]
      ensures nextId == old(nextId) + 1
      ensures Contents() == old(Contents()) + [ContactOf(old(nextId), RowOf(c))]
    {
      ListingInsertAbove(rows, nextId, RowOf(c));
      rows := rows[nextId := RowOf(c)];
      nextId := nextId + 1;
      ok := true;
    }

    /** `Contact.get`: the row stored under `id`; None where Python fails on a missing row. */
    method Get(id: int) returns (r: Option<Contact>)
      requires Valid()
      ensures r.Some? <==> id in rows
      ensures r.Some? ==> r.value.id == Some(id) && RowOf(r.value) == rows[id]
      ensures r.Some? ==> r.value in Contents()
    {
      if id in rows {
        r := Some(ContactOf(id, rows[id]));
        ListingMembers(rows, nextId, r.value);
      } else {
        r := None;
      }
    }

    /** `Contact.update`: rewrites the four attributes of the row whose id is the contact's id. */
    method Update(c: Contact) returns (ok: bool)
      requires Valid()
      modifies this
      ensures Valid()
      ensures ok
      ensures nextId == old(nextId)
      ensures c.id.Some? && c.id.value in old(rows) ==> rows == old(rows)[c.id.value := RowOf(c)]
      ensures !(c.id.Some? && c.id.value in old(rows)) ==> rows == old(rows)
      ensures c.id.Some? ==> Contents() == Replaced(old(Contents()), c.id.value, RowOf(c))
      ensures c.id.None? ==> Contents() == old(Contents())
    {
      if c.id.Some? && c.id.value in rows {
        ListingReplace(rows, nextId, c.id.value, RowOf(c));
        rows := rows[c.id.value := RowOf(c)];
      } else if c.id.Some? {
        ListingReplaceMissing(rows, nextId, c.id.value, RowOf(c));
      }
      ok := true;
    }

    /** `Contact.delete`: removes the row with that id, if any; ids are not reused afterwards. */
    method Delete(id: int)
      requires Valid()
      modifies this
      ensures Valid()
      ensures rows == old(rows) - {id}
      ensures nextId == old(nextId)
      ensures Contents() == WithoutId(old(Contents()), id)
    {
      ListingRemove(rows, nextId, id);
      rows := rows - {id};
    }

    /** `Contact.all`: every row, in id order. */
    method All() returns (r: seq<Contact>)
      requires Valid()
      ensures r == Contents()
      ensures AscendingIds(r)
      ensures forall c :: c in r <==>
                c.id.Some? && c.id.value in rows && c == ContactOf(c.id.value, rows[c.id.value])
    {
      r := [];
      var i := 1;
      while i < nextId
        invariant 1 <= i <= nextId
        invariant r == Listing(rows, i)
      {
        if i in rows {
          r := r + [ContactOf(i, rows[i])];
        }
        i := i + 1;
      }
      ListingAscending(rows, nextId);
      forall c ensures c in r <==> c.id.Some? && c.id.value in rows && c == ContactOf(c.id.value, rows[c.id.value]) {
        ListingMembers(rows, nextId, c);
      }
    }

    /** `Contact.search`: the rows, in id order, in which the term occurs in some attribute. */
    method Search(term: string) returns (r: seq<Contact>)
      requires Valid()
      ensures r == Matching(Contents(), term)
      ensures forall c :: c in r <==> c in Contents() && Matches(c, term)
    {
      r := [];
      var i := 1;
      while i < nextId
        invariant 1 <= i <= nextId
        invariant r == Matching(Listing(rows, i), term)
      {
        var tail := if i in rows then [ContactOf(i, rows[i])] else [];
        MatchingAppend(Listing(rows, i), tail, term);
        if i in rows && Matches(ContactOf(i, rows[i]), term) {
          r := r + [ContactOf(i, rows[i])];
        }
        i := i + 1;
      }
      forall c ensures c in r <==> c in Contents() && Matches(c, term) {
        MatchingMembers(Contents(), term, c);
      }
    }
  }

  /** Replacing an id that no row carries leaves the listing as it was. */
  lemma {:induction false} ListingReplaceMissing(rows: map<int, Row>, hi: int, id: int, row: Row)
    requires id !in rows
    ensures Replaced(Listing(rows, hi), id, row) == Listing(rows, hi)
    decreases hi
  {
    if hi > 1 {
      ListingReplaceMissing(rows, hi - 1, id, row);
      var tail := if hi - 1 in rows then [ContactOf(hi - 1, rows[hi - 1])] else [];
      ReplacedAppend(Listing(rows, hi - 1), tail, id, row);
    }
  }
}
