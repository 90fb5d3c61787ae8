/** The contact table's ordering: a sorted copy of the contacts, keyed by the
    lower-cased text of the sorted column. */
module ContactTable {
  import opened Text
  import opened ContactService
  import opened TableSort

  /** `a[sortField]?.toString().toLowerCase() || ''` for the table's columns;
      a field the record does not have gives the empty key. */
  function SortKey(c: Contact, field: string): (k: string)
    ensures field == "name" ==> k == Lower(c.name)
    ensures field == "whatsappNumber" ==> k == Lower(c.whatsappNumber)
    ensures field == "email" ==> k == Lower(c.email)
    ensures field !in {"name", "whatsappNumber", "email"} ==> k == ""
  {
    if field == "name" then Lower(c.name)
    else if field == "whatsappNumber" then Lower(c.whatsappNumber)
    else if field == "email" then Lower(c.email)
    else ""
  }

  /** `sortedContacts`: the contacts, reordered so that keys ascend (or
      descend), nothing added or lost. */
  function SortedContacts(contacts: seq<Contact>, st: SortState): (r: seq<Contact>)
    ensures multiset(r) == multiset(contacts) && |r| == |contacts|
    ensures forall i :: 0 <= i < |r| - 1 ==>
      if st.direction == Asc then LexLe(SortKey(r[i], st.field), SortKey(r[i + 1], st.field))
      else LexLe(SortKey(r[i + 1], st.field), SortKey(r[i], st.field))
  {
    var r := SortBy(contacts, (c: Contact) => SortKey(c, st.field), st.direction);
    assert |r| == |multiset(r)| == |multiset(contacts)| == |contacts|;
    r
  }

  /** Sorting by a field no contact has keeps the contacts in their order. */
  lemma SortByMissingField(contacts: seq<Contact>, st: SortState)
    requires st.field !in {"name", "whatsappNumber", "email"}
    ensures SortedContacts(contacts, st) == contacts
  {
    var key := (c: Contact) => SortKey(c, st.field);
    assert Ordered(contacts, key, st.direction);
    SortByOrdered(contacts, key, st.direction);
  }
}
