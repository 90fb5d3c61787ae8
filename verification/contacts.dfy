/** The contact service: an array of contact records with max+1 ids, a
    soft-delete flag, restore, and a permanent delete that splices the
    record out whatever its flag. */
module ContactService {
  import opened Base
  import opened Store

  datatype Contact = Contact(
    id: int,
    name: string,
    whatsappNumber: string,
    email: string,
    listId: int,
    createdAt: Time,
    isDeleted: bool,
    deletedAt: Option<Time>)

  /** The fields `create` and `createBatch` read from the caller. */
  datatype NewContact = NewContact(name: string, whatsappNumber: string, email: string, listId: int)

  /** The object spread into a record by `update`: a `Some` field overrides. */
  datatype ContactPatch = ContactPatch(
    id: Option<int>,
    name: Option<string>,
    whatsappNumber: Option<string>,
    email: Option<string>,
    listId: Option<int>,
    createdAt: Option<Time>,
    isDeleted: Option<bool>,
    deletedAt: Option<Option<Time>>)

  function IdOf(c: Contact): int { c.id }
  function IsActive(c: Contact): bool { !c.isDeleted }
  function IsDeletedContact(c: Contact): bool { c.isDeleted }

  /** The store invariant the service keeps: unique ids, and a deletion stamp
      exactly on soft-deleted records. */
  predicate WellFormed(s: seq<Contact>) {
    && UniqueKeys(s, IdOf)
    && forall i :: 0 <= i < |s| ==> (s[i].deletedAt.Some? <==> s[i].isDeleted)
  }

  function Fresh(id: int, d: NewContact, now: Time): Contact {
    Contact(id, d.name, d.whatsappNumber, d.email, d.listId, now, false, None)
  }

  /** `getAll`: the contacts not soft-deleted, in store order. */
  function GetAll(s: seq<Contact>): (r: seq<Contact>)
    ensures forall i :: 0 <= i < |r| ==> r[i] in s && !r[i].isDeleted
    ensures forall i :: 0 <= i < |s| && !s[i].isDeleted ==> s[i] in r
    ensures Subsequence(r, s)
  {
    FilterMembers(s, IsActive);
    Filter(s, IsActive)
  }

  /** `getAllDeleted`: the soft-deleted contacts, in store order. */
  function GetAllDeleted(s: seq<Contact>): (r: seq<Contact>)
    ensures forall i :: 0 <= i < |r| ==> r[i] in s && r[i].isDeleted
    ensures forall i :: 0 <= i < |s| && s[i].isDeleted ==> s[i] in r
    ensures Subsequence(r, s)
  {
    FilterMembers(s, IsDeletedContact);
    Filter(s, IsDeletedContact)
  }

  /** The active and the deleted listings partition the store. */
  lemma ListingsPartition(s: seq<Contact>)
    ensures multiset(GetAll(s)) + multiset(GetAllDeleted(s)) == multiset(s)
    ensures |GetAll(s)| + |GetAllDeleted(s)| == |s|
  {
    FilterPartition(s, IsActive, IsDeletedContact);
  }

  /** `getByListId`: the active contacts of one list, in store order. */
  function GetByListId(s: seq<Contact>, listId: int): (r: seq<Contact>)
    ensures forall i :: 0 <= i < |r| ==> r[i] in s && !r[i].isDeleted && r[i].listId == listId
    ensures forall i :: 0 <= i < |s| && !s[i].isDeleted && s[i].listId == listId ==> s[i] in r
    ensures Subsequence(r, s)
  {
    var p := (c: Contact) => c.listId == listId && !c.isDeleted;
    FilterMembers(s, p);
    Filter(s, p)
  }

  /** `getById`: the first record with the id, deleted or not. */
  function GetById(s: seq<Contact>, id: int): (r: Result<Contact>)
    ensures r.Err? <==> !HasKey(s, IdOf, id)
    ensures r.Err? ==> r.error == NotFound("Contact")
    ensures r.Ok? ==> r.value in s && r.value.id == id
    ensures r.Ok? ==> exists k :: 0 <= k < |s| && s[k] == r.value && forall j :: 0 <= j < k ==> s[j].id != id
  {
    match IndexOf(s, IdOf, id)
    case None => Err(NotFound("Contact"))
    case Some(k) => Ok(s[k])
  }

  /** `create`: append one active contact with id max+1 (1 for an empty store). */
  function Create(s: seq<Contact>, d: NewContact, now: Time): (r: (seq<Contact>, Contact))
    ensures r.0 == s + [r.1]
    ensures forall i :: 0 <= i < |s| ==> s[i].id < r.1.id
    ensures |s| == 0 ==> r.1.id == 1
    ensures |s| > 0 ==> HasKey(s, IdOf, r.1.id - 1)
    ensures r.1.name == d.name && r.1.whatsappNumber == d.whatsappNumber
    ensures r.1.email == d.email && r.1.listId == d.listId && r.1.createdAt == now
    ensures !r.1.isDeleted && r.1.deletedAt == None
  {
    var c := Fresh(NextKey(s, IdOf), d, now);
    (s + [c], c)
  }

  /** `createBatch`: append one active contact per input, ids max+1, max+2, ...
      in input order. */
  function CreateBatch(s: seq<Contact>, ds: seq<NewContact>, now: Time): (r: (seq<Contact>, seq<Contact>))
    ensures r.0 == s + r.1
    ensures |r.1| == |ds|
    ensures forall i :: 0 <= i < |ds| ==> r.1[i] == Fresh(NextKey(s, IdOf) + i, ds[i], now)
    ensures forall i, j :: 0 <= i < |s| && 0 <= j < |r.1| ==> s[i].id < r.1[j].id
  {
    var base := NextKey(s, IdOf);
    var added := seq(|ds|, i requires 0 <= i < |ds| => Fresh(base + i, ds[i], now));
    (s + added, added)
  }

  function Merge(c: Contact, p: ContactPatch): Contact {
    Contact(
      c.id,
      if p.name.Some? then p.name.value else c.name,
      if p.whatsappNumber.Some? then p.whatsappNumber.value else c.whatsappNumber,
      if p.email.Some? then p.email.value else c.email,
      if p.listId.Some? then p.listId.value else c.listId,
      if p.createdAt.Some? then p.createdAt.value else c.createdAt,
      if p.isDeleted.Some? then p.isDeleted.value else c.isDeleted,
      if p.deletedAt.Some? then p.deletedAt.value else c.deletedAt)
  }

  /** `after` is `before` with every field the patch carries replaced by the
      patch's value and every other field kept, the id included. */
  predicate Overlays(before: Contact, p: ContactPatch, after: Contact) {
    && after.id == before.id
    && after.name == (if p.name.Some? then p.name.value else before.name)
    && after.whatsappNumber == (if p.whatsappNumber.Some? then p.whatsappNumber.value else before.whatsappNumber)
    && after.email == (if p.email.Some? then p.email.value else before.email)
    && after.listId == (if p.listId.Some? then p.listId.value else before.listId)
    && after.createdAt == (if p.createdAt.Some? then p.createdAt.value else before.createdAt)
    && after.isDeleted == (if p.isDeleted.Some? then p.isDeleted.value else before.isDeleted)
    && after.deletedAt == (if p.deletedAt.Some? then p.deletedAt.value else before.deletedAt)
  }

  /** `update`: spread the patch over the record but keep its id. */
  function Update(s: seq<Contact>, id: int, p: ContactPatch): (r: Result<(seq<Contact>, Contact)>)
    ensures r.Err? <==> !HasKey(s, IdOf, id)
    ensures r.Err? ==> r.error == NotFound("Contact")
    ensures r.Ok? ==> exists k ::
      && 0 <= k < |s| && s[k].id == id && (forall j :: 0 <= j < k ==> s[j].id != id) && r.value.0 == s[k := r.value.1]
      && Overlays(s[k], p, r.value.1)
    ensures r.Ok? ==> r.value.1.id == id && |r.value.0| == |s|
  {
    match IndexOf(s, IdOf, id)
    case None => Err(NotFound("Contact"))
    case Some(k) =>
      var c := Merge(s[k], p);
      Ok((s[k := c], c))
  }

  /** `delete`: a soft delete; the record stays, flagged and stamped. */
  function Delete(s: seq<Contact>, id: int, now: Time): (r: Result<(seq<Contact>, Contact)>)
    ensures r.Err? <==> !HasKey(s, IdOf, id)
    ensures r.Err? ==> r.error == NotFound("Contact")
    ensures r.Ok? ==> |r.value.0| == |s|
    ensures r.Ok? ==> exists k :: 0 <= k < |s| && s[k].id == id && (forall j :: 0 <= j < k ==> s[j].id != id) && r.value.0 == s[k := r.value.1] && r.value.1 == s[k].(isDeleted := true, deletedAt := Some(now))
  {
    match IndexOf(s, IdOf, id)
    case None => Err(NotFound("Contact"))
    case Some(k) =>
      var c := s[k].(isDeleted := true, deletedAt := Some(now));
      Ok((s[k := c], c))
  }

  /** `restore`: only a soft-deleted record comes back; flag and stamp clear. */
  function Restore(s: seq<Contact>, id: int): (r: Result<(seq<Contact>, Contact)>)
    ensures !HasKey(s, IdOf, id) ==> r == Err(NotFound("Contact"))
    ensures r.Ok? <==> HasKey(s, IdOf, id) && GetById(s, id).value.isDeleted
    ensures r.Err? ==> r.error == NotFound("Contact") || r.error == NotDeleted
    ensures r.Ok? ==> exists k :: 0 <= k < |s| && s[k].id == id && (forall j :: 0 <= j < k ==> s[j].id != id) && s[k].isDeleted && r.value.0 == s[k := r.value.1] && r.value.1 == s[k].(isDeleted := false, deletedAt := None)
    ensures r.Err? && r.error == NotDeleted ==>
      exists k :: 0 <= k < |s| && s[k].id == id && (forall j :: 0 <= j < k ==> s[j].id != id) && !s[k].isDeleted
  {
    match IndexOf(s, IdOf, id)
    case None => Err(NotFound("Contact"))
    case Some(k) =>
      if !s[k].isDeleted then Err(NotDeleted)
      else
        var c := s[k].(isDeleted := false, deletedAt := None);
        Ok((s[k := c], c))
  }

  /** `permanentDelete`: splice the record out. It does not look at the
      soft-delete flag, so an active contact can be removed too. */
  function PermanentDelete(s: seq<Contact>, id: int): (r: Result<(seq<Contact>, Contact)>)
    ensures r.Err? <==> !HasKey(s, IdOf, id)
    ensures r.Err? ==> r.error == NotFound("Contact")
    ensures r.Ok? ==> exists k :: 0 <= k < |s| && s[k].id == id && (forall j :: 0 <= j < k ==> s[j].id != id) && r.value.1 == s[k] && r.value.0 == s[..k] + s[k + 1..]
  {
    match IndexOf(s, IdOf, id)
    case None => Err(NotFound("Contact"))
    case Some(k) => Ok((RemoveAt(s, k), s[k]))
  }

  /** Creating a contact keeps the store well formed, and the new id is fresh
      among every stored contact, soft-deleted ones included. */
  lemma CreateKeepsWellFormed(s: seq<Contact>, d: NewContact, now: Time)
    requires WellFormed(s)
    ensures WellFormed(Create(s, d, now).0)
    ensures !HasKey(s, IdOf, Create(s, d, now).1.id)
  {
    var (s', c) := Create(s, d, now);
    AppendFreshKeepsUnique(s, [c], IdOf);
    assert forall i :: 0 <= i < |s'| ==> s'[i] == (if i < |s| then s[i] else c);
  }

  lemma {:induction false} CreateBatchKeepsWellFormed(s: seq<Contact>, ds: seq<NewContact>, now: Time)
    requires WellFormed(s)
    ensures WellFormed(CreateBatch(s, ds, now).0)
  {
    var (s', added) := CreateBatch(s, ds, now);
    var base := NextKey(s, IdOf);
    assert UniqueKeys(added, IdOf) by {
      forall a, b | 0 <= a < b < |added| ensures IdOf(added[a]) != IdOf(added[b]) {
        assert added[a].id == base + a && added[b].id == base + b;
      }
    }
    AppendFreshKeepsUnique(s, added, IdOf);
    forall i | 0 <= i < |s'| ensures s'[i].deletedAt.Some? <==> s'[i].isDeleted {
      if i < |s| { assert s'[i] == s[i]; } else { assert s'[i] == added[i - |s|]; }
    }
  }

  lemma DeleteKeepsWellFormed(s: seq<Contact>, id: int, now: Time)
    requires WellFormed(s)
    ensures Delete(s, id, now).Ok? ==> WellFormed(Delete(s, id, now).value.0)
  {
    if Delete(s, id, now).Ok? {
      var k := IndexOf(s, IdOf, id).value;
      ReplaceKeepsUnique(s, IdOf, k, s[k].(isDeleted := true, deletedAt := Some(now)));
    }
  }

  lemma RestoreKeepsWellFormed(s: seq<Contact>, id: int)
    requires WellFormed(s)
    ensures Restore(s, id).Ok? ==> WellFormed(Restore(s, id).value.0)
  {
    if Restore(s, id).Ok? {
      var k := IndexOf(s, IdOf, id).value;
      ReplaceKeepsUnique(s, IdOf, k, s[k].(isDeleted := false, deletedAt := None));
    }
  }

  lemma PermanentDeleteKeepsWellFormed(s: seq<Contact>, id: int)
    requires WellFormed(s)
    ensures PermanentDelete(s, id).Ok? ==> WellFormed(PermanentDelete(s, id).value.0)
    ensures PermanentDelete(s, id).Ok? ==> !HasKey(PermanentDelete(s, id).value.0, IdOf, id)
  {
    if PermanentDelete(s, id).Ok? {
      var k := IndexOf(s, IdOf, id).value;
      RemoveAtKeepsUnique(s, IdOf, k);
    }
  }

  const NoChange := ContactPatch(None, None, None, None, None, None, None, None)

  /** Updating a stored contact with an empty patch changes nothing. */
  lemma UpdateNoChange(s: seq<Contact>, id: int)
    requires HasKey(s, IdOf, id)
    ensures Update(s, id, NoChange).Ok? && Update(s, id, NoChange).value.0 == s
  {
    var r := Update(s, id, NoChange);
    var k :| 0 <= k < |s| && s[k].id == id && (forall j :: 0 <= j < k ==> s[j].id != id) && r.value.0 == s[k := r.value.1] && Overlays(s[k], NoChange, r.value.1);
    assert r.value.1 == s[k];
  }

  /** An update that leaves the lifecycle fields alone keeps the store well formed. */
  lemma UpdateKeepsWellFormed(s: seq<Contact>, id: int, p: ContactPatch)
    requires WellFormed(s)
    requires p.isDeleted.None? && p.deletedAt.None?
    ensures Update(s, id, p).Ok? ==> WellFormed(Update(s, id, p).value.0)
  {
    if Update(s, id, p).Ok? {
      var k := IndexOf(s, IdOf, id).value;
      ReplaceKeepsUnique(s, IdOf, k, Merge(s[k], p));
    }
  }

  /** Soft-deleting an active, unstamped contact and restoring it gives back
      the store it started from. */
  lemma DeleteThenRestore(s: seq<Contact>, id: int, now: Time)
    requires WellFormed(s)
    requires HasKey(s, IdOf, id) && !GetById(s, id).value.isDeleted
    ensures Delete(s, id, now).Ok?
    ensures Restore(Delete(s, id, now).value.0, id) == Ok((s, GetById(s, id).value))
  {
    var k := IndexOf(s, IdOf, id).value;
    var d := Delete(s, id, now).value.0;
    assert d[k].id == id;
    assert forall j :: 0 <= j < k ==> d[j].id == s[j].id;
    assert IndexOf(d, IdOf, id) == Some(k);
    assert d[k := s[k]] == s;
  }

  /** After a successful restore the contact is listed as active and no longer
      as deleted. */
  lemma RestoreMovesListing(s: seq<Contact>, id: int)
    requires WellFormed(s)
    requires Restore(s, id).Ok?
    ensures var (s', c) := Restore(s, id).value;
      c in GetAll(s') && c !in GetAllDeleted(s')
  {
    var k := IndexOf(s, IdOf, id).value;
    var (s', c) := Restore(s, id).value;
    assert s'[k] == c;
  }
}
