/** The list service: an array of contact lists with max+1 ids. Deleting a
    list removes that record only; contacts that point at it are untouched. */
module ListService {
  import opened Base
  import opened Store

  datatype ContactList = ContactList(id: int, name: string, contactCount: int, createdAt: Time, updatedAt: Time)

  /** The object spread into a list by `update`; `updatedAt` is always
      overwritten afterwards, so the patch has no such field. */
  datatype ListPatch = ListPatch(id: Option<int>, name: Option<string>, contactCount: Option<int>, createdAt: Option<Time>)

  function IdOf(l: ContactList): int { l.id }

  /** `getById`. */
  function GetById(s: seq<ContactList>, id: int): (r: Result<ContactList>)
    ensures r.Err? <==> !HasKey(s, IdOf, id)
    ensures r.Err? ==> r.error == NotFound("List")
    ensures r.Ok? ==> r.value in s && r.value.id == id
    ensures r.Ok? ==> exists k :: 0 <= k < |s| && s[k] == r.value && forall j :: 0 <= j < k ==> s[j].id != id
  {
    match IndexOf(s, IdOf, id)
    case None => Err(NotFound("List"))
    case Some(k) => Ok(s[k])
  }

  /** `create`: append an empty list with id max+1. */
  function Create(s: seq<ContactList>, name: string, now: Time): (r: (seq<ContactList>, ContactList))
    ensures r.0 == s + [r.1]
    ensures forall i :: 0 <= i < |s| ==> s[i].id < r.1.id
    ensures |s| == 0 ==> r.1.id == 1
    ensures |s| > 0 ==> HasKey(s, IdOf, r.1.id - 1)
    ensures r.1.name == name && r.1.contactCount == 0
    ensures r.1.createdAt == now && r.1.updatedAt == now
  {
    var l := ContactList(NextKey(s, IdOf), name, 0, now, now);
    (s + [l], l)
  }

  function Merge(l: ContactList, p: ListPatch, now: Time): ContactList {
    ContactList(
      l.id,
      if p.name.Some? then p.name.value else l.name,
      if p.contactCount.Some? then p.contactCount.value else l.contactCount,
      if p.createdAt.Some? then p.createdAt.value else l.createdAt,
      now)
  }

  /** `update`: spread the patch, keep the id, stamp `updatedAt`. */
  function Update(s: seq<ContactList>, id: int, p: ListPatch, now: Time): (r: Result<(seq<ContactList>, ContactList)>)
    ensures r.Err? <==> !HasKey(s, IdOf, id)
    ensures r.Err? ==> r.error == NotFound("List")
    ensures r.Ok? ==> exists k :: 0 <= k < |s| && s[k].id == id && (forall j :: 0 <= j < k ==> s[j].id != id) && r.value.0 == s[k := r.value.1] && r.value.1 == Merge(s[k], p, now)
    ensures r.Ok? ==> r.value.1.id == id && r.value.1.updatedAt == now
    ensures r.Ok? && p.name.Some? ==> r.value.1.name == p.name.value
    ensures r.Ok? && p.contactCount.Some? ==> r.value.1.contactCount == p.contactCount.value
  {
    match IndexOf(s, IdOf, id)
    case None => Err(NotFound("List"))
    case Some(k) =>
      var l := Merge(s[k], p, now);
      Ok((s[k := l], l))
  }

  /** `delete`: splice the list out and hand it back. */
  function Delete(s: seq<ContactList>, id: int): (r: Result<(seq<ContactList>, ContactList)>)
    ensures r.Err? <==> !HasKey(s, IdOf, id)
    ensures r.Err? ==> r.error == NotFound("List")
    ensures r.Ok? ==> exists k :: 0 <= k < |s| && s[k].id == id && (forall j :: 0 <= j < k ==> s[j].id != id) && r.value.1 == s[k] && r.value.0 == s[..k] + s[k + 1..]
  {
    match IndexOf(s, IdOf, id)
    case None => Err(NotFound("List"))
    case Some(k) => Ok((RemoveAt(s, k), s[k]))
  }

  /** Every list operation keeps list ids unique; a delete leaves no list with
      the deleted id behind. */
  lemma OperationsKeepUnique(s: seq<ContactList>, id: int, name: string, p: ListPatch, now: Time)
    requires UniqueKeys(s, IdOf)
    ensures UniqueKeys(Create(s, name, now).0, IdOf)
    ensures Update(s, id, p, now).Ok? ==> UniqueKeys(Update(s, id, p, now).value.0, IdOf)
    ensures Delete(s, id).Ok? ==> UniqueKeys(Delete(s, id).value.0, IdOf)
    ensures Delete(s, id).Ok? ==> !HasKey(Delete(s, id).value.0, IdOf, id)
  {
    AppendFreshKeepsUnique(s, [Create(s, name, now).1], IdOf);
    match IndexOf(s, IdOf, id)
    case None =>
    case Some(k) =>
      ReplaceKeepsUnique(s, IdOf, k, Merge(s[k], p, now));
      RemoveAtKeepsUnique(s, IdOf, k);
  }
}
