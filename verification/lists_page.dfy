/** The rules of the contact-lists page around the services: creating a list
    from the typed name, moving the selection when the selected list is
    deleted, and uploading parsed CSV rows into the selected list. */
module ListsPage {
  import opened Base
  import opened Store
  import opened Text
  import opened ContactService
  import opened ListService
  import Csv

  /** The two stores the page writes. */
  datatype Backend = Backend(lists: seq<ContactList>, contacts: seq<Contact>)

  /** `handleCreateList`: a blank name is refused; otherwise the trimmed name
      is stored, appended to the page's lists and selected. */
  function CreateList(b: Backend, shown: seq<ContactList>, name: string, now: Time)
    : (r: Result<(Backend, seq<ContactList>, ContactList)>)
    ensures r.Err? <==> AllWhitespace(name)
    ensures r.Err? ==> r.error == EmptyListName
    ensures r.Ok? ==> var (b', shown', l) := r.value;
      && l.name == Trim(name) && IsTrimmed(l.name) && l.name != "" && l.contactCount == 0
      && b'.lists == b.lists + [l] && b'.contacts == b.contacts
      && shown' == shown + [l]
      && !HasKey(b.lists, ListService.IdOf, l.id)
  {
    var n := Trim(name);
    if n == "" then Err(EmptyListName)
    else
      var (ls, l) := ListService.Create(b.lists, n, now);
      Ok((Backend(ls, b.contacts), shown + [l], l))
  }

  /** The page state `handleDeleteList` changes. */
  datatype Selection = Selection(shown: seq<ContactList>, selected: Option<ContactList>, contactsCleared: bool)

  /** The first list, if any. */
  function FirstOf(ls: seq<ContactList>): (r: Option<ContactList>)
    ensures r.None? <==> |ls| == 0
    ensures r.Some? ==> r.value == ls[0]
  {
    if |ls| == 0 then None else Some(ls[0])
  }

  /** `handleDeleteList`: the service deletes the list and nothing else (the
      contacts of the list stay in the contact store); the page drops the
      list and, when it was the selected one, selects the first remaining list,
      or nothing. */
  function DeleteList(b: Backend, shown: seq<ContactList>, selected: Option<ContactList>, list: ContactList)
    : (r: Result<(Backend, Selection)>)
    ensures r.Err? <==> !HasKey(b.lists, ListService.IdOf, list.id)
    ensures r.Ok? ==> var (b', sel) := r.value;
      && b'.contacts == b.contacts
      && (exists k ::
            && 0 <= k < |b.lists| && b.lists[k].id == list.id
            && (forall j :: 0 <= j < k ==> b.lists[j].id != list.id)
            && b'.lists == b.lists[..k] + b.lists[k + 1..])
      && sel.shown == Filter(shown, (l: ContactList) => l.id != list.id)
      && (forall i :: 0 <= i < |sel.shown| ==> sel.shown[i].id != list.id)
      && (selected.Some? && selected.value.id == list.id ==> sel.selected == FirstOf(sel.shown) && sel.contactsCleared)
      && (!(selected.Some? && selected.value.id == list.id) ==> sel.selected == selected && !sel.contactsCleared)
  {
    match ListService.Delete(b.lists, list.id)
    case Err(e) => Err(e)
    case Ok((ls, _)) =>
      var remaining := Filter(shown, (l: ContactList) => l.id != list.id);
      var sel :=
        if selected.Some? && selected.value.id == list.id then Selection(remaining, FirstOf(remaining), true)
        else Selection(shown, selected, false);
      Ok((Backend(ls, b.contacts), sel.(shown := remaining)))
  }

  /** After deleting the selected list, the new selection is a list still
      shown, and never the deleted one. */
  lemma DeleteListSelection(b: Backend, shown: seq<ContactList>, selected: Option<ContactList>, list: ContactList)
    requires selected.Some? && selected.value.id == list.id
    requires DeleteList(b, shown, selected, list).Ok?
    ensures var sel := DeleteList(b, shown, selected, list).value.1;
      && (sel.selected.Some? ==> sel.selected.value in shown && sel.selected.value.id != list.id)
      && (sel.selected.None? <==> forall i :: 0 <= i < |shown| ==> shown[i].id == list.id)
  {
    var p := (l: ContactList) => l.id != list.id;
    var remaining := Filter(shown, p);
    FilterMembers(shown, p);
    if forall i :: 0 <= i < |shown| ==> shown[i].id == list.id {
      FilterNone(shown, p);
    } else {
      var k :| 0 <= k < |shown| && shown[k].id != list.id;
      assert shown[k] in remaining;
    }
  }

  /** What an upload does. */
  datatype Upload =
    | Uploaded(backend: Backend, added: seq<Contact>, list: ContactList)
      // the contacts were created but the list record could not be updated
    | Partial(backend: Backend, added: seq<Contact>, error: Error)

  /** The rows of the CSV, attached to one list. */
  function Attach(rows: seq<Csv.CsvRow>, listId: int): (ds: seq<NewContact>)
    ensures |ds| == |rows|
    ensures forall i :: 0 <= i < |rows| ==> ds[i] == NewContact(rows[i].name, rows[i].whatsappNumber, rows[i].email, listId)
  {
    seq(|rows|, i requires 0 <= i < |rows| => NewContact(rows[i].name, rows[i].whatsappNumber, rows[i].email, listId))
  }

  /** `handleUploadContacts`: refused without a selected list or without rows;
      otherwise the rows become contacts of the selected list and the list's
      `contactCount` becomes the number of contacts the page had loaded plus
      the number of rows. */
  function UploadContacts(b: Backend, selected: Option<ContactList>, loaded: seq<Contact>,
                          rows: seq<Csv.CsvRow>, now: Time): (r: Result<Upload>)
    ensures r.Err? <==> selected.None? || |rows| == 0
    ensures selected.None? ==> r == Err(NoListSelected)
    ensures selected.Some? && |rows| == 0 ==> r == Err(NoContactsToUpload)
    ensures r.Ok? ==> var u := r.value;
      && u.backend.contacts == b.contacts + u.added
      && |u.added| == |rows|
      && (forall i :: 0 <= i < |rows| ==>
            && u.added[i].name == rows[i].name && u.added[i].email == rows[i].email
            && u.added[i].whatsappNumber == rows[i].whatsappNumber
            && u.added[i].listId == selected.value.id && !u.added[i].isDeleted)
    ensures r.Ok? ==> (r.value.Uploaded? <==> HasKey(b.lists, ListService.IdOf, selected.value.id))
    ensures r.Ok? && r.value.Uploaded? ==> var u := r.value;
      && u.list.id == selected.value.id && u.list.contactCount == |loaded| + |rows|
      && exists k ::
           && 0 <= k < |b.lists| && b.lists[k].id == selected.value.id
           && (forall j :: 0 <= j < k ==> b.lists[j].id != selected.value.id)
           && u.backend.lists == b.lists[k := u.list]
           && u.list == b.lists[k].(contactCount := |loaded| + |rows|, updatedAt := now)
    ensures r.Ok? && r.value.Partial? ==> r.value.backend.lists == b.lists
  {
    if selected.None? then Err(NoListSelected)
    else if |rows| == 0 then Err(NoContactsToUpload)
    else
      var (cs, added) := ContactService.CreateBatch(b.contacts, Attach(rows, selected.value.id), now);
      var patch := ListPatch(None, None, Some(|loaded| + |rows|), None);
      match ListService.Update(b.lists, selected.value.id, patch, now)
      case Err(e) => Ok(Partial(Backend(b.lists, cs), added, e))
      case Ok((ls, l)) =>
        Ok(Uploaded(Backend(ls, cs), added, l))
  }

  /** When the page's loaded contacts are the list's active contacts, the
      `contactCount` an upload writes is the number of active contacts the
      list then has. */
  lemma UploadCountMatchesStore(b: Backend, selected: Option<ContactList>, rows: seq<Csv.CsvRow>, now: Time)
    requires selected.Some?
    requires UploadContacts(b, selected, GetByListId(b.contacts, selected.value.id), rows, now).Ok?
    ensures var u := UploadContacts(b, selected, GetByListId(b.contacts, selected.value.id), rows, now).value;
      u.Uploaded? ==> u.list.contactCount == |GetByListId(u.backend.contacts, selected.value.id)|
  {
    var id := selected.value.id;
    var u := UploadContacts(b, selected, GetByListId(b.contacts, id), rows, now).value;
    var p := (c: Contact) => c.listId == id && !c.isDeleted;
    FilterAppend(b.contacts, u.added, p);
    FilterAll(u.added, p);
  }
}
