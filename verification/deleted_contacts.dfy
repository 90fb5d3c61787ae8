/** The deleted-contacts page: its search box and the local list it keeps in
    step with the contact store after a restore or a permanent delete. */
module DeletedContacts {
  import opened Base
  import opened Store
  import opened Text
  import opened ContactService

  /** The search rule for a query that is not blank: the lower-cased query
      occurs in the lower-cased name or email, or in the phone number as
      stored. The query is lower-cased but not trimmed. */
  predicate MatchesQuery(c: Contact, query: string) {
    var q := Lower(query);
    Contains(Lower(c.name), q) || Contains(Lower(c.email), q) || Contains(c.whatsappNumber, q)
  }

  /** `filterContacts`: a blank query shows every deleted contact; any other
      shows the matching ones in order. */
  function FilterDeleted(shown: seq<Contact>, query: string): (r: seq<Contact>)
    ensures AllWhitespace(query) ==> r == shown
    ensures Subsequence(r, shown)
    ensures !AllWhitespace(query) ==> forall i :: 0 <= i < |r| ==> r[i] in shown && MatchesQuery(r[i], query)
    ensures !AllWhitespace(query) ==> forall i :: 0 <= i < |shown| && MatchesQuery(shown[i], query) ==> shown[i] in r
  {
    if Trim(query) == "" then
      SubsequenceRefl(shown);
      shown
    else
      var p := (c: Contact) => MatchesQuery(c, query);
      FilterMembers(shown, p);
      Filter(shown, p)
  }

  /** The query is not trimmed: a leading space finds nothing in a contact
      whose fields hold no space. */
  lemma PaddedQueryMissesUnspaced(c: Contact, query: string)
    requires |query| > 0 && query[0] == ' ' && !AllWhitespace(query)
    requires ' ' !in c.name && ' ' !in c.email && ' ' !in c.whatsappNumber
    ensures FilterDeleted([c], query) == []
  {
    var q := Lower(query);
    assert q[0] == ' ';
    assert ' ' !in Lower(c.name) by {
      assert forall i :: 0 <= i < |c.name| ==> Lower(c.name)[i] == LowerChar(c.name[i]);
    }
    assert ' ' !in Lower(c.email) by {
      assert forall i :: 0 <= i < |c.email| ==> Lower(c.email)[i] == LowerChar(c.email[i]);
    }
    AbsentHead(Lower(c.name), q);
    AbsentHead(Lower(c.email), q);
    AbsentHead(c.whatsappNumber, q);
    assert [c][1..] == [];
  }

  /** "Every contact but the one with `id`". */
  function Others(id: int): Contact -> bool {
    (c: Contact) => c.id != id
  }

  /** `handleRestore`: on success the contact leaves the page's list. */
  function RestoreFromPage(s: seq<Contact>, shown: seq<Contact>, id: int): (r: Result<(seq<Contact>, seq<Contact>)>)
    ensures r.Err? <==> Restore(s, id).Err?
    ensures r.Ok? ==> r.value.0 == Restore(s, id).value.0
    ensures r.Ok? ==> Subsequence(r.value.1, shown)
    ensures r.Ok? ==> forall i :: 0 <= i < |r.value.1| ==> r.value.1[i].id != id
    ensures r.Ok? ==> forall i :: 0 <= i < |shown| && shown[i].id != id ==> shown[i] in r.value.1
  {
    match Restore(s, id)
    case Err(e) => Err(e)
    case Ok((s', _)) =>
      FilterMembers(shown, Others(id));
      Ok((s', Filter(shown, Others(id))))
  }

  /** `handlePermanentDelete`: on success the contact leaves the page's list. */
  function PermanentDeleteFromPage(s: seq<Contact>, shown: seq<Contact>, id: int): (r: Result<(seq<Contact>, seq<Contact>)>)
    ensures r.Err? <==> !HasKey(s, ContactService.IdOf, id)
    ensures r.Ok? ==> r.value.0 == PermanentDelete(s, id).value.0
    ensures r.Ok? ==> Subsequence(r.value.1, shown)
    ensures r.Ok? ==> forall i :: 0 <= i < |r.value.1| ==> r.value.1[i].id != id
    ensures r.Ok? ==> forall i :: 0 <= i < |shown| && shown[i].id != id ==> shown[i] in r.value.1
  {
    match PermanentDelete(s, id)
    case Err(e) => Err(e)
    case Ok((s', _)) =>
      FilterMembers(shown, Others(id));
      Ok((s', Filter(shown, Others(id))))
  }

  /** A page showing the store's deleted contacts still shows exactly them
      after a restore. */
  lemma RestoreKeepsPageInStep(s: seq<Contact>, id: int)
    requires WellFormed(s)
    requires RestoreFromPage(s, GetAllDeleted(s), id).Ok?
    ensures var (s', shown') := RestoreFromPage(s, GetAllDeleted(s), id).value;
      shown' == GetAllDeleted(s')
  {
    var k :| 0 <= k < |s| && s[k].id == id && s[k].isDeleted && Restore(s, id).value.0 == s[k := Restore(s, id).value.1] && Restore(s, id).value.1 == s[k].(isDeleted := false, deletedAt := None);
    FilterReplaceDrops(s, k, Restore(s, id).value.1, IsDeletedContact, ContactService.IdOf, Others(id));
  }

  /** A page showing the store's deleted contacts still shows exactly them
      after a permanent delete. */
  lemma PermanentDeleteKeepsPageInStep(s: seq<Contact>, id: int)
    requires WellFormed(s)
    requires PermanentDeleteFromPage(s, GetAllDeleted(s), id).Ok?
    ensures var (s', shown') := PermanentDeleteFromPage(s, GetAllDeleted(s), id).value;
      shown' == GetAllDeleted(s')
  {
    var k :| 0 <= k < |s| && s[k].id == id && PermanentDelete(s, id).value.0 == s[..k] + s[k + 1..];
    FilterRemoveDrops(s, k, IsDeletedContact, ContactService.IdOf, Others(id));
  }
}
