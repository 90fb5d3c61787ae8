/** The send action of the broadcast page: refuse an incomplete send, else
    record one broadcast and one simulated delivery report per recipient. */
module BroadcastPage {
  import opened Base
  import opened Store
  import opened Text
  import Markup
  import opened ContactService
  import opened ListService
  import opened BroadcastService
  import opened ReportService
  import opened Delivery

  /** `personalizeMessage(template, contact)`: the text brings in nothing
      but the template and the contact's own name and email. */
  function PersonalizeFor(template: string, c: Contact): (r: string)
    ensures forall ch :: ch in r ==> ch in template || ch in c.name || ch in c.email
  {
    Markup.Personalize(template, c.name, c.email)
  }

  /** The random values and clock reading one recipient's report consumes:
      the status draw `r`, the read-time fraction `u` and `Date.now()`. */
  datatype Draw = Draw(r: real, u: real, now: Time)

  predicate ValidDraw(d: Draw) { 0.0 <= d.u < 1.0 }

  /** The report the page builds for one contact. */
  function ReportFor(broadcastId: int, c: Contact, d: Draw): (x: ReportInput)
    requires ValidDraw(d)
    ensures x.broadcastId == broadcastId && x.contactId == c.id
    ensures x.status == Band(d.r)
    ensures x.readAt.At? <==> x.status == Read
    ensures x.readAt.At? ==> d.now <= x.readAt.t < d.now + ReadWindow
    ensures !x.readAt.At? ==> x.readAt == Null
  {
    var status := Band(d.r);
    ReportInput(broadcastId, c.id, status,
      match ReadAt(status, d.now, d.u) case Some(t) => At(t) case None => Null)
  }

  /** The guard of `handleSendBroadcast`. */
  predicate Refused(selected: Option<ContactList>, message: string, contacts: seq<Contact>) {
    selected.None? || Trim(message) == "" || |contacts| == 0
  }

  /** One report input per contact, in contact order. */
  function Batch(broadcastId: int, contacts: seq<Contact>, draws: seq<Draw>): (xs: seq<ReportInput>)
    requires |draws| == |contacts|
    requires forall i :: 0 <= i < |draws| ==> ValidDraw(draws[i])
    ensures |xs| == |contacts|
    ensures forall i :: 0 <= i < |xs| ==> xs[i] == ReportFor(broadcastId, contacts[i], draws[i])
  {
    seq(|contacts|, i requires 0 <= i < |contacts| => ReportFor(broadcastId, contacts[i], draws[i]))
  }

  /** The accepted branch of `handleSendBroadcast`: store the broadcast,
      then one report per contact. */
  function Record(broadcasts: seq<Broadcast>, reports: seq<Report>, listId: int, text: string,
                  contacts: seq<Contact>, sentAt: Time, draws: seq<Draw>)
    : (r: (seq<Broadcast>, seq<Report>, Broadcast))
    requires |draws| == |contacts|
    requires forall i :: 0 <= i < |draws| ==> ValidDraw(draws[i])
    ensures r.0 == broadcasts + [r.2]
    ensures forall i :: 0 <= i < |broadcasts| ==> broadcasts[i].id < r.2.id
    ensures r.2.listId == listId && r.2.message == text
    ensures r.2.totalRecipients == |contacts| && r.2.sentAt == sentAt
    ensures r.1 == ReportService.CreateBatch(reports, Batch(r.2.id, contacts, draws))
  {
    var (bs, b) := BroadcastService.Create(broadcasts, BroadcastDraft(listId, text, |contacts|), sentAt);
    (bs, ReportService.CreateBatch(reports, Batch(b.id, contacts, draws)), b)
  }

  /** `handleSendBroadcast`: on success the broadcast store gains one
      broadcast with the trimmed message and one recipient per contact, and
      the report store gains one report per contact, in contact order. */
  function Send(broadcasts: seq<Broadcast>, reports: seq<Report>, selected: Option<ContactList>,
                message: string, contacts: seq<Contact>, sentAt: Time, draws: seq<Draw>)
    : (r: Result<(seq<Broadcast>, seq<Report>, Broadcast)>)
    requires |draws| == |contacts|
    requires forall i :: 0 <= i < |draws| ==> ValidDraw(draws[i])
    ensures r.Err? <==> Refused(selected, message, contacts)
    ensures r.Err? ==> r.error == SendRefused
    ensures r.Ok? ==> var (bs, rs, b) := r.value;
      && bs == broadcasts + [b]
      && (forall i :: 0 <= i < |broadcasts| ==> broadcasts[i].id < b.id)
      && b.listId == selected.value.id && b.message == Trim(message)
      && b.totalRecipients == |contacts| && b.sentAt == sentAt
      && Recorded(rs, reports, b.id, contacts, draws)
  {
    if Refused(selected, message, contacts) then Err(SendRefused)
    else
      var r := Record(broadcasts, reports, selected.value.id, Trim(message), contacts, sentAt, draws);
      BatchRecorded(reports, r.2.id, contacts, draws);
      Ok(r)
  }

  /** `rs` is `reports` followed by one report per contact, in contact order,
      each for broadcast `broadcastId` with its drawn status and a read time
      exactly for reads, within the read window after the draw's clock. */
  predicate Recorded(rs: seq<Report>, reports: seq<Report>, broadcastId: int,
                     contacts: seq<Contact>, draws: seq<Draw>)
    requires |draws| == |contacts|
  {
    && |rs| == |reports| + |contacts| && rs[..|reports|] == reports
    && forall i :: 0 <= i < |contacts| ==>
         var x := rs[|reports| + i];
         && x.broadcastId == broadcastId && x.contactId == contacts[i].id
         && x.status == Band(draws[i].r)
         && (x.readAt.Some? <==> x.status == Read)
         && (x.readAt.Some? ==> draws[i].now <= x.readAt.value < draws[i].now + ReadWindow)
  }

  /** Storing the batch built for the contacts records one report per contact. */
  lemma BatchRecorded(reports: seq<Report>, broadcastId: int, contacts: seq<Contact>, draws: seq<Draw>)
    requires |draws| == |contacts|
    requires forall i :: 0 <= i < |draws| ==> ValidDraw(draws[i])
    ensures Recorded(ReportService.CreateBatch(reports, Batch(broadcastId, contacts, draws)),
                     reports, broadcastId, contacts, draws)
  {
    var xs := Batch(broadcastId, contacts, draws);
    var rs := ReportService.CreateBatch(reports, xs);
    forall i | 0 <= i < |contacts|
      ensures var x := rs[|reports| + i];
        && x.broadcastId == broadcastId && x.contactId == contacts[i].id
        && x.status == Band(draws[i].r)
        && (x.readAt.Some? <==> x.status == Read)
        && (x.readAt.Some? ==> draws[i].now <= x.readAt.value < draws[i].now + ReadWindow)
    {
      assert xs[i] == ReportFor(broadcastId, contacts[i], draws[i]);
    }
  }

  /** Every stored report refers to a stored broadcast. */
  predicate ReportsReferToBroadcasts(broadcasts: seq<Broadcast>, reports: seq<Report>) {
    forall i :: 0 <= i < |reports| ==> HasKey(broadcasts, BroadcastService.IdOf, reports[i].broadcastId)
  }

  /** A send only adds reports that refer to the broadcast it stores. */
  lemma SendKeepsReferences(broadcasts: seq<Broadcast>, reports: seq<Report>, selected: Option<ContactList>,
                            message: string, contacts: seq<Contact>, sentAt: Time, draws: seq<Draw>)
    requires |draws| == |contacts|
    requires forall i :: 0 <= i < |draws| ==> ValidDraw(draws[i])
    requires ReportsReferToBroadcasts(broadcasts, reports)
    requires Send(broadcasts, reports, selected, message, contacts, sentAt, draws).Ok?
    ensures var (bs, rs, _) := Send(broadcasts, reports, selected, message, contacts, sentAt, draws).value;
      ReportsReferToBroadcasts(bs, rs)
  {
    RecordKeepsReferences(broadcasts, reports, selected.value.id, Trim(message), contacts, sentAt, draws);
  }

  lemma RecordKeepsReferences(broadcasts: seq<Broadcast>, reports: seq<Report>, listId: int, text: string,
                              contacts: seq<Contact>, sentAt: Time, draws: seq<Draw>)
    requires |draws| == |contacts|
    requires forall i :: 0 <= i < |draws| ==> ValidDraw(draws[i])
    requires ReportsReferToBroadcasts(broadcasts, reports)
    ensures var (bs, rs, _) := Record(broadcasts, reports, listId, text, contacts, sentAt, draws);
      ReportsReferToBroadcasts(bs, rs)
  {
    var (bs, rs, b) := Record(broadcasts, reports, listId, text, contacts, sentAt, draws);
    BatchRecorded(reports, b.id, contacts, draws);
    forall i | |reports| <= i < |rs| ensures rs[i].broadcastId == b.id {
      assert rs[i] == rs[|reports| + (i - |reports|)];
    }
    AppendKeepsReferences(broadcasts, reports, b, rs);
  }

  /** Appending a broadcast and reports that all refer to it keeps every
      report pointing at a stored broadcast. */
  lemma AppendKeepsReferences(broadcasts: seq<Broadcast>, reports: seq<Report>, b: Broadcast, rs: seq<Report>)
    requires ReportsReferToBroadcasts(broadcasts, reports)
    requires |reports| <= |rs| && rs[..|reports|] == reports
    requires forall i :: |reports| <= i < |rs| ==> rs[i].broadcastId == b.id
    ensures ReportsReferToBroadcasts(broadcasts + [b], rs)
  {
    var bs := broadcasts + [b];
    forall i | 0 <= i < |rs| ensures HasKey(bs, BroadcastService.IdOf, rs[i].broadcastId) {
      if i < |reports| {
        assert rs[i] == reports[i];
        var k :| 0 <= k < |broadcasts| && BroadcastService.IdOf(broadcasts[k]) == reports[i].broadcastId;
        assert bs[k] == broadcasts[k];
      } else {
        assert bs[|broadcasts|] == b;
      }
    }
  }

  /** The reports page's query for broadcast `b` returns exactly its
      `totalRecipients` reports, one per contact in contact order. */
  predicate ReadsBack(rs: seq<Report>, b: Broadcast, contacts: seq<Contact>) {
    var mine := GetByBroadcastId(rs, b.id);
    && |mine| == b.totalRecipients == |contacts|
    && forall i :: 0 <= i < |mine| ==> mine[i].contactId == contacts[i].id
  }

  /** After a send, the reports page's query for the new broadcast returns
      exactly its `totalRecipients` reports, one per contact in order. */
  lemma SendReadBack(broadcasts: seq<Broadcast>, reports: seq<Report>, selected: Option<ContactList>,
                     message: string, contacts: seq<Contact>, sentAt: Time, draws: seq<Draw>)
    requires |draws| == |contacts|
    requires forall i :: 0 <= i < |draws| ==> ValidDraw(draws[i])
    requires ReportsReferToBroadcasts(broadcasts, reports)
    requires Send(broadcasts, reports, selected, message, contacts, sentAt, draws).Ok?
    ensures var (_, rs, b) := Send(broadcasts, reports, selected, message, contacts, sentAt, draws).value;
      ReadsBack(rs, b, contacts)
  {
    RecordReadBack(broadcasts, reports, selected.value.id, Trim(message), contacts, sentAt, draws);
  }

  lemma RecordReadBack(broadcasts: seq<Broadcast>, reports: seq<Report>, listId: int, text: string,
                       contacts: seq<Contact>, sentAt: Time, draws: seq<Draw>)
    requires |draws| == |contacts|
    requires forall i :: 0 <= i < |draws| ==> ValidDraw(draws[i])
    requires ReportsReferToBroadcasts(broadcasts, reports)
    ensures var (_, rs, b) := Record(broadcasts, reports, listId, text, contacts, sentAt, draws);
      ReadsBack(rs, b, contacts)
  {
    var (_, rs, b) := Record(broadcasts, reports, listId, text, contacts, sentAt, draws);
    var batch := Batch(b.id, contacts, draws);
    forall i | 0 <= i < |reports| ensures reports[i].broadcastId != b.id {
      var k :| 0 <= k < |broadcasts| && BroadcastService.IdOf(broadcasts[k]) == reports[i].broadcastId;
    }
    BatchReadBack(reports, batch, b.id);
  }
}
