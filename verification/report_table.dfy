/** The report table: each report joined with its contact, the status
    filter, the per-status tab counts and the status badge. */
module ReportTable {
  import opened Base
  import opened Store
  import opened ContactService
  import opened ReportService
  import ReportsPage

  /** The contact fields a row shows. */
  datatype Card = Card(name: string, whatsappNumber: string, email: string)

  /** The placeholder for a report whose contact is not among those loaded. */
  const UnknownCard: Card := Card("Unknown", "", "")

  function CardOf(c: Contact): Card { Card(c.name, c.whatsappNumber, c.email) }

  datatype Row = Row(report: Report, contact: Card)

  /** One row: the first loaded contact with the report's contact id, or the
      placeholder. */
  function RowFor(x: Report, contacts: seq<Contact>): (row: Row)
    ensures row.report == x
    ensures !HasKey(contacts, ContactService.IdOf, x.contactId) ==> row.contact == UnknownCard
    ensures HasKey(contacts, ContactService.IdOf, x.contactId) ==> exists k :: 0 <= k < |contacts| && contacts[k].id == x.contactId && row.contact == CardOf(contacts[k]) && forall j :: 0 <= j < k ==> contacts[j].id != x.contactId
  {
    match IndexOf(contacts, ContactService.IdOf, x.contactId)
    case None => Row(x, UnknownCard)
    case Some(k) => Row(x, CardOf(contacts[k]))
  }

  /** `combinedData`: one row per report, in report order. */
  function Join(reports: seq<Report>, contacts: seq<Contact>): (rows: seq<Row>)
    ensures |rows| == |reports|
    ensures forall i :: 0 <= i < |rows| ==> rows[i] == RowFor(reports[i], contacts)
  {
    if |reports| == 0 then [] else [RowFor(reports[0], contacts)] + Join(reports[1..], contacts)
  }

  /** With unique contact ids, a report whose contact is loaded shows exactly
      that contact. */
  lemma JoinShowsContact(reports: seq<Report>, contacts: seq<Contact>, i: nat, k: nat)
    requires UniqueKeys(contacts, ContactService.IdOf)
    requires i < |reports| && k < |contacts| && contacts[k].id == reports[i].contactId
    ensures Join(reports, contacts)[i].contact == CardOf(contacts[k])
  {
    IndexOfUnique(contacts, ContactService.IdOf, reports[i].contactId, k);
  }

  /** The status tab selected: `'all'` or one status. */
  datatype StatusFilter = All | Only(status: Status)

  /** `filteredData`. */
  function Apply(f: StatusFilter, rows: seq<Row>): (r: seq<Row>)
    ensures f.All? ==> r == rows
    ensures f.Only? ==> Subsequence(r, rows)
    ensures f.Only? ==> forall i :: 0 <= i < |r| ==> r[i].report.status == f.status
    ensures f.Only? ==> forall i :: 0 <= i < |rows| && rows[i].report.status == f.status ==> rows[i] in r
  {
    match f
    case All => rows
    case Only(st) =>
      var p := (row: Row) => row.report.status == st;
      FilterMembers(rows, p);
      Filter(rows, p)
  }

  datatype TabCounts = TabCounts(all: nat, sent: nat, delivered: nat, read: nat, failed: nat)

  /** `statusCounts`: the size of each tab. */
  function Tabs(rows: seq<Row>): (c: TabCounts)
    ensures c.all == |Apply(All, rows)|
    ensures c.sent == |Apply(Only(Sent), rows)| && c.delivered == |Apply(Only(Delivered), rows)|
    ensures c.read == |Apply(Only(Read), rows)| && c.failed == |Apply(Only(Failed), rows)|
  {
    TabCounts(|rows|, |Apply(Only(Sent), rows)|, |Apply(Only(Delivered), rows)|,
      |Apply(Only(Read), rows)|, |Apply(Only(Failed), rows)|)
  }

  /** A status tab of the joined rows is as long as the reports with that
      status. */
  lemma {:induction false} TabMatchesReports(reports: seq<Report>, contacts: seq<Contact>, st: Status)
    ensures |Apply(Only(st), Join(reports, contacts))| == |ReportsPage.Having(reports, st)|
  {
    if |reports| > 0 {
      TabMatchesReports(reports[1..], contacts, st);
      var rows := Join(reports, contacts);
      assert rows[1..] == Join(reports[1..], contacts);
    }
  }

  /** The table's tab counts agree with the reports page's status counts. */
  lemma TabsMatchPageCounts(reports: seq<Report>, contacts: seq<Contact>)
    ensures var t := Tabs(Join(reports, contacts)); var c := ReportsPage.StatusCounts(reports);
      t.all == c.total && t.sent == c.sent && t.delivered == c.delivered && t.read == c.read && t.failed == c.failed
  {
    TabMatchesReports(reports, contacts, Sent);
    TabMatchesReports(reports, contacts, Delivered);
    TabMatchesReports(reports, contacts, Read);
    TabMatchesReports(reports, contacts, Failed);
  }

  datatype Badge = Badge(variant: string, icon: string, caption: string)

  const SentBadge: Badge := Badge("info", "Send", "Sent")

  /** `getStatusBadge`'s configuration: a status with no entry of its own
      shows as sent, and only such a status and `sent` itself do. */
  function BadgeFor(s: Status): (b: Badge)
    ensures b == SentBadge <==> s == Sent || s.Other?
  {
    match s
    case Sent => SentBadge
    case Delivered => Badge("warning", "Truck", "Delivered")
    case Read => Badge("success", "Eye", "Read")
    case Failed => Badge("error", "X", "Failed")
    case Other(_) => SentBadge
  }

  /** On the status strings the store holds: the sent badge shows exactly
      for `sent` and for a string with no badge entry of its own. */
  lemma BadgeForName(name: string)
    ensures BadgeFor(StatusOf(name)) == SentBadge <==> name == "sent" || name !in KnownNames
  {
  }

  /** The four known statuses have four different badges. */
  lemma BadgesDistinct(a: Status, b: Status)
    requires IsKnown(a) && IsKnown(b) && a != b
    ensures BadgeFor(a) != BadgeFor(b)
  {
  }
}
