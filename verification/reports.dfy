/** The report service: an append-only array of per-recipient delivery
    reports keyed by (broadcastId, contactId). It has no update and no delete. */
module ReportService {
  import opened Base
  import opened Store

  /** A delivery status; `Other` stands for any string the store holds that
      is none of the four the console writes. */
  datatype Status = Sent | Delivered | Read | Failed | Other(name: string)

  predicate IsKnown(s: Status) { !s.Other? }

  const KnownNames: set<string> := {"sent", "delivered", "read", "failed"}

  /** The string a status stands for in the store. */
  function NameOf(s: Status): string {
    match s
    case Sent => "sent"
    case Delivered => "delivered"
    case Read => "read"
    case Failed => "failed"
    case Other(n) => n
  }

  /** `Other` never carries one of the four names the console writes, so a
      stored string has exactly one canonical status. */
  predicate Canonical(s: Status) { s.Other? ==> s.name !in KnownNames }

  /** The status a stored string stands for. */
  function StatusOf(name: string): (s: Status)
    ensures Canonical(s) && NameOf(s) == name
    ensures s.Other? <==> name !in KnownNames
  {
    if name == "sent" then Sent
    else if name == "delivered" then Delivered
    else if name == "read" then Read
    else if name == "failed" then Failed
    else Other(name)
  }

  /** A canonical status is recovered from its string, so canonical
      statuses with the same string are equal. */
  lemma StatusOfNameOf(s: Status)
    requires Canonical(s)
    ensures StatusOf(NameOf(s)) == s
  {
  }

  datatype Report = Report(broadcastId: int, contactId: int, status: Status, readAt: Option<Time>)

  /** The `readAt` value a caller hands over: an ISO timestamp or one of the
      falsy values such a field can hold. */
  datatype RawStamp = Null | Undefined | EmptyString | At(t: Time)

  /** A report as passed to `create` and `createBatch`. */
  datatype ReportInput = ReportInput(broadcastId: int, contactId: int, status: Status, readAt: RawStamp)

  /** `getByBroadcastId`: the reports of one broadcast, in stored order. */
  function GetByBroadcastId(s: seq<Report>, broadcastId: int): (r: seq<Report>)
    ensures forall i :: 0 <= i < |r| ==> r[i] in s && r[i].broadcastId == broadcastId
    ensures forall i :: 0 <= i < |s| && s[i].broadcastId == broadcastId ==> s[i] in r
    ensures Subsequence(r, s)
  {
    var p := (x: Report) => x.broadcastId == broadcastId;
    FilterMembers(s, p);
    Filter(s, p)
  }

  /** `readAt || null`: a falsy stamp becomes `null`. */
  function StampOrNull(x: RawStamp): (r: Option<Time>)
    ensures r.Some? <==> x.At?
    ensures r.Some? ==> r.value == x.t
  {
    if x.At? then Some(x.t) else None
  }

  function Stored(x: ReportInput): Report {
    Report(x.broadcastId, x.contactId, x.status, StampOrNull(x.readAt))
  }

  /** `create`: append exactly one report. */
  function Create(s: seq<Report>, x: ReportInput): (r: seq<Report>)
    ensures |r| == |s| + 1 && r[..|s|] == s
    ensures r[|s|].broadcastId == x.broadcastId && r[|s|].contactId == x.contactId && r[|s|].status == x.status
    ensures r[|s|].readAt.Some? <==> x.readAt.At?
    ensures x.readAt.At? ==> r[|s|].readAt == Some(x.readAt.t)
  {
    s + [Stored(x)]
  }

  /** `createBatch`: append the reports in input order, a falsy `readAt`
      stored as `null`. */
  function CreateBatch(s: seq<Report>, xs: seq<ReportInput>): (r: seq<Report>)
    ensures |r| == |s| + |xs| && r[..|s|] == s
    ensures forall i :: 0 <= i < |xs| ==> r[|s| + i].broadcastId == xs[i].broadcastId && r[|s| + i].contactId == xs[i].contactId
    ensures forall i :: 0 <= i < |xs| ==> r[|s| + i].status == xs[i].status
    ensures forall i :: 0 <= i < |xs| ==> (r[|s| + i].readAt.Some? <==> xs[i].readAt.At?)
    ensures forall i :: 0 <= i < |xs| && xs[i].readAt.At? ==> r[|s| + i].readAt == Some(xs[i].readAt.t)
  {
    var added := seq(|xs|, i requires 0 <= i < |xs| => Stored(xs[i]));
    assert forall i :: 0 <= i < |xs| ==> (s + added)[|s| + i] == Stored(xs[i]);
    s + added
  }

  /** Reading back one broadcast's reports after a batch for a broadcast id
      no stored report carries gives exactly that batch, in order. */
  lemma BatchReadBack(s: seq<Report>, xs: seq<ReportInput>, broadcastId: int)
    requires forall i :: 0 <= i < |s| ==> s[i].broadcastId != broadcastId
    requires forall i :: 0 <= i < |xs| ==> xs[i].broadcastId == broadcastId
    ensures var r := GetByBroadcastId(CreateBatch(s, xs), broadcastId);
      |r| == |xs| && forall i :: 0 <= i < |xs| ==> r[i] == Stored(xs[i])
  {
    var p := (x: Report) => x.broadcastId == broadcastId;
    var added := seq(|xs|, i requires 0 <= i < |xs| => Stored(xs[i]));
    FilterNone(s, p);
    FilterAppend(s, added, p);
    FilterAll(added, p);
  }
}
