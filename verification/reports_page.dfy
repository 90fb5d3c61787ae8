/** The reports page: it loads the latest broadcast with its reports, the
    active contacts of its list and the list itself, and summarises the
    reports as status counts and two rounded percentages. */
module ReportsPage {
  import opened Base
  import opened Store
  import opened ContactService
  import opened ListService
  import opened BroadcastService
  import opened ReportService

  /** The test `r.status === st`. */
  function WithStatus(st: Status): Report -> bool {
    (x: Report) => x.status == st
  }

  /** The reports carrying one status, in order. */
  function Having(rs: seq<Report>, st: Status): (r: seq<Report>)
    ensures forall i :: 0 <= i < |r| ==> r[i] in rs && r[i].status == st
    ensures forall i :: 0 <= i < |rs| && rs[i].status == st ==> rs[i] in r
    ensures Subsequence(r, rs)
  {
    FilterMembers(rs, WithStatus(st));
    Filter(rs, WithStatus(st))
  }

  /** The status of every report, in order. */
  function Statuses(rs: seq<Report>): (ss: seq<Status>)
    ensures |ss| == |rs| && forall i :: 0 <= i < |rs| ==> ss[i] == rs[i].status
  {
    seq(|rs|, i requires 0 <= i < |rs| => rs[i].status)
  }

  /** As many reports have a status as it occurs among the statuses. */
  lemma {:induction false} HavingCount(rs: seq<Report>, st: Status)
    ensures |Having(rs, st)| == multiset(Statuses(rs))[st]
  {
    if |rs| > 0 {
      HavingCount(rs[1..], st);
      assert Statuses(rs) == [rs[0].status] + Statuses(rs[1..]);
    }
  }

  datatype Counts = Counts(total: nat, sent: nat, delivered: nat, read: nat, failed: nat)

  /** `getStatusCounts`: the number of reports, and how many carry each of the
      four statuses. */
  function StatusCounts(rs: seq<Report>): (c: Counts)
    ensures c.total == |rs|
    ensures c.sent == multiset(Statuses(rs))[Sent] && c.delivered == multiset(Statuses(rs))[Delivered]
    ensures c.read == multiset(Statuses(rs))[Read] && c.failed == multiset(Statuses(rs))[Failed]
  {
    HavingCount(rs, Sent);
    HavingCount(rs, Delivered);
    HavingCount(rs, Read);
    HavingCount(rs, Failed);
    Counts(|rs|, |Having(rs, Sent)|, |Having(rs, Delivered)|, |Having(rs, Read)|, |Having(rs, Failed)|)
  }

  /** The four counts never exceed the total, and add up to it exactly when
      every report has one of the four statuses. */
  lemma CountsAddUp(rs: seq<Report>)
    ensures var c := StatusCounts(rs);
      && c.sent + c.delivered + c.read + c.failed <= c.total
      && (c.sent + c.delivered + c.read + c.failed == c.total <==> forall i :: 0 <= i < |rs| ==> IsKnown(rs[i].status))
  {
    KnownCount(Statuses(rs));
  }

  /** Occurrences of the four known statuses add up to at most the length,
      and to exactly the length when no other status occurs. */
  lemma {:induction false} KnownCount(ss: seq<Status>)
    ensures var m := multiset(ss);
      && m[Sent] + m[Delivered] + m[Read] + m[Failed] <= |ss|
      && (m[Sent] + m[Delivered] + m[Read] + m[Failed] == |ss| <==> forall i :: 0 <= i < |ss| ==> IsKnown(ss[i]))
  {
    if |ss| > 0 {
      KnownCount(ss[1..]);
      assert ss == [ss[0]] + ss[1..];
      assert forall i :: 1 <= i < |ss| ==> ss[i] == ss[1..][i - 1];
    }
  }

  /** `Math.round(100 * part / total)` on exact rationals: the nearest
      integer, halves rounded up, i.e. the `r` with
      `r - 1/2 <= 100 * part / total < r + 1/2`. */
  function RoundPercent(part: nat, total: nat): (r: nat)
    requires part <= total && total > 0
    ensures r <= 100
    ensures 2 * total * r - total <= 200 * part < 2 * total * r + total
  {
    var q := 200 * part + total;
    var d := 2 * total;
    var r := q / d;
    assert q == d * r + q % d;
    assert r <= 100 by {
      if r > 100 {
        MulLeft(d, 101, r);
      }
    }
    r
  }

  /** Multiplying by a non-negative number preserves order. */
  lemma {:induction false} MulLeft(d: nat, x: int, y: int)
    requires x <= y
    ensures d * x <= d * y
  {
    if d > 0 {
      MulLeft(d - 1, x, y);
      assert d * x == (d - 1) * x + x;
      assert d * y == (d - 1) * y + y;
    }
  }

  /** Rounding is monotone in the part. */
  lemma RoundPercentMonotone(p: nat, q: nat, total: nat)
    requires p <= q <= total && total > 0
    ensures RoundPercent(p, total) <= RoundPercent(q, total)
  {
    var a := RoundPercent(p, total);
    var b := RoundPercent(q, total);
    if a > b {
      MulLeft(2 * total, b + 1, a);
    }
  }

  /** `getEngagementRate`: the share of reports read. */
  function EngagementRate(c: Counts): (r: nat)
    requires c.read <= c.total
    ensures c.total == 0 ==> r == 0
    ensures c.total > 0 ==> r == RoundPercent(c.read, c.total)
  {
    if c.total == 0 then 0 else RoundPercent(c.read, c.total)
  }

  /** `getDeliveryRate`: the share of reports delivered or read. */
  function DeliveryRate(c: Counts): (r: nat)
    requires c.delivered + c.read <= c.total
    ensures c.total == 0 ==> r == 0
    ensures c.total > 0 ==> r == RoundPercent(c.delivered + c.read, c.total)
  {
    if c.total == 0 then 0 else RoundPercent(c.delivered + c.read, c.total)
  }

  /** Both rates of a set of reports are percentages, and no more reports
      are read than delivered-or-read. */
  lemma RatesOrdered(rs: seq<Report>)
    ensures var c := StatusCounts(rs);
      && c.delivered + c.read <= c.total
      && EngagementRate(c) <= DeliveryRate(c) <= 100
  {
    CountsAddUp(rs);
    var c := StatusCounts(rs);
    if c.total > 0 {
      RoundPercentMonotone(c.read, c.delivered + c.read, c.total);
    }
  }

  /** What the page shows once loaded. */
  datatype View = View(broadcast: Broadcast, reports: seq<Report>, contacts: seq<Contact>, list: ContactList)

  /** `loadLatestReport`: nothing to show without broadcasts; otherwise the
      latest broadcast's reports, the active contacts of its list and the list
      record, failing when that list no longer exists. */
  method LoadLatest(bs: seq<Broadcast>, rs: seq<Report>, cs: seq<Contact>, ls: seq<ContactList>)
    returns (r: Result<Option<View>>)
    ensures r == Ok(None) <==> |bs| == 0
    ensures r.Err? ==> r.error == NotFound("List")
    ensures r.Err? <==> exists b :: IsLatest(bs, b) && !HasKey(ls, ListService.IdOf, b.listId)
    ensures r.Ok? && r.value.Some? ==> var v := r.value.value;
      && IsLatest(bs, v.broadcast)
      && v.reports == GetByBroadcastId(rs, v.broadcast.id)
      && v.contacts == GetByListId(cs, v.broadcast.listId)
      && v.list.id == v.broadcast.listId && v.list in ls
  {
    var latest := GetLatest(bs);
    if latest.None? {
      return Ok(None);
    }
    var b := latest.value;
    forall b' | IsLatest(bs, b') ensures b' == b {
      LatestUnique(bs, b, b');
    }
    var mine := GetByBroadcastId(rs, b.id);
    var members := GetByListId(cs, b.listId);
    match ListService.GetById(ls, b.listId)
    case Err(e) =>
      return Err(e);
    case Ok(l) =>
      return Ok(Some(View(b, mine, members, l)));
  }
}
