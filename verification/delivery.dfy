/** The simulated delivery outcome of one recipient: a status drawn from a
    uniform `r` by cumulative weights, and a read time within the next hour for
    reads. The values of `Math.random` and `Date.now` are parameters; the
    weights are exact reals. */
module Delivery {
  import opened Base
  import opened ReportService

  /** The candidate statuses in the order the draw tries them. */
  const Statuses: seq<Status> := [Sent, Delivered, Read, Failed]

  /** Their weights: 5%, 15%, 75%, 5%. */
  const Weights: seq<real> := [0.05, 0.15, 0.75, 0.05]

  /** One hour in milliseconds, the window `readAt` falls in. */
  const ReadWindow: int := 3600000

  /** Sum of the first `k` weights. */
  function Cumulative(k: nat): real
    requires k <= |Weights|
  {
    if k == 0 then 0.0 else Cumulative(k - 1) + Weights[k - 1]
  }

  /** The cumulative weights 0.05, 0.20, 0.95 and 1.00. */
  lemma CumulativeValues()
    ensures Cumulative(1) == 0.05 && Cumulative(2) == 0.20
    ensures Cumulative(3) == 0.95 && Cumulative(4) == 1.0
  {
  }

  /** The status bands, stated by their closed-form upper bounds: the first
      band whose bound is at least `r`, and `Read` above all of them. */
  function Band(r: real): Status {
    if r <= 0.05 then Sent
    else if r <= 0.20 then Delivered
    else if r <= 0.95 then Read
    else if r <= 1.0 then Failed
    else Read
  }

  /** The draw loop of `handleSendBroadcast`: accumulate the weights and take
      the first status whose cumulative weight reaches `r`; `Read` when none
      does. */
  method DrawStatus(r: real) returns (s: Status)
    ensures s == Band(r)
  {
    CumulativeValues();
    s := Read;
    var cumulative := 0.0;
    var i := 0;
    while i < |Statuses|
      invariant 0 <= i <= |Statuses|
      invariant cumulative == Cumulative(i)
      invariant forall j :: 1 <= j <= i ==> r > Cumulative(j)
      invariant s == Read
    {
      cumulative := cumulative + Weights[i];
      if r <= cumulative {
        s := Statuses[i];
        break;
      }
      i := i + 1;
    }
  }

  /** The bands have the widths of the weights: on `[0, 1)` each status is
      drawn exactly on its slice, and the fall-back `Read` is never reached. */
  lemma BandSlices(r: real)
    requires 0.0 <= r < 1.0
    ensures Band(r) == Sent <==> r <= Cumulative(1)
    ensures Band(r) == Delivered <==> Cumulative(1) < r <= Cumulative(2)
    ensures Band(r) == Read <==> Cumulative(2) < r <= Cumulative(3)
    ensures Band(r) == Failed <==> Cumulative(3) < r
    ensures Cumulative(4) == 1.0
  {
    CumulativeValues();
  }

  /** `readAt`: for a read, `now` plus a uniform fraction `u` of an hour,
      truncated to whole milliseconds as `Date` does; `null` otherwise. */
  function ReadAt(status: Status, now: Time, u: real): (t: Option<Time>)
    requires 0.0 <= u < 1.0
    ensures t.Some? <==> status == Read
    ensures t.Some? ==> now <= t.value < now + ReadWindow
  {
    if status == Read then Some(now + (u * ReadWindow as real).Floor) else None
  }
}
