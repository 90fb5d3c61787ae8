/** The broadcast service: an append-only array of sent broadcasts with max+1
    ids, and `getLatest`, which stable-sorts by `sentAt` descending and takes
    the head. */
module BroadcastService {
  import opened Base
  import opened Store

  datatype Broadcast = Broadcast(id: int, listId: int, message: string, sentAt: Time, totalRecipients: int)

  /** The payload a sender passes to `create`. */
  datatype BroadcastDraft = BroadcastDraft(listId: int, message: string, totalRecipients: int)

  function IdOf(b: Broadcast): int { b.id }

  /** `getById`. */
  function GetById(s: seq<Broadcast>, id: int): (r: Result<Broadcast>)
    ensures r.Err? <==> !HasKey(s, IdOf, id)
    ensures r.Err? ==> r.error == NotFound("Broadcast")
    ensures r.Ok? ==> r.value in s && r.value.id == id
    ensures r.Ok? ==> exists k :: 0 <= k < |s| && s[k] == r.value && forall j :: 0 <= j < k ==> s[j].id != id
  {
    match IndexOf(s, IdOf, id)
    case None => Err(NotFound("Broadcast"))
    case Some(k) => Ok(s[k])
  }

  /** `create`: append one broadcast stamped `now`, id max+1, the draft's
      fields copied. */
  function Create(s: seq<Broadcast>, d: BroadcastDraft, now: Time): (r: (seq<Broadcast>, Broadcast))
    ensures r.0 == s + [r.1]
    ensures forall i :: 0 <= i < |s| ==> s[i].id < r.1.id
    ensures |s| == 0 ==> r.1.id == 1
    ensures |s| > 0 ==> HasKey(s, IdOf, r.1.id - 1)
    ensures r.1.listId == d.listId && r.1.message == d.message
    ensures r.1.totalRecipients == d.totalRecipients && r.1.sentAt == now
  {
    var b := Broadcast(NextKey(s, IdOf), d.listId, d.message, now, d.totalRecipients);
    (s + [b], b)
  }

  /** `b` is the stored broadcast with the greatest `sentAt` that comes first
      in the store. */
  predicate IsLatest(s: seq<Broadcast>, b: Broadcast) {
    exists k :: 0 <= k < |s| && s[k] == b
      && (forall i :: 0 <= i < |s| ==> s[i].sentAt <= b.sentAt)
      && (forall j :: 0 <= j < k ==> s[j].sentAt < b.sentAt)
  }

  /** At most one broadcast is the latest. */
  lemma LatestUnique(s: seq<Broadcast>, a: Broadcast, b: Broadcast)
    requires IsLatest(s, a) && IsLatest(s, b)
    ensures a == b
  {
    var ka :| 0 <= ka < |s| && s[ka] == a
      && (forall i :: 0 <= i < |s| ==> s[i].sentAt <= a.sentAt)
      && (forall j :: 0 <= j < ka ==> s[j].sentAt < a.sentAt);
    var kb :| 0 <= kb < |s| && s[kb] == b
      && (forall i :: 0 <= i < |s| ==> s[i].sentAt <= b.sentAt)
      && (forall j :: 0 <= j < kb ==> s[j].sentAt < b.sentAt);
    assert a.sentAt == b.sentAt;
    assert ka == kb;
  }

  /** `getLatest`: `null` for an empty store, otherwise the broadcast a stable
      descending sort on `sentAt` puts first: the earliest stored one among
      those with the greatest `sentAt`. */
  method GetLatest(s: seq<Broadcast>) returns (r: Option<Broadcast>)
    ensures r.None? <==> |s| == 0
    ensures r.Some? ==> r.value in s
    ensures r.Some? ==> forall i :: 0 <= i < |s| ==> s[i].sentAt <= r.value.sentAt
    ensures r.Some? ==> exists k :: 0 <= k < |s| && s[k] == r.value && forall j :: 0 <= j < k ==> s[j].sentAt < r.value.sentAt
    ensures r.Some? ==> IsLatest(s, r.value)
  {
    if |s| == 0 {
      return None;
    }
    var best := 0;
    var i := 1;
    while i < |s|
      invariant 0 <= best < i <= |s|
      invariant forall j :: 0 <= j < i ==> s[j].sentAt <= s[best].sentAt
      invariant forall j :: 0 <= j < best ==> s[j].sentAt < s[best].sentAt
    {
      if s[i].sentAt > s[best].sentAt {
        best := i;
      }
      i := i + 1;
    }
    return Some(s[best]);
  }

  /** Creating broadcasts keeps ids unique. */
  lemma CreateKeepsUnique(s: seq<Broadcast>, d: BroadcastDraft, now: Time)
    requires UniqueKeys(s, IdOf)
    ensures UniqueKeys(Create(s, d, now).0, IdOf)
  {
    AppendFreshKeepsUnique(s, [Create(s, d, now).1], IdOf);
  }
}
