/** The request ledger (`requests.json`) of `scripts/vc-teams.js` as a value:
    entries opened by request-type sends and resolved, at most once each, by
    response-type sends. The methods that update a stored ledger are in
    `Store.TeamStore`. */
module Ledger {
  import opened Outcomes
  import opened Options
  import opened Names

  datatype Status = Pending | Approved | Rejected

  /** One ledger entry. The request id is whatever value the send carried
      (text, or `true` for a bare `--request-id` flag). */
  datatype PendingRequest = PendingRequest(
    requestId: Raw,
    requestType: string,
    status: Status,
    createdAt: int,
    from: string,
    to: string,
    summary: string,
    resolvedAt: Option<int>,
    resolvedBy: Option<string>,
    resolutionType: Option<string>)

  /** The entry `addPendingRequest` appends for a request-type send. */
  function OpenRequest(requestId: Raw, requestType: string, now: int, from: string, to: string, summary: string): (e: PendingRequest)
    ensures e.status == Pending && e.requestId == requestId
    ensures e.resolvedAt.None? && e.resolvedBy.None? && e.resolutionType.None?
  {
    PendingRequest(requestId, requestType, Pending, now, from, to, summary, None, None, None)
  }

  /** The `findIndex` predicate of `resolvePendingRequest`. */
  predicate IsPendingWith(e: PendingRequest, rid: Raw) {
    e.requestId == rid && e.status == Pending
  }

  predicate FirstPendingWith(reqs: seq<PendingRequest>, rid: Raw, k: int) {
    0 <= k < |reqs| && IsPendingWith(reqs[k], rid)
    && forall j :: 0 <= j < k ==> !IsPendingWith(reqs[j], rid)
  }

  function FindPending(reqs: seq<PendingRequest>, rid: Raw): (r: Option<nat>)
    ensures r.None? <==> forall i :: 0 <= i < |reqs| ==> !IsPendingWith(reqs[i], rid)
    ensures r.Some? ==> FirstPendingWith(reqs, rid, r.value)
  {
    if reqs == [] then None
    else if IsPendingWith(reqs[0], rid) then Some(0)
    else match FindPending(reqs[1..], rid)
      case None => None
      case Some(i) => Some(i + 1)
  }

  /** The resolution of one entry, the resolver name already sanitized. */
  function Resolved(e: PendingRequest, approve: bool, resolver: string, resolutionType: string, now: int): PendingRequest {
    e.(status := if approve then Approved else Rejected, resolvedAt := Some(now),
       resolvedBy := Some(resolver), resolutionType := Some(resolutionType))
  }

  /** The critical section of `resolvePendingRequest`: the first pending entry
      with the id is resolved and nothing else changes; the ledger written
      back and the resolved entry are returned. Without a pending entry, or
      with a resolver name that does not sanitize, nothing is written. */
  function Resolve(reqs: seq<PendingRequest>, rid: Raw, resolver: string, approve: bool,
                   resolutionType: string, now: int): (r: Result<(seq<PendingRequest>, PendingRequest)>)
    ensures r == Err(NoPendingRequest) <==> forall i :: 0 <= i < |reqs| ==> !IsPendingWith(reqs[i], rid)
    ensures r.Err? && r.error != NoPendingRequest ==> SanitizeName(resolver).Err?
    ensures r.Ok? ==>
      var (after, entry) := r.value;
      && SanitizeName(resolver).Ok?
      && |after| == |reqs|
      && exists k :: FirstPendingWith(reqs, rid, k)
           && after[k] == entry
           && entry == reqs[k].(status := if approve then Approved else Rejected, resolvedAt := Some(now),
                                resolvedBy := Some(SanitizeName(resolver).value),
                                resolutionType := Some(resolutionType))
           && forall j :: 0 <= j < |reqs| && j != k ==> after[j] == reqs[j]
  {
    match FindPending(reqs, rid)
    case None => Err(NoPendingRequest)
    case Some(k) =>
      var resolvedBy :- SanitizeName(resolver);
      var entry := Resolved(reqs[k], approve, resolvedBy, resolutionType, now);
      Ok((reqs[k := entry], entry))
  }

  /** `getPendingRequests`: the pending entries, in ledger order. */
  function PendingOf(reqs: seq<PendingRequest>): (r: seq<PendingRequest>)
    ensures |r| <= |reqs|
    ensures forall e :: e in r <==> e in reqs && e.status == Pending
  {
    if reqs == [] then []
    else (if reqs[0].status == Pending then [reqs[0]] else []) + PendingOf(reqs[1..])
  }

  lemma {:induction false} PendingOfConcat(a: seq<PendingRequest>, b: seq<PendingRequest>)
    ensures PendingOf(a + b) == PendingOf(a) + PendingOf(b)
  {
    if a == [] {
      assert a + b == b;
    } else {
      assert (a + b)[0] == a[0] && (a + b)[1..] == a[1..] + b;
      PendingOfConcat(a[1..], b);
    }
  }

  /** Opening a request appends it to the pending list. */
  lemma OpenedRequestIsPending(reqs: seq<PendingRequest>, e: PendingRequest)
    requires e.status == Pending
    ensures PendingOf(reqs + [e]) == PendingOf(reqs) + [e]
  {
    PendingOfConcat(reqs, [e]);
    assert [e][1..] == [];
  }

  /** How many entries are pending with the id. */
  function PendingCount(reqs: seq<PendingRequest>, rid: Raw): (n: nat)
    ensures n <= |reqs|
    ensures n == 0 <==> forall i :: 0 <= i < |reqs| ==> !IsPendingWith(reqs[i], rid)
  {
    if reqs == [] then 0
    else (if IsPendingWith(reqs[0], rid) then 1 else 0) + PendingCount(reqs[1..], rid)
  }

  lemma {:induction false} PendingCountConcat(a: seq<PendingRequest>, b: seq<PendingRequest>, rid: Raw)
    ensures PendingCount(a + b, rid) == PendingCount(a, rid) + PendingCount(b, rid)
  {
    if a == [] {
      assert a + b == b;
    } else {
      assert (a + b)[0] == a[0] && (a + b)[1..] == a[1..] + b;
      PendingCountConcat(a[1..], b, rid);
    }
  }

  lemma PendingCountUpdate(s: seq<PendingRequest>, k: nat, v: PendingRequest, rid: Raw)
    requires k < |s|
    ensures PendingCount(s[k := v], rid)
         == PendingCount(s, rid) - (if IsPendingWith(s[k], rid) then 1 else 0) + (if IsPendingWith(v, rid) then 1 else 0)
  {
    assert s == s[..k] + [s[k]] + s[k + 1..];
    assert s[k := v] == s[..k] + [v] + s[k + 1..];
    PendingCountConcat(s[..k] + [s[k]], s[k + 1..], rid);
    PendingCountConcat(s[..k], [s[k]], rid);
    PendingCountConcat(s[..k] + [v], s[k + 1..], rid);
    PendingCountConcat(s[..k], [v], rid);
  }

  /** A resolution removes exactly one pending entry with that id, and the
      pending list shrinks by one; when it was the only one, a second
      resolution of the same id finds nothing. */
  lemma ResolveConsumesOne(reqs: seq<PendingRequest>, rid: Raw, resolver: string, approve: bool,
                           resolutionType: string, now: int)
    requires Resolve(reqs, rid, resolver, approve, resolutionType, now).Ok?
    ensures var after := Resolve(reqs, rid, resolver, approve, resolutionType, now).value.0;
      && PendingCount(after, rid) == PendingCount(reqs, rid) - 1
      && |PendingOf(after)| == |PendingOf(reqs)| - 1
    ensures PendingCount(reqs, rid) == 1 ==>
      forall resolver2, approve2, type2, now2 ::
        Resolve(Resolve(reqs, rid, resolver, approve, resolutionType, now).value.0, rid, resolver2, approve2, type2, now2)
          == Err(NoPendingRequest)
  {
    var k := FindPending(reqs, rid).value;
    var after := Resolve(reqs, rid, resolver, approve, resolutionType, now).value.0;
    var entry := after[k];
    PendingCountUpdate(reqs, k, entry, rid);
    PendingOfUpdate(reqs, k, entry);
  }

  lemma PendingOfUpdate(s: seq<PendingRequest>, k: nat, v: PendingRequest)
    requires k < |s|
    ensures |PendingOf(s[k := v])|
         == |PendingOf(s)| - (if s[k].status == Pending then 1 else 0) + (if v.status == Pending then 1 else 0)
  {
    assert s == s[..k] + [s[k]] + s[k + 1..];
    assert s[k := v] == s[..k] + [v] + s[k + 1..];
    PendingOfConcat(s[..k] + [s[k]], s[k + 1..]);
    PendingOfConcat(s[..k], [s[k]]);
    PendingOfConcat(s[..k] + [v], s[k + 1..]);
    PendingOfConcat(s[..k], [v]);
  }

  /** Resolution is one-way: every entry already resolved stays as it was. */
  lemma ResolvedEntriesAreFinal(reqs: seq<PendingRequest>, rid: Raw, resolver: string, approve: bool,
                                resolutionType: string, now: int)
    requires Resolve(reqs, rid, resolver, approve, resolutionType, now).Ok?
    ensures var after := Resolve(reqs, rid, resolver, approve, resolutionType, now).value.0;
      forall i :: 0 <= i < |reqs| && reqs[i].status != Pending ==> after[i] == reqs[i]
  {
  }
}
