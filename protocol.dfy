/** The send protocol of `scripts/vc-teams.js` (`commandSend`) as pure
    steps: option validation in the script's order, the ledger step taken
    before any delivery, and the fan-out of one envelope per recipient.
    `Store.TeamStore.Send` runs these steps on the stored team. */
module Protocol {
  import opened Outcomes
  import opened Text
  import opened Options
  import opened Names
  import opened Envelopes
  import opened Mailbox
  import opened Ledger
  import opened Roster

  /** Everything the send protocol decided before touching the team. */
  datatype SendPlan = SendPlan(
    msgType: string,
    from: string,
    recipients: seq<string>,
    content: string,
    summary: string,
    requestId: Option<Raw>,
    approve: Option<bool>,
    noDedupe: bool,
    drewUuid: bool)

  /** The `approve` handling: response types need a flag, the terminal
      shutdown types force it, and any given value must be a boolean word. */
  function ApproveFor(msgType: string, given: Option<Raw>): (r: Result<Option<bool>>)
    ensures msgType == "shutdown_approved" ==> r == Ok(Some(true))
    ensures msgType == "shutdown_rejected" ==> r == Ok(Some(false))
    ensures msgType in ResponseTypes && given.None? && msgType !in {"shutdown_approved", "shutdown_rejected"} ==>
              r == Err(ApproveRequired(msgType))
    ensures msgType in ResponseTypes && r.Ok? ==> r.value.Some?
    ensures msgType !in ResponseTypes && given.None? ==> r == Ok(None)
    ensures given.Some? && msgType !in {"shutdown_approved", "shutdown_rejected"} ==>
              (r.Ok? <==> ParseBoolean(given, false).Ok?)
              && (r.Ok? ==> r.value == Some(ParseBoolean(given, false).value))
  {
    if msgType in ResponseTypes then
      var forced := if msgType == "shutdown_approved" then Some(Bool(true))
                    else if msgType == "shutdown_rejected" then Some(Bool(false))
                    else given;
      if forced.None? then Err(ApproveRequired(msgType))
      else
        var b :- ParseBoolean(forced, false);
        Ok(Some(b))
    else if given.None? then Ok(None)
    else
      var b :- ParseBoolean(given, false);
      Ok(Some(b))
  }

  /** How the type classes of the protocol relate. */
  lemma TypeClasses()
    ensures RequestTypes <= MessageTypes && ResponseTypes <= MessageTypes && FanOutTypes <= MessageTypes
    ensures RequestTypes !! ResponseTypes && RequestTypes !! FanOutTypes && ResponseTypes !! FanOutTypes
    ensures RequestTypes !! {"message", "broadcast"} && ResponseTypes !! {"message", "broadcast"}
  {
  }

  /** The shape every successful plan has; the later steps rely on it. */
  predicate WellFormed(p: SendPlan) {
    && p.msgType in MessageTypes
    && (p.msgType in RequestTypes ==> p.requestId.Some? && |p.recipients| == 1)
    && (p.msgType in ResponseTypes ==> p.requestId.Some? && p.approve.Some?)
  }

  /** The options `commandSend` reads, each as `pickOption` finds it. */
  datatype SendArgs = SendArgs(
    team: Option<Raw>,
    msgType: Option<Raw>,
    from: Option<Raw>,
    recipient: Option<Raw>,
    content: Option<Raw>,
    summary: Option<Raw>,
    noDedupe: Option<Raw>,
    requestId: Option<Raw>,
    approve: Option<Raw>)

  /** The option lookups of `commandSend`, with their aliases. */
  function SendArgsOf(opts: map<string, Raw>): SendArgs {
    SendArgs(
      PickOption(opts, ["team", "team_name"]), PickOption(opts, ["type"]), PickOption(opts, ["from"]),
      PickOption(opts, ["recipient", "to"]), PickOption(opts, ["content", "text"]), PickOption(opts, ["summary"]),
      PickOption(opts, ["no-dedupe", "no_dedupe"]), PickOption(opts, ["request-id", "request_id"]),
      PickOption(opts, ["approve"]))
  }

  /** The first checks of `commandSend`: the team and type options, the type
      against the fixed set (after trimming), then the team itself. The
      result is the type. */
  function SendType(a: SendArgs, team: string, present: bool): (r: Result<string>)
    ensures a.team.None? ==> r == Err(MissingArg("--team"))
    ensures r.Ok? ==> && r.value in MessageTypes && present
                      && a.team.Some? && SanitizeName(ToText(a.team.value)) == Ok(team)
                      && a.msgType.Some? && r.value == Trim(ToText(a.msgType.value))
    ensures a.team.Some? && SanitizeName(ToText(a.team.value)) == Ok(team) ==>
      && (a.msgType.None? ==> r == Err(MissingArg("--type")))
      && (a.msgType.Some? ==>
            var msgType := Trim(ToText(a.msgType.value));
            && (msgType !in MessageTypes ==> r == Err(UnsupportedType(msgType)))
            && (msgType in MessageTypes ==> r == if present then Ok(msgType) else Err(TeamNotFound(team))))
  {
    var teamRaw :- match a.team case None => Err(MissingArg("--team")) case Some(v) => Ok(v);
    var teamName :- SanitizeName(ToText(teamRaw));
    var typeRaw :- match a.msgType case None => Err(MissingArg("--type")) case Some(v) => Ok(v);
    var msgType := Trim(ToText(typeRaw));
    if msgType !in MessageTypes then Err(UnsupportedType(msgType))
    else if !present || teamName != team then Err(TeamNotFound(teamName))
    else Ok(msgType)
  }

  /** The sender: `--from` (default `team-lead`) sanitized, and a member. */
  function SendSender(from: Option<Raw>, members: seq<Member>): (r: Result<string>)
    ensures var name := SanitizeName(TextOr(from, "team-lead"));
      && (name.Err? ==> r == Err(name.error))
      && (name.Ok? ==> r == if name.value in NamesOf(members) then Ok(name.value) else Err(MemberNotFound(name.value)))
    ensures r.Ok? ==> r.value in NamesOf(members) && IsSanitized(r.value) && SanitizeName(r.value) == Ok(r.value)
  {
    var name :- SanitizeName(TextOr(from, "team-lead"));
    SanitizeIdempotent(name);
    var sender :- FindMember(members, name);
    Ok(name)
  }

  /** The request id of a send: a request type without one draws a fresh
      identifier; a response type without one is refused. The flag says
      whether an identifier was drawn. */
  function RequestIdFor(msgType: string, given: Option<Raw>, uuid: nat): (r: Result<(Option<Raw>, bool)>)
    ensures msgType in ResponseTypes && given.None? ==> r == Err(RequestIdRequired(msgType))
    ensures msgType !in ResponseTypes || given.Some? ==> r.Ok?
    ensures r.Ok? ==> (r.value.1 <==> msgType in RequestTypes && given.None?)
                      && r.value.0 == (if r.value.1 then Some(Str(Uuid(uuid))) else given)
                      && (msgType in RequestTypes + ResponseTypes ==> r.value.0.Some?)
  {
    var drew := msgType in RequestTypes && given.None?;
    var requestId := if drew then Some(Str(Uuid(uuid))) else given;
    if msgType in ResponseTypes && requestId.None? then Err(RequestIdRequired(msgType))
    else Ok((requestId, drew))
  }

  /** The checks of `commandSend` after type, team, sender and `--no-dedupe`
      have passed: content for message and broadcast, the request id, then
      the rest of the plan. */
  function PlanTail(a: SendArgs, msgType: string, from: string, noDedupe: bool, members: seq<Member>, uuid: nat)
    : (r: Result<SendPlan>)
    requires msgType in MessageTypes && from != "" && SanitizeName(from) == Ok(from)
    ensures r.Ok? ==> WellFormed(r.value) && r.value.msgType == msgType && r.value.from == from
    ensures r.Ok? && msgType in {"message", "broadcast"} ==> r.value.content != ""
    ensures r.Ok? && msgType == "shutdown_approved" ==> r.value.approve == Some(true)
    ensures r.Ok? && msgType == "shutdown_rejected" ==> r.value.approve == Some(false)
    ensures r.Ok? ==> (r.value.drewUuid <==> msgType in RequestTypes && a.requestId.None?)
    ensures r.Ok? ==> r.value.requestId == (if r.value.drewUuid then Some(Str(Uuid(uuid))) else a.requestId)
    ensures r.Ok? && msgType in FanOutTypes ==> r.value.recipients == OthersThan(members, from)
    ensures r.Ok? && msgType !in FanOutTypes ==> |r.value.recipients| == 1 && r.value.recipients[0] in NamesOf(members)
    ensures r.Ok? ==> forall n :: n in r.value.recipients ==> n in NamesOf(members)
    ensures msgType in {"message", "broadcast"} && TextOr(a.content, "") == "" ==> r == Err(ContentRequired)
    ensures msgType in ResponseTypes && a.requestId.None? ==> r == Err(RequestIdRequired(msgType))
  {
    TypeClasses();
    var content := TextOr(a.content, "");
    if msgType in {"message", "broadcast"} && content == "" then Err(ContentRequired)
    else
      var rid :- RequestIdFor(msgType, a.requestId, uuid);
      PlanRest(a, msgType, from, noDedupe, members, content, rid)
  }

  /** The approve flag, then the recipients, once the request id `rid` (and
      whether it was drawn fresh) is settled. */
  function PlanRest(a: SendArgs, msgType: string, from: string, noDedupe: bool, members: seq<Member>,
                    content: string, rid: (Option<Raw>, bool)): (r: Result<SendPlan>)
    requires msgType in MessageTypes && from != "" && SanitizeName(from) == Ok(from)
    requires msgType in RequestTypes + ResponseTypes ==> rid.0.Some?
    ensures r.Ok? ==> WellFormed(r.value) && r.value.msgType == msgType && r.value.from == from
    ensures r.Ok? ==> r.value.content == content && r.value.requestId == rid.0 && r.value.drewUuid == rid.1
    ensures r.Ok? && msgType == "shutdown_approved" ==> r.value.approve == Some(true)
    ensures r.Ok? && msgType == "shutdown_rejected" ==> r.value.approve == Some(false)
    ensures r.Ok? && msgType in FanOutTypes ==> r.value.recipients == OthersThan(members, from)
    ensures r.Ok? && msgType !in FanOutTypes ==> |r.value.recipients| == 1 && r.value.recipients[0] in NamesOf(members)
    ensures r.Ok? ==> forall n :: n in r.value.recipients ==> n in NamesOf(members)
  {
    TypeClasses();
    var approve :- ApproveFor(msgType, a.approve);
    var recipients :- ResolveRecipients(members, msgType, from, a.recipient);
    Ok(SendPlan(msgType, from, recipients, content, TextOr(a.summary, ""), rid.0, approve, noDedupe, rid.1))
  }

  /** The checks of `commandSend` up to `resolveRecipients`, in the script's
      order, against team `team` (absent when `present` is false), with
      `uuid` the next fresh identifier. A successful plan has a type from
      the fixed set and a sender who is a member; message and broadcast
      carry content; response types carry a request id and an approve flag,
      forced for the terminal shutdown types; request types get a request id
      (a fresh one when none was given) and exactly one recipient;
      broadcasts go to every other member in roster order. */
  function PlanSend(a: SendArgs, team: string, present: bool, members: seq<Member>, uuid: nat): (r: Result<SendPlan>)
    ensures r.Ok? ==> WellFormed(r.value)
    ensures r.Ok? ==> present && SendType(a, team, present) == Ok(r.value.msgType)
    ensures r.Ok? ==> r.value.from in NamesOf(members) && SendSender(a.from, members) == Ok(r.value.from)
    ensures r.Ok? && r.value.msgType in {"message", "broadcast"} ==> r.value.content != ""
    ensures r.Ok? && r.value.msgType == "shutdown_approved" ==> r.value.approve == Some(true)
    ensures r.Ok? && r.value.msgType == "shutdown_rejected" ==> r.value.approve == Some(false)
    ensures r.Ok? ==> (r.value.drewUuid <==> r.value.msgType in RequestTypes && a.requestId.None?)
    ensures r.Ok? ==> r.value.requestId == (if r.value.drewUuid then Some(Str(Uuid(uuid))) else a.requestId)
    ensures r.Ok? && r.value.msgType in FanOutTypes ==> r.value.recipients == OthersThan(members, r.value.from)
    ensures r.Ok? && r.value.msgType !in FanOutTypes ==> |r.value.recipients| == 1 && r.value.recipients[0] in NamesOf(members)
    ensures r.Ok? ==> forall n :: n in r.value.recipients ==> n in NamesOf(members)
    ensures SendType(a, team, present).Ok? && SendSender(a.from, members).Ok? && ParseBoolean(a.noDedupe, false).Ok? ==>
      r == PlanTail(a, SendType(a, team, present).value, SendSender(a.from, members).value,
                    ParseBoolean(a.noDedupe, false).value, members, uuid)
  {
    var msgType :- SendType(a, team, present);
    var from :- SendSender(a.from, members);
    var noDedupe :- ParseBoolean(a.noDedupe, false);
    PlanTail(a, msgType, from, noDedupe, members, uuid)
  }

  /** A send naming a type outside the fixed set, or a team that is not
      there, is refused before anything else is looked at. */
  lemma SendRejectsUnknownTypeOrTeam(a: SendArgs, team: string, present: bool, members: seq<Member>, uuid: nat)
    requires a.team.Some? && SanitizeName(ToText(a.team.value)) == Ok(team) && a.msgType.Some?
    ensures var msgType := Trim(ToText(a.msgType.value));
      && (msgType !in MessageTypes ==> PlanSend(a, team, present, members, uuid) == Err(UnsupportedType(msgType)))
      && (msgType in MessageTypes && !present ==> PlanSend(a, team, present, members, uuid) == Err(TeamNotFound(team)))
  {
  }

  /** A sender who is not on the roster is refused. */
  lemma SendRejectsNonMember(a: SendArgs, team: string, present: bool, members: seq<Member>, uuid: nat)
    requires SendType(a, team, present).Ok?
    requires SanitizeName(TextOr(a.from, "team-lead")).Ok?
    requires SanitizeName(TextOr(a.from, "team-lead")).value !in NamesOf(members)
    ensures PlanSend(a, team, present, members, uuid) == Err(MemberNotFound(SanitizeName(TextOr(a.from, "team-lead")).value))
  {
  }

  /** Once type, team and sender pass, a message or broadcast without content
      is refused. */
  lemma SendRejectsMissingContent(a: SendArgs, team: string, present: bool, members: seq<Member>, uuid: nat)
    requires SendType(a, team, present).Ok? && SendSender(a.from, members).Ok?
    requires ParseBoolean(a.noDedupe, false).Ok?
    requires SendType(a, team, present).value in {"message", "broadcast"} && a.content.None?
    ensures PlanSend(a, team, present, members, uuid) == Err(ContentRequired)
  {
  }

  /** Once type, team and sender pass, a response without a request id is
      refused. */
  lemma SendRejectsMissingRequestId(a: SendArgs, team: string, present: bool, members: seq<Member>, uuid: nat)
    requires SendType(a, team, present).Ok? && SendSender(a.from, members).Ok?
    requires ParseBoolean(a.noDedupe, false).Ok?
    requires SendType(a, team, present).value in ResponseTypes && a.requestId.None?
    ensures PlanSend(a, team, present, members, uuid) == Err(RequestIdRequired(SendType(a, team, present).value))
  {
  }

  /** The ledger step of a planned send, taken before any delivery: a request
      type appends a pending entry addressed to the one recipient; a response
      type resolves the pending entry with its request id, resolved by the
      sender. */
  function LedgerStep(requests: seq<PendingRequest>, p: SendPlan, now: int): (r: Result<seq<PendingRequest>>)
    requires WellFormed(p)
    ensures p.msgType in RequestTypes ==>
      r == Ok(requests + [OpenRequest(p.requestId.value, p.msgType, now, p.from, p.recipients[0], p.summary)])
    ensures p.msgType in ResponseTypes ==>
      match Resolve(requests, p.requestId.value, p.from, p.approve == Some(true), p.msgType, now)
      case Ok(res) => r == Ok(res.0)
      case Err(e) => r == Err(e)
    ensures p.msgType !in RequestTypes && p.msgType !in ResponseTypes ==> r == Ok(requests)
  {
    if p.msgType in RequestTypes then
      Ok(requests + [OpenRequest(p.requestId.value, p.msgType, now, p.from, p.recipients[0], p.summary)])
    else if p.msgType in ResponseTypes then
      var resolved :- Resolve(requests, p.requestId.value, p.from, p.approve == Some(true), p.msgType, now);
      Ok(resolved.0)
    else Ok(requests)
  }

  /** A stored mailbox, or the empty one `readJson` falls back to. */
  function InboxOf(boxes: map<string, seq<Envelope>>, agent: string): seq<Envelope> {
    if agent in boxes then boxes[agent] else []
  }

  /** The envelope request for one recipient of a planned send. */
  function EnvelopeFor(p: SendPlan, target: string): EnvelopeRequest {
    EnvelopeRequest(p.msgType, p.from, target, p.content, p.summary, p.requestId, p.approve, p.noDedupe)
  }

  /** The state of the delivery loop: the mailboxes, the two counters, the
      next fresh identifier, and the error that stopped the loop, if any. */
  datatype Fanout = Fanout(boxes: map<string, seq<Envelope>>, delivered: nat, deduped: nat, uuid: nat, failure: Option<Error>)

  /** The delivery loop of `commandSend` over `targets`: each envelope takes a
      fresh identifier, is built, and is appended (or found to be a recent
      duplicate) in the target's mailbox. A build failure stops the loop;
      deliveries already made stay. */
  function DeliverFrom(p: SendPlan, targets: seq<string>, now: int, window: int, digest: string -> string, acc: Fanout): (r: Fanout)
    requires window > 0 && acc.failure.None?
    ensures r.failure.None? ==> r.delivered + r.deduped == acc.delivered + acc.deduped + |targets|
    ensures r.delivered >= acc.delivered && r.deduped >= acc.deduped
    ensures r.uuid <= acc.uuid + |targets| && (r.failure.None? ==> r.uuid == acc.uuid + |targets|)
    ensures r.uuid >= acc.uuid
    ensures forall a :: a !in targets ==>
              && (a in r.boxes <==> a in acc.boxes)
              && (a in acc.boxes ==> r.boxes[a] == acc.boxes[a])
    decreases |targets|
  {
    if targets == [] then acc
    else
      var next := DeliverNext(p, targets[0], now, window, digest, acc);
      if next.failure.Some? then next else DeliverFrom(p, targets[1..], now, window, digest, next)
  }

  /** One turn of the delivery loop for `target`: the envelope takes the next
      identifier; a build failure is recorded, a built envelope is delivered. */
  function DeliverNext(p: SendPlan, target: string, now: int, window: int, digest: string -> string, acc: Fanout): (r: Fanout)
    requires window > 0 && acc.failure.None?
    ensures r.uuid == acc.uuid + 1
    ensures r.failure.None? <==> BuildEnvelope(EnvelopeFor(p, target), Uuid(acc.uuid), now, window, digest).Ok?
    ensures r.failure.Some? ==> r == acc.(uuid := acc.uuid + 1, failure := r.failure)
    ensures r.failure.None? ==> r.delivered + r.deduped == acc.delivered + acc.deduped + 1
    ensures r.delivered >= acc.delivered && r.deduped >= acc.deduped
    ensures r.boxes == acc.boxes || r.boxes.Keys == acc.boxes.Keys + {target}
    ensures forall a :: a in acc.boxes && a != target ==> r.boxes[a] == acc.boxes[a]
  {
    match BuildEnvelope(EnvelopeFor(p, target), Uuid(acc.uuid), now, window, digest)
    case Err(e) => acc.(uuid := acc.uuid + 1, failure := Some(e))
    case Ok(m) => Delivered(acc, target, m, now, window)
  }

  /** The delivery loop state after target `target` received envelope `m`. */
  function Delivered(acc: Fanout, target: string, m: Envelope, now: int, window: int): (r: Fanout)
    ensures r.delivered + r.deduped == acc.delivered + acc.deduped + 1
    ensures r.delivered >= acc.delivered && r.deduped >= acc.deduped && r.uuid == acc.uuid + 1 && r.failure == acc.failure
    ensures r.boxes == acc.boxes[target := Deliver(InboxOf(acc.boxes, target), m, now, window).0]
  {
    var res := Deliver(InboxOf(acc.boxes, target), m, now, window);
    var next := acc.(boxes := acc.boxes[target := res.0], uuid := acc.uuid + 1);
    if res.1.duplicate then next.(deduped := next.deduped + 1) else next.(delivered := next.delivered + 1)
  }

  /** The delivery loop from its start. */
  function Fanned(p: SendPlan, boxes: map<string, seq<Envelope>>, uuid: nat, now: int, window: int,
                  digest: string -> string): Fanout
    requires window > 0
  {
    DeliverFrom(p, p.recipients, now, window, digest, Fanout(boxes, 0, 0, uuid, None))
  }

  /** One turn of the delivery loop, unfolded. */
  lemma DeliverFromStep(p: SendPlan, targets: seq<string>, now: int, window: int, digest: string -> string, acc: Fanout)
    requires window > 0 && acc.failure.None? && targets != []
    ensures var next := DeliverNext(p, targets[0], now, window, digest, acc);
      DeliverFrom(p, targets, now, window, digest, acc)
        == if next.failure.Some? then next else DeliverFrom(p, targets[1..], now, window, digest, next)
  {
  }

  /** The delivery loop of `commandSend` as the script runs it: an index loop
      that stops at the first build failure. */
  method DeliverLoop(p: SendPlan, boxes: map<string, seq<Envelope>>, uuid: nat, now: int, window: int,
                     digest: string -> string) returns (f: Fanout)
    requires window > 0
    ensures f == Fanned(p, boxes, uuid, now, window, digest)
  {
    ghost var goal := Fanned(p, boxes, uuid, now, window, digest);
    f := Fanout(boxes, 0, 0, uuid, None);
    var i := 0;
    while i < |p.recipients|
      invariant 0 <= i <= |p.recipients| && f.failure.None?
      invariant DeliverFrom(p, p.recipients[i..], now, window, digest, f) == goal
    {
      DeliverFromStep(p, p.recipients[i..], now, window, digest, f);
      assert p.recipients[i..][0] == p.recipients[i] && p.recipients[i..][1..] == p.recipients[i + 1..];
      f := DeliverNext(p, p.recipients[i], now, window, digest, f);
      if f.failure.Some? {
        return;
      }
      i := i + 1;
    }
  }

  /** The delivery loop over a single target whose envelope builds as `m`. */
  lemma DeliverSingle(p: SendPlan, target: string, now: int, window: int, digest: string -> string, acc: Fanout,
                      m: Envelope, after: seq<Envelope>, d: Delivery)
    requires window > 0 && acc.failure.None?
    requires BuildEnvelope(EnvelopeFor(p, target), Uuid(acc.uuid), now, window, digest) == Ok(m)
    requires Deliver(InboxOf(acc.boxes, target), m, now, window) == (after, d)
    ensures DeliverFrom(p, [target], now, window, digest, acc)
         == if d.duplicate then acc.(boxes := acc.boxes[target := after], uuid := acc.uuid + 1, deduped := acc.deduped + 1)
            else acc.(boxes := acc.boxes[target := after], uuid := acc.uuid + 1, delivered := acc.delivered + 1)
  {
    DeliverFromStep(p, [target], now, window, digest, acc);
    DeliverNextBuilt(p, target, now, window, digest, acc, m);
    DeliveredIs(acc, target, m, now, window, after, d);
    assert [target][0] == target && [target][1..] == [];
  }

  lemma DeliverNextBuilt(p: SendPlan, target: string, now: int, window: int, digest: string -> string, acc: Fanout,
                         m: Envelope)
    requires window > 0 && acc.failure.None?
    requires BuildEnvelope(EnvelopeFor(p, target), Uuid(acc.uuid), now, window, digest) == Ok(m)
    ensures DeliverNext(p, target, now, window, digest, acc) == Delivered(acc, target, m, now, window)
  {
  }

  lemma DeliveredIs(acc: Fanout, target: string, m: Envelope, now: int, window: int, after: seq<Envelope>, d: Delivery)
    requires Deliver(InboxOf(acc.boxes, target), m, now, window) == (after, d)
    ensures Delivered(acc, target, m, now, window)
         == if d.duplicate then acc.(boxes := acc.boxes[target := after], uuid := acc.uuid + 1, deduped := acc.deduped + 1)
            else acc.(boxes := acc.boxes[target := after], uuid := acc.uuid + 1, delivered := acc.delivered + 1)
  {
  }

  /** What a send of one identical message twice in one time bucket does to a
      recipient whose mailbox started empty: the first delivers, the second is
      counted as de-duplicated, and the mailbox holds one envelope. */
  lemma RepeatedSendCountsOneDuplicate(p: SendPlan, target: string, boxes: map<string, seq<Envelope>>,
                                       uuid1: nat, uuid2: nat, t1: int, t2: int, window: int, digest: string -> string)
    requires window > 0 && !p.noDedupe && p.recipients == [target] && t1 <= t2
    requires InboxOf(boxes, target) == []
    requires BuildEnvelope(EnvelopeFor(p, target), Uuid(uuid1), t1, window, digest).Ok?
    requires Bucket(t1, window) == Bucket(t2, window)
    requires DedupeKey(digest, FieldsOf(EnvelopeFor(p, target)), t1, window) != ""
    ensures var first := Fanned(p, boxes, uuid1, t1, window, digest);
            var second := Fanned(p, first.boxes, uuid2, t2, window, digest);
            && first.failure.None? && first.delivered == 1 && first.deduped == 0
            && second.failure.None? && second.delivered == 0 && second.deduped == 1
            && |InboxOf(second.boxes, target)| == 1
  {
    var q := EnvelopeFor(p, target);
    RepeatedSendIsDeduplicated(q, Uuid(uuid1), Uuid(uuid2), t1, t2, window, digest);
    var e1 := BuildEnvelope(q, Uuid(uuid1), t1, window, digest).value;
    var e2 := BuildEnvelope(q, Uuid(uuid2), t2, window, digest).value;
    var boxes1 := boxes[target := [e1]];
    DeliverSingle(p, target, t1, window, digest, Fanout(boxes, 0, 0, uuid1, None), e1, [e1], Delivery(Uuid(uuid1), false));
    assert InboxOf(boxes1, target) == [e1];
    DeliverSingle(p, target, t2, window, digest, Fanout(boxes1, 0, 0, uuid2, None), e2, [e1], Delivery(Uuid(uuid1), true));
  }
}
