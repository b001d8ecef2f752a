/** The teams directory of `scripts/vc-teams.js` as one object: for every
    team its config (roster and statistics), its inboxes and its request
    ledger. Each command of the script is a method that reads its options,
    checks them in the script's order, and changes the directory only when
    it succeeds (or, for `send`, as far as it got). The counter `nextUuid`
    stands for `crypto.randomUUID`: each draw takes the next value. */
module Store {
  import opened Outcomes
  import opened Text
  import opened Options
  import opened Names
  import opened Envelopes
  import opened Mailbox
  import opened Ledger
  import opened Roster
  import opened Protocol
  import opened Polling

  /** The team config file (`config.json`). */
  datatype Config = Config(
    name: string,
    description: string,
    createdAt: int,
    leadAgentId: string,
    members: seq<Member>,
    dedupedMessages: nat)

  /** One team directory: the config, one inbox per agent, the ledger. */
  datatype Team = Team(config: Config, mailboxes: map<string, seq<Envelope>>, requests: seq<PendingRequest>)

  /** A roster entry as the script writes it for team `team`. */
  predicate ProperMember(team: string, m: Member) {
    IsSanitized(m.name) && m.agentId == m.name + "@" + team
  }

  /** What every command keeps true of a stored team: it is filed under its
      own sanitized name; the lead comes first in the roster; names are
      sanitized and distinct and agent ids are `<name>@<team>`; and every
      inbox belongs to a member. */
  predicate TeamValid(name: string, t: Team) {
    var ms := t.config.members;
    && t.config.name == name && IsSanitized(name)
    && ms != [] && ms[0].agentId == t.config.leadAgentId
    && DistinctNames(ms)
    && (forall m :: m in ms ==> ProperMember(name, m))
    && (forall a :: a in t.mailboxes ==> a in NamesOf(ms))
  }

  /** The value of a sanitized argument, or the empty name when it failed
      (the plans then fail before looking the team up). */
  function ArgOr(r: Result<string>): string {
    if r.Ok? then r.value else ""
  }

  function MembersIn(teams: map<string, Team>, name: string): seq<Member> {
    if name in teams then teams[name].config.members else []
  }

  function LeadIn(teams: map<string, Team>, name: string): string {
    if name in teams then teams[name].config.leadAgentId else ""
  }

  /** `ensureMailbox`: an inbox that does not exist yet is created empty. */
  function EnsureMailbox(boxes: map<string, seq<Envelope>>, agent: string): (r: map<string, seq<Envelope>>)
    ensures agent in r && r[agent] == InboxOf(boxes, agent)
    ensures forall a :: a != agent ==> (a in r <==> a in boxes) && (a in boxes ==> r[a] == boxes[a])
  {
    if agent in boxes then boxes else boxes[agent := []]
  }

  /** The team `create` writes: the lead as the only member, with an empty
      inbox, no requests and zeroed statistics. */
  function NewTeam(plan: CreatePlan, description: string, now: int): (t: Team)
    requires IsSanitized(plan.team) && ProperMember(plan.team, plan.lead)
    ensures TeamValid(plan.team, t)
    ensures t.config.members == [plan.lead] && t.config.leadAgentId == plan.lead.agentId
    ensures t.mailboxes == map[plan.lead.name := []] && t.requests == [] && t.config.dedupedMessages == 0
  {
    Team(Config(plan.team, description, now, plan.lead.agentId, [plan.lead], 0), map[plan.lead.name := []], [])
  }

  /** Adding a member under a fresh sanitized name keeps a team valid. */
  lemma AddKeepsValid(name: string, t: Team, m: Member)
    requires TeamValid(name, t) && ProperMember(name, m) && m.name !in NamesOf(t.config.members)
    ensures TeamValid(name, t.(config := t.config.(members := t.config.members + [m]),
                               mailboxes := EnsureMailbox(t.mailboxes, m.name)))
  {
    var ms := t.config.members;
    var ms' := ms + [m];
    assert NamesOf(ms') == NamesOf(ms) + [m.name];
    forall i, j | 0 <= i < j < |ms'| ensures ms'[i].name != ms'[j].name {
      if j == |ms| {
        assert NamesOf(ms)[i] == ms[i].name;
      }
    }
  }

  lemma DistinctTail(ms: seq<Member>)
    requires ms != [] && DistinctNames(ms)
    ensures DistinctNames(ms[1..])
    ensures forall m :: m in ms[1..] ==> m.name != ms[0].name
  {
    forall i, j | 0 <= i < j < |ms[1..]| ensures ms[1..][i].name != ms[1..][j].name {
      assert ms[1..][i] == ms[i + 1] && ms[1..][j] == ms[j + 1];
    }
    forall m | m in ms[1..] ensures m.name != ms[0].name {
      var k :| 0 <= k < |ms[1..]| && ms[1..][k] == m;
      assert ms[k + 1] == m;
    }
  }

  lemma DistinctCons(m: Member, rest: seq<Member>)
    requires DistinctNames(rest) && forall x :: x in rest ==> x.name != m.name
    ensures DistinctNames([m] + rest)
  {
    var r := [m] + rest;
    forall i, j | 0 <= i < j < |r| ensures r[i].name != r[j].name {
      assert r[j] == rest[j - 1];
      if i > 0 {
        assert r[i] == rest[i - 1];
      }
    }
  }

  /** `Without` keeps distinct names distinct. */
  lemma {:induction false} WithoutKeepsDistinct(ms: seq<Member>, n: string)
    requires DistinctNames(ms)
    ensures DistinctNames(Without(ms, n))
  {
    if ms != [] {
      DistinctTail(ms);
      WithoutKeepsDistinct(ms[1..], n);
      if ms[0].name != n {
        DistinctCons(ms[0], Without(ms[1..], n));
        assert Without(ms, n) == [ms[0]] + Without(ms[1..], n);
      } else {
        assert Without(ms, n) == Without(ms[1..], n);
      }
    }
  }

  /** A name other than the removed one is still on the roster after
      `Without`. */
  lemma NamesOfWithout(ms: seq<Member>, n: string, a: string)
    requires a in NamesOf(ms) && a != n
    ensures a in NamesOf(Without(ms, n))
  {
    var i :| 0 <= i < |ms| && NamesOf(ms)[i] == a;
    assert ms[i] in Without(ms, n);
    var j :| 0 <= j < |Without(ms, n)| && Without(ms, n)[j] == ms[i];
    assert NamesOf(Without(ms, n))[j] == a;
  }

  /** Removing a member other than the lead keeps a team valid. */
  lemma RemoveKeepsValid(name: string, t: Team, n: string)
    requires TeamValid(name, t)
    requires t.config.members[0].name != n
    ensures TeamValid(name, t.(config := t.config.(members := Without(t.config.members, n)),
                               mailboxes := t.mailboxes - {n}))
  {
    var ms := t.config.members;
    WithoutKeepsDistinct(ms, n);
    assert Without(ms, n) == [ms[0]] + Without(ms[1..], n);
    forall a | a in t.mailboxes - {n} ensures a in NamesOf(Without(ms, n)) {
      NamesOfWithout(ms, n, a);
    }
  }

  /** A member `remove-member` accepts is not the lead, who comes first. */
  lemma RemovableIsNotFirst(name: string, t: Team, n: string)
    requires TeamValid(name, t)
    requires FindByName(t.config.members, n).Some?
    requires t.config.members[FindByName(t.config.members, n).value].agentId != t.config.leadAgentId
    ensures t.config.members[0].name != n
  {
  }

  /** A team whose inboxes change only at members' names stays valid. */
  lemma MailboxesKeepValid(name: string, t: Team, boxes: map<string, seq<Envelope>>)
    requires TeamValid(name, t)
    requires forall a :: a in boxes ==> a in t.mailboxes || a in NamesOf(t.config.members)
    ensures TeamValid(name, t.(mailboxes := boxes))
  {
  }

  /** The status a command reports when it succeeds. */
  datatype SendReport = SendReport(
    msgType: string,
    from: string,
    recipients: seq<string>,
    delivered: nat,
    deduped: nat,
    requestId: Option<Raw>)

  /** The team `send` names, or the empty name when the option is missing or
      does not sanitize. */
  function TeamArg(a: SendArgs): string {
    if a.team.Some? then ArgOr(SanitizeName(ToText(a.team.value))) else ""
  }

  /** What `send` does once its plan `p` stands, for stored team `name`,
      with `uuid` the next fresh identifier: the ledger step comes before any
      delivery and stays when it succeeded, even when a later envelope fails
      to build; deliveries already made stay too; de-duplicated copies are
      added to the team's statistics. */
  function SendPlanned(teams: map<string, Team>, name: string, p: SendPlan, uuid: nat, now: int, window: int,
                       digest: string -> string): (Result<SendReport>, map<string, Team>, nat)
    requires name in teams && WellFormed(p) && window > 0
  {
    var t := teams[name];
    match LedgerStep(t.requests, p, now)
    case Err(e) => (Err(e), teams, uuid)
    case Ok(reqs) => Settled(teams[name := t.(requests := reqs)], name, p, Fanned(p, t.mailboxes, uuid, now, window, digest))
  }

  /** The end of `send` once the delivery loop `f` has run: the delivered
      mailboxes stay whatever happened, and only a completed loop reports
      and adds its duplicates to the team statistics. */
  function Settled(teams: map<string, Team>, name: string, p: SendPlan, f: Fanout): (Result<SendReport>, map<string, Team>, nat)
    requires name in teams
  {
    var t := teams[name].(mailboxes := f.boxes);
    if f.failure.Some? then (Err(f.failure.value), teams[name := t], f.uuid)
    else (Ok(SendReport(p.msgType, p.from, p.recipients, f.delivered, f.deduped, p.requestId)),
          teams[name := Counted(t, f.deduped)], f.uuid)
  }

  /** The team with `deduped` more de-duplicated messages in its statistics. */
  function Counted(t: Team, deduped: nat): (r: Team)
    ensures r.config.dedupedMessages == t.config.dedupedMessages + deduped
    ensures r.mailboxes == t.mailboxes && r.requests == t.requests
    ensures deduped == 0 ==> r == t
  {
    t.(config := t.config.(dedupedMessages := t.config.dedupedMessages + deduped))
  }

  /** Past a successful ledger step, `send` ends as the delivery loop `f`
      settles on the team with the updated ledger. */
  lemma SendPlannedSettles(teams: map<string, Team>, name: string, p: SendPlan, uuid: nat, now: int, window: int,
                           digest: string -> string, reqs: seq<PendingRequest>)
    requires name in teams && WellFormed(p) && window > 0
    requires LedgerStep(teams[name].requests, p, now) == Ok(reqs)
    ensures SendPlanned(teams, name, p, uuid, now, window, digest)
         == Settled(teams[name := teams[name].(requests := reqs)], name, p, Fanned(p, teams[name].mailboxes, uuid, now, window, digest))
  {
  }

  /** `Settled` stores the loop's mailboxes itself, so it does not matter
      whether they were stored before. */
  lemma SettledIgnoresBoxes(teams: map<string, Team>, name: string, p: SendPlan, f: Fanout)
    requires name in teams
    ensures Settled(teams[name := teams[name].(mailboxes := f.boxes)], name, p, f) == Settled(teams, name, p, f)
  {
    var t := teams[name].(mailboxes := f.boxes);
    assert t.(mailboxes := f.boxes) == t;
    assert teams[name := t][name := t] == teams[name := t];
    assert teams[name := t][name := Counted(t, f.deduped)] == teams[name := Counted(t, f.deduped)];
  }

  /** What `send` reports, leaves in the directory, and leaves as the next
      fresh identifier: the plan is checked first and a failure changes
      nothing; a request id drawn for a request type is used up. */
  function SendOutcome(teams: map<string, Team>, uuid: nat, a: SendArgs, now: int, window: int,
                       digest: string -> string): (Result<SendReport>, map<string, Team>, nat)
    requires window > 0
  {
    var name := TeamArg(a);
    Proceeded(teams, name, PlanSend(a, name, name in teams, MembersIn(teams, name), uuid), uuid, now, window, digest)
  }

  /** `send` past its plan `plan` for team `name`: a refused plan changes
      nothing; otherwise the planned send runs from the next identifier. */
  function Proceeded(teams: map<string, Team>, name: string, plan: Result<SendPlan>, uuid: nat, now: int, window: int,
                     digest: string -> string): (Result<SendReport>, map<string, Team>, nat)
    requires window > 0 && (plan.Ok? ==> name in teams && WellFormed(plan.value))
  {
    match plan
    case Err(e) => (Err(e), teams, uuid)
    case Ok(p) => SendPlanned(teams, name, p, if p.drewUuid then uuid + 1 else uuid, now, window, digest)
  }

  /** Every stored team stays valid across a planned send whose recipients
      are members: inboxes are only created or changed for recipients. */
  lemma SendPlannedKeepsValid(teams: map<string, Team>, name: string, p: SendPlan, uuid: nat, now: int, window: int,
                              digest: string -> string)
    requires name in teams && WellFormed(p) && window > 0
    requires forall t :: t in teams ==> TeamValid(t, teams[t])
    requires forall n :: n in p.recipients ==> n in NamesOf(teams[name].config.members)
    ensures var after := SendPlanned(teams, name, p, uuid, now, window, digest).1;
      forall t :: t in after ==> TeamValid(t, after[t])
  {
    var t := teams[name];
    var step := LedgerStep(t.requests, p, now);
    if step.Ok? {
      var f := Fanned(p, t.mailboxes, uuid, now, window, digest);
      var staged := teams[name := t.(requests := step.value)];
      SendPlannedSettles(teams, name, p, uuid, now, window, digest, step.value);
      assert TeamValid(name, staged[name]);
      SettledKeepsValid(staged, name, p, f);
    }
  }

  /** Settling a delivery loop whose mailboxes belong to members keeps every
      stored team valid. */
  lemma SettledKeepsValid(teams: map<string, Team>, name: string, p: SendPlan, f: Fanout)
    requires name in teams && forall t :: t in teams ==> TeamValid(t, teams[t])
    requires forall a :: a in f.boxes ==> a in teams[name].mailboxes || a in NamesOf(teams[name].config.members)
    ensures var after := Settled(teams, name, p, f).1;
      forall t :: t in after ==> TeamValid(t, after[t])
  {
    var t := teams[name].(mailboxes := f.boxes);
    MailboxesKeepValid(name, teams[name], f.boxes);
    assert TeamValid(name, Counted(t, f.deduped));
  }

  /** What a planned send leaves behind: a refused ledger step changes
      nothing; otherwise the ledger step stays, even when an envelope later
      fails to build; a completed send accounts for every recipient once
      (delivered or de-duplicated), adds its duplicates to the team's
      statistics and uses one identifier per recipient; no other team
      changes. */
  lemma SendPlannedAccounts(teams: map<string, Team>, name: string, p: SendPlan, uuid: nat, now: int, window: int,
                            digest: string -> string)
    requires name in teams && WellFormed(p) && window > 0
    ensures var (r, after, next) := SendPlanned(teams, name, p, uuid, now, window, digest);
      var step := LedgerStep(teams[name].requests, p, now);
      && after.Keys == teams.Keys
      && (forall n :: n in teams && n != name ==> after[n] == teams[n])
      && (step.Err? ==> r == Err(step.error) && after == teams && next == uuid)
      && (step.Ok? ==> after[name].requests == step.value && after[name].config.members == teams[name].config.members)
      && (r.Err? && step.Ok? ==> after[name].config == teams[name].config)
      && (r.Ok? ==>
            && r.value.recipients == p.recipients
            && r.value.delivered + r.value.deduped == |p.recipients|
            && after[name].config.dedupedMessages == teams[name].config.dedupedMessages + r.value.deduped
            && next == uuid + |p.recipients|)
  {
  }

  /** Every stored team stays valid across a send. */
  lemma SendKeepsValid(teams: map<string, Team>, uuid: nat, a: SendArgs, now: int, window: int,
                       digest: string -> string)
    requires window > 0 && forall t :: t in teams ==> TeamValid(t, teams[t])
    ensures var after := SendOutcome(teams, uuid, a, now, window, digest).1;
      forall t :: t in after ==> TeamValid(t, after[t])
  {
    var name := TeamArg(a);
    var plan := PlanSend(a, name, name in teams, MembersIn(teams, name), uuid);
    if plan.Ok? {
      var p := plan.value;
      var next := if p.drewUuid then uuid + 1 else uuid;
      assert SendOutcome(teams, uuid, a, now, window, digest) == SendPlanned(teams, name, p, next, now, window, digest);
      SendPlannedKeepsValid(teams, name, p, next, now, window, digest);
    }
  }

  /** The critical section of `mark-read` for message id `id` as given: a
      flag without a value never equals a stored id. */
  function MarkReadRaw(inbox: seq<Envelope>, id: Raw, now: int): (r: Result<seq<Envelope>>)
    ensures id.Bool? ==> r == Err(MessageNotFound(ToText(id)))
    ensures id.Str? ==> r == MarkReadAt(inbox, id.s, now)
  {
    if id.Bool? then Err(MessageNotFound(ToText(id))) else MarkReadAt(inbox, id.s, now)
  }

  /** The loop of `prune` over the member names `names`, with `removed`
      messages removed so far: each inbox is rewritten with the messages it
      keeps (a missing one is written empty). */
  function PruneFrom(boxes: map<string, seq<Envelope>>, names: seq<string>, cutoff: int, removed: nat)
    : (map<string, seq<Envelope>>, nat)
    decreases |names|
  {
    if names == [] then (boxes, removed)
    else
      var inbox := InboxOf(boxes, names[0]);
      var kept := PruneInbox(inbox, cutoff);
      PruneFrom(boxes[names[0] := kept], names[1..], cutoff, removed + (|inbox| - |kept|))
  }

  lemma PruneFromStep(boxes: map<string, seq<Envelope>>, names: seq<string>, cutoff: int, removed: nat)
    requires names != []
    ensures var inbox := InboxOf(boxes, names[0]);
      var kept := PruneInbox(inbox, cutoff);
      PruneFrom(boxes, names, cutoff, removed) == PruneFrom(boxes[names[0] := kept], names[1..], cutoff, removed + (|inbox| - |kept|))
  {
  }

  /** The number of messages in the inboxes of `names`. */
  function TotalIn(boxes: map<string, seq<Envelope>>, names: seq<string>): nat
    decreases |names|
  {
    if names == [] then 0 else |InboxOf(boxes, names[0])| + TotalIn(boxes, names[1..])
  }

  lemma {:induction false} TotalInUpdate(boxes: map<string, seq<Envelope>>, names: seq<string>, k: string, v: seq<Envelope>)
    requires k !in names
    ensures TotalIn(boxes[k := v], names) == TotalIn(boxes, names)
    decreases |names|
  {
    if names != [] {
      TotalInUpdate(boxes, names[1..], k, v);
    }
  }

  predicate DistinctStrings(names: seq<string>) {
    forall i, j :: 0 <= i < j < |names| ==> names[i] != names[j]
  }

  /** `prune` over distinct names: every named inbox holds exactly what the
      retention filter keeps of it, every other inbox is untouched, and the
      count reported is the number of messages that disappeared. */
  lemma {:induction false} PruneFromSpec(boxes: map<string, seq<Envelope>>, names: seq<string>, cutoff: int, removed: nat)
    requires DistinctStrings(names)
    ensures var (after, total) := PruneFrom(boxes, names, cutoff, removed);
      && (forall a :: a in names ==> a in after && after[a] == PruneInbox(InboxOf(boxes, a), cutoff))
      && (forall a :: a !in names ==> (a in after <==> a in boxes) && (a in boxes ==> after[a] == boxes[a]))
      && removed + TotalIn(boxes, names) == total + TotalIn(after, names)
    decreases |names|
  {
    if names != [] {
      var n := names[0];
      var inbox := InboxOf(boxes, n);
      var kept := PruneInbox(inbox, cutoff);
      var boxes1 := boxes[n := kept];
      assert DistinctStrings(names[1..]) by {
        forall i, j | 0 <= i < j < |names[1..]| ensures names[1..][i] != names[1..][j] {
          assert names[i + 1] != names[j + 1];
        }
      }
      assert n !in names[1..] by {
        forall j | 0 <= j < |names[1..]| ensures names[1..][j] != n {
          assert names[0] != names[j + 1];
        }
      }
      PruneFromSpec(boxes1, names[1..], cutoff, removed + (|inbox| - |kept|));
      TotalInUpdate(boxes, names[1..], n, kept);
      var (after, total) := PruneFrom(boxes, names, cutoff, removed);
      TotalInUpdate(after, names[1..], n, kept);
      assert after[n := kept] == after;
      forall a | a in names ensures a in after && after[a] == PruneInbox(InboxOf(boxes, a), cutoff) {
        if a != n {
          assert a in names[1..];
        }
      }
    }
  }

  /** Pruning keeps every unread message, and a second prune with the same
      cutoff over the same names removes nothing and changes nothing. */
  lemma PruneSettles(boxes: map<string, seq<Envelope>>, names: seq<string>, cutoff: int)
    requires DistinctStrings(names)
    ensures var (after, _) := PruneFrom(boxes, names, cutoff, 0);
      && (forall a :: a in names ==> a in after && CountUnread(after[a]) == CountUnread(InboxOf(boxes, a)))
      && PruneFrom(after, names, cutoff, 0) == (after, 0)
  {
    var after := PruneFrom(boxes, names, cutoff, 0).0;
    var again := PruneFrom(after, names, cutoff, 0);
    PruneFromSpec(boxes, names, cutoff, 0);
    PruneFromSpec(after, names, cutoff, 0);
    forall a | a in names ensures a in after && CountUnread(after[a]) == CountUnread(InboxOf(boxes, a)) {
      PruneKeepsUnread(InboxOf(boxes, a), cutoff);
    }
    PruneAgainSame(boxes, after, again.0, names, cutoff);
    assert again.1 + TotalIn(again.0, names) == TotalIn(after, names);
  }

  /** Map equality for a second prune: the named inboxes are already pruned,
      the others untouched. */
  lemma PruneAgainSame(boxes: map<string, seq<Envelope>>, after: map<string, seq<Envelope>>,
                       again: map<string, seq<Envelope>>, names: seq<string>, cutoff: int)
    requires forall a :: a in names ==> a in after && after[a] == PruneInbox(InboxOf(boxes, a), cutoff)
    requires forall a :: a in names ==> a in again && again[a] == PruneInbox(InboxOf(after, a), cutoff)
    requires forall a :: a !in names ==> (a in again <==> a in after) && (a in after ==> again[a] == after[a])
    ensures again == after
  {
    forall a | a in names ensures again[a] == after[a] {
      PruneKeepsUnread(InboxOf(boxes, a), cutoff);
    }
    assert again.Keys == after.Keys;
  }

  /** One entry of `listInboxStats` per roster member, in roster order. */
  function InboxStats(t: Team): (r: seq<InboxStat>)
    ensures |r| == |t.config.members|
    ensures forall i :: 0 <= i < |r| ==> r[i] == InboxStatOf(t.config.members[i].name, InboxOf(t.mailboxes, t.config.members[i].name))
  {
    var ms := t.config.members;
    seq(|ms|, i requires 0 <= i < |ms| => InboxStatOf(ms[i].name, InboxOf(t.mailboxes, ms[i].name)))
  }

  /** The entries of `stats` for `agent`, order kept. */
  function StatsFor(stats: seq<InboxStat>, agent: string): (r: seq<InboxStat>)
    ensures |r| <= |stats|
    ensures forall s :: s in r <==> s in stats && s.agent == agent
  {
    if stats == [] then []
    else (if stats[0].agent == agent then [stats[0]] else []) + StatsFor(stats[1..], agent)
  }

  /** What `status` reports for a team. */
  datatype StatusView = StatusView(
    team: string,
    description: string,
    createdAt: int,
    leadAgentId: string,
    members: seq<Member>,
    inboxes: seq<InboxStat>,
    pendingRequests: seq<PendingRequest>,
    dedupedMessages: nat)

  /** `buildStatus` for a stored team with its inbox statistics `stats`: an
      `--agent` filter (when truthy) keeps the entries of that sanitized
      name, and a filter that does not sanitize is an error. */
  function StatusOf(t: Team, stats: seq<InboxStat>, filter: Option<Raw>): (r: Result<StatusView>)
  {
    var inboxes :- if filter.None? || filter.value == Bool(false) then Ok(stats)
                   else var agent :- SanitizeName(ToText(filter.value)); Ok(StatsFor(stats, agent));
    Ok(StatusView(t.config.name, t.config.description, t.config.createdAt, t.config.leadAgentId,
                  t.config.members, inboxes, PendingOf(t.requests), t.config.dedupedMessages))
  }

  /** A valid team's status lists only pending requests; unfiltered, one
      inbox entry per member in roster order; filtered by a sanitized name,
      at most one entry, present exactly when that name is a member. */
  lemma StatusSpec(name: string, t: Team, filter: Option<Raw>)
    requires TeamValid(name, t)
    ensures var r := StatusOf(t, InboxStats(t), filter);
      && (r.Ok? ==> forall e :: e in r.value.pendingRequests ==> e in t.requests && e.status == Pending)
      && (filter.None? ==> r.Ok? && r.value.inboxes == InboxStats(t)
                           && forall i :: 0 <= i < |t.config.members| ==> r.value.inboxes[i].agent == t.config.members[i].name)
      && (filter.Some? && filter.value != Bool(false) ==>
            match SanitizeName(ToText(filter.value))
            case Err(e) => r == Err(e)
            case Ok(agent) =>
              && r.Ok? && |r.value.inboxes| <= 1
              && (|r.value.inboxes| == 1 <==> agent in NamesOf(t.config.members))
              && forall e :: e in r.value.inboxes ==> e == InboxStatOf(agent, InboxOf(t.mailboxes, agent)))
  {
    if filter.Some? && filter.value != Bool(false) && SanitizeName(ToText(filter.value)).Ok? {
      FilteredStats(t, SanitizeName(ToText(filter.value)).value);
    }
  }

  /** Filtering a valid team's inbox statistics by one name keeps at most
      one entry, that member's, and keeps one exactly when the name is on the
      roster. */
  lemma FilteredStats(t: Team, agent: string)
    requires DistinctNames(t.config.members)
    ensures var r := StatsFor(InboxStats(t), agent);
      && |r| <= 1
      && (|r| == 1 <==> agent in NamesOf(t.config.members))
      && forall e :: e in r ==> e == InboxStatOf(agent, InboxOf(t.mailboxes, agent))
  {
    var stats := InboxStats(t);
    var ms := t.config.members;
    StatsAgents(t);
    StatsForOne(stats, agent);
    if agent in NamesOf(ms) {
      var i :| 0 <= i < |ms| && NamesOf(ms)[i] == agent;
      assert stats[i] in StatsFor(stats, agent);
    } else {
      StatsForNone(stats, agent);
    }
  }

  /** The entries of `InboxStats` name the roster's members, in order. */
  lemma StatsAgents(t: Team)
    ensures var stats := InboxStats(t);
      && (forall i :: 0 <= i < |stats| ==> stats[i].agent == NamesOf(t.config.members)[i])
      && forall e :: e in stats ==> e == InboxStatOf(e.agent, InboxOf(t.mailboxes, e.agent))
  {
  }

  /** What `status` reports for the directory `teams`. */
  function StatusOutcome(teams: map<string, Team>, opts: map<string, Raw>): (r: Result<StatusView>)
  {
    var name :- SanitizedArg(opts, ["team", "name", "team_name"], "--team");
    if name !in teams then Err(TeamNotFound(name))
    else
      var view :- StatusOf(teams[name], InboxStats(teams[name]), PickOption(opts, ["agent"]));
      var json :- ParseBoolean(PickOption(opts, ["json"]), false);
      Ok(view)
  }

  /** Among entries with distinct agents, at most one is kept. */
  lemma StatsForOne(stats: seq<InboxStat>, agent: string)
    requires forall i, j :: 0 <= i < j < |stats| ==> stats[i].agent != stats[j].agent
    ensures |StatsFor(stats, agent)| <= 1
  {
    if stats != [] {
      StatsForOne(stats[1..], agent);
      if stats[0].agent == agent {
        forall j | 0 <= j < |stats[1..]| ensures stats[1..][j].agent != agent {
          assert stats[0].agent != stats[j + 1].agent;
        }
        StatsForNone(stats[1..], agent);
      }
    }
  }

  lemma {:induction false} StatsForNone(stats: seq<InboxStat>, agent: string)
    requires forall i :: 0 <= i < |stats| ==> stats[i].agent != agent
    ensures StatsFor(stats, agent) == []
  {
    if stats != [] {
      StatsForNone(stats[1..], agent);
    }
  }

  /** The teams directory. */
  class TeamStore {
    var teams: map<string, Team>
    var nextUuid: nat

    predicate Valid()
      reads this
    {
      forall t :: t in teams ==> TeamValid(t, teams[t])
    }

    /** An empty teams directory. */
    constructor ()
      ensures teams == map[] && nextUuid == 0 && Valid()
    {
      teams := map[];
      nextUuid := 0;
    }

    /** Writes team `name` as `t`. */
    method Put(name: string, t: Team)
      requires Valid() && TeamValid(name, t)
      modifies this
      ensures Valid() && teams == old(teams)[name := t] && nextUuid == old(nextUuid)
    {
      teams := teams[name := t];
    }

    /** `create`: a new team under a name not yet taken, whose lead is the
        only member. */
    method Create(opts: map<string, Raw>, now: int) returns (r: Result<string>)
      requires Valid()
      modifies this
      ensures Valid() && nextUuid == old(nextUuid)
      ensures match PlanCreate(opts, old(teams).Keys, now)
        case Err(e) => r == Err(e) && teams == old(teams)
        case Ok(plan) =>
          && r == Ok(plan.team) && plan.team !in old(teams)
          && teams == old(teams)[plan.team := NewTeam(plan, TextOr(PickOption(opts, ["description"]), ""), now)]
    {
      var plan := PlanCreate(opts, teams.Keys, now);
      if plan.Err? {
        return Err(plan.error);
      }
      var p := plan.value;
      Put(p.team, NewTeam(p, TextOr(PickOption(opts, ["description"]), ""), now));
      r := Ok(p.team);
    }

    /** `delete`: the whole team directory goes, unless members besides the
        lead remain and `--force` is not given. */
    method Delete(opts: map<string, Raw>) returns (r: Result<string>)
      requires Valid()
      modifies this
      ensures Valid() && nextUuid == old(nextUuid)
      ensures var name := ArgOr(SanitizedArg(opts, ["name", "team", "team_name"], "--name"));
        && r == PlanDelete(opts, name, name in old(teams), MembersIn(old(teams), name), LeadIn(old(teams), name))
        && teams == if r.Ok? then old(teams) - {name} else old(teams)
    {
      var name := ArgOr(SanitizedArg(opts, ["name", "team", "team_name"], "--name"));
      r := PlanDelete(opts, name, name in teams, MembersIn(teams, name), LeadIn(teams, name));
      if r.Ok? {
        teams := teams - {name};
      }
    }

    /** `add-member`: the new member is appended to the roster and gets an
        empty inbox. */
    method AddMember(opts: map<string, Raw>, now: int) returns (r: Result<Member>)
      requires Valid()
      modifies this
      ensures Valid() && nextUuid == old(nextUuid)
      ensures var name := ArgOr(SanitizedArg(opts, ["team", "team_name"], "--team"));
        && r == PlanAddMember(opts, name, name in old(teams), MembersIn(old(teams), name), now)
        && (r.Err? ==> teams == old(teams))
        && (r.Ok? ==>
              var t := old(teams)[name];
              teams == old(teams)[name := t.(config := t.config.(members := t.config.members + [r.value]),
                                             mailboxes := EnsureMailbox(t.mailboxes, r.value.name))])
    {
      var name := ArgOr(SanitizedArg(opts, ["team", "team_name"], "--team"));
      r := PlanAddMember(opts, name, name in teams, MembersIn(teams, name), now);
      if r.Ok? {
        var t := teams[name];
        var m := r.value;
        AddKeepsValid(name, t, m);
        Put(name, t.(config := t.config.(members := t.config.members + [m]), mailboxes := EnsureMailbox(t.mailboxes, m.name)));
      }
    }

    /** `remove-member`: the member leaves the roster and their inbox is
        deleted; the lead cannot be removed. */
    method RemoveMember(opts: map<string, Raw>) returns (r: Result<string>)
      requires Valid()
      modifies this
      ensures Valid() && nextUuid == old(nextUuid)
      ensures var name := ArgOr(SanitizedArg(opts, ["team", "team_name"], "--team"));
        && r == PlanRemoveMember(opts, name, name in old(teams), MembersIn(old(teams), name), LeadIn(old(teams), name))
        && (r.Err? ==> teams == old(teams))
        && (r.Ok? ==>
              var t := old(teams)[name];
              teams == old(teams)[name := t.(config := t.config.(members := Without(t.config.members, r.value)),
                                             mailboxes := t.mailboxes - {r.value})])
    {
      var name := ArgOr(SanitizedArg(opts, ["team", "team_name"], "--team"));
      r := PlanRemoveMember(opts, name, name in teams, MembersIn(teams, name), LeadIn(teams, name));
      if r.Ok? {
        var t := teams[name];
        var n := r.value;
        RemovableIsNotFirst(name, t, n);
        RemoveKeepsValid(name, t, n);
        Put(name, t.(config := t.config.(members := Without(t.config.members, n)), mailboxes := t.mailboxes - {n}));
      }
    }

    /** `addPendingRequest`: the entry is appended to the ledger. */
    method AddPendingRequest(team: string, item: PendingRequest)
      requires team in teams
      modifies this
      ensures teams == old(teams)[team := old(teams)[team].(requests := old(teams)[team].requests + [item])]
      ensures nextUuid == old(nextUuid)
    {
      var t := teams[team];
      teams := teams[team := t.(requests := t.requests + [item])];
    }

    /** `resolvePendingRequest`: the first pending entry with the id is
        resolved and returned; without one nothing is written. */
    method ResolvePendingRequest(team: string, rid: Raw, resolver: string, approve: bool, resolutionType: string, now: int)
      returns (r: Result<PendingRequest>)
      requires team in teams
      modifies this
      ensures var t := old(teams)[team];
        match Resolve(t.requests, rid, resolver, approve, resolutionType, now)
        case Err(e) => r == Err(e) && teams == old(teams)
        case Ok(res) => r == Ok(res.1) && teams == old(teams)[team := t.(requests := res.0)]
      ensures nextUuid == old(nextUuid)
    {
      var t := teams[team];
      var res := Resolve(t.requests, rid, resolver, approve, resolutionType, now);
      if res.Err? {
        return Err(res.error);
      }
      teams := teams[team := t.(requests := res.value.0)];
      r := Ok(res.value.1);
    }

    /** The ledger step of `send`, through the two ledger operations. */
    method RecordLedger(name: string, p: SendPlan, now: int) returns (ok: bool, r: Result<SendReport>)
      requires name in teams && WellFormed(p)
      modifies this
      ensures nextUuid == old(nextUuid)
      ensures var t := old(teams)[name];
        match LedgerStep(t.requests, p, now)
        case Err(e) => !ok && r == Err(e) && teams == old(teams)
        case Ok(reqs) => ok && teams == old(teams)[name := t.(requests := reqs)]
    {
      ok, r := true, Err(NoPendingRequest);
      if p.msgType in RequestTypes {
        AddPendingRequest(name, OpenRequest(p.requestId.value, p.msgType, now, p.from, p.recipients[0], p.summary));
      } else if p.msgType in ResponseTypes {
        var resolved := ResolvePendingRequest(name, p.requestId.value, p.from, p.approve == Some(true), p.msgType, now);
        if resolved.Err? {
          ok, r := false, Err(resolved.error);
        }
      }
    }

    /** The delivery loop of `send` on the stored inboxes: one envelope per
        recipient, each with a fresh identifier, delivered as `appendMailbox`
        does; a build failure stops the loop and what was delivered before it
        stays. */
    method DeliverAll(name: string, p: SendPlan, now: int, window: int, digest: string -> string) returns (f: Fanout)
      requires name in teams && window > 0
      modifies this
      ensures f == Fanned(p, old(teams)[name].mailboxes, old(nextUuid), now, window, digest)
      ensures nextUuid == f.uuid
      ensures teams == old(teams)[name := old(teams)[name].(mailboxes := f.boxes)]
    {
      var t := teams[name];
      f := DeliverLoop(p, t.mailboxes, nextUuid, now, window, digest);
      teams := teams[name := t.(mailboxes := f.boxes)];
      nextUuid := f.uuid;
    }

    /** The deliveries of `send` and the statistics update that follows a
        completed loop. */
    method DeliverAndCount(name: string, p: SendPlan, now: int, window: int, digest: string -> string)
      returns (r: Result<SendReport>)
      requires name in teams && window > 0
      modifies this
      ensures (r, teams, nextUuid) == Settled(old(teams), name, p, Fanned(p, old(teams)[name].mailboxes, old(nextUuid), now, window, digest))
    {
      ghost var staged := teams;
      var f := DeliverAll(name, p, now, window, digest);
      SettledIgnoresBoxes(staged, name, p, f);
      r := Settle(name, p, f);
    }

    /** The end of `send` once the delivery loop `f` has run and its mailboxes
        are stored: the statistics are written only when the loop completed
        with duplicates. */
    method Settle(name: string, p: SendPlan, f: Fanout) returns (r: Result<SendReport>)
      requires name in teams && teams[name].mailboxes == f.boxes && nextUuid == f.uuid
      modifies this
      ensures (r, teams, nextUuid) == Settled(old(teams), name, p, f)
    {
      ghost var before := teams;
      var t := teams[name];
      assert t.(mailboxes := f.boxes) == t;
      if f.failure.Some? {
        assert before[name := t] == before;
        return Err(f.failure.value);
      }
      var settled := Counted(t, f.deduped);
      if f.deduped > 0 {
        teams := teams[name := settled];
      }
      assert teams == before[name := settled];
      r := Ok(SendReport(p.msgType, p.from, p.recipients, f.delivered, f.deduped, p.requestId));
    }

    /** The part of `send` after the plan: the identifier drawn for a
        request without one, the ledger step, the deliveries, then the
        statistics. */
    method Dispatch(name: string, p: SendPlan, now: int, window: int, digest: string -> string)
      returns (r: Result<SendReport>)
      requires name in teams && WellFormed(p) && window > 0
      modifies this
      ensures (r, teams, nextUuid)
           == SendPlanned(old(teams), name, p, if p.drewUuid then old(nextUuid) + 1 else old(nextUuid), now, window, digest)
    {
      if p.drewUuid {
        nextUuid := nextUuid + 1;
      }
      ghost var teams0, t0 := teams, teams[name];
      var ok;
      ok, r := RecordLedger(name, p, now);
      if !ok {
        return;
      }
      ghost var reqs := teams[name].requests;
      assert LedgerStep(t0.requests, p, now) == Ok(reqs);
      assert teams == teams0[name := t0.(requests := reqs)];
      SendPlannedSettles(teams0, name, p, nextUuid, now, window, digest, reqs);
      r := DeliverAndCount(name, p, now, window, digest);
    }

    /** `send` at clock `now` with de-duplication window `window` and key
        digest `digest`, for the options `a` read from the command line. */
    method Send(a: SendArgs, now: int, window: int, digest: string -> string) returns (r: Result<SendReport>)
      requires Valid() && window > 0
      modifies this
      ensures Valid()
      ensures (r, teams, nextUuid) == SendOutcome(old(teams), old(nextUuid), a, now, window, digest)
    {
      SendKeepsValid(teams, nextUuid, a, now, window, digest);
      r := PlanAndDispatch(a, now, window, digest);
    }

    /** The plan of `send`, then what follows it. */
    method PlanAndDispatch(a: SendArgs, now: int, window: int, digest: string -> string) returns (r: Result<SendReport>)
      requires window > 0
      modifies this
      ensures (r, teams, nextUuid) == SendOutcome(old(teams), old(nextUuid), a, now, window, digest)
    {
      var name := TeamArg(a);
      var plan := PlanSend(a, name, name in teams, MembersIn(teams, name), nextUuid);
      r := Proceed(name, plan, now, window, digest);
    }

    /** What follows the plan of `send`: a refused plan is reported as is. */
    method Proceed(name: string, plan: Result<SendPlan>, now: int, window: int, digest: string -> string)
      returns (r: Result<SendReport>)
      requires window > 0 && (plan.Ok? ==> name in teams && WellFormed(plan.value))
      modifies this
      ensures (r, teams, nextUuid) == Proceeded(old(teams), name, plan, old(nextUuid), now, window, digest)
    {
      if plan.Err? {
        return Err(plan.error);
      }
      r := Dispatch(name, plan.value, now, window, digest);
    }

    /** `mark-read`: the first envelope with the given id in the agent's
        inbox is marked read at `now`, and nothing else changes. The inbox
        lock cannot be opened in a team directory that does not exist. */
    method MarkRead(opts: map<string, Raw>, now: int) returns (r: Result<string>)
      requires Valid()
      modifies this
      ensures Valid() && nextUuid == old(nextUuid)
      ensures match InboxArgs(opts)
        case Err(e) => r == Err(e) && teams == old(teams)
        case Ok(q) =>
          match RequiredOption(opts, ["id", "message_id"], "--id")
          case Err(e) => r == Err(e) && teams == old(teams)
          case Ok(id) =>
            if q.team !in old(teams) then r == Err(LockFailed("ENOENT")) && teams == old(teams)
            else
              var t := old(teams)[q.team];
              match MarkReadRaw(InboxOf(t.mailboxes, q.agent), id, now)
              case Err(e) => r == Err(e) && teams == old(teams)
              case Ok(marked) =>
                && r == Ok(ToText(id)) && q.agent in t.mailboxes
                && teams == old(teams)[q.team := t.(mailboxes := t.mailboxes[q.agent := marked])]
    {
      var q := InboxArgs(opts);
      if q.Err? {
        return Err(q.error);
      }
      var id := RequiredOption(opts, ["id", "message_id"], "--id");
      if id.Err? {
        return Err(id.error);
      }
      var target := q.value;
      if target.team !in teams {
        return Err(LockFailed("ENOENT"));
      }
      r := MarkInbox(target.team, target.agent, id.value, now);
    }

    /** The critical section of `mark-read` on the agent's inbox of an
        existing team: the inbox is written back only when the id was found. */
    method MarkInbox(team: string, agent: string, id: Raw, now: int) returns (r: Result<string>)
      requires Valid() && team in teams
      modifies this
      ensures Valid() && nextUuid == old(nextUuid)
      ensures var t := old(teams)[team];
        match MarkReadRaw(InboxOf(t.mailboxes, agent), id, now)
        case Err(e) => r == Err(e) && teams == old(teams)
        case Ok(marked) =>
          && r == Ok(ToText(id)) && agent in t.mailboxes
          && teams == old(teams)[team := t.(mailboxes := t.mailboxes[agent := marked])]
    {
      var t := teams[team];
      var inbox := InboxOf(t.mailboxes, agent);
      var marked := MarkReadRaw(inbox, id, now);
      if marked.Err? {
        return Err(marked.error);
      }
      assert |inbox| > 0;
      MailboxesKeepValid(team, t, t.mailboxes[agent := marked.value]);
      teams := teams[team := t.(mailboxes := t.mailboxes[agent := marked.value])];
      r := Ok(ToText(id));
    }

    /** `prune` with the message cutoff `cutoff` (milliseconds since the
        epoch): every member's inbox keeps what the retention filter keeps,
        and the number of removed messages is reported. */
    method Prune(opts: map<string, Raw>, cutoff: int) returns (r: Result<nat>)
      requires Valid()
      modifies this
      ensures Valid() && nextUuid == old(nextUuid)
      ensures match SanitizedArg(opts, ["team", "name", "team_name"], "--team")
        case Err(e) => r == Err(e) && teams == old(teams)
        case Ok(name) =>
          if name !in old(teams) then r == Err(TeamNotFound(name)) && teams == old(teams)
          else
            var t := old(teams)[name];
            var (boxes, removed) := PruneFrom(t.mailboxes, NamesOf(t.config.members), cutoff, 0);
            r == Ok(removed) && teams == old(teams)[name := t.(mailboxes := boxes)]
    {
      var name := SanitizedArg(opts, ["team", "name", "team_name"], "--team");
      if name.Err? {
        return Err(name.error);
      }
      if name.value !in teams {
        return Err(TeamNotFound(name.value));
      }
      var t := teams[name.value];
      var names := NamesOf(t.config.members);
      assert DistinctStrings(names) by {
        forall i, j | 0 <= i < j < |names| ensures names[i] != names[j] {
          assert t.config.members[i].name != t.config.members[j].name;
        }
      }
      PruneFromSpec(t.mailboxes, names, cutoff, 0);
      MailboxesKeepValid(name.value, t, PruneFrom(t.mailboxes, names, cutoff, 0).0);
      var removed := PruneInboxes(name.value, cutoff);
      r := Ok(removed);
    }

    /** The loop of `prune` over the roster of team `name`: each member's
        inbox is rewritten in turn. */
    method PruneInboxes(name: string, cutoff: int) returns (removed: nat)
      requires name in teams
      modifies this
      ensures var t := old(teams)[name];
        var (boxes, total) := PruneFrom(t.mailboxes, NamesOf(t.config.members), cutoff, 0);
        removed == total && teams == old(teams)[name := t.(mailboxes := boxes)]
      ensures nextUuid == old(nextUuid)
    {
      var t := teams[name];
      var names := NamesOf(t.config.members);
      ghost var goal := PruneFrom(t.mailboxes, names, cutoff, 0);
      var boxes := t.mailboxes;
      removed := 0;
      var i := 0;
      while i < |names|
        invariant 0 <= i <= |names|
        invariant teams == old(teams)[name := t.(mailboxes := boxes)]
        invariant PruneFrom(boxes, names[i..], cutoff, removed) == goal
        invariant nextUuid == old(nextUuid)
      {
        PruneFromStep(boxes, names[i..], cutoff, removed);
        assert names[i..][0] == names[i] && names[i..][1..] == names[i + 1..];
        var inbox := InboxOf(boxes, names[i]);
        var kept := PruneInbox(inbox, cutoff);
        removed := removed + (|inbox| - |kept|);
        boxes := boxes[names[i] := kept];
        teams := teams[name := t.(mailboxes := boxes)];
        i := i + 1;
      }
      assert names[i..] == [];
    }

    /** `await` over the polls `polls`, the last of which comes after the
        deadline: the team and the member are checked, then the agent's
        inbox is polled until an envelope answers the request or time runs
        out. */
    method Await(opts: map<string, Raw>, timeout: int, started: int, polls: seq<Poll>) returns (r: Result<Envelope>)
      requires Valid()
      requires polls != [] && !InTime(polls[|polls| - 1].clock, started, timeout)
      modifies this
      ensures Valid() && nextUuid == old(nextUuid)
      ensures match AwaitArgs(opts)
        case Err(e) => r == Err(e) && teams == old(teams)
        case Ok(q) =>
          if q.target.team !in old(teams) then r == Err(TeamNotFound(q.target.team)) && teams == old(teams)
          else
            var t := old(teams)[q.target.team];
            match FindMember(t.config.members, q.target.agent)
            case Err(e) => r == Err(e) && teams == old(teams)
            case Ok(_) =>
              var (answer, after) := AwaitFrom(InboxOf(t.mailboxes, q.target.agent), polls, q.requestId, q.markRead,
                                               started, timeout);
              r == answer && teams == old(teams)[q.target.team := t.(mailboxes := t.mailboxes[q.target.agent := after])]
    {
      var q := AwaitArgs(opts);
      if q.Err? {
        return Err(q.error);
      }
      var target := q.value.target;
      if target.team !in teams {
        return Err(TeamNotFound(target.team));
      }
      var t := teams[target.team];
      var member := FindMember(t.config.members, target.agent);
      if member.Err? {
        return Err(member.error);
      }
      SanitizeIdempotent(target.agent);
      r := AwaitInbox(target.team, target.agent, q.value.requestId, q.value.markRead, timeout, started, polls);
    }

    /** The polling part of `await` for a member's inbox; what the loop
        leaves is written back. */
    method AwaitInbox(team: string, agent: string, rid: string, markRead: bool, timeout: int, started: int,
                      polls: seq<Poll>) returns (r: Result<Envelope>)
      requires Valid() && team in teams && agent in NamesOf(teams[team].config.members)
      modifies this
      ensures Valid() && nextUuid == old(nextUuid)
      ensures var t := old(teams)[team];
        var (answer, after) := AwaitFrom(InboxOf(t.mailboxes, agent), polls, rid, markRead, started, timeout);
        r == answer && teams == old(teams)[team := t.(mailboxes := t.mailboxes[agent := after])]
    {
      var t := teams[team];
      var answer, after := AwaitLoop(InboxOf(t.mailboxes, agent), polls, rid, markRead, started, timeout);
      MailboxesKeepValid(team, t, t.mailboxes[agent := after]);
      teams := teams[team := t.(mailboxes := t.mailboxes[agent := after])];
      r := answer;
    }

    /** `listInboxStats`: one entry per member, in roster order. */
    method ListInboxStats(name: string) returns (r: seq<InboxStat>)
      requires name in teams
      ensures r == InboxStats(teams[name])
    {
      var t := teams[name];
      var ms := t.config.members;
      r := [];
      for i := 0 to |ms|
        invariant |r| == i
        invariant forall j :: 0 <= j < i ==> r[j] == InboxStatOf(ms[j].name, InboxOf(t.mailboxes, ms[j].name))
      {
        r := r + [InboxStatOf(ms[i].name, InboxOf(t.mailboxes, ms[i].name))];
      }
    }

    /** `status`: the team is looked up, its view built, and `--json` is
        checked last. */
    method Status(opts: map<string, Raw>) returns (r: Result<StatusView>)
      ensures r == StatusOutcome(teams, opts)
    {
      var name := SanitizedArg(opts, ["team", "name", "team_name"], "--team");
      if name.Err? {
        return Err(name.error);
      }
      if name.value !in teams {
        return Err(TeamNotFound(name.value));
      }
      var stats := ListInboxStats(name.value);
      var view := StatusOf(teams[name.value], stats, PickOption(opts, ["agent"]));
      if view.Err? {
        return Err(view.error);
      }
      var json := ParseBoolean(PickOption(opts, ["json"]), false);
      if json.Err? {
        return Err(json.error);
      }
      r := view;
    }
  }
}
