/** The team roster of `scripts/vc-teams.js`: member lookup
    (`ensureMemberExists`), recipient expansion (`resolveRecipients`), and the
    option handling of `create`, `add-member`, `remove-member` and `delete`
    up to the point where the stored team changes. */
module Roster {
  import opened Outcomes
  import opened Text
  import opened Options
  import opened Names
  import opened Envelopes

  /** One entry of the team config's `members`. The working directory and
      pane fields of the script are constant or environment-derived and are
      not kept. */
  datatype Member = Member(
    agentId: string,
    name: string,
    agentType: string,
    model: string,
    prompt: string,
    color: string,
    planModeRequired: bool,
    joinedAt: int,
    backendType: string)

  /** `sanitizeName(requiredOption(opts, keys, argLabel))`. */
  function SanitizedArg(opts: map<string, Raw>, keys: seq<string>, argLabel: string): (r: Result<string>)
    ensures r.Ok? ==> IsSanitized(r.value)
    ensures PickOption(opts, keys).None? ==> r == Err(MissingArg(argLabel))
  {
    var raw :- RequiredOption(opts, keys, argLabel);
    SanitizeName(ToText(raw))
  }

  /** The roster's names, in roster order. */
  function NamesOf(members: seq<Member>): (r: seq<string>)
    ensures |r| == |members| && forall i :: 0 <= i < |members| ==> r[i] == members[i].name
  {
    seq(|members|, i requires 0 <= i < |members| => members[i].name)
  }

  /** `config.members.find((entry) => entry.name === name)`, as a position. */
  function FindByName(members: seq<Member>, name: string): (r: Option<nat>)
    ensures r.None? <==> forall i :: 0 <= i < |members| ==> members[i].name != name
    ensures r.Some? ==> r.value < |members| && members[r.value].name == name
                        && forall j :: 0 <= j < r.value ==> members[j].name != name
  {
    if members == [] then None
    else if members[0].name == name then Some(0)
    else match FindByName(members[1..], name)
      case None => None
      case Some(i) => Some(i + 1)
  }

  /** `ensureMemberExists`: the member named by the sanitized `name`, or
      "Member not found" carrying the name as given. */
  function FindMember(members: seq<Member>, name: string): (r: Result<Member>)
    ensures SanitizeName(name).Err? ==> r == Err(InvalidName(name))
    ensures SanitizeName(name).Ok? ==> (r.Ok? <==> SanitizeName(name).value in NamesOf(members))
    ensures SanitizeName(name).Ok? && r.Err? ==> r.error == MemberNotFound(name)
    ensures r.Ok? ==> r.value in members && r.value.name == SanitizeName(name).value
  {
    var normalized :- SanitizeName(name);
    match FindByName(members, normalized)
    case None => Err(MemberNotFound(name))
    case Some(i) => Ok(members[i])
  }

  /** The names of every member other than `sender`, in roster order. */
  function OthersThan(members: seq<Member>, sender: string): (r: seq<string>)
    ensures |r| <= |members|
    ensures forall n :: n in r <==> n != sender && n in NamesOf(members)
  {
    if members == [] then []
    else
      assert NamesOf(members) == [members[0].name] + NamesOf(members[1..]);
      (if members[0].name != sender then [members[0].name] else []) + OthersThan(members[1..], sender)
  }

  /** Names in the roster are pairwise distinct. */
  predicate DistinctNames(members: seq<Member>) {
    forall i, j :: 0 <= i < j < |members| ==> members[i].name != members[j].name
  }

  /** With distinct names, a broadcast from a member reaches each of the other
      members exactly once. */
  lemma {:induction false} OthersThanCount(members: seq<Member>, sender: string)
    requires DistinctNames(members)
    ensures |OthersThan(members, sender)| == |members| - (if sender in NamesOf(members) then 1 else 0)
  {
    if members != [] {
      assert NamesOf(members) == [members[0].name] + NamesOf(members[1..]);
      assert DistinctNames(members[1..]) by {
        forall i, j | 0 <= i < j < |members[1..]| ensures members[1..][i].name != members[1..][j].name {
          assert members[i + 1].name != members[j + 1].name;
        }
      }
      OthersThanCount(members[1..], sender);
      if members[0].name == sender {
        forall i | 0 <= i < |members[1..]| ensures NamesOf(members[1..])[i] != sender {
          assert members[i + 1].name != members[0].name;
        }
      }
    }
  }

  /** Types delivered to the whole team except the sender. */
  const FanOutTypes: set<string> := {"broadcast", "idle_notification"}

  /** `resolveRecipients`: a broadcast goes to every other member in roster
      order; any other type needs a `--recipient` that names a member, and
      goes to that one member. */
  function ResolveRecipients(members: seq<Member>, msgType: string, from: string, recipient: Option<Raw>): (r: Result<seq<string>>)
    ensures var sender := if from == "" then "team-lead" else from;
      msgType in FanOutTypes && SanitizeName(sender).Ok? ==> r == Ok(OthersThan(members, SanitizeName(sender).value))
    ensures msgType !in FanOutTypes && SanitizeName(if from == "" then "team-lead" else from).Ok? ==>
      && (recipient.None? ==> r == Err(RecipientRequired(msgType)))
      && (recipient.Some? ==> r == (match FindMember(members, ToText(recipient.value))
                                    case Ok(m) => Ok([m.name])
                                    case Err(e) => Err(e)))
    ensures r.Ok? && msgType !in FanOutTypes ==> |r.value| == 1 && r.value[0] in NamesOf(members)
  {
    var normalizedFrom :- SanitizeName(if from == "" then "team-lead" else from);
    if msgType in FanOutTypes then Ok(OthersThan(members, normalizedFrom))
    else if recipient.None? then Err(RecipientRequired(msgType))
    else
      var target :- FindMember(members, ToText(recipient.value));
      Ok([target.name])
  }

  /** What `create` needs to write a new team: its sanitized name and its
      lead member. */
  datatype CreatePlan = CreatePlan(team: string, lead: Member)

  /** The option handling of `create` at clock `now`, given the names of the
      teams already present: the team and lead names are sanitized (the lead
      defaults to `team-lead`), the lead's agent id is `<lead>@<team>`, and
      `--plan-mode-required` must be a boolean word. */
  function PlanCreate(opts: map<string, Raw>, existing: set<string>, now: int): (r: Result<CreatePlan>)
    ensures r.Ok? ==>
      && IsSanitized(r.value.team) && r.value.team !in existing
      && IsSanitized(r.value.lead.name)
      && r.value.lead.agentId == r.value.lead.name + "@" + r.value.team
      && r.value.lead.joinedAt == now
    ensures r.Ok? ==> SanitizedArg(opts, ["name", "team", "team_name"], "--name") == Ok(r.value.team)
    ensures SanitizedArg(opts, ["name", "team", "team_name"], "--name").Ok? &&
            SanitizedArg(opts, ["name", "team", "team_name"], "--name").value in existing ==>
              r == Err(TeamExists(SanitizedArg(opts, ["name", "team", "team_name"], "--name").value))
    ensures r.Ok? ==> SanitizeName(TextOr(PickOption(opts, ["lead-name", "lead_name"]), "team-lead")) == Ok(r.value.lead.name)
    ensures r.Ok? ==> ParseBoolean(PickOption(opts, ["plan-mode-required", "plan_mode_required"]), false)
                        == Ok(r.value.lead.planModeRequired)
    ensures SanitizedArg(opts, ["name", "team", "team_name"], "--name").Ok? &&
            SanitizedArg(opts, ["name", "team", "team_name"], "--name").value !in existing ==>
      var lead := SanitizeName(TextOr(PickOption(opts, ["lead-name", "lead_name"]), "team-lead"));
      var planMode := ParseBoolean(PickOption(opts, ["plan-mode-required", "plan_mode_required"]), false);
      && (lead.Err? ==> r == Err(lead.error))
      && (lead.Ok? && planMode.Err? ==> r == Err(planMode.error))
  {
    var team :- SanitizedArg(opts, ["name", "team", "team_name"], "--name");
    if team in existing then Err(TeamExists(team))
    else
      var leadName :- SanitizeName(TextOr(PickOption(opts, ["lead-name", "lead_name"]), "team-lead"));
      SanitizeIdempotent(leadName);
      SanitizeIdempotent(team);
      var leadAgentId := leadName + "@" + team;
      assert MakeAgentId(leadName, team) == Ok(leadAgentId);
      var planMode :- ParseBoolean(PickOption(opts, ["plan-mode-required", "plan_mode_required"]), false);
      Ok(CreatePlan(team, Member(
        leadAgentId, leadName, TextOr(PickOption(opts, ["agent-type", "agent_type"]), "lead"),
        TextOr(PickOption(opts, ["model"]), ""), "", ColorOf(leadAgentId), planMode, now, "codex")))
  }

  /** The option handling and roster checks of `add-member` against team
      `team` (absent when `present` is false): the new entry, or the first
      failure in the script's order. */
  function PlanAddMember(opts: map<string, Raw>, team: string, present: bool, members: seq<Member>, now: int): (r: Result<Member>)
    ensures r.Ok? ==>
      && present && IsSanitized(r.value.name)
      && (forall i :: 0 <= i < |members| ==> members[i].name != r.value.name)
      && r.value.agentId == r.value.name + "@" + team
      && r.value.joinedAt == now
    ensures SanitizedArg(opts, ["team", "team_name"], "--team").Ok? && SanitizedArg(opts, ["name", "agent", "agent_name"], "--name").Ok? ==>
      var name := SanitizedArg(opts, ["name", "agent", "agent_name"], "--name").value;
      && (!present || SanitizedArg(opts, ["team", "team_name"], "--team").value != team ==>
            r == Err(TeamNotFound(SanitizedArg(opts, ["team", "team_name"], "--team").value)))
      && (present && SanitizedArg(opts, ["team", "team_name"], "--team").value == team && name in NamesOf(members) ==>
            r == Err(MemberExists(name)))
  {
    var teamName :- SanitizedArg(opts, ["team", "team_name"], "--team");
    var name :- SanitizedArg(opts, ["name", "agent", "agent_name"], "--name");
    if !present || teamName != team then Err(TeamNotFound(teamName))
    else if FindByName(members, name).Some? then Err(MemberExists(name))
    else JoiningMember(opts, name, team, now)
  }

  /** The roster entry `add-member` writes for the sanitized names `name` and
      `team`: the agent id `makeAgentId` builds, then the optional fields. */
  function JoiningMember(opts: map<string, Raw>, name: string, team: string, now: int): (r: Result<Member>)
    requires IsSanitized(name) && IsSanitized(team)
    ensures r.Ok? ==> r.value.name == name && r.value.agentId == name + "@" + team && r.value.joinedAt == now
  {
    SanitizeIdempotent(name);
    SanitizeIdempotent(team);
    var agentId := name + "@" + team;
    assert MakeAgentId(name, team) == Ok(agentId);
    var planMode :- ParseBoolean(PickOption(opts, ["plan-mode-required", "plan_mode_required"]), false);
    Ok(Member(
      agentId, name, TextOr(PickOption(opts, ["agent-type", "agent_type"]), "teammate"),
      TextOr(PickOption(opts, ["model"]), ""), TextOr(PickOption(opts, ["prompt"]), ""),
      TextOr(PickOption(opts, ["color"]), ColorOf(agentId)), planMode, now,
      TextOr(PickOption(opts, ["backend"]), "codex")))
  }

  /** The checks of `remove-member`: the named member must exist and must not
      be the lead. The result is the sanitized name to remove. */
  function PlanRemoveMember(opts: map<string, Raw>, team: string, present: bool, members: seq<Member>,
                            leadAgentId: string): (r: Result<string>)
    ensures r.Ok? ==> present && FindByName(members, r.value).Some?
                      && members[FindByName(members, r.value).value].agentId != leadAgentId
    ensures SanitizedArg(opts, ["team", "team_name"], "--team") == Ok(team) && present
            && SanitizedArg(opts, ["name", "agent", "agent_name"], "--name").Ok? ==>
      var name := SanitizedArg(opts, ["name", "agent", "agent_name"], "--name").value;
      match FindByName(members, name)
      case None => r == Err(MemberNotFound(name))
      case Some(k) => r == if members[k].agentId == leadAgentId then Err(CannotRemoveLead) else Ok(name)
  {
    var teamName :- SanitizedArg(opts, ["team", "team_name"], "--team");
    var name :- SanitizedArg(opts, ["name", "agent", "agent_name"], "--name");
    if !present || teamName != team then Err(TeamNotFound(teamName))
    else
      SanitizeIdempotent(name);
      match FindByName(members, name)
      case None => Err(MemberNotFound(name))
      case Some(k) => if members[k].agentId == leadAgentId then Err(CannotRemoveLead) else Ok(name)
  }

  /** The roster without the member called `name`, order kept. */
  function Without(members: seq<Member>, name: string): (r: seq<Member>)
    ensures |r| <= |members|
    ensures forall m :: m in r <==> m in members && m.name != name
  {
    if members == [] then []
    else (if members[0].name != name then [members[0]] else []) + Without(members[1..], name)
  }

  /** The members `delete` counts as active: everyone but the lead. */
  function Teammates(members: seq<Member>, leadAgentId: string): (r: seq<Member>)
    ensures |r| <= |members|
    ensures forall m :: m in r <==> m in members && m.agentId != leadAgentId
  {
    if members == [] then []
    else (if members[0].agentId != leadAgentId then [members[0]] else []) + Teammates(members[1..], leadAgentId)
  }

  /** The checks of `delete`: `--force` must be a boolean word; without it a
      team that still has members besides the lead is kept, and the error
      lists their names. */
  function PlanDelete(opts: map<string, Raw>, team: string, present: bool, members: seq<Member>,
                      leadAgentId: string): (r: Result<string>)
    ensures r.Ok? ==> present && r.value == team
    ensures r.Ok? && ParseBoolean(PickOption(opts, ["force"]), false) == Ok(false) ==>
              forall i :: 0 <= i < |members| ==> members[i].agentId == leadAgentId
    ensures SanitizedArg(opts, ["name", "team", "team_name"], "--name") == Ok(team) && present
            && ParseBoolean(PickOption(opts, ["force"]), false) == Ok(false) ==>
              && (r.Ok? <==> Teammates(members, leadAgentId) == [])
              && (r.Err? ==> r.error == ActiveMembers(NamesOf(Teammates(members, leadAgentId))))
  {
    var teamName :- SanitizedArg(opts, ["name", "team", "team_name"], "--name");
    var force :- ParseBoolean(PickOption(opts, ["force"]), false);
    if !present || teamName != team then Err(TeamNotFound(teamName))
    else
      var active := Teammates(members, leadAgentId);
      if |active| > 0 && !force then Err(ActiveMembers(NamesOf(active)))
      else
        assert !force ==> forall i :: 0 <= i < |members| ==> members[i] in members;
        Ok(team)
  }

  /** The inbox an inbox command works on. */
  datatype InboxTarget = InboxTarget(team: string, agent: string)

  /** The `--team` and `--agent` arguments of `await` and `mark-read`: both
      required and sanitized, the team checked first. */
  function InboxArgs(opts: map<string, Raw>): (r: Result<InboxTarget>)
    ensures r.Ok? <==> SanitizedArg(opts, ["team", "team_name"], "--team").Ok?
                       && SanitizedArg(opts, ["agent", "agent_name"], "--agent").Ok?
    ensures r.Ok? ==> && r.value.team == SanitizedArg(opts, ["team", "team_name"], "--team").value
                      && r.value.agent == SanitizedArg(opts, ["agent", "agent_name"], "--agent").value
                      && IsSanitized(r.value.team) && IsSanitized(r.value.agent)
    ensures SanitizedArg(opts, ["team", "team_name"], "--team").Err? ==>
              r == Err(SanitizedArg(opts, ["team", "team_name"], "--team").error)
  {
    var team :- SanitizedArg(opts, ["team", "team_name"], "--team");
    var agent :- SanitizedArg(opts, ["agent", "agent_name"], "--agent");
    Ok(InboxTarget(team, agent))
  }
}
