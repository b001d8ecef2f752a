/** The two polling loops of `scripts/vc-teams.js`, `await` and `watch`, over
    an abstract millisecond clock. What the loops observe from other
    processes (the clock reading at each poll, the envelopes that reached the
    inbox since the previous poll, the serialised status views) is given as
    a sequence of observations, one per turn of the loop. */
module Polling {
  import opened Outcomes
  import opened Text
  import opened Options
  import opened Envelopes
  import opened Mailbox
  import opened Roster

  /** The envelope answers request `rid`: `message.requestId === requestId`
      compares with the trimmed text, so a stored `true` never answers. */
  predicate Answers(m: Envelope, rid: string) {
    m.requestId == Some(Str(rid))
  }

  predicate FirstAnswer(inbox: seq<Envelope>, rid: string, k: int) {
    0 <= k < |inbox| && Answers(inbox[k], rid) && forall j :: 0 <= j < k ==> !Answers(inbox[j], rid)
  }

  /** `messages.findIndex((message) => message.requestId === requestId)`. */
  function FindAnswer(inbox: seq<Envelope>, rid: string): (r: Option<nat>)
    ensures r.None? <==> forall i :: 0 <= i < |inbox| ==> !Answers(inbox[i], rid)
    ensures r.Some? ==> FirstAnswer(inbox, rid, r.value)
  {
    if inbox == [] then None
    else if Answers(inbox[0], rid) then Some(0)
    else match FindAnswer(inbox[1..], rid)
      case None => None
      case Some(i) => Some(i + 1)
  }

  /** One turn of `await`: the clock reading `Date.now()` taken by the loop
      test, and the envelopes other processes appended to the inbox since
      the previous read. */
  datatype Poll = Poll(clock: int, arrived: seq<Envelope>)

  /** The loop is still running at `clock`: `Date.now() - started <= timeoutMs`. */
  predicate InTime(clock: int, started: int, timeout: int) {
    clock - started <= timeout
  }

  /** The inbox as read at poll `j` when nothing was marked before it. */
  function Seen(inbox: seq<Envelope>, polls: seq<Poll>, j: nat): (s: seq<Envelope>)
    requires j < |polls|
    ensures |s| >= |inbox| && s[..|inbox|] == inbox
    decreases j
  {
    if j == 0 then inbox + polls[0].arrived
    else Seen(inbox, polls, j - 1) + polls[j].arrived
  }

  /** The answer `await` returns and the inbox it leaves, starting from inbox
      `inbox` with polls `polls` still to come: a poll past the deadline ends
      the loop with "Timed out waiting"; otherwise the inbox is read, and the
      first envelope answering the request is returned, marked read first
      when `markRead` is set and it was unread. Running out of polls is read
      as a timeout (the method only runs with a last poll past the
      deadline). */
  function AwaitFrom(inbox: seq<Envelope>, polls: seq<Poll>, rid: string, markRead: bool, started: int,
                     timeout: int): (r: (Result<Envelope>, seq<Envelope>))
    ensures r.0.Err? ==> r.0.error == TimedOut(rid)
    ensures r.0.Ok? ==> Answers(r.0.value, rid)
    ensures |inbox| <= |r.1| && forall i :: 0 <= i < |inbox| ==> r.1[i].id == inbox[i].id
    decreases |polls|
  {
    if polls == [] || !InTime(polls[0].clock, started, timeout) then (Err(TimedOut(rid)), inbox)
    else
      var seen := inbox + polls[0].arrived;
      match FindAnswer(seen, rid)
      case Some(k) =>
        (Ok(seen[k]), if markRead && !seen[k].read then MarkIfPresent(seen, seen[k].id, polls[0].clock) else seen)
      case None => AwaitFrom(seen, polls[1..], rid, markRead, started, timeout)
  }

  lemma {:induction false} SeenShift(inbox: seq<Envelope>, polls: seq<Poll>, j: nat)
    requires 0 < j < |polls|
    ensures Seen(inbox + polls[0].arrived, polls[1..], j - 1) == Seen(inbox, polls, j)
    decreases j
  {
    if j > 1 {
      SeenShift(inbox, polls, j - 1);
    }
  }

  /** The first `j` polls all came within the deadline and found no answer. */
  predicate QuietUntil(inbox: seq<Envelope>, polls: seq<Poll>, rid: string, started: int, timeout: int, j: nat)
    requires j <= |polls|
  {
    forall i :: 0 <= i < j ==> InTime(polls[i].clock, started, timeout) && FindAnswer(Seen(inbox, polls, i), rid).None?
  }

  /** The inbox after the first `j` polls, when none of them marked anything. */
  function SeenUntil(inbox: seq<Envelope>, polls: seq<Poll>, j: nat): seq<Envelope>
    requires j <= |polls|
  {
    if j == 0 then inbox else Seen(inbox, polls, j - 1)
  }

  /** Poll `j` answered with `m`, the first answer in the inbox it read, and
      left `after`: marked only when `markRead` is set and `m` was unread. */
  predicate AnsweredAt(inbox: seq<Envelope>, polls: seq<Poll>, rid: string, markRead: bool, started: int, timeout: int,
                       j: nat, m: Envelope, after: seq<Envelope>)
    requires j < |polls|
  {
    var seen := Seen(inbox, polls, j);
    && InTime(polls[j].clock, started, timeout)
    && FindAnswer(seen, rid).Some? && m == seen[FindAnswer(seen, rid).value]
    && after == (if markRead && !m.read then MarkIfPresent(seen, m.id, polls[j].clock) else seen)
  }

  lemma QuietShift(inbox: seq<Envelope>, polls: seq<Poll>, rid: string, started: int, timeout: int, j: nat)
    requires j < |polls| && InTime(polls[0].clock, started, timeout)
    requires FindAnswer(inbox + polls[0].arrived, rid).None?
    requires QuietUntil(inbox + polls[0].arrived, polls[1..], rid, started, timeout, j)
    ensures QuietUntil(inbox, polls, rid, started, timeout, j + 1)
    ensures SeenUntil(inbox, polls, j + 1) == SeenUntil(inbox + polls[0].arrived, polls[1..], j)
  {
    forall i | 0 <= i < j + 1
      ensures InTime(polls[i].clock, started, timeout) && FindAnswer(Seen(inbox, polls, i), rid).None?
    {
      if i > 0 {
        SeenShift(inbox, polls, i);
        assert polls[1..][i - 1] == polls[i];
      }
    }
    if j > 0 {
      SeenShift(inbox, polls, j);
    }
  }

  lemma AnsweredShift(inbox: seq<Envelope>, polls: seq<Poll>, rid: string, markRead: bool, started: int, timeout: int,
                      j: nat, m: Envelope, after: seq<Envelope>)
    requires j + 1 < |polls|
    requires AnsweredAt(inbox + polls[0].arrived, polls[1..], rid, markRead, started, timeout, j, m, after)
    ensures AnsweredAt(inbox, polls, rid, markRead, started, timeout, j + 1, m, after)
  {
    SeenShift(inbox, polls, j + 1);
    assert polls[1..][j] == polls[j + 1];
  }

  /** When `await` answers, it answers with the first answer read by the
      first poll that found one, every earlier poll having come within the
      deadline and found nothing; the inbox is marked only when `markRead`
      is set and the answer was unread. */
  lemma {:induction false} AwaitAnswersFirst(inbox: seq<Envelope>, polls: seq<Poll>, rid: string, markRead: bool,
                                             started: int, timeout: int)
    ensures var (r, after) := AwaitFrom(inbox, polls, rid, markRead, started, timeout);
      r.Ok? ==> exists j :: 0 <= j < |polls| && QuietUntil(inbox, polls, rid, started, timeout, j)
                             && AnsweredAt(inbox, polls, rid, markRead, started, timeout, j, r.value, after)
    decreases |polls|
  {
    var res := AwaitFrom(inbox, polls, rid, markRead, started, timeout);
    if res.0.Ok? {
      AwaitOkShape(inbox, polls, rid, markRead, started, timeout);
      var seen := inbox + polls[0].arrived;
      if FindAnswer(seen, rid).Some? {
        AnswerNow(inbox, polls, rid, markRead, started, timeout);
      } else {
        AwaitQuietStep(inbox, polls, rid, markRead, started, timeout);
        AwaitAnswersFirst(seen, polls[1..], rid, markRead, started, timeout);
        var j :| 0 <= j < |polls[1..]| && QuietUntil(seen, polls[1..], rid, started, timeout, j)
                 && AnsweredAt(seen, polls[1..], rid, markRead, started, timeout, j, res.0.value, res.1);
        QuietShift(inbox, polls, rid, started, timeout, j);
        AnsweredShift(inbox, polls, rid, markRead, started, timeout, j, res.0.value, res.1);
      }
    }
  }

  /** An answer means a first poll came within the deadline. */
  lemma AwaitOkShape(inbox: seq<Envelope>, polls: seq<Poll>, rid: string, markRead: bool, started: int, timeout: int)
    requires AwaitFrom(inbox, polls, rid, markRead, started, timeout).0.Ok?
    ensures polls != [] && InTime(polls[0].clock, started, timeout)
  {
  }

  /** The first poll finds an answer: it is the one returned. */
  lemma AnswerNow(inbox: seq<Envelope>, polls: seq<Poll>, rid: string, markRead: bool, started: int, timeout: int)
    requires polls != [] && InTime(polls[0].clock, started, timeout)
    requires FindAnswer(inbox + polls[0].arrived, rid).Some?
    ensures var res := AwaitFrom(inbox, polls, rid, markRead, started, timeout);
      res.0.Ok? && QuietUntil(inbox, polls, rid, started, timeout, 0)
      && AnsweredAt(inbox, polls, rid, markRead, started, timeout, 0, res.0.value, res.1)
  {
    assert Seen(inbox, polls, 0) == inbox + polls[0].arrived;
  }

  /** A poll within the deadline that finds no answer hands the loop on. */
  lemma AwaitQuietStep(inbox: seq<Envelope>, polls: seq<Poll>, rid: string, markRead: bool, started: int, timeout: int)
    requires polls != [] && InTime(polls[0].clock, started, timeout)
    requires FindAnswer(inbox + polls[0].arrived, rid).None?
    ensures AwaitFrom(inbox, polls, rid, markRead, started, timeout)
         == AwaitFrom(inbox + polls[0].arrived, polls[1..], rid, markRead, started, timeout)
  {
  }

  /** When `await` fails, it fails with "Timed out waiting": the polls up to
      the first one past the deadline (or all of them) found no answer, and
      the inbox holds what they read, unmarked. */
  lemma {:induction false} AwaitTimesOut(inbox: seq<Envelope>, polls: seq<Poll>, rid: string, markRead: bool,
                                         started: int, timeout: int)
    ensures var (r, after) := AwaitFrom(inbox, polls, rid, markRead, started, timeout);
      r.Err? ==>
        && r.error == TimedOut(rid)
        && exists j :: 0 <= j <= |polls| && QuietUntil(inbox, polls, rid, started, timeout, j)
                       && (j == |polls| || !InTime(polls[j].clock, started, timeout))
                       && after == SeenUntil(inbox, polls, j)
    decreases |polls|
  {
    var res := AwaitFrom(inbox, polls, rid, markRead, started, timeout);
    if polls == [] || !InTime(polls[0].clock, started, timeout) {
      assert QuietUntil(inbox, polls, rid, started, timeout, 0);
    } else if res.0.Err? {
      var seen := inbox + polls[0].arrived;
      if FindAnswer(seen, rid).None? {
        AwaitQuietStep(inbox, polls, rid, markRead, started, timeout);
        AwaitTimesOut(seen, polls[1..], rid, markRead, started, timeout);
        var j :| 0 <= j <= |polls[1..]| && QuietUntil(seen, polls[1..], rid, started, timeout, j)
                 && (j == |polls[1..]| || !InTime(polls[1..][j].clock, started, timeout))
                 && res.1 == SeenUntil(seen, polls[1..], j);
        QuietShift(inbox, polls, rid, started, timeout, j);
        if j < |polls[1..]| {
          assert polls[1..][j] == polls[j + 1];
        }
      }
    }
  }

  /** What `await` is asked for: the inbox, the request id (trimmed text)
      and whether to mark the answer read. */
  datatype AwaitQuery = AwaitQuery(target: InboxTarget, requestId: string, markRead: bool)

  /** The options `await` reads before looking the team up, in its order:
      team, agent, request id, `--mark-read`, then `--json`. */
  function AwaitArgs(opts: map<string, Raw>): (r: Result<AwaitQuery>)
    ensures InboxArgs(opts).Err? ==> r == Err(InboxArgs(opts).error)
    ensures r.Ok? ==> && InboxArgs(opts) == Ok(r.value.target)
                      && RequiredOption(opts, ["request-id", "request_id"], "--request-id").Ok?
                      && r.value.requestId == Trim(ToText(RequiredOption(opts, ["request-id", "request_id"], "--request-id").value))
                      && ParseBoolean(PickOption(opts, ["mark-read", "mark_read"]), false) == Ok(r.value.markRead)
                      && ParseBoolean(PickOption(opts, ["json"]), false).Ok?
  {
    var target :- InboxArgs(opts);
    var rid :- RequiredOption(opts, ["request-id", "request_id"], "--request-id");
    var markRead :- ParseBoolean(PickOption(opts, ["mark-read", "mark_read"]), false);
    var json :- ParseBoolean(PickOption(opts, ["json"]), false);
    Ok(AwaitQuery(target, Trim(ToText(rid)), markRead))
  }

  /** The polling loop of `await` from inbox `inbox`: the answer and the
      inbox it leaves. */
  method AwaitLoop(inbox: seq<Envelope>, polls: seq<Poll>, rid: string, markRead: bool, started: int, timeout: int)
    returns (r: Result<Envelope>, after: seq<Envelope>)
    ensures (r, after) == AwaitFrom(inbox, polls, rid, markRead, started, timeout)
  {
    ghost var goal := AwaitFrom(inbox, polls, rid, markRead, started, timeout);
    after := inbox;
    r := Err(TimedOut(rid));
    var i := 0;
    var done := false;
    while i < |polls| && !done
      invariant 0 <= i <= |polls|
      invariant done ==> (r, after) == goal
      invariant !done ==> r == Err(TimedOut(rid))
      invariant !done ==> AwaitFrom(after, polls[i..], rid, markRead, started, timeout) == goal
      decreases |polls| - i, if done then 0 else 1
    {
      assert polls[i..][0] == polls[i] && polls[i..][1..] == polls[i + 1..];
      if !InTime(polls[i].clock, started, timeout) {
        done := true;
      } else {
        after := after + polls[i].arrived;
        match FindAnswer(after, rid) {
          case Some(k) =>
            var m := after[k];
            if markRead && !m.read {
              after := MarkIfPresent(after, m.id, polls[i].clock);
            }
            r := Ok(m);
            done := true;
          case None =>
            i := i + 1;
        }
      }
    }
  }

  /** What `watch` printed and how many turns it took; `failure` is the error
      a status read threw, which ends the command. */
  datatype Watched = Watched(emitted: seq<string>, iterations: nat, failure: Option<Error>)

  /** The loop of `watch` over the serialised views `views`, one per turn
      (each view includes its own `ts`), with `previous` the last key
      printed: a key is printed when it differs from the previous one; the
      loop stops after one turn with `once`, after `maxIterations` turns when
      that is positive, or when the views run out. */
  function WatchFrom(views: seq<Result<string>>, previous: string, once: bool, maxIterations: nat, acc: Watched): (r: Watched)
    requires acc.failure.None?
    ensures acc.iterations <= r.iterations && |acc.emitted| <= |r.emitted|
    ensures |r.emitted| - |acc.emitted| <= r.iterations - acc.iterations
    ensures r.failure.Some? ==> exists i :: 0 <= i < |views| && views[i].Err? && r.failure == Some(views[i].error)
    decreases |views|
  {
    if views == [] then acc
    else match views[0]
      case Err(e) => acc.(failure := Some(e))
      case Ok(key) =>
        var next := Watched(if key != previous then acc.emitted + [key] else acc.emitted, acc.iterations + 1, None);
        if once || (maxIterations > 0 && next.iterations >= maxIterations) then next
        else WatchFrom(views[1..], key, once, maxIterations, next)
  }

  /** The options `watch` reads before its loop, in its order: the team,
      then `--once`, then `--json`. */
  function WatchOnce(opts: map<string, Raw>): (r: Result<bool>)
    ensures r.Ok? ==> SanitizedArg(opts, ["team", "team_name"], "--team").Ok?
  {
    var team :- SanitizedArg(opts, ["team", "team_name"], "--team");
    var once :- ParseBoolean(PickOption(opts, ["once"]), false);
    var json :- ParseBoolean(PickOption(opts, ["json"]), false);
    Ok(once)
  }

  /** `watch` for the options `opts` (with the parsed `--max-iterations`
      value `maxIterations`, 0 when absent) over the views it reads. */
  method Watch(opts: map<string, Raw>, maxIterations: nat, views: seq<Result<string>>) returns (r: Result<Watched>)
    ensures WatchOnce(opts).Err? ==> r == Err(WatchOnce(opts).error)
    ensures WatchOnce(opts).Ok? ==> r == Ok(WatchFrom(views, "", WatchOnce(opts).value, maxIterations, Watched([], 0, None)))
  {
    var parsed := WatchOnce(opts);
    if parsed.Err? {
      return Err(parsed.error);
    }
    var w := WatchLoop(parsed.value, maxIterations, views);
    r := Ok(w);
  }

  /** The `while (true)` loop of `watch`, from an empty previous key. */
  method WatchLoop(once: bool, maxIterations: nat, views: seq<Result<string>>) returns (w: Watched)
    ensures w == WatchFrom(views, "", once, maxIterations, Watched([], 0, None))
  {
    ghost var goal := WatchFrom(views, "", once, maxIterations, Watched([], 0, None));
    var previous := "";
    w := Watched([], 0, None);
    var i := 0;
    while i < |views|
      invariant 0 <= i <= |views| && w.failure.None?
      invariant WatchFrom(views[i..], previous, once, maxIterations, w) == goal
      decreases |views| - i
    {
      assert views[i..][1..] == views[i + 1..];
      if views[i].Err? {
        return w.(failure := Some(views[i].error));
      }
      var key := views[i].value;
      if key != previous {
        w := w.(emitted := w.emitted + [key]);
      }
      w := w.(iterations := w.iterations + 1);
      previous := key;
      if once || (maxIterations > 0 && w.iterations >= maxIterations) {
        return;
      }
      i := i + 1;
    }
  }

  /** No key is printed twice in a row: the first key printed differs from
      `previous` and from the last one printed before. */
  lemma {:induction false} WatchNoRepeats(views: seq<Result<string>>, previous: string, once: bool, maxIterations: nat, acc: Watched)
    requires acc.failure.None?
    requires acc.emitted != [] ==> acc.emitted[|acc.emitted| - 1] == previous
    requires NoAdjacentRepeats(acc.emitted)
    ensures NoAdjacentRepeats(WatchFrom(views, previous, once, maxIterations, acc).emitted)
    decreases |views|
  {
    if views != [] && views[0].Ok? {
      var key := views[0].value;
      var next := Watched(if key != previous then acc.emitted + [key] else acc.emitted, acc.iterations + 1, None);
      if key != previous {
        AppendKeepsNoRepeats(acc.emitted, key);
      }
      if once || (maxIterations > 0 && next.iterations >= maxIterations) {
        assert WatchFrom(views, previous, once, maxIterations, acc) == next;
      } else {
        WatchNoRepeats(views[1..], key, once, maxIterations, next);
        assert WatchFrom(views, previous, once, maxIterations, acc) == WatchFrom(views[1..], key, once, maxIterations, next);
      }
    }
  }

  /** What was printed before the loop stays printed. */
  lemma {:induction false} WatchKeepsPrinted(views: seq<Result<string>>, previous: string, once: bool, maxIterations: nat, acc: Watched)
    requires acc.failure.None?
    ensures var w := WatchFrom(views, previous, once, maxIterations, acc);
      |acc.emitted| <= |w.emitted| && w.emitted[..|acc.emitted|] == acc.emitted
    decreases |views|
  {
    if views != [] && views[0].Ok? {
      var key := views[0].value;
      var next := Watched(if key != previous then acc.emitted + [key] else acc.emitted, acc.iterations + 1, None);
      assert next.emitted[..|acc.emitted|] == acc.emitted;
      if !(once || (maxIterations > 0 && next.iterations >= maxIterations)) {
        WatchKeepsPrinted(views[1..], key, once, maxIterations, next);
        var w := WatchFrom(views[1..], key, once, maxIterations, next);
        assert w.emitted[..|acc.emitted|] == w.emitted[..|next.emitted|][..|acc.emitted|];
      }
    }
  }

  /** No two consecutive entries are equal. */
  predicate NoAdjacentRepeats(s: seq<string>) {
    forall i :: 0 <= i < |s| - 1 ==> s[i] != s[i + 1]
  }

  lemma AppendKeepsNoRepeats(s: seq<string>, key: string)
    requires NoAdjacentRepeats(s)
    requires s != [] ==> s[|s| - 1] != key
    ensures NoAdjacentRepeats(s + [key])
  {
    var t := s + [key];
    forall i | 0 <= i < |t| - 1 ensures t[i] != t[i + 1] {
      assert t[i] == s[i];
    }
  }

  /** The loop takes at most one turn per view, only one with `once`, and at
      most `maxIterations` when that is positive. */
  lemma {:induction false} WatchTurns(views: seq<Result<string>>, previous: string, once: bool, maxIterations: nat, acc: Watched)
    requires acc.failure.None?
    requires acc.iterations == 0 || !once
    requires maxIterations == 0 || acc.iterations < maxIterations
    ensures var w := WatchFrom(views, previous, once, maxIterations, acc);
      && acc.iterations <= w.iterations <= acc.iterations + |views|
      && (once ==> w.iterations <= 1)
      && (maxIterations > 0 ==> w.iterations <= maxIterations)
    decreases |views|
  {
    if views != [] && views[0].Ok? {
      var key := views[0].value;
      var next := Watched(if key != previous then acc.emitted + [key] else acc.emitted, acc.iterations + 1, None);
      if !(once || (maxIterations > 0 && next.iterations >= maxIterations)) {
        WatchTurns(views[1..], key, once, maxIterations, next);
      }
    }
  }

  /** Every view carries its own time stamp, so consecutive keys differ; then
      every turn prints, and a watch without `once` or a bound prints every
      key it read. */
  lemma {:induction false} WatchPrintsEveryTurn(views: seq<Result<string>>, previous: string, maxIterations: nat, acc: Watched)
    requires acc.failure.None?
    requires forall i :: 0 <= i < |views| ==> views[i].Ok?
    requires views != [] ==> views[0].value != previous
    requires forall i :: 0 <= i < |views| - 1 ==> views[i].value != views[i + 1].value
    ensures var w := WatchFrom(views, previous, false, maxIterations, acc);
      && |w.emitted| - |acc.emitted| == w.iterations - acc.iterations
      && (maxIterations == 0 ==> w.emitted == acc.emitted + seq(|views|, i requires 0 <= i < |views| => views[i].value))
    decreases |views|
  {
    if views != [] {
      var key := views[0].value;
      var next := Watched(acc.emitted + [key], acc.iterations + 1, None);
      if !(maxIterations > 0 && next.iterations >= maxIterations) {
        WatchPrintsEveryTurn(views[1..], key, maxIterations, next);
        var rest := seq(|views[1..]|, i requires 0 <= i < |views[1..]| => views[1..][i].value);
        assert seq(|views|, i requires 0 <= i < |views| => views[i].value) == [key] + rest;
      }
    }
  }
}
