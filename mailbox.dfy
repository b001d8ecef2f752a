/** The per-agent mailbox of `scripts/vc-teams.js` as a value: the
    de-duplicating append done inside `appendMailbox`'s lock, read marking,
    the retention filter of `prune`, and the per-inbox counts of
    `listInboxStats`. The state-changing methods that use these are in
    `Store.TeamStore`. */
module Mailbox {
  import opened Outcomes
  import opened Envelopes

  /** `isRecentDuplicate`: same key, a parseable timestamp, and at most
      `window` milliseconds old (inclusive). */
  predicate IsRecentDuplicate(m: Envelope, key: string, now: int, window: int): (r: bool)
    ensures r ==> m.dedupeKey == Some(key) && m.timestamp.At?
    ensures m.dedupeKey == Some(key) && m.timestamp.At? && window >= 0 && m.timestamp.ms >= now ==> r
    ensures (&& m.dedupeKey == Some(key) && m.timestamp.At? && window > 0 && m.timestamp.ms <= now
             && Bucket(m.timestamp.ms, window) == Bucket(now, window)) ==> r
  {
    if m.timestamp.At? && window > 0 && m.timestamp.ms <= now && Bucket(m.timestamp.ms, window) == Bucket(now, window) then
      SameBucketWithinWindow(m.timestamp.ms, now, window);
      m.dedupeKey == Some(key) && now - m.timestamp.ms <= window
    else
      m.dedupeKey == Some(key) && m.timestamp.At? && now - m.timestamp.ms <= window
  }

  predicate FirstRecentDuplicate(inbox: seq<Envelope>, key: string, now: int, window: int, i: int) {
    0 <= i < |inbox| && IsRecentDuplicate(inbox[i], key, now, window)
    && forall j :: 0 <= j < i ==> !IsRecentDuplicate(inbox[j], key, now, window)
  }

  /** `messages.find(...)` with `isRecentDuplicate`, as a position. */
  function FindDuplicate(inbox: seq<Envelope>, key: string, now: int, window: int): (r: Option<nat>)
    ensures r.None? <==> forall i :: 0 <= i < |inbox| ==> !IsRecentDuplicate(inbox[i], key, now, window)
    ensures r.Some? ==> FirstRecentDuplicate(inbox, key, now, window, r.value)
  {
    if inbox == [] then None
    else if IsRecentDuplicate(inbox[0], key, now, window) then Some(0)
    else match FindDuplicate(inbox[1..], key, now, window)
      case None => None
      case Some(i) => Some(i + 1)
  }

  /** What `appendMailbox` reports. */
  datatype Delivery = Delivery(id: string, duplicate: bool)

  /** The envelope takes part in de-duplication: `if (message.dedupeKey)`. */
  predicate HasKey(m: Envelope) {
    m.dedupeKey.Some? && m.dedupeKey.value != ""
  }

  /** The critical section of `appendMailbox` on the loaded inbox at `now`:
      the inbox written back and the report. A duplicate is reported exactly
      when the envelope has a key and the inbox holds a recent copy; it then
      names the first such copy and leaves the inbox alone. Otherwise the
      envelope is appended at the end, every earlier entry unchanged, and its
      own id is reported. */
  function Deliver(inbox: seq<Envelope>, m: Envelope, now: int, window: int): (r: (seq<Envelope>, Delivery))
    ensures r.1.duplicate <==> HasKey(m) && exists i :: 0 <= i < |inbox| && IsRecentDuplicate(inbox[i], m.dedupeKey.value, now, window)
    ensures r.1.duplicate ==>
      && r.0 == inbox
      && exists i :: FirstRecentDuplicate(inbox, m.dedupeKey.value, now, window, i) && r.1.id == inbox[i].id
    ensures !r.1.duplicate ==> r.0 == inbox + [m] && r.1.id == m.id && r.0[..|inbox|] == inbox
  {
    if HasKey(m) then
      match FindDuplicate(inbox, m.dedupeKey.value, now, window)
      case Some(i) => (inbox, Delivery(inbox[i].id, true))
      case None => (inbox + [m], Delivery(m.id, false))
    else (inbox + [m], Delivery(m.id, false))
  }

  /** The end-to-end de-duplication scenario: the same request sent twice in
      one time bucket is stored once, the second delivery reports the first
      copy's id, and the inbox keeps length 1. */
  lemma RepeatedSendIsDeduplicated(q: EnvelopeRequest, id1: string, id2: string, t1: int, t2: int,
                                   window: int, digest: string -> string)
    requires window > 0 && !q.noDedupe && t1 <= t2 && id2 != ""
    requires BuildEnvelope(q, id1, t1, window, digest).Ok?
    requires Bucket(t1, window) == Bucket(t2, window)
    requires DedupeKey(digest, FieldsOf(q), t1, window) != ""
    ensures BuildEnvelope(q, id2, t2, window, digest).Ok?
    ensures var e1 := BuildEnvelope(q, id1, t1, window, digest).value;
            var e2 := BuildEnvelope(q, id2, t2, window, digest).value;
            && Deliver([], e1, t1, window) == ([e1], Delivery(id1, false))
            && Deliver([e1], e2, t2, window) == ([e1], Delivery(id1, true))
  {
    SameRequestSameKey(q, id1, id2, t1, t2, window, digest);
    SameBucketWithinWindow(t1, t2, window);
    var e1 := BuildEnvelope(q, id1, t1, window, digest).value;
    var e2 := BuildEnvelope(q, id2, t2, window, digest).value;
    assert HasKey(e1) && HasKey(e2);
    assert [] + [e1] == [e1];
    assert IsRecentDuplicate(e1, e2.dedupeKey.value, t2, window);
    assert FindDuplicate([e1], e2.dedupeKey.value, t2, window) == Some(0);
  }

  predicate FirstWithId(inbox: seq<Envelope>, id: string, k: int) {
    0 <= k < |inbox| && inbox[k].id == id && forall j :: 0 <= j < k ==> inbox[j].id != id
  }

  /** `messages.findIndex((entry) => entry.id === id)`. */
  function FindById(inbox: seq<Envelope>, id: string): (r: Option<nat>)
    ensures r.None? <==> forall i :: 0 <= i < |inbox| ==> inbox[i].id != id
    ensures r.Some? ==> FirstWithId(inbox, id, r.value)
  {
    if inbox == [] then None
    else if inbox[0].id == id then Some(0)
    else match FindById(inbox[1..], id)
      case None => None
      case Some(i) => Some(i + 1)
  }

  /** The read transition of one envelope. */
  function MarkedRead(m: Envelope, now: int): Envelope {
    m.(read := true, readAt := Some(now))
  }

  /** The critical section of `mark-read`: only the first envelope with the
      id changes, and only in `read`/`readAt`; length, order and every other
      envelope are kept. An absent id is "Message not found". */
  function MarkReadAt(inbox: seq<Envelope>, id: string, now: int): (r: Result<seq<Envelope>>)
    ensures r.Err? <==> forall i :: 0 <= i < |inbox| ==> inbox[i].id != id
    ensures r.Err? ==> r.error == MessageNotFound(id)
    ensures r.Ok? ==>
      && |r.value| == |inbox|
      && exists k :: FirstWithId(inbox, id, k)
           && r.value[k] == inbox[k].(read := true, readAt := Some(now))
           && forall j :: 0 <= j < |inbox| && j != k ==> r.value[j] == inbox[j]
  {
    match FindById(inbox, id)
    case None => Err(MessageNotFound(id))
    case Some(k) => Ok(inbox[k := MarkedRead(inbox[k], now)])
  }

  /** The mark done by `await`: the same transition, and nothing when the
      message has disappeared from the latest copy. */
  function MarkIfPresent(inbox: seq<Envelope>, id: string, now: int): (r: seq<Envelope>)
    ensures |r| == |inbox|
    ensures (forall i :: 0 <= i < |inbox| ==> inbox[i].id != id) ==> r == inbox
    ensures (exists k :: FirstWithId(inbox, id, k)) ==>
      exists k :: FirstWithId(inbox, id, k)
        && r[k] == inbox[k].(read := true, readAt := Some(now))
        && forall j :: 0 <= j < |inbox| && j != k ==> r[j] == inbox[j]
  {
    match MarkReadAt(inbox, id, now)
    case Ok(marked) => marked
    case Err(_) => inbox
  }

  /** `messages.filter((message) => !message.read).length`. */
  function CountUnread(inbox: seq<Envelope>): (n: nat)
    ensures n <= |inbox|
  {
    if inbox == [] then 0 else (if inbox[0].read then 0 else 1) + CountUnread(inbox[1..])
  }

  lemma {:induction false} CountUnreadConcat(a: seq<Envelope>, b: seq<Envelope>)
    ensures CountUnread(a + b) == CountUnread(a) + CountUnread(b)
  {
    if a == [] {
      assert a + b == b;
    } else {
      assert (a + b)[0] == a[0] && (a + b)[1..] == a[1..] + b;
      CountUnreadConcat(a[1..], b);
    }
  }

  lemma CountUnreadUpdate(s: seq<Envelope>, k: nat, v: Envelope)
    requires k < |s|
    ensures CountUnread(s[k := v]) == CountUnread(s) - (if s[k].read then 0 else 1) + (if v.read then 0 else 1)
  {
    assert s == s[..k] + [s[k]] + s[k + 1..];
    assert s[k := v] == s[..k] + [v] + s[k + 1..];
    CountUnreadConcat(s[..k] + [s[k]], s[k + 1..]);
    CountUnreadConcat(s[..k], [s[k]]);
    CountUnreadConcat(s[..k] + [v], s[k + 1..]);
    CountUnreadConcat(s[..k], [v]);
  }

  /** One entry of `listInboxStats`. */
  datatype InboxStat = InboxStat(agent: string, total: nat, unread: nat, lastTimestamp: Option<Timestamp>)

  function InboxStatOf(agent: string, inbox: seq<Envelope>): (s: InboxStat)
    ensures s.unread <= s.total
  {
    InboxStat(agent, |inbox|, CountUnread(inbox),
              if inbox == [] then None else Some(inbox[|inbox| - 1].timestamp))
  }

  /** How the inbox counts move: a delivery that is not a duplicate adds one
      to the total and one unread, and its timestamp becomes the last one; a
      duplicate changes nothing; marking read keeps the total and lowers the
      unread count by one exactly when the target was unread. */
  lemma StatsAfterDeliverAndMark(agent: string, inbox: seq<Envelope>, m: Envelope, now: int, window: int, id: string)
    requires !m.read
    ensures var (after, d) := Deliver(inbox, m, now, window);
            var s := InboxStatOf(agent, after);
            var s0 := InboxStatOf(agent, inbox);
            && (d.duplicate ==> s == s0)
            && (!d.duplicate ==> s.total == s0.total + 1 && s.unread == s0.unread + 1
                                 && s.lastTimestamp == Some(m.timestamp))
    ensures MarkReadAt(inbox, id, now).Ok? ==>
            var k := FindById(inbox, id).value;
            var s := InboxStatOf(agent, MarkReadAt(inbox, id, now).value);
            var s0 := InboxStatOf(agent, inbox);
            s.total == s0.total && s.unread == s0.unread - (if inbox[k].read then 0 else 1)
  {
    var (after, d) := Deliver(inbox, m, now, window);
    if !d.duplicate {
      CountUnreadConcat(inbox, [m]);
    }
    if MarkReadAt(inbox, id, now).Ok? {
      var k := FindById(inbox, id).value;
      CountUnreadUpdate(inbox, k, MarkedRead(inbox[k], now));
    }
  }

  /** The retention predicate of `prune`: a message without a parseable
      timestamp, or unread, is always kept; a read one is kept while its
      timestamp is not older than the cutoff. */
  predicate Kept(m: Envelope, cutoff: int) {
    m.timestamp.Unparseable? || !m.read || m.timestamp.ms >= cutoff
  }

  /** `messages.filter(...)` with the retention predicate. */
  function PruneInbox(inbox: seq<Envelope>, cutoff: int): (r: seq<Envelope>)
    ensures |r| <= |inbox|
    ensures forall m :: m in r <==> m in inbox && Kept(m, cutoff)
  {
    if inbox == [] then []
    else (if Kept(inbox[0], cutoff) then [inbox[0]] else []) + PruneInbox(inbox[1..], cutoff)
  }

  /** Pruning works entry by entry, so the order of what is kept is the
      inbox order. */
  lemma {:induction false} PruneConcat(a: seq<Envelope>, b: seq<Envelope>, cutoff: int)
    ensures PruneInbox(a + b, cutoff) == PruneInbox(a, cutoff) + PruneInbox(b, cutoff)
  {
    if a == [] {
      assert a + b == b;
    } else {
      assert (a + b)[0] == a[0] && (a + b)[1..] == a[1..] + b;
      PruneConcat(a[1..], b, cutoff);
    }
  }

  /** Pruning never removes an unread message, and a second prune with the
      same cutoff removes nothing more. */
  lemma {:induction false} PruneKeepsUnread(inbox: seq<Envelope>, cutoff: int)
    ensures CountUnread(PruneInbox(inbox, cutoff)) == CountUnread(inbox)
    ensures PruneInbox(PruneInbox(inbox, cutoff), cutoff) == PruneInbox(inbox, cutoff)
  {
    if inbox != [] {
      PruneKeepsUnread(inbox[1..], cutoff);
      var head := if Kept(inbox[0], cutoff) then [inbox[0]] else [];
      CountUnreadConcat(head, PruneInbox(inbox[1..], cutoff));
      PruneConcat(head, PruneInbox(inbox[1..], cutoff), cutoff);
      assert PruneInbox(head, cutoff) == head by {
        if head != [] { assert head[1..] == []; }
      }
    }
  }
}
