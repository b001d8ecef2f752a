/** Message envelopes of `scripts/vc-teams.js`: the fixed type set, the
    `shutdown_response` rewrite, the de-duplication key, and the construction
    and validation of an envelope before it is stored. */
module Envelopes {
  import opened Outcomes
  import opened Text
  import opened Options
  import opened Names

  const MessageTypes: set<string> := {
    "message", "broadcast", "shutdown_request", "shutdown_response", "shutdown_approved",
    "shutdown_rejected", "plan_approval_request", "plan_approval_response",
    "permission_request", "permission_response", "idle_notification"
  }

  /** Types that open an entry in the request ledger. */
  const RequestTypes: set<string> := {"shutdown_request", "plan_approval_request"}

  /** `isResponseInputType`: types that resolve an entry of the request ledger. */
  const ResponseTypes: set<string> :=
    {"shutdown_response", "plan_approval_response", "shutdown_approved", "shutdown_rejected"}

  /** A timestamp as `Date.parse` sees it: milliseconds, or NaN. */
  datatype Timestamp = At(ms: int) | Unparseable

  /** One stored message. `read`/`readAt` are the only fields changed after
      the envelope is appended. The message text is kept as the string
      `String(content)` (a bare `--content` flag is the text "true"). */
  datatype Envelope = Envelope(
    id: string,
    msgType: string,
    rawType: string,
    from: string,
    recipient: Option<string>,
    text: string,
    summary: string,
    timestamp: Timestamp,
    color: string,
    read: bool,
    readAt: Option<int>,
    requestId: Option<Raw>,
    approve: Option<bool>,
    dedupeKey: Option<string>)

  /** `normalizeMessageType`: a shutdown response is stored in its terminal form. */
  function NormalizeMessageType(msgType: string, approve: Option<bool>): (r: string)
    ensures r != "shutdown_response"
    ensures msgType == "shutdown_response" && approve == Some(true) ==> r == "shutdown_approved"
    ensures msgType == "shutdown_response" && approve != Some(true) ==> r == "shutdown_rejected"
    ensures msgType != "shutdown_response" ==> r == msgType
    ensures msgType in MessageTypes <==> r in MessageTypes
  {
    if msgType == "shutdown_response" then
      if approve == Some(true) then "shutdown_approved" else "shutdown_rejected"
    else msgType
  }

  /** The tuple the de-duplication key is computed from. */
  datatype DedupeFields = DedupeFields(
    from: string, recipient: string, msgType: string, text: string, summary: string,
    requestId: Option<Raw>, approve: Option<bool>)

  /** `String(approve ?? "")`. */
  function ApproveText(approve: Option<bool>): string {
    match approve
    case None => ""
    case Some(b) => if b then "true" else "false"
  }

  /** The `|`-joined text that is hashed, with the time bucket last. */
  function DedupeRaw(f: DedupeFields, bucket: int): string {
    var requestId := match f.requestId case None => "" case Some(v) => ToText(v);
    Join([f.from, f.recipient, f.msgType, f.text, f.summary, requestId, ApproveText(f.approve),
          IntToDecimal(bucket)], "|")
  }

  /** `Math.floor(now / window)`; the window is positive, so Dafny's division
      is the floor. */
  function Bucket(now: int, window: int): int
    requires window > 0
  {
    now / window
  }

  /** `computeDedupeKey`: the digest (the first 24 hex digits of SHA-256 in the
      script) of the raw text. The digest is a parameter: any deterministic
      function of the text. */
  function DedupeKey(digest: string -> string, f: DedupeFields, now: int, window: int): (r: string)
    requires window > 0
    ensures forall t :: window * Bucket(now, window) <= t < window * Bucket(now, window) + window ==>
      r == digest(DedupeRaw(f, Bucket(t, window)))
  {
    BucketInterval(now, window);
    digest(DedupeRaw(f, Bucket(now, window)))
  }

  /** A bucket is the half-open interval of one window's length that starts at
      a multiple of the window. */
  lemma BucketInterval(now: int, window: int)
    requires window > 0
    ensures forall t :: window * Bucket(now, window) <= t < window * Bucket(now, window) + window ==>
      Bucket(t, window) == Bucket(now, window)
  {
    forall t | window * Bucket(now, window) <= t < window * Bucket(now, window) + window
      ensures Bucket(t, window) == Bucket(now, window)
    {
      DivisionIsUnique(t, window, now / window);
    }
  }

  /** `t / w` is the only `b` with `w * b <= t < w * b + w`. */
  lemma DivisionIsUnique(t: int, w: int, b: int)
    requires w > 0 && w * b <= t < w * b + w
    ensures t / w == b
  {
    var q := t / w;
    assert t == w * q + t % w && 0 <= t % w < w;
    if q < b {
      MultipleAtLeast(w, b - q);
      assert false;
    } else if q > b {
      MultipleAtLeast(w, q - b);
      assert false;
    }
  }

  lemma {:induction false} MultipleAtLeast(w: int, k: int)
    requires w > 0 && k >= 1
    ensures w * k >= w
    decreases k
  {
    if k > 1 {
      MultipleAtLeast(w, k - 1);
      assert w * k == w * (k - 1) + w;
    }
  }


  /** Two clock readings in the same bucket are less than one window apart, so
      the stored copy of the first send is still recent at the second. */
  lemma SameBucketWithinWindow(t1: int, t2: int, window: int)
    requires window > 0 && t1 <= t2
    requires Bucket(t1, window) == Bucket(t2, window)
    ensures t2 - t1 < window
  {
    var b := t1 / window;
    assert window * b <= t1;
    assert t2 < window * b + window;
  }

  /** The joined text does not determine the tuple: a `|` inside the text can
      stand for a field boundary, so two different sends can share a key. */
  lemma DedupeRawIsAmbiguous()
    ensures DedupeFields("a", "b", "message", "x|y", "z", None, None)
         != DedupeFields("a", "b", "message", "x", "y|z", None, None)
    ensures DedupeRaw(DedupeFields("a", "b", "message", "x|y", "z", None, None), 0)
         == DedupeRaw(DedupeFields("a", "b", "message", "x", "y|z", None, None), 0)
  {
    assert IntToDecimal(0) == "0";
    var tail := ["", "", "0"];
    assert Join(tail, "|") == "||0" by {
      assert Join(tail[1..], "|") == "|0" by { assert Join(tail[2..], "|") == "0"; }
    }
    assert Join(["z"] + tail, "|") == "z|||0" by {
      assert (["z"] + tail)[1..] == tail;
      assert Join(["z"] + tail, "|") == "z" + "|" + Join(tail, "|");
    }
    assert Join(["y|z"] + tail, "|") == "y|z|||0" by {
      assert (["y|z"] + tail)[1..] == tail;
      assert Join(["y|z"] + tail, "|") == "y|z" + "|" + Join(tail, "|");
    }
    assert Join(["x|y", "z"] + tail, "|") == "x|y|z|||0" by {
      assert (["x|y", "z"] + tail)[1..] == ["z"] + tail;
    }
    assert Join(["x", "y|z"] + tail, "|") == "x|y|z|||0" by {
      assert (["x", "y|z"] + tail)[1..] == ["y|z"] + tail;
    }
    var head := ["a", "b", "message"];
    assert ["a", "b", "message", "x|y", "z", "", "", "0"] == head + (["x|y", "z"] + tail);
    assert ["a", "b", "message", "x", "y|z", "", "", "0"] == head + (["x", "y|z"] + tail);
    JoinPrefix(head, ["x|y", "z"] + tail, "|");
    JoinPrefix(head, ["x", "y|z"] + tail, "|");
  }

  lemma {:induction false} JoinPrefix(head: seq<string>, rest: seq<string>, sep: string)
    requires head != [] && rest != []
    ensures Join(head + rest, sep) == Join(head, sep) + sep + Join(rest, sep)
  {
    if |head| == 1 {
      assert (head + rest)[1..] == rest;
    } else {
      assert (head + rest)[1..] == head[1..] + rest;
      JoinPrefix(head[1..], rest, sep);
    }
  }

  /** What the send protocol asks `buildMessageEnvelope` to build. */
  datatype EnvelopeRequest = EnvelopeRequest(
    msgType: string, from: string, recipient: string, content: string, summary: string,
    requestId: Option<Raw>, approve: Option<bool>, noDedupe: bool)

  /** The colour `colorForAgent` gives an agent id (the method computing it
      is `Names.ColorForAgent`). */
  function ColorOf(agentId: string): (c: string)
    ensures c in Palette
  {
    Palette[AgentHash(agentId) % |Palette|]
  }

  /** `validateMessageEnvelope`. The `read` flag is a boolean by its type. The
      plan-approval checks test `rawType`, the others `msgType`. */
  function ValidateEnvelope(m: Envelope): (r: Result<Envelope>)
    ensures r.Ok? ==> r.value == m
    ensures r.Ok? <==>
      && m.id != "" && m.msgType in MessageTypes && m.from != "" && m.timestamp.At?
      && (m.msgType in {"shutdown_approved", "shutdown_rejected"} ==> m.requestId.Some? && m.requestId.value.Str?)
      && (m.rawType == "plan_approval_response" ==>
            m.requestId.Some? && m.requestId.value.Str? && m.approve.Some?)
  {
    if m.id == "" then Err(InvalidMessage("id"))
    else if m.msgType !in MessageTypes then Err(InvalidMessage("type"))
    else if m.from == "" then Err(InvalidMessage("from"))
    else if m.timestamp.Unparseable? then Err(InvalidMessage("timestamp"))
    else if m.msgType in {"shutdown_approved", "shutdown_rejected"}
            && !(m.requestId.Some? && m.requestId.value.Str?) then Err(TypeRequiresRequestId(m.msgType))
    else if m.rawType == "plan_approval_response" && !(m.requestId.Some? && m.requestId.value.Str?) then
      Err(PlanResponseRequiresRequestId)
    else if m.rawType == "plan_approval_response" && m.approve.None? then Err(PlanResponseRequiresApprove)
    else Ok(m)
  }

  /** The requested-type conditions under which `validateMessageEnvelope`
      accepts what `buildMessageEnvelope` produced. */
  predicate RequestPassesValidation(q: EnvelopeRequest) {
    && q.msgType in MessageTypes
    && (NormalizeMessageType(q.msgType, q.approve) in {"shutdown_approved", "shutdown_rejected"} ==>
          q.requestId.Some? && q.requestId.value.Str?)
    && (q.msgType == "plan_approval_response" ==>
          q.requestId.Some? && q.requestId.value.Str? && q.approve.Some?)
  }

  /** `buildMessageEnvelope` for a message created at `now` with identifier
      `id`: the names are sanitized (the sender first), the type normalised,
      the key computed unless `noDedupe`, and the result validated. It
      succeeds exactly when both names sanitize, the identifier is non-empty
      and the requested type passes validation; the envelope then carries the
      sanitized names, the normalised type next to the requested one, the
      text, the creation time, an unread flag, and a key unless
      de-duplication is off. */
  function BuildEnvelope(q: EnvelopeRequest, id: string, now: int, window: int,
                         digest: string -> string): (r: Result<Envelope>)
    requires window > 0
    ensures r.Ok? <==>
      && SanitizeName(q.from).Ok?
      && (q.recipient != "" ==> SanitizeName(q.recipient).Ok?)
      && id != "" && RequestPassesValidation(q)
    ensures SanitizeName(q.from).Err? ==> r == Err(InvalidName(q.from))
    ensures r.Ok? ==>
      var e := r.value;
      && e.id == id && e.rawType == q.msgType
      && e.msgType == NormalizeMessageType(q.msgType, q.approve) && e.msgType != "shutdown_response"
      && e.from == SanitizeName(q.from).value
      && e.recipient == (if q.recipient == "" then None else Some(SanitizeName(q.recipient).value))
      && e.text == q.content && e.summary == q.summary
      && e.timestamp == At(now) && !e.read && e.readAt.None?
      && e.requestId == q.requestId && e.approve == q.approve
      && e.color == ColorOf(SanitizeName(q.from).value + "@msg")
      && (q.noDedupe <==> e.dedupeKey.None?)
      && (!q.noDedupe ==> e.dedupeKey == Some(DedupeKey(digest, FieldsOf(q), now, window)))
  {
    var from :- SanitizeName(q.from);
    var recipient :- if q.recipient == "" then Ok(None)
                     else match SanitizeName(q.recipient)
                          case Ok(n) => Ok(Some(n))
                          case Err(e) => Err(e);
    var effective := NormalizeMessageType(q.msgType, q.approve);
    var e := Envelope(
      id, effective, q.msgType, from, recipient, q.content, q.summary, At(now),
      ColorOf(from + "@msg"), false, None, q.requestId, q.approve,
      if q.noDedupe then None else Some(DedupeKey(digest, FieldsOf(q), now, window)));
    ValidateEnvelope(e)
  }

  /** The key tuple of a request: sanitized names, the normalised type. */
  function FieldsOf(q: EnvelopeRequest): DedupeFields {
    DedupeFields(
      match SanitizeName(q.from) case Ok(n) => n case Err(_) => q.from,
      if q.recipient == "" then "" else match SanitizeName(q.recipient) case Ok(n) => n case Err(_) => q.recipient,
      NormalizeMessageType(q.msgType, q.approve), q.content, q.summary, q.requestId, q.approve)
  }

  /** Identical requests built in the same time bucket carry the same key,
      whatever identifier each copy got. */
  lemma SameRequestSameKey(q: EnvelopeRequest, id1: string, id2: string, t1: int, t2: int,
                           window: int, digest: string -> string)
    requires window > 0 && !q.noDedupe
    requires BuildEnvelope(q, id1, t1, window, digest).Ok? && id2 != ""
    requires Bucket(t1, window) == Bucket(t2, window)
    ensures BuildEnvelope(q, id2, t2, window, digest).Ok?
    ensures BuildEnvelope(q, id1, t1, window, digest).value.dedupeKey
         == BuildEnvelope(q, id2, t2, window, digest).value.dedupeKey
  {
  }
}
