/** Name normalisation of `scripts/vc-teams.js`: `sanitizeName`, `makeAgentId`
    and the palette choice `colorForAgent`. */
module Names {
  import opened Outcomes
  import opened Text

  /** Characters that survive `sanitizeName` other than the separator `-`. */
  predicate IsWordChar(c: char) {
    ('a' <= c <= 'z') || ('0' <= c <= '9') || c == '.' || c == '_'
  }

  /** The class `[a-z0-9._-]`. */
  predicate IsSlugChar(c: char) {
    IsWordChar(c) || c == '-'
  }

  predicate AllSlug(s: string) {
    forall i :: 0 <= i < |s| ==> IsSlugChar(s[i])
  }

  predicate NoDoubleDash(s: string) {
    forall i :: 0 <= i < |s| - 1 ==> !(s[i] == '-' && s[i + 1] == '-')
  }

  /** The shape of every name `sanitizeName` returns. */
  predicate IsSanitized(s: string) {
    s != [] && AllSlug(s) && NoDoubleDash(s) && s[0] != '-' && s[|s| - 1] != '-'
  }

  /** The word characters of `s`, in order: what a name is made of apart from
      its separators. */
  function Words(s: string): string {
    if s == [] then [] else (if IsWordChar(s[0]) then [s[0]] else []) + Words(s[1..])
  }

  lemma {:induction false} WordsConcat(a: string, b: string)
    ensures Words(a + b) == Words(a) + Words(b)
  {
    if a == [] {
      assert a + b == b;
    } else {
      var head := if IsWordChar(a[0]) then [a[0]] else [];
      assert (a + b)[0] == a[0] && (a + b)[1..] == a[1..] + b;
      assert Words(a + b) == head + Words(a[1..] + b);
      WordsConcat(a[1..], b);
      assert Words(a) == head + Words(a[1..]);
    }
  }

  /** `.replace(/[^a-z0-9._-]+/g, "-")`: every maximal run of characters outside
      the class becomes one `-`; `inRun` says the previous character was such a
      character. */
  function ReplaceDisallowed(s: string, inRun: bool): (r: string)
    ensures AllSlug(r)
  {
    if s == [] then []
    else if IsSlugChar(s[0]) then [s[0]] + ReplaceDisallowed(s[1..], false)
    else if inRun then ReplaceDisallowed(s[1..], true)
    else "-" + ReplaceDisallowed(s[1..], true)
  }

  /** `.replace(/-+/g, "-")`: every run of `-` becomes one; `afterDash` says the
      previous output character was a `-`. */
  function CollapseDashes(s: string, afterDash: bool): (r: string)
    ensures AllSlug(s) ==> AllSlug(r)
    ensures NoDoubleDash(r)
    ensures afterDash && r != [] ==> r[0] != '-'
  {
    if s == [] then []
    else if s[0] != '-' then [s[0]] + CollapseDashes(s[1..], false)
    else if afterDash then CollapseDashes(s[1..], true)
    else "-" + CollapseDashes(s[1..], true)
  }

  /** `.replace(/^-|-$/g, "")`: one leading and one trailing `-` removed. */
  function StripEdgeDashes(s: string): (r: string)
    ensures AllSlug(s) && NoDoubleDash(s) ==>
              AllSlug(r) && NoDoubleDash(r) && (r == [] || (r[0] != '-' && r[|r| - 1] != '-'))
  {
    var t := if s != [] && s[0] == '-' then s[1..] else s;
    if t != [] && t[|t| - 1] == '-' then t[..|t| - 1] else t
  }

  /** The whole replace chain of `sanitizeName`, before the emptiness test. */
  function Normalize(value: string): string {
    StripEdgeDashes(CollapseDashes(ReplaceDisallowed(LowerAscii(Trim(value)), false), false))
  }

  /** Whitespace is left alone by lower-casing and is not a word character. */
  lemma WhitespaceNoWord(c: char)
    requires IsJsWhitespace(c)
    ensures LowerChar(c) == c && Words([c]) == []
  {
    assert [c][1..] == [];
  }

  lemma {:induction false} TrimStartKeepsWords(s: string)
    ensures Words(LowerAscii(TrimStart(s))) == Words(LowerAscii(s))
  {
    if s != [] && IsJsWhitespace(s[0]) {
      TrimStartKeepsWords(s[1..]);
      WhitespaceNoWord(s[0]);
      assert LowerAscii(s) == [s[0]] + LowerAscii(s[1..]);
      WordsConcat([s[0]], LowerAscii(s[1..]));
    }
  }

  lemma {:induction false} TrimEndKeepsWords(s: string)
    ensures Words(LowerAscii(TrimEnd(s))) == Words(LowerAscii(s))
  {
    if s != [] && IsJsWhitespace(s[|s| - 1]) {
      var init := s[..|s| - 1];
      var c := s[|s| - 1];
      TrimEndKeepsWords(init);
      WhitespaceNoWord(c);
      assert TrimEnd(s) == TrimEnd(init);
      assert LowerAscii(s) == LowerAscii(init) + [c];
      WordsConcat(LowerAscii(init), [c]);
    }
  }

  lemma {:induction false} ReplaceKeepsWords(s: string, inRun: bool)
    ensures Words(ReplaceDisallowed(s, inRun)) == Words(s)
  {
    if s != [] {
      ReplaceKeepsWords(s[1..], !IsSlugChar(s[0]));
      if IsSlugChar(s[0]) {
        WordsConcat([s[0]], ReplaceDisallowed(s[1..], false));
      } else if !inRun {
        WordsConcat("-", ReplaceDisallowed(s[1..], true));
      }
    }
  }

  lemma {:induction false} CollapseKeepsWords(s: string, afterDash: bool)
    ensures Words(CollapseDashes(s, afterDash)) == Words(s)
  {
    if s != [] {
      CollapseKeepsWords(s[1..], s[0] == '-');
      if s[0] != '-' {
        WordsConcat([s[0]], CollapseDashes(s[1..], false));
      } else if !afterDash {
        WordsConcat("-", CollapseDashes(s[1..], true));
      }
    }
  }

  lemma StripKeepsWords(s: string)
    ensures Words(StripEdgeDashes(s)) == Words(s)
  {
    var t := if s != [] && s[0] == '-' then s[1..] else s;
    assert Words(t) == Words(s);
    if t != [] && t[|t| - 1] == '-' {
      DropLastDash(t);
    }
  }

  lemma DropLastDash(t: string)
    requires t != [] && t[|t| - 1] == '-'
    ensures Words(t[..|t| - 1]) == Words(t)
  {
    assert t == t[..|t| - 1] + "-";
    WordsConcat(t[..|t| - 1], "-");
  }

  /** The replace chain keeps exactly the word characters of the lower-cased
      input, in order. */
  lemma NormalizeKeepsWords(value: string)
    ensures Words(Normalize(value)) == Words(LowerAscii(value))
  {
    var t := LowerAscii(Trim(value));
    TrimEndKeepsWords(TrimStart(value));
    TrimStartKeepsWords(value);
    ReplaceKeepsWords(t, false);
    CollapseKeepsWords(ReplaceDisallowed(t, false), false);
    StripKeepsWords(CollapseDashes(ReplaceDisallowed(t, false), false));
  }

  /** `sanitizeName`: the normalised name, or "Invalid name" when nothing is
      left. It fails exactly when the input holds no letter, digit, `.` or `_`;
      otherwise the result has the sanitized shape and keeps those characters,
      lower-cased and in order. */
  function SanitizeName(value: string): (r: Result<string>)
    ensures r.Err? <==> Words(LowerAscii(value)) == []
    ensures r.Err? ==> r.error == InvalidName(value)
    ensures r.Ok? ==> IsSanitized(r.value) && Words(r.value) == Words(LowerAscii(value))
  {
    var n := Normalize(value);
    NormalizeKeepsWords(value);
    if n == [] then Err(InvalidName(value))
    else
      assert Words(n) != [] by {
        assert IsWordChar(n[0]);
        WordsConcat([n[0]], n[1..]);
        assert n == [n[0]] + n[1..];
      }
      Ok(n)
  }

  lemma {:induction false} ReplaceIdentity(s: string, inRun: bool)
    requires AllSlug(s)
    ensures ReplaceDisallowed(s, inRun) == s
  {
    if s != [] {
      ReplaceIdentity(s[1..], false);
    }
  }

  lemma {:induction false} CollapseIdentity(s: string, afterDash: bool)
    requires NoDoubleDash(s)
    requires afterDash && s != [] ==> s[0] != '-'
    ensures CollapseDashes(s, afterDash) == s
  {
    if s != [] {
      CollapseIdentity(s[1..], s[0] == '-');
    }
  }

  /** Applying `sanitizeName` to its own output changes nothing. */
  lemma SanitizeIdempotent(name: string)
    requires IsSanitized(name)
    ensures SanitizeName(name) == Ok(name)
  {
    assert forall i :: 0 <= i < |name| ==> !IsJsWhitespace(name[i]) by {
      forall i | 0 <= i < |name| ensures !IsJsWhitespace(name[i]) { assert IsSlugChar(name[i]); }
    }
    TrimNoWhitespace(name);
    assert LowerAscii(name) == name;
    ReplaceIdentity(name, false);
    CollapseIdentity(name, false);
  }

  /** `makeAgentId`: `<agent>@<team>`, both parts sanitized (the agent first). */
  function MakeAgentId(agentName: string, teamName: string): (r: Result<string>)
    ensures r.Ok? <==> SanitizeName(agentName).Ok? && SanitizeName(teamName).Ok?
    ensures SanitizeName(agentName).Err? ==> r == Err(InvalidName(agentName))
  {
    var agent :- SanitizeName(agentName);
    var team :- SanitizeName(teamName);
    Ok(agent + "@" + team)
  }

  /** An agent id splits back at its only `@` into the two sanitized names. */
  lemma AgentIdSplits(agentName: string, teamName: string)
    requires MakeAgentId(agentName, teamName).Ok?
    ensures var id := MakeAgentId(agentName, teamName).value;
            var agent := SanitizeName(agentName).value;
            && IndexOf(id, '@') == Some(|agent|)
            && id[..|agent|] == agent
            && id[|agent| + 1..] == SanitizeName(teamName).value
  {
    var agent := SanitizeName(agentName).value;
    var team := SanitizeName(teamName).value;
    assert MakeAgentId(agentName, teamName).value == agent + "@" + team;
    SplitAtFirstAt(agent, team);
  }

  lemma SplitAtFirstAt(agent: string, team: string)
    requires AllSlug(agent)
    ensures var id := agent + "@" + team;
      IndexOf(id, '@') == Some(|agent|) && id[..|agent|] == agent && id[|agent| + 1..] == team
  {
    var id := agent + "@" + team;
    assert id[..|agent|] == agent && id[|agent|] == '@';
    assert id[|agent| + 1..] == team;
  }

  const Palette: seq<string> := ["red", "blue", "green", "yellow", "purple", "orange", "pink", "cyan"]

  const TwoTo32 := 0x1_0000_0000

  /** The hash `colorForAgent` folds over the code units, reduced modulo 2^32
      after every step as `>>> 0` does. `hash * 31 + unit` stays below 2^53, so
      the JavaScript number arithmetic is exact and this is integer arithmetic. */
  function HashUnits(units: seq<int>): (h: int)
    ensures 0 <= h < TwoTo32
  {
    if units == [] then 0
    else (HashUnits(units[..|units| - 1]) * 31 + units[|units| - 1]) % TwoTo32
  }

  function AgentHash(agentId: string): int {
    HashUnits(Utf16Units(agentId))
  }

  /** `colorForAgent`: the index loop computing the hash, then the palette entry. */
  method ColorForAgent(agentId: string) returns (color: string)
    ensures color == Palette[AgentHash(agentId) % |Palette|]
    ensures color in Palette
  {
    var units := Utf16Units(agentId);
    var hash := 0;
    var i := 0;
    while i < |units|
      invariant 0 <= i <= |units|
      invariant hash == HashUnits(units[..i])
    {
      assert units[..i + 1][..i] == units[..i];
      hash := (hash * 31 + units[i]) % TwoTo32;
      i := i + 1;
    }
    assert units[..|units|] == units;
    color := Palette[hash % |Palette|];
  }

  /** The same fold carried out modulo 8 only. */
  function HashMod8(units: seq<int>): int {
    if units == [] then 0
    else (HashMod8(units[..|units| - 1]) * 31 + units[|units| - 1]) % 8
  }

  /** Adding a multiple of 8 does not change the remainder modulo 8. */
  lemma ModEightShift(a: int, k: int)
    ensures (a + 8 * k) % 8 == a % 8
  {
    var q, r := a / 8, a % 8;
    assert a + 8 * k == 8 * (q + k) + r;
  }

  lemma ModStep(h: int, u: int)
    ensures ((h * 31 + u) % TwoTo32) % 8 == ((h % 8) * 31 + u) % 8
  {
    var x := h * 31 + u;
    var q := x / TwoTo32;
    assert x % TwoTo32 == x + 8 * (-0x2000_0000 * q);
    ModEightShift(x, -0x2000_0000 * q);
    assert x == (h % 8) * 31 + u + 8 * ((h / 8) * 31);
    ModEightShift((h % 8) * 31 + u, (h / 8) * 31);
  }

  /** Since 8 divides 2^32, the palette slot depends only on the low three bits
      of each step: the colour can be computed with arithmetic modulo 8. */
  lemma {:induction false} PaletteSlotMod8(units: seq<int>)
    ensures HashUnits(units) % 8 == HashMod8(units)
  {
    if units != [] {
      var init := units[..|units| - 1];
      PaletteSlotMod8(init);
      ModStep(HashUnits(init), units[|units| - 1]);
    }
  }
}
