/** Command-line option handling of `scripts/vc-teams.js`: the argv scanner
    `parseOptions`, the option lookups `pickOption` / `requiredOption`, and the
    boolean reader `parseBoolean`. */
module Options {
  import opened Outcomes
  import opened Text

  /** A value found in the parsed options: the text after a key, or the
      boolean `true` a bare `--flag` stores (the send protocol also stores a
      forced `false`). */
  datatype Raw = Str(s: string) | Bool(b: bool)

  /** `String(value)`. */
  function ToText(v: Raw): string {
    match v
    case Str(s) => s
    case Bool(b) => if b then "true" else "false"
  }

  /** The object `parseOptions` builds: `_` holds the positional tokens, every
      other key a named value. When a token assigns the key `_` itself, the
      entry lands in `named` and the positional array is gone. */
  datatype ParsedOptions = ParsedOptions(positional: seq<string>, named: map<string, Raw>)

  const NoOptions := ParsedOptions([], map[])

  /** The key a `--` token names: up to the first `=` if there is one. */
  function KeyOf(token: string): string
    requires StartsWith(token, "--")
  {
    match IndexOf(token, '=')
    case Some(eq) => if eq < 2 then "" else token[2..eq]
    case None => token[2..]
  }

  lemma EqualsAfterDashes(token: string)
    requires StartsWith(token, "--")
    ensures IndexOf(token, '=').Some? ==> IndexOf(token, '=').value >= 2
  {
    assert token[0] == '-' && token[1] == '-' by { assert token[..2] == "--"; }
  }

  /** One step of the scan at position `i`, written as the remainder of the
      scan from `i` on with the options built so far. */
  function ScanFrom(argv: seq<string>, i: nat, acc: ParsedOptions): Result<ParsedOptions>
    requires i <= |argv|
    decreases |argv| - i
  {
    if i == |argv| then Ok(acc)
    else
      var token := argv[i];
      if !StartsWith(token, "--") then
        if "_" in acc.named then Err(OptionsTypeError)   // `options._.push` on a string
        else ScanFrom(argv, i + 1, acc.(positional := acc.positional + [token]))
      else
        EqualsAfterDashes(token);
        match IndexOf(token, '=')
        case Some(eq) =>
          ScanFrom(argv, i + 1, acc.(named := acc.named[token[2..eq] := Str(token[eq + 1..])]))
        case None =>
          var key := token[2..];
          if i + 1 < |argv| && argv[i + 1] != "" && !StartsWith(argv[i + 1], "--") then
            ScanFrom(argv, i + 2, acc.(named := acc.named[key := Str(argv[i + 1])]))
          else
            ScanFrom(argv, i + 1, acc.(named := acc.named[key := Bool(true)]))
  }

  /** `parseOptions`: the index loop over argv. */
  method ParseOptions(argv: seq<string>) returns (r: Result<ParsedOptions>)
    ensures r == ScanFrom(argv, 0, NoOptions)
  {
    var positional: seq<string> := [];
    var named: map<string, Raw> := map[];
    var i := 0;
    while i < |argv|
      invariant 0 <= i <= |argv|
      invariant ScanFrom(argv, i, ParsedOptions(positional, named)) == ScanFrom(argv, 0, NoOptions)
      decreases |argv| - i
    {
      var token := argv[i];
      if !StartsWith(token, "--") {
        if "_" in named {
          return Err(OptionsTypeError);
        }
        positional := positional + [token];
        i := i + 1;
        continue;
      }
      EqualsAfterDashes(token);
      var eq := IndexOf(token, '=');
      if eq.Some? {
        named := named[token[2..eq.value] := Str(token[eq.value + 1..])];
        i := i + 1;
        continue;
      }
      var key := token[2..];
      if i + 1 < |argv| && argv[i + 1] != "" && !StartsWith(argv[i + 1], "--") {
        named := named[key := Str(argv[i + 1])];
        i := i + 2;
      } else {
        named := named[key := Bool(true)];
        i := i + 1;
      }
    }
    r := Ok(ParsedOptions(positional, named));
  }

  /** Every named key was spelled by some `--` token of argv at or after `i`,
      unless it was already present; every positional token is one of argv's
      tokens that does not start with `--`. */
  lemma {:induction false} ScanProvenance(argv: seq<string>, i: nat, acc: ParsedOptions)
    requires i <= |argv|
    requires ScanFrom(argv, i, acc).Ok?
    ensures var o := ScanFrom(argv, i, acc).value;
      && (forall k :: k in o.named && k !in acc.named ==>
            exists j :: i <= j < |argv| && StartsWith(argv[j], "--") && KeyOf(argv[j]) == k)
      && (forall t :: t in o.positional && t !in acc.positional ==>
            t in argv[i..] && !StartsWith(t, "--"))
    decreases |argv| - i
  {
    if i < |argv| {
      var token := argv[i];
      if !StartsWith(token, "--") {
        ScanProvenance(argv, i + 1, acc.(positional := acc.positional + [token]));
      } else {
        EqualsAfterDashes(token);
        var next: ParsedOptions;
        var step: nat;
        match IndexOf(token, '=') {
          case Some(eq) =>
            next, step := acc.(named := acc.named[token[2..eq] := Str(token[eq + 1..])]), 1;
          case None =>
            if i + 1 < |argv| && argv[i + 1] != "" && !StartsWith(argv[i + 1], "--") {
              next, step := acc.(named := acc.named[token[2..] := Str(argv[i + 1])]), 2;
            } else {
              next, step := acc.(named := acc.named[token[2..] := Bool(true)]), 1;
            }
        }
        assert ScanFrom(argv, i, acc) == ScanFrom(argv, i + step, next);
        ScanProvenance(argv, i + step, next);
        var o := ScanFrom(argv, i, acc).value;
        forall t | t in o.positional && t !in acc.positional
          ensures t in argv[i..] && !StartsWith(t, "--")
        {
          assert argv[i + step..] == argv[i..][step..];
        }
        forall k | k in o.named && k !in acc.named
          ensures exists j :: i <= j < |argv| && StartsWith(argv[j], "--") && KeyOf(argv[j]) == k
        {
          if k !in next.named {
            var j :| i + step <= j < |argv| && StartsWith(argv[j], "--") && KeyOf(argv[j]) == k;
          } else {
            assert KeyOf(argv[i]) == k;
          }
        }
      }
    }
  }

  /** A command line without any `--` token is kept verbatim as positionals. */
  lemma {:induction false} PlainArgumentsPassThrough(argv: seq<string>, i: nat, acc: ParsedOptions)
    requires i <= |argv| && "_" !in acc.named
    requires forall j :: i <= j < |argv| ==> !StartsWith(argv[j], "--")
    ensures ScanFrom(argv, i, acc) == Ok(acc.(positional := acc.positional + argv[i..]))
    decreases |argv| - i
  {
    if i < |argv| {
      assert ScanFrom(argv, i, acc) == ScanFrom(argv, i + 1, acc.(positional := acc.positional + [argv[i]]));
      PlainArgumentsPassThrough(argv, i + 1, acc.(positional := acc.positional + [argv[i]]));
      assert acc.positional + [argv[i]] + argv[i + 1..] == acc.positional + argv[i..];
    } else {
      assert acc.positional + argv[i..] == acc.positional;
    }
  }

  /** A key is usable when present and not blank after `String(...).trim()`. */
  predicate Usable(opts: map<string, Raw>, key: string) {
    key in opts && Trim(ToText(opts[key])) != ""
  }

  /** Position `i` holds the first usable key of `keys`. */
  predicate FirstUsable(opts: map<string, Raw>, keys: seq<string>, i: nat) {
    i < |keys| && Usable(opts, keys[i]) && forall j :: 0 <= j < i ==> !Usable(opts, keys[j])
  }

  /** The index loop of `pickOption`. */
  function PickIndex(opts: map<string, Raw>, keys: seq<string>): (r: Option<nat>)
    ensures r.None? <==> forall i :: 0 <= i < |keys| ==> !Usable(opts, keys[i])
    ensures r.Some? ==> FirstUsable(opts, keys, r.value)
  {
    if keys == [] then None
    else if Usable(opts, keys[0]) then Some(0)
    else match PickIndex(opts, keys[1..])
      case None => None
      case Some(i) => Some(i + 1)
  }

  /** `pickOption`: the value of the first usable key, in the order given. */
  function PickOption(opts: map<string, Raw>, keys: seq<string>): (r: Option<Raw>)
    ensures r.None? <==> forall i :: 0 <= i < |keys| ==> !Usable(opts, keys[i])
    ensures r.Some? ==> exists i: nat :: FirstUsable(opts, keys, i) && r.value == opts[keys[i]]
  {
    match PickIndex(opts, keys)
    case None => None
    case Some(i) => Some(opts[keys[i]])
  }

  /** `requiredOption`: like `pickOption`, but a missing value is an error
      naming `argLabel`. */
  function RequiredOption(opts: map<string, Raw>, keys: seq<string>, argLabel: string): (r: Result<Raw>)
    ensures r.Err? <==> forall i :: 0 <= i < |keys| ==> !Usable(opts, keys[i])
    ensures r.Err? ==> r.error == MissingArg(argLabel)
    ensures r.Ok? ==> exists i: nat :: FirstUsable(opts, keys, i) && r.value == opts[keys[i]]
  {
    match PickOption(opts, keys)
    case None => Err(MissingArg(argLabel))
    case Some(v) => Ok(v)
  }

  /** `pickOption(...) || fallback` coerced with `String(...)`. */
  function TextOr(v: Option<Raw>, fallback: string): string {
    match v
    case Some(x) => ToText(x)
    case None => fallback
  }

  const TrueWords: seq<string> := ["1", "true", "yes", "y", "on"]
  const FalseWords: seq<string> := ["0", "false", "no", "n", "off"]

  /** The word `parseBoolean` looks up: trimmed and lower-cased. */
  function BooleanWord(s: string): string {
    LowerAscii(Trim(s))
  }

  /** `parseBoolean(value, fallback)`: absent or empty gives the fallback, a
      boolean stays itself, text must be one of the ten accepted words. */
  function ParseBoolean(value: Option<Raw>, fallback: bool): (r: Result<bool>)
    ensures value.None? || value == Some(Str("")) ==> r == Ok(fallback)
    ensures value.Some? && value.value.Bool? ==> r == Ok(value.value.b)
    ensures r.Err? ==> value.Some? && value.value.Str? && r.error == InvalidBoolean(value.value.s)
  {
    match value
    case None => Ok(fallback)
    case Some(Bool(b)) => Ok(b)
    case Some(Str(s)) =>
      if s == "" then Ok(fallback)
      else
        var w := BooleanWord(s);
        if w in TrueWords then Ok(true)
        else if w in FalseWords then Ok(false)
        else Err(InvalidBoolean(s))
  }

  lemma WordListsDisjoint(w: string)
    ensures w in TrueWords ==> w !in FalseWords
  {
    if w in TrueWords {
      assert w[0] in "1tyo";
      if w == "on" {
        assert |w| == 2;
      }
    }
  }

  /** For non-empty text the verdict is decided by the word alone, in both
      directions: true exactly for the five true words, false exactly for the
      five false words, an error for anything else. */
  lemma ParseBooleanText(s: string, fallback: bool)
    requires s != ""
    ensures ParseBoolean(Some(Str(s)), fallback) == Ok(true) <==> BooleanWord(s) in TrueWords
    ensures ParseBoolean(Some(Str(s)), fallback) == Ok(false) <==> BooleanWord(s) in FalseWords
    ensures ParseBoolean(Some(Str(s)), fallback).Err? <==>
              BooleanWord(s) !in TrueWords && BooleanWord(s) !in FalseWords
  {
    WordListsDisjoint(BooleanWord(s));
  }

  /** `String(b)` is read back as `b`: the round trip the send protocol relies
      on when it forces `approve`. */
  lemma BooleanTextRoundTrip(b: bool)
    ensures ParseBoolean(Some(Str(ToText(Bool(b)))), !b) == Ok(b)
  {
    var t := ToText(Bool(b));
    TrimNoWhitespace(t);
    assert BooleanWord(t) == t;
  }
}
