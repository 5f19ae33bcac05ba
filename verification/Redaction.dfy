/** Removing secrets from text before it is logged (frontend/lib/secrets.ts). */
module Redaction {
  const TAG := "[REDACTED]"

  predicate Occurs(v: string, s: string) {
    exists k :: 0 <= k <= |s| - |v| && v <= s[k..]
  }

  // ── The regular expression ────────────────────────────────────────────────────────────────

  const SYNTAX_CHARACTERS := {'.', '*', '+', '?', '^', '$', '{', '}', '(', ')', '|', '[', ']', '\\'}

  /** A backslash in front of every character the escaping replacement names. */
  function Escape(value: string): string {
    if value == "" then ""
    else (if value[0] in SYNTAX_CHARACTERS then ['\\', value[0]] else [value[0]]) + Escape(value[1..])
  }

  /** What a pattern of plain and escaped characters matches; a bare syntax character is an operator. */
  datatype Token = Literal(c: char) | Operator(c: char)

  function Tokens(pattern: string): seq<Token> {
    if pattern == "" then []
    else if pattern[0] == '\\' && |pattern| >= 2 then [Literal(pattern[1])] + Tokens(pattern[2..])
    else if pattern[0] in SYNTAX_CHARACTERS then [Operator(pattern[0])] + Tokens(pattern[1..])
    else [Literal(pattern[0])] + Tokens(pattern[1..])
  }

  function Literals(value: string): seq<Token> {
    seq(|value|, i requires 0 <= i < |value| => Literal(value[i]))
  }

  /** The escaped secret, read as a pattern, matches the secret's own characters and nothing else. */
  lemma {:induction false} EscapeIsLiteral(value: string)
    ensures Tokens(Escape(value)) == Literals(value)
  {
    if value != "" {
      EscapeIsLiteral(value[1..]);
      assert Literals(value) == [Literal(value[0])] + Literals(value[1..]);
      var escaped := if value[0] in SYNTAX_CHARACTERS then ['\\', value[0]] else [value[0]];
      assert Escape(value)[|escaped|..] == Escape(value[1..]);
    }
  }

  /** Escaping goes character by character, and puts a backslash before the fourteen characters that
      mean something in a regular expression, and no others. */
  lemma {:induction false} EscapeByCharacter(value: string, c: char)
    ensures Escape("") == ""
    ensures Escape(value + [c]) == Escape(value) + (if c in ".*+?^${}()|[]\\" then "\\" + [c] else [c])
  {
    if value == "" {
      assert value + [c] == [c] && [c][1..] == "";
    } else {
      assert (value + [c])[1..] == value[1..] + [c];
      EscapeByCharacter(value[1..], c);
    }
  }

  // ── One replacement ───────────────────────────────────────────────────────────────────────

  /** Global replacement of a literal: leftmost match first, matches do not overlap. */
  function ReplaceAll(s: string, v: string): string
    requires v != ""
    decreases |s|
  {
    if |s| < |v| then s
    else if v <= s then TAG + ReplaceAll(s[|v|..], v)
    else [s[0]] + ReplaceAll(s[1..], v)
  }

  predicate AllLiteral(tokens: seq<Token>) {
    forall i :: 0 <= i < |tokens| ==> tokens[i].Literal?
  }

  /** Global replacement of what a pattern without operators matches. */
  function ReplaceMatches(s: string, tokens: seq<Token>): string
    requires tokens != [] && AllLiteral(tokens)
    decreases |s|
  {
    if |s| < |tokens| then s
    else if forall i :: 0 <= i < |tokens| ==> tokens[i].c == s[i] then TAG + ReplaceMatches(s[|tokens|..], tokens)
    else [s[0]] + ReplaceMatches(s[1..], tokens)
  }

  lemma {:induction false} LiteralMatches(s: string, v: string)
    requires v != ""
    ensures AllLiteral(Literals(v)) && ReplaceMatches(s, Literals(v)) == ReplaceAll(s, v)
    decreases |s|
  {
    if |s| >= |v| {
      var tokens := Literals(v);
      assert forall i :: 0 <= i < |tokens| ==> tokens[i].c == v[i];
      assert forall i :: 0 <= i < |v| ==> s[..|v|][i] == s[i];
      if v <= s {
        LiteralMatches(s[|v|..], v);
      } else {
        assert v != s[..|v|];
        LiteralMatches(s[1..], v);
      }
    }
  }

  function Join(pieces: seq<string>, separator: string): string
    requires pieces != []
  {
    if |pieces| == 1 then pieces[0] else pieces[0] + separator + Join(pieces[1..], separator)
  }

  lemma JoinCons(piece: string, rest: seq<string>, separator: string)
    requires rest != []
    ensures Join([piece] + rest, separator) == piece + separator + Join(rest, separator)
  {
    assert ([piece] + rest)[1..] == rest;
  }

  lemma JoinExtendFirst(c: char, rest: seq<string>, separator: string)
    requires rest != []
    ensures Join([[c] + rest[0]] + rest[1..], separator) == [c] + Join(rest, separator)
  {
    var longer := [[c] + rest[0]] + rest[1..];
    assert longer[1..] == rest[1..];
    if |rest| > 1 {
      var tail := Join(rest[1..], separator);
      assert ([c] + rest[0]) + separator + tail == [c] + (rest[0] + separator + tail);
    }
  }

  /** The text between the occurrences of `v`, as `split` cuts it. */
  function Cut(s: string, v: string): (pieces: seq<string>)
    requires v != ""
    ensures pieces != [] && pieces[0] <= s
    decreases |s|
  {
    if |s| < |v| then [s]
    else if v <= s then [""] + Cut(s[|v|..], v)
    else
      var rest := Cut(s[1..], v);
      [[s[0]] + rest[0]] + rest[1..]
  }

  lemma FirstPieceStaysFree(s: string, v: string, rest: seq<string>)
    requires |s| >= |v| > 0 && !(v <= s) && rest != [] && rest[0] <= s[1..] && !Occurs(v, rest[0])
    ensures !Occurs(v, [s[0]] + rest[0])
  {
    var piece := [s[0]] + rest[0];
    assert piece <= s;
    forall k | 0 <= k <= |piece| - |v|
      ensures !(v <= piece[k..])
    {
      if k == 0 {
        assert piece[0..] == piece;
      } else {
        assert piece[k..] == rest[0][k - 1..];
      }
    }
  }

  lemma {:induction false} PiecesFree(s: string, v: string)
    requires v != ""
    ensures forall piece :: piece in Cut(s, v) ==> !Occurs(v, piece)
    decreases |s|
  {
    if |s| < |v| {
    } else if v <= s {
      PiecesFree(s[|v|..], v);
    } else {
      PiecesFree(s[1..], v);
      FirstPieceStaysFree(s, v, Cut(s[1..], v));
    }
  }

  lemma FrontAndRest(s: string, v: string)
    requires v <= s
    ensures "" + v + s[|v|..] == s
  {
  }

  /** Cutting loses nothing: putting the secret back into the gaps restores the text. */
  lemma {:induction false} CutJoins(s: string, v: string)
    requires v != ""
    ensures Join(Cut(s, v), v) == s
    decreases |s|
  {
    if |s| < |v| {
    } else if v <= s {
      CutJoins(s[|v|..], v);
      JoinCons("", Cut(s[|v|..], v), v);
      FrontAndRest(s, v);
    } else {
      CutJoins(s[1..], v);
      JoinExtendFirst(s[0], Cut(s[1..], v), v);
    }
  }

  lemma {:induction false} CutTagged(s: string, v: string)
    requires v != ""
    ensures Join(Cut(s, v), TAG) == ReplaceAll(s, v)
    decreases |s|
  {
    if |s| < |v| {
    } else if v <= s {
      CutTagged(s[|v|..], v);
      JoinCons("", Cut(s[|v|..], v), TAG);
      assert "" + TAG == TAG;
    } else {
      CutTagged(s[1..], v);
      JoinExtendFirst(s[0], Cut(s[1..], v), TAG);
    }
  }

  /** Reference: cut the text at the secret, put the tag in each gap, touch nothing else. */
  lemma ReplaceAllIsCutAndJoin(s: string, v: string)
    requires v != ""
    ensures Join(Cut(s, v), v) == s && Join(Cut(s, v), TAG) == ReplaceAll(s, v)
    ensures forall piece :: piece in Cut(s, v) ==> !Occurs(v, piece)
  {
    CutJoins(s, v);
    CutTagged(s, v);
    PiecesFree(s, v);
  }

  // ── The whole loop ────────────────────────────────────────────────────────────────────────

  predicate BracketFree(v: string) {
    '[' !in v && ']' !in v
  }

  datatype Format = StellarSecret | MinLength(n: nat) | HttpsUrl

  datatype SecretSpec = SecretSpec(key: string, format: Format)

  const SECRET_REGISTRY := [
    SecretSpec("STELLAR_FEE_BUMP_SECRET", StellarSecret),
    SecretSpec("BLOB_READ_WRITE_TOKEN", MinLength(10)),
    SecretSpec("KV_REST_API_URL", HttpsUrl),
    SecretSpec("KV_REST_API_TOKEN", MinLength(10))]

  predicate WellFormatted(format: Format, value: string) {
    match format
    case StellarSecret =>
      && |value| == 56 && value[0] == 'S'
      && forall i :: 1 <= i < 56 ==> 'A' <= value[i] <= 'Z' || '2' <= value[i] <= '7'
    case MinLength(n) => |value| >= n
    case HttpsUrl => "https://" <= value
  }

  type Env = map<string, string>

  /** The values the loop removes, in registry order. */
  function Secrets(registry: seq<SecretSpec>, env: Env): seq<string> {
    if registry == [] then []
    else
      var key := registry[|registry| - 1].key;
      Secrets(registry[..|registry| - 1], env) + (if key in env && |env[key]| >= 8 then [env[key]] else [])
  }

  function RedactEach(s: string, secrets: seq<string>): string
    requires "" !in secrets
  {
    if secrets == [] then s
    else ReplaceAll(RedactEach(s, secrets[..|secrets| - 1]), secrets[|secrets| - 1])
  }

  predicate Long(secrets: seq<string>) {
    forall v :: v in secrets ==> |v| >= 8
  }

  lemma SecretsStep(registry: seq<SecretSpec>, env: Env, i: nat)
    requires i < |registry|
    ensures var key := registry[i].key;
            Secrets(registry[..i + 1], env) ==
              Secrets(registry[..i], env) + (if key in env && |env[key]| >= 8 then [env[key]] else [])
  {
    assert registry[..i + 1][..i] == registry[..i];
  }

  lemma RedactStep(s: string, done: seq<string>, v: string)
    requires Long(done) && |v| >= 8
    ensures Long(done + [v]) && RedactEach(s, done + [v]) == ReplaceAll(RedactEach(s, done), v)
  {
    assert (done + [v])[..|done|] == done;
  }

  method RedactSecrets(input: string, registry: seq<SecretSpec>, env: Env) returns (result: string)
    ensures Long(Secrets(registry, env))
    ensures result == RedactEach(input, Secrets(registry, env))
  {
    result := input;
    ghost var done := [];
    for i := 0 to |registry|
      invariant done == Secrets(registry[..i], env) && Long(done)
      invariant result == RedactEach(input, done)
    {
      var key := registry[i].key;
      SecretsStep(registry, env, i);
      if key in env && |env[key]| >= 8 {
        EscapeIsLiteral(env[key]);
        LiteralMatches(result, env[key]);
        RedactStep(input, done, env[key]);
        var escaped := Escape(env[key]);
        result := ReplaceMatches(result, Tokens(escaped));
        done := done + [env[key]];
      }
    }
    assert registry[..|registry|] == registry;
  }

  // ── When a text and the tag can overlap ───────────────────────────────────────────────────

  /** `z`, laid over the tag from its `n`-th character on, agrees with it as far as both go. */
  predicate Meets(z: string, n: nat)
    requires n <= |TAG|
  {
    z <= TAG[n..] || TAG[n..] <= z
  }

  /** No occurrence of `v` can share a character with a tag. */
  predicate TagFree(v: string) {
    && (forall n :: 0 <= n < |TAG| ==> !Meets(v, n))
    && (forall i :: 0 <= i < |v| ==> !Meets(v[i..], 0))
  }

  predicate Matches(v: string, s: string, k: nat) {
    k + |v| <= |s| && s[k..k + |v|] == v
  }

  lemma MatchesFront(v: string, s: string)
    ensures Matches(v, s, 0) <==> v <= s
  {
    if |v| <= |s| { assert s[0..0 + |v|] == s[..|v|]; }
  }

  /** The leftmost match of `v` in `s` is at `i`. */
  ghost predicate FirstMatchAt(s: string, v: string, i: nat) {
    Matches(v, s, i) && forall k :: 0 <= k < i ==> !Matches(v, s, k)
  }

  lemma MatchOccurs(v: string, s: string, k: nat)
    ensures Matches(v, s, k) ==> Occurs(v, s)
    ensures k <= |s| - |v| && v <= s[k..] ==> Matches(v, s, k)
  {
    if k <= |s| { assert s[k..] == s[k..][..|s| - k]; }
    if Matches(v, s, k) { assert s[k..][..|v|] == s[k..k + |v|]; }
  }

  /** Only the text up to the end of a match decides that it is the leftmost. */
  lemma FirstMatchLocal(s: string, v: string, i: nat, t: string)
    requires i + |v| <= |s| && i + |v| <= |t| && s[..i + |v|] == t[..i + |v|]
    ensures FirstMatchAt(s, v, i) <==> FirstMatchAt(t, v, i)
  {
    forall k | 0 <= k <= i
      ensures Matches(v, s, k) <==> Matches(v, t, k)
    {
      assert s[k..k + |v|] == s[..i + |v|][k..k + |v|] && t[k..k + |v|] == t[..i + |v|][k..k + |v|];
    }
  }

  lemma MatchShift(v: string, s: string, k: nat)
    requires s != []
    ensures Matches(v, s[1..], k) <==> Matches(v, s, k + 1)
  {
    if k + 1 + |v| <= |s| {
      var n := k + |v|;
      assert s[1..][k..n] == s[1 + k..1 + n];
    }
  }

  lemma FirstMatchShift(s: string, v: string, i: nat)
    requires FirstMatchAt(s, v, i) && i > 0
    ensures s != [] && !(v <= s) && FirstMatchAt(s[1..], v, i - 1)
  {
    MatchesFront(v, s);
    forall k | 0 <= k < i
      ensures Matches(v, s[1..], k) <==> Matches(v, s, k + 1)
    {
      MatchShift(v, s, k);
    }
  }

  lemma PutBackFirst(s: string, i: nat, n: nat, tail: string)
    requires 0 < i && i + n <= |s|
    ensures s[1..][i - 1 + n..] == s[i + n..]
    ensures [s[0]] + (s[1..][..i - 1] + tail) == s[..i] + tail
  {
  }

  /** Replacement keeps the text before `i` and puts the tag in the place of the match there. */
  predicate FirstReplacedAt(s: string, v: string, i: nat)
    requires v != "" && i + |v| <= |s|
  {
    ReplaceAll(s, v) == s[..i] + (TAG + ReplaceAll(s[i + |v|..], v))
  }

  lemma ReplacedHere(s: string, v: string)
    requires v != "" && Matches(v, s, 0)
    ensures FirstReplacedAt(s, v, 0)
  {
    MatchesFront(v, s);
  }

  lemma ReplacedLater(s: string, v: string, i: nat)
    requires v != "" && 0 < i && i + |v| <= |s| && !(v <= s) && FirstReplacedAt(s[1..], v, i - 1)
    ensures FirstReplacedAt(s, v, i)
  {
    PutBackFirst(s, i, |v|, TAG + ReplaceAll(s[i + |v|..], v));
  }

  lemma {:induction false} ReplaceFirst(s: string, v: string, i: nat)
    requires v != "" && FirstMatchAt(s, v, i)
    ensures FirstReplacedAt(s, v, i)
  {
    if i == 0 {
      ReplacedHere(s, v);
    } else {
      FirstMatchShift(s, v, i);
      ReplaceFirst(s[1..], v, i - 1);
      ReplacedLater(s, v, i);
    }
  }

  lemma FirstMatchExists(s: string, v: string, k: nat) returns (i: nat)
    requires Matches(v, s, k)
    ensures i <= k && FirstMatchAt(s, v, i)
  {
    i := 0;
    while !Matches(v, s, i)
      invariant i <= k && forall j :: 0 <= j < i ==> !Matches(v, s, j)
      decreases k - i
    {
      i := i + 1;
    }
  }

  lemma {:induction false} NothingToReplace(s: string, v: string)
    requires v != "" && !Occurs(v, s)
    ensures ReplaceAll(s, v) == s
    decreases |s|
  {
    if |s| >= |v| {
      assert s[0..] == s;
      if Occurs(v, s[1..]) { OccursLater(v, s, 1); }
      NothingToReplace(s[1..], v);
    }
  }

  lemma OccursLater(v: string, s: string, n: nat)
    requires n <= |s| && Occurs(v, s[n..])
    ensures Occurs(v, s)
  {
    var k :| 0 <= k <= |s[n..]| - |v| && v <= s[n..][k..];
    assert s[n..][k..] == s[n + k..];
  }

  lemma OccursWithin(before: string, v: string, after: string)
    ensures Occurs(v, before + v + after)
  {
    var s := before + v + after;
    assert s[|before|..] == v + after;
  }

  lemma PrefixOfConcat(u: string, x: string, rest: string)
    requires u <= x + rest
    ensures u <= x || x <= u
  {
    var both := x + rest;
    if |u| <= |x| {
      assert u == both[..|u|] == x[..|u|];
    } else {
      assert u[..|x|] == both[..|u|][..|x|] == x;
    }
  }

  lemma FrontDropped(u: string, front: string, tail: string)
    requires u <= front + tail && |front| <= |u|
    ensures u[..|front|] == front && u[|front|..] <= tail
  {
    var both := front + tail;
    assert u == both[..|u|];
    assert both[|front|..] == tail;
  }

  /** A text at the front of the output was at the front of the input, or runs into the first tag. */
  lemma PrefixOrigin(u: string, s: string, w: string) returns (i: nat)
    requires w != "" && u <= ReplaceAll(s, w) && !(u <= s)
    ensures i < |u| && i < |s| && u[..i] == s[..i] && FirstMatchAt(s, w, i) && Meets(u[i..], 0)
  {
    if !Occurs(w, s) {
      NothingToReplace(s, w);
      assert false;
    }
    var k :| 0 <= k <= |s| - |w| && w <= s[k..];
    MatchOccurs(w, s, k);
    i := FirstMatchExists(s, w, k);
    ReplaceFirst(s, w, i);
    var rest := ReplaceAll(s[i + |w|..], w);
    PrefixOfConcat(u, s[..i], TAG + rest);
    if |u| <= i {
      assert false;
    }
    FrontDropped(u, s[..i], TAG + rest);
    PrefixOfConcat(u[i..], TAG, rest);
    assert TAG[0..] == TAG;
  }

  /** A text found in the output from a place inside a tag on meets the tag there. */
  lemma InsideTag(v: string, k: nat, rest: string)
    requires k < |TAG| && v <= (TAG + rest)[k..]
    ensures Meets(v, k)
  {
    assert (TAG + rest)[k..] == TAG[k..] + rest;
    PrefixOfConcat(v, TAG[k..], rest);
  }

  // ── No secret survives, and none comes back ───────────────────────────────────────────────

  /** Replacing `w` neither creates an occurrence of `v` nor leaves one of `w`, unless `v` can
      overlap the tag. */
  lemma {:induction false} OccurrenceOrigin(s: string, w: string, v: string, k: nat)
    requires w != "" && TagFree(v)
    requires k <= |ReplaceAll(s, w)| - |v| && v <= ReplaceAll(s, w)[k..]
    ensures Occurs(v, s) && v != w
    decreases |s|
  {
    var out := ReplaceAll(s, w);
    if |s| < |w| {
      assert Occurs(v, s);
    } else if w <= s {
      if k < |TAG| {
        InsideTag(v, k, ReplaceAll(s[|w|..], w));
        assert false;
      } else {
        assert out[k..] == ReplaceAll(s[|w|..], w)[k - |TAG|..];
        OccurrenceOrigin(s[|w|..], w, v, k - |TAG|);
        OccursLater(v, s, |w|);
      }
    } else if k > 0 {
      assert out[k..] == ReplaceAll(s[1..], w)[k - 1..];
      OccurrenceOrigin(s[1..], w, v, k - 1);
      OccursLater(v, s, 1);
    } else {
      assert out[0..] == out && s[0..] == s;
      if !(v <= s) {
        var i := PrefixOrigin(v, s, w);
        assert false;
      }
    }
  }

  ghost predicate Harmless(secrets: seq<string>) {
    forall v :: v in secrets ==> |v| >= 8 && TagFree(v)
  }

  ghost predicate Holds(s: string, secrets: seq<string>) {
    exists v :: v in secrets && Occurs(v, s)
  }

  /** After the whole loop a secret that cannot overlap the tag occurs nowhere in the output,
      whatever the other secrets are. */
  lemma {:induction false} NoSecretSurvives(s: string, secrets: seq<string>, v: string)
    requires "" !in secrets && TagFree(v)
    ensures Occurs(v, RedactEach(s, secrets)) ==> Occurs(v, s) && v !in secrets
  {
    if secrets != [] {
      var done, w := secrets[..|secrets| - 1], secrets[|secrets| - 1];
      var before := RedactEach(s, done);
      NoSecretSurvives(s, done, v);
      if Occurs(v, ReplaceAll(before, w)) {
        var out := ReplaceAll(before, w);
        var k :| 0 <= k <= |out| - |v| && v <= out[k..];
        OccurrenceOrigin(before, w, v, k);
      }
    }
  }

  /** Text that holds no secret comes back unchanged. */
  lemma {:induction false} SecretFreeUnchanged(s: string, secrets: seq<string>)
    requires "" !in secrets && !Holds(s, secrets)
    ensures RedactEach(s, secrets) == s
  {
    if secrets != [] {
      SecretFreeUnchanged(s, secrets[..|secrets| - 1]);
      NothingToReplace(s, secrets[|secrets| - 1]);
    }
  }

  /** Redaction is complete, and redacting again changes nothing. */
  lemma RedactionComplete(s: string, secrets: seq<string>)
    requires Harmless(secrets)
    ensures !Holds(RedactEach(s, secrets), secrets)
    ensures RedactEach(RedactEach(s, secrets), secrets) == RedactEach(s, secrets)
  {
    forall v | v in secrets
      ensures !Occurs(v, RedactEach(s, secrets))
    {
      NoSecretSurvives(s, secrets, v);
    }
    SecretFreeUnchanged(RedactEach(s, secrets), secrets);
  }

  // ── Exactly which secrets come back, one at a time ────────────────────────────────────────

  /** A secret that begins inside the tag, or that ends in the tag's beginning at a place where its
      own front, put before it, is not itself taken for the secret. */
  ghost predicate ComesBack(v: string) {
    || (exists n :: 0 <= n < |TAG| && Meets(v, n))
    || (exists i :: 0 < i < |v| && Meets(v[i..], 0) && FirstMatchAt(v[..i] + v, v, i))
  }

  lemma {:induction false} OwnOrigin(s: string, v: string, k: nat)
    requires v != "" && k <= |ReplaceAll(s, v)| - |v| && v <= ReplaceAll(s, v)[k..]
    ensures ComesBack(v)
    decreases |s|
  {
    var out := ReplaceAll(s, v);
    if |s| < |v| {
      assert false;
    } else if v <= s {
      if k < |TAG| {
        InsideTag(v, k, ReplaceAll(s[|v|..], v));
      } else {
        assert out[k..] == ReplaceAll(s[|v|..], v)[k - |TAG|..];
        OwnOrigin(s[|v|..], v, k - |TAG|);
      }
    } else if k > 0 {
      assert out[k..] == ReplaceAll(s[1..], v)[k - 1..];
      OwnOrigin(s[1..], v, k - 1);
    } else {
      assert out[0..] == out;
      var i := PrefixOrigin(v, s, v);
      assert i > 0 by { assert Matches(v, s, i) && s[0..|v|] <= s; }
      var front := v[..i] + v;
      assert s[..i + |v|] == s[..i] + s[i..i + |v|] == front == front[..i + |v|];
      FirstMatchLocal(s, v, i, front);
    }
  }

  /** What of `z` sticks out at the end of the tag it meets. */
  function Overhang(z: string, n: nat): (rest: string)
    requires n <= |TAG| && Meets(z, n)
    ensures z <= TAG[n..] + rest && |rest| <= |z| && (z != "" && n < |TAG| ==> |rest| < |z|)
  {
    if TAG[n..] <= z then z[|TAG| - n..] else ""
  }

  lemma SecretStartingInTag(v: string, n: nat)
    requires v != "" && n < |TAG| && Meets(v, n)
    ensures Occurs(v, ReplaceAll(v + Overhang(v, n), v))
  {
    var rest := Overhang(v, n);
    assert (v + rest)[|v|..] == rest;
    assert ReplaceAll(v + rest, v) == TAG + rest;
    assert (TAG + rest)[n..] == TAG[n..] + rest;
  }

  lemma SecretEndingInTag(v: string, i: nat)
    requires 0 < i < |v| && Meets(v[i..], 0) && FirstMatchAt(v[..i] + v, v, i)
    ensures Occurs(v, ReplaceAll(v[..i] + v + Overhang(v[i..], 0), v))
  {
    var rest := Overhang(v[i..], 0);
    var s := v[..i] + v + rest;
    FirstMatchLocal(v[..i] + v, v, i, s);
    ReplaceFirst(s, v, i);
    assert s[i + |v|..] == rest && s[..i] == v[..i];
    FrontMeetsTag(v, i, rest);
  }

  lemma FrontMeetsTag(v: string, i: nat, rest: string)
    requires i < |v| && v[i..] <= TAG[0..] + rest
    ensures Occurs(v, v[..i] + (TAG + rest))
  {
    var out := v[..i] + (TAG + rest);
    assert TAG[0..] == TAG;
    assert v == v[..i] + v[i..];
    assert out[0..] == out && v <= out;
  }

  lemma ReappearsSomewhere(v: string) returns (s: string)
    requires v != "" && ComesBack(v)
    ensures Occurs(v, ReplaceAll(s, v))
  {
    if n :| 0 <= n < |TAG| && Meets(v, n) {
      SecretStartingInTag(v, n);
      s := v + Overhang(v, n);
    } else {
      var i :| 0 < i < |v| && Meets(v[i..], 0) && FirstMatchAt(v[..i] + v, v, i);
      SecretEndingInTag(v, i);
      s := v[..i] + v + Overhang(v[i..], 0);
    }
  }

  /** A secret can be found in a text after it was replaced there if and only if it comes back by
      one of the two ways. */
  lemma ReappearsIff(v: string)
    requires v != ""
    ensures (exists s :: Occurs(v, ReplaceAll(s, v))) <==> ComesBack(v)
  {
    if s :| Occurs(v, ReplaceAll(s, v)) {
      var k :| 0 <= k <= |ReplaceAll(s, v)| - |v| && v <= ReplaceAll(s, v)[k..];
      OwnOrigin(s, v, k);
    } else if ComesBack(v) {
      var s := ReappearsSomewhere(v);
      assert false;
    }
  }

  // ── Exactly which secrets come back, beside any others ────────────────────────────────────

  function Filler(c: char, n: nat): string { seq(n, _ => c) }

  /** A character other than these. */
  function Other(x: char, y: char, z: char): (c: char)
    ensures c !in {x, y, z}
  {
    if 'a' !in {x, y, z} then 'a' else if 'b' !in {x, y, z} then 'b' else if 'c' !in {x, y, z} then 'c' else 'd'
  }

  /** A long filler of a character that neither begins nor ends `v` keeps `v` from spanning it. */
  lemma NotAcross(v: string, front: string, w: string, rest: string, c: char)
    requires |front| < |v| && |rest| < |v| <= |w| && w == Filler(c, |w|)
    requires c != v[0] && c != v[|v| - 1]
    ensures !Occurs(v, front + w + rest)
  {
    var s := front + w + rest;
    forall k | 0 <= k <= |s| - |v|
      ensures !(v <= s[k..])
    {
      if k < |front| {
        assert s[k..][|v| - 1] == s[k + |v| - 1] == w[k + |v| - 1 - |front|] == c;
      } else {
        assert s[k..][0] == s[k] == w[k - |front|] == c;
      }
    }
  }

  /** The filler is replaced where it stands if the text before it does not end in it. */
  lemma {:induction false} FillerReplaced(front: string, w: string, rest: string, c: char)
    requires 0 < |front| < |w| && |rest| < |w| && w == Filler(c, |w|) && c != front[|front| - 1]
    ensures ReplaceAll(front + w + rest, w) == front + (TAG + rest)
  {
    var s, i := front + w + rest, |front|;
    assert s[i..i + |w|] == w;
    forall k | 0 <= k < i
      ensures !Matches(w, s, k)
    {
      assert s[k..k + |w|][i - 1 - k] == s[i - 1] == front[i - 1] != c;
    }
    ReplaceFirst(s, w, i);
    assert s[i + |w|..] == rest && s[..i] == front;
  }

  lemma RedactOne(s: string, v: string)
    requires |v| >= 8
    ensures Long([v]) && v in [v] && RedactEach(s, [v]) == ReplaceAll(s, v)
  {
    assert [v][..0] == [];
  }

  lemma RedactTwo(s: string, v: string, w: string)
    requires |v| >= 8 && |w| >= 8
    ensures Long([v, w]) && v in [v, w] && RedactEach(s, [v, w]) == ReplaceAll(ReplaceAll(s, v), w)
  {
    RedactOne(s, v);
    RedactStep(s, [v], w);
    assert [v] + [w] == [v, w];
  }

  /** A secret that ends in the tag's beginning comes back beside another one that the text has
      where the secret's own end would be. */
  lemma SecretEndingBeside(v: string, i: nat) returns (w: string, s: string)
    requires |v| >= 8 && 0 < i < |v| && Meets(v[i..], 0)
    ensures |w| >= 8 && Occurs(v, ReplaceAll(ReplaceAll(s, v), w))
  {
    var front, rest := v[..i], Overhang(v[i..], 0);
    var c := Other(v[0], v[|v| - 1], v[i - 1]);
    w := Filler(c, |v| + 8);
    s := front + w + rest;
    NotAcross(v, front, w, rest, c);
    NothingToReplace(s, v);
    FillerReplaced(front, w, rest, c);
    FrontMeetsTag(v, i, rest);
  }

  lemma UnsafeBesideSome(v: string) returns (secrets: seq<string>, s: string)
    requires |v| >= 8 && !TagFree(v)
    ensures Long(secrets) && v in secrets && Occurs(v, RedactEach(s, secrets))
  {
    if n :| 0 <= n < |TAG| && Meets(v, n) {
      SecretStartingInTag(v, n);
      secrets, s := [v], v + Overhang(v, n);
      RedactOne(s, v);
    } else {
      var i :| 0 <= i < |v| && Meets(v[i..], 0);
      assert v[0..] == v;
      var w;
      w, s := SecretEndingBeside(v, i);
      secrets := [v, w];
      RedactTwo(s, v, w);
    }
  }

  /** A secret is removed from every text, whatever other secrets the registry holds and in whatever
      order, if and only if it cannot overlap the tag. */
  lemma SafeBesideAnyIff(v: string)
    requires |v| >= 8
    ensures TagFree(v)
       <==> forall secrets, s :: Long(secrets) && v in secrets ==> !Occurs(v, RedactEach(s, secrets))
  {
    if TagFree(v) {
      forall secrets, s | Long(secrets) && v in secrets
        ensures !Occurs(v, RedactEach(s, secrets))
      {
        NoSecretSurvives(s, secrets, v);
      }
    } else {
      var secrets, s := UnsafeBesideSome(v);
      assert exists secrets, s :: Long(secrets) && v in secrets && Occurs(v, RedactEach(s, secrets));
    }
  }

  // ── Secrets without brackets ──────────────────────────────────────────────────────────────

  /** Of the secrets without a bracket only the tag's own word can overlap it. */
  lemma BracketFreeMeets(v: string)
    requires |v| >= 8 && BracketFree(v)
    ensures TagFree(v) <==> v != "REDACTED"
  {
    if v == "REDACTED" {
      assert v <= TAG[1..];
      assert Meets(v, 1);
    } else {
      forall n | 0 <= n < |TAG|
        ensures !Meets(v, n)
      {
        if Meets(v, n) {
          WordOrBracket(v, n);
          assert false;
        }
      }
      forall i | 0 <= i < |v|
        ensures !Meets(v[i..], 0)
      {
        assert v[i..][0] == v[i] != '[' == TAG[0..][0];
      }
    }
  }

  lemma WordOrBracket(v: string, n: nat)
    requires |v| >= 8 && n < |TAG| && Meets(v, n)
    ensures v == "REDACTED" || !BracketFree(v)
  {
    if n == 0 {
      assert v[0] == TAG[0..][0] == '[';
    } else if |v| >= |TAG| - n {
      assert v[9 - n] == TAG[n..][9 - n] == ']';
    } else {
      assert v == TAG[n..][..|v|];
      assert v == "REDACTED";
    }
  }

  lemma TagHoldsWord(rest: string)
    ensures Occurs("REDACTED", TAG + rest)
  {
    assert TAG + rest == "[" + "REDACTED" + ("]" + rest);
    OccursWithin("[", "REDACTED", "]" + rest);
  }

  /** A replacement leaves a tag, and every tag shows the word inside it. */
  lemma {:induction false} ReplacementShowsTag(s: string, w: string)
    requires w != "" && Occurs(w, s)
    ensures Occurs("REDACTED", ReplaceAll(s, w))
    decreases |s|
  {
    var k :| 0 <= k <= |s| - |w| && w <= s[k..];
    if w <= s {
      TagHoldsWord(ReplaceAll(s[|w|..], w));
    } else {
      assert s[0..] == s;
      assert s[1..][k - 1..] == s[k..];
      assert Occurs(w, s[1..]);
      ReplacementShowsTag(s[1..], w);
      assert ReplaceAll(s, w)[1..] == ReplaceAll(s[1..], w);
      OccursLater("REDACTED", ReplaceAll(s, w), 1);
    }
  }

  lemma {:induction false} TagShows(s: string, secrets: seq<string>)
    requires "" !in secrets && Holds(s, secrets)
    ensures Occurs("REDACTED", RedactEach(s, secrets))
  {
    var done, w := secrets[..|secrets| - 1], secrets[|secrets| - 1];
    var before := RedactEach(s, done);
    if Holds(s, done) {
      TagShows(s, done);
      if Occurs(w, before) { ReplacementShowsTag(before, w); } else { NothingToReplace(before, w); }
    } else {
      SecretFreeUnchanged(s, done);
      ReplacementShowsTag(before, w);
    }
  }

  /** Among secrets without brackets the word REDACTED is the only one that breaks redaction: if it
      is configured, every text that held a secret still holds one afterwards. */
  lemma CompleteIffNotTagWord(secrets: seq<string>)
    requires Long(secrets) && forall v :: v in secrets ==> BracketFree(v)
    ensures (forall s :: !Holds(RedactEach(s, secrets), secrets)) <==> "REDACTED" !in secrets
    ensures "REDACTED" in secrets ==> forall s :: Holds(s, secrets) ==> Holds(RedactEach(s, secrets), secrets)
  {
    if "REDACTED" in secrets {
      forall s | Holds(s, secrets)
        ensures Holds(RedactEach(s, secrets), secrets)
      {
        TagShows(s, secrets);
      }
      OccursWithin("", "REDACTED", "");
      TagShows("" + "REDACTED" + "", secrets);
      assert exists s :: Holds(RedactEach(s, secrets), secrets);
    } else {
      forall v | v in secrets
        ensures |v| >= 8 && TagFree(v)
      {
        BracketFreeMeets(v);
      }
      forall s
        ensures !Holds(RedactEach(s, secrets), secrets)
      {
        RedactionComplete(s, secrets);
      }
    }
  }

  // ── Configured formats ────────────────────────────────────────────────────────────────────

  ghost predicate Configured(registry: seq<SecretSpec>, env: Env) {
    forall spec :: spec in registry && spec.key in env ==>
      && WellFormatted(spec.format, env[spec.key])
      && (spec.format.StellarSecret? || BracketFree(env[spec.key]))
  }

  /** Values that pass the registry's own format checks never are the tag's word, and a well-formed
      Stellar key has no bracket, so only the other values need be free of brackets. */
  lemma {:induction false} ConfiguredIsHarmless(registry: seq<SecretSpec>, env: Env)
    requires Configured(registry, env)
    requires forall spec :: spec in registry && spec.format.MinLength? ==> spec.format.n > 8
    ensures Harmless(Secrets(registry, env))
  {
    if registry != [] {
      var spec := registry[|registry| - 1];
      ConfiguredIsHarmless(registry[..|registry| - 1], env);
      if spec.key in env && |env[spec.key]| >= 8 {
        if spec.format.HttpsUrl? {
          assert env[spec.key][0] == "https://"[0] == 'h' != "REDACTED"[0];
        }
        BracketFreeMeets(env[spec.key]);
      }
    }
  }

  /** The secrets of the shipped registry are the values of these four variables, if long enough. */
  lemma ShippedSecrets(env: Env, v: string)
    ensures v in Secrets(SECRET_REGISTRY, env) <==> (
              && |v| >= 8
              && exists key :: key in env && env[key] == v
                   && key in {"STELLAR_FEE_BUMP_SECRET", "BLOB_READ_WRITE_TOKEN", "KV_REST_API_URL", "KV_REST_API_TOKEN"})
  {
    SecretsStep(SECRET_REGISTRY, env, 0);
    SecretsStep(SECRET_REGISTRY, env, 1);
    SecretsStep(SECRET_REGISTRY, env, 2);
    SecretsStep(SECRET_REGISTRY, env, 3);
    assert SECRET_REGISTRY[..4] == SECRET_REGISTRY && SECRET_REGISTRY[..0] == [];
  }

  /** So redaction is complete for every well-formed configuration of the shipped registry. */
  lemma ShippedRegistryComplete(input: string, env: Env)
    requires Configured(SECRET_REGISTRY, env)
    ensures var secrets := Secrets(SECRET_REGISTRY, env);
            Long(secrets) && !Holds(RedactEach(input, secrets), secrets)
  {
    ConfiguredIsHarmless(SECRET_REGISTRY, env);
    RedactionComplete(input, Secrets(SECRET_REGISTRY, env));
  }
}
