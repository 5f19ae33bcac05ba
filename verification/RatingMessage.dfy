/** The signed rating message, printed and parsed (frontend/lib/api/ratingsProtocol.ts). */
module RatingMessage {
  import opened Options

  const EXPIRY_WINDOW_MS := 5 * 60 * 1000

  // ── Splitting and joining at colons ───────────────────────────────────────────────────────

  predicate ColonFree(s: string) { ':' !in s }

  function Split(s: string): (parts: seq<string>)
    ensures parts != []
  {
    if s == "" then [""]
    else if s[0] == ':' then [""] + Split(s[1..])
    else
      var rest := Split(s[1..]);
      [[s[0]] + rest[0]] + rest[1..]
  }

  function Join(parts: seq<string>): string
    requires parts != []
  {
    if |parts| == 1 then parts[0] else parts[0] + ":" + Join(parts[1..])
  }

  lemma {:induction false} SplitFirst(part: string, rest: string)
    requires ColonFree(part)
    ensures Split(part + ":" + rest) == [part] + Split(rest)
  {
    var s := part + ":" + rest;
    if part == "" {
      assert s[1..] == rest;
    } else {
      assert s[1..] == part[1..] + ":" + rest;
      SplitFirst(part[1..], rest);
      assert s[0] == part[0] && [part[0]] + part[1..] == part;
    }
  }

  lemma {:induction false} SplitOne(part: string)
    requires ColonFree(part)
    ensures Split(part) == [part]
  {
    if part != "" {
      SplitOne(part[1..]);
      assert [part[0]] + part[1..] == part;
    }
  }

  lemma {:induction false} SplitOfJoin(parts: seq<string>)
    requires parts != [] && forall i :: 0 <= i < |parts| ==> ColonFree(parts[i])
    ensures Split(Join(parts)) == parts
  {
    if |parts| == 1 {
      SplitOne(parts[0]);
    } else {
      SplitOfJoin(parts[1..]);
      SplitFirst(parts[0], Join(parts[1..]));
    }
  }

  lemma {:induction false} JoinOfSplit(s: string)
    ensures Join(Split(s)) == s
    ensures forall i :: 0 <= i < |Split(s)| ==> ColonFree(Split(s)[i])
  {
    if s != "" {
      JoinOfSplit(s[1..]);
      var rest := Split(s[1..]);
      if s[0] == ':' {
        assert Split(s)[1..] == rest;
      } else {
        assert Split(s)[1..] == rest[1..];
      }
    }
  }

  function Colons(s: string): nat {
    if s == "" then 0 else (if s[0] == ':' then 1 else 0) + Colons(s[1..])
  }

  lemma {:induction false} PartsCountColons(s: string)
    ensures |Split(s)| == Colons(s) + 1
  {
    if s != "" { PartsCountColons(s[1..]); }
  }

  lemma {:induction false} ColonsAppend(s: string, t: string)
    ensures Colons(s + t) == Colons(s) + Colons(t)
  {
    if s == "" {
      assert s + t == t;
    } else {
      assert (s + t)[1..] == s[1..] + t;
      ColonsAppend(s[1..], t);
    }
  }

  lemma {:induction false} NoColons(s: string)
    ensures Colons(s) == 0 <==> ColonFree(s)
  {
    if s != "" { NoColons(s[1..]); }
  }

  lemma {:induction false} ColonsOfJoin(parts: seq<string>)
    requires parts != []
    ensures Colons(Join(parts)) >= |parts| - 1
    ensures Colons(Join(parts)) == |parts| - 1 <==> forall i :: 0 <= i < |parts| ==> ColonFree(parts[i])
  {
    NoColons(parts[0]);
    if |parts| > 1 {
      var rest := parts[1..];
      ColonsOfJoin(rest);
      ColonsAppend(parts[0] + ":", Join(rest));
      ColonsAppend(parts[0], ":");
      assert forall i :: 1 <= i < |parts| ==> parts[i] == rest[i - 1];
      assert forall i :: 0 <= i < |rest| ==> rest[i] == parts[i + 1];
    }
  }

  // ── Numbers ───────────────────────────────────────────────────────────────────────────────

  predicate IsDigit(c: char) { '0' <= c <= '9' }

  function NatToString(n: nat): (s: string)
    ensures s != "" && forall i :: 0 <= i < |s| ==> IsDigit(s[i])
  {
    var digit := '0' + (n % 10) as char;
    if n < 10 then [digit] else NatToString(n / 10) + [digit]
  }

  function IntToString(n: int): string {
    if n < 0 then "-" + NatToString(-n) else NatToString(n)
  }

  /** The value of the digits at the front of `s`, read after `value`. */
  function DigitsValue(s: string, value: nat): nat {
    if s == "" || !IsDigit(s[0]) then value else DigitsValue(s[1..], 10 * value + (s[0] as int - '0' as int))
  }

  predicate IsWhiteSpace(c: char) {
    c as int in {0x09, 0x0A, 0x0B, 0x0C, 0x0D, 0x20, 0xA0, 0x1680, 0x2028, 0x2029, 0x202F, 0x205F, 0x3000, 0xFEFF}
    || 0x2000 <= c as int <= 0x200A
  }

  /** White space as the language standard lists it: tab to carriage return, the spaces, the two
      separators and the byte order mark. */
  lemma WhiteSpaceIs(c: char)
    ensures IsWhiteSpace(c) <==>
              || 9 <= c as int <= 13 || c == ' ' || c as int == 160 || c as int == 5760 || 8192 <= c as int <= 8202
              || c as int == 8232 || c as int == 8233 || c as int == 8239 || c as int == 8287 || c as int == 12288
              || c as int == 65279
  {
  }

  function TrimStart(s: string): string {
    if s != "" && IsWhiteSpace(s[0]) then TrimStart(s[1..]) else s
  }

  /** `parseInt(s, 10)`: leading space, a sign, then as many digits as there are; the rest is ignored. */
  function ParseInt(s: string): Option<int> {
    var t := TrimStart(s);
    var negative := t != "" && t[0] == '-';
    var digits := if t != "" && (t[0] == '-' || t[0] == '+') then t[1..] else t;
    if digits == "" || !IsDigit(digits[0]) then None
    else
      var magnitude: int := DigitsValue(digits, 0);
      Some(if negative then -magnitude else magnitude)
  }

  predicate Junk(s: string) {
    s == "" || !IsDigit(s[0])
  }

  lemma {:induction false} DigitsConcat(s: string, t: string, value: nat)
    requires forall i :: 0 <= i < |s| ==> IsDigit(s[i])
    ensures DigitsValue(s + t, value) == DigitsValue(t, DigitsValue(s, value))
  {
    if s == "" {
      assert s + t == t;
    } else {
      assert (s + t)[1..] == s[1..] + t && IsDigit(s[0]);
      DigitsConcat(s[1..], t, 10 * value + (s[0] as int - '0' as int));
    }
  }

  lemma {:induction false} DigitsOfNat(n: nat)
    ensures DigitsValue(NatToString(n), 0) == n
  {
    var digit := '0' + (n % 10) as char;
    assert DigitsValue([digit], n / 10) == 10 * (n / 10) + n % 10 by {
      assert [digit][1..] == "";
    }
    if n < 10 {
      assert NatToString(n) == [digit];
    } else {
      DigitsOfNat(n / 10);
      DigitsConcat(NatToString(n / 10), [digit], 0);
    }
  }

  lemma ParseDigits(digits: string, negative: bool)
    requires digits != "" && IsDigit(digits[0])
    ensures var value: int := DigitsValue(digits, 0);
            ParseInt((if negative then "-" else "") + digits) == Some(if negative then -value else value)
  {
    if negative { assert ("-" + digits)[1..] == digits; } else { assert "" + digits == digits; }
  }

  /** Whatever follows a printed integer is ignored, up to a further digit. */
  lemma ParsePrinted(n: int, junk: string)
    requires Junk(junk)
    ensures ParseInt(IntToString(n) + junk) == Some(n)
  {
    var sign, magnitude := if n < 0 then "-" else "", if n < 0 then -n else n;
    var digits := NatToString(magnitude);
    DigitsOfNat(magnitude);
    DigitsConcat(digits, junk, 0);
    assert (digits + junk)[0] == digits[0];
    ParseDigits(digits + junk, n < 0);
    assert IntToString(n) + junk == sign + (digits + junk);
  }

  lemma {:induction false} TrimsSpace(space: string, rest: string)
    requires (forall i :: 0 <= i < |space| ==> IsWhiteSpace(space[i])) && (rest != "" ==> !IsWhiteSpace(rest[0]))
    ensures TrimStart(space + rest) == rest
  {
    if space == "" {
      assert space + rest == rest;
    } else {
      assert (space + rest)[1..] == space[1..] + rest;
      TrimsSpace(space[1..], rest);
    }
  }

  lemma {:induction false} TrimStartSplits(s: string) returns (space: string)
    ensures s == space + TrimStart(s) && forall i :: 0 <= i < |space| ==> IsWhiteSpace(space[i])
    ensures TrimStart(s) != "" ==> !IsWhiteSpace(TrimStart(s)[0])
  {
    if s != "" && IsWhiteSpace(s[0]) {
      var more := TrimStartSplits(s[1..]);
      space := [s[0]] + more;
    } else {
      space := "";
    }
  }

  /** `s` is space, perhaps a sign, and then a digit. */
  predicate StartsNumber(s: string, space: string, sign: string, rest: string) {
    && s == space + (sign + rest) && (forall i :: 0 <= i < |space| ==> IsWhiteSpace(space[i]))
    && sign in {"", "+", "-"} && rest != "" && '0' <= rest[0] <= '9'
  }

  lemma ParseSigned(s: string, space: string, sign: string, rest: string)
    requires StartsNumber(s, space, sign, rest)
    ensures var value: int := DigitsValue(rest, 0);
            ParseInt(s) == Some(if sign == "-" then -value else value)
  {
    assert (sign + rest)[0] == if sign == "" then rest[0] else sign[0];
    assert !IsWhiteSpace(rest[0]) && !IsWhiteSpace('+') && !IsWhiteSpace('-');
    TrimsSpace(space, sign + rest);
    if sign == "" { assert sign + rest == rest; } else { assert (sign + rest)[1..] == rest; }
  }

  /** Exactly which texts begin with a number. */
  lemma ParseIntIff(s: string)
    ensures ParseInt(s).Some? <==> exists space, sign, rest :: StartsNumber(s, space, sign, rest)
  {
    if space, sign, rest :| StartsNumber(s, space, sign, rest) {
      ParseSigned(s, space, sign, rest);
    } else if ParseInt(s).Some? {
      var space := TrimStartSplits(s);
      var t := TrimStart(s);
      if t[0] == '-' || t[0] == '+' {
        assert t == [t[0]] + t[1..];
        assert StartsNumber(s, space, [t[0]], t[1..]);
      } else {
        assert "" + t == t;
        assert StartsNumber(s, space, "", t);
      }
    }
  }

  /** Printing writes no leading zero. */
  lemma {:induction false} NoLeadingZero(n: nat)
    requires n > 0
    ensures NatToString(n)[0] != '0'
  {
    if n >= 10 { NoLeadingZero(n / 10); }
  }

  // ── The message ───────────────────────────────────────────────────────────────────────────

  datatype RatingSigningPayload = RatingSigningPayload(productId: string, stars: int, nonce: string, expiresAt: int)

  function Build(p: RatingSigningPayload): string {
    "supply-link:rate:" + p.productId + ":" + IntToString(p.stars) + ":" + p.nonce + ":" + IntToString(p.expiresAt)
  }

  datatype Reason = InvalidFormat | ProductIdMismatch | StarsMismatch | InvalidExpiry | Expired | ExpiryTooFar

  datatype ValidationResult = Passed | Rejected(reason: Reason)

  function ParseAndValidate(
    message: string, expectedProductId: string, expectedStars: int, now: int): ValidationResult
  {
    var parts := Split(message);
    if |parts| != 6 || parts[0] != "supply-link" || parts[1] != "rate" then Rejected(InvalidFormat)
    else if parts[2] != expectedProductId then Rejected(ProductIdMismatch)
    else if ParseInt(parts[3]) != Some(expectedStars) then Rejected(StarsMismatch)
    else match ParseInt(parts[5])
         case None => Rejected(InvalidExpiry)
         case Some(expiresAt) =>
           if expiresAt <= now then Rejected(Expired)
           else if expiresAt > now + EXPIRY_WINDOW_MS then Rejected(ExpiryTooFar)
           else Passed
  }

  /** The shape every message of the protocol has, the numbers still in the client's spelling. */
  function Spelled(productId: string, stars: string, nonce: string, expiresAt: string): string {
    Join(["supply-link", "rate", productId, stars, nonce, expiresAt])
  }

  lemma SplitSpelled(productId: string, stars: string, nonce: string, expiresAt: string)
    requires ColonFree(productId) && ColonFree(stars) && ColonFree(nonce) && ColonFree(expiresAt)
    ensures Split(Spelled(productId, stars, nonce, expiresAt))
         == ["supply-link", "rate", productId, stars, nonce, expiresAt]
  {
    SplitOfJoin(["supply-link", "rate", productId, stars, nonce, expiresAt]);
  }

  lemma SpelledOut(productId: string, stars: string, nonce: string, expiresAt: string)
    ensures Spelled(productId, stars, nonce, expiresAt)
         == "supply-link:rate:" + productId + ":" + stars + ":" + nonce + ":" + expiresAt
  {
    JoinSix("supply-link", "rate", productId, stars, nonce, expiresAt);
    assert "supply-link" + ":" + ("rate" + ":") == "supply-link:rate:";
    Regroup("supply-link", "rate", productId, stars, nonce, expiresAt);
  }

  lemma BuildIsSpelled(p: RatingSigningPayload)
    ensures Build(p) == Spelled(p.productId, IntToString(p.stars), p.nonce, IntToString(p.expiresAt))
  {
    SpelledOut(p.productId, IntToString(p.stars), p.nonce, IntToString(p.expiresAt));
  }

  lemma JoinSix(a: string, b: string, c: string, d: string, e: string, f: string)
    ensures Join([a, b, c, d, e, f]) == a + ":" + (b + ":" + (c + ":" + (d + ":" + (e + ":" + f))))
  {
    var parts := [a, b, c, d, e, f];
    assert parts[1..] == [b, c, d, e, f] && parts[1..][1..] == [c, d, e, f];
    assert [c, d, e, f][1..] == [d, e, f] && [d, e, f][1..] == [e, f] && [e, f][1..] == [f];
    assert Join([e, f]) == e + ":" + f;
    assert Join([d, e, f]) == d + ":" + Join([e, f]);
    assert Join([c, d, e, f]) == c + ":" + Join([d, e, f]);
    assert Join([b, c, d, e, f]) == b + ":" + Join([c, d, e, f]);
  }

  lemma Regroup(a: string, b: string, c: string, d: string, e: string, f: string)
    ensures a + ":" + (b + ":") + c + ":" + d + ":" + e + ":" + f
         == a + ":" + (b + ":" + (c + ":" + (d + ":" + (e + ":" + f))))
  {
  }

  /** A built message validates for its own product and stars exactly when the identifiers hold no
      colon and the expiry is in the window. */
  lemma RoundTrip(p: RatingSigningPayload, now: int)
    ensures ParseAndValidate(Build(p), p.productId, p.stars, now) == Passed
       <==> ColonFree(p.productId) && ColonFree(p.nonce) && now < p.expiresAt <= now + 300_000
  {
    if ColonFree(p.productId) && ColonFree(p.nonce) {
      ParsePrinted(p.stars, "");
      ParsePrinted(p.expiresAt, "");
      assert IntToString(p.stars) + "" == IntToString(p.stars);
      assert IntToString(p.expiresAt) + "" == IntToString(p.expiresAt);
      BuildIsSpelled(p);
      SplitSpelled(p.productId, IntToString(p.stars), p.nonce, IntToString(p.expiresAt));
    } else {
      var parts := ["supply-link", "rate", p.productId, IntToString(p.stars), p.nonce, IntToString(p.expiresAt)];
      BuildIsSpelled(p);
      ColonsOfJoin(parts);
      assert !ColonFree(parts[2]) || !ColonFree(parts[4]);
      PartsCountColons(Build(p));
    }
  }

  /** On colon-free payloads a message determines its payload. */
  lemma BuildInjective(p: RatingSigningPayload, q: RatingSigningPayload)
    requires ColonFree(p.productId) && ColonFree(p.nonce) && ColonFree(q.productId) && ColonFree(q.nonce)
    requires Build(p) == Build(q)
    ensures p == q
  {
    BuildIsSpelled(p);
    BuildIsSpelled(q);
    SplitSpelled(p.productId, IntToString(p.stars), p.nonce, IntToString(p.expiresAt));
    SplitSpelled(q.productId, IntToString(q.stars), q.nonce, IntToString(q.expiresAt));
    ParsePrinted(p.stars, "");
    ParsePrinted(q.stars, "");
    ParsePrinted(p.expiresAt, "");
    ParsePrinted(q.expiresAt, "");
    assert forall n :: IntToString(n) + "" == IntToString(n);
  }

  /** With colons in the identifiers it does not. */
  lemma BuildCollides()
    ensures var p := RatingSigningPayload("a:1:b", 2, "c", 9);
            var q := RatingSigningPayload("a", 1, "b:2:c", 9);
            p != q && Build(p) == Build(q)
  {
    assert IntToString(1) == "1" && IntToString(2) == "2" && IntToString(9) == "9";
  }

  /** The six fields of a message, none with a colon. */
  predicate HasFields(message: string, productId: string, stars: string, nonce: string, expiresAt: string) {
    && ':' !in productId && ':' !in stars && ':' !in nonce && ':' !in expiresAt
    && message == "supply-link:rate:" + productId + ":" + stars + ":" + nonce + ":" + expiresAt
  }

  lemma SplitFields(message: string, p: string, s: string, n: string, e: string)
    requires HasFields(message, p, s, n, e)
    ensures Split(message) == ["supply-link", "rate", p, s, n, e]
  {
    SpelledOut(p, s, n, e);
    SplitSpelled(p, s, n, e);
  }

  /** The format is refused exactly if the message does not have the six fields. */
  lemma FormatRefusedIff(message: string, productId: string, stars: int, now: int)
    ensures ParseAndValidate(message, productId, stars, now) == Rejected(InvalidFormat)
       <==> !exists p, s, n, e :: HasFields(message, p, s, n, e)
  {
    if p, s, n, e :| HasFields(message, p, s, n, e) {
      SplitFields(message, p, s, n, e);
    } else if ParseAndValidate(message, productId, stars, now) != Rejected(InvalidFormat) {
      JoinOfSplit(message);
      var parts := Split(message);
      assert parts == ["supply-link", "rate", parts[2], parts[3], parts[4], parts[5]];
      SpelledOut(parts[2], parts[3], parts[4], parts[5]);
      assert HasFields(message, parts[2], parts[3], parts[4], parts[5]);
    }
  }

  /** Which of the other reasons is given, when several apply: product, stars, an unreadable expiry, one
      that has come, one more than five minutes ahead. */
  lemma ReasonIff(
    message: string, p: string, s: string, n: string, e: string, productId: string, stars: int, now: int)
    requires HasFields(message, p, s, n, e)
    ensures var result := ParseAndValidate(message, productId, stars, now);
            && (result == Rejected(ProductIdMismatch) <==> p != productId)
            && (result == Rejected(StarsMismatch) <==> p == productId && ParseInt(s) != Some(stars))
            && (result == Rejected(InvalidExpiry) <==>
                  p == productId && ParseInt(s) == Some(stars) && ParseInt(e) == None)
            && (result == Rejected(Expired) <==>
                  p == productId && ParseInt(s) == Some(stars) && ParseInt(e).Some? && ParseInt(e).value <= now)
            && (result == Rejected(ExpiryTooFar) <==>
                  p == productId && ParseInt(s) == Some(stars) && ParseInt(e).Some? && ParseInt(e).value > now + 300_000)
            && (result == Passed <==>
                  p == productId && ParseInt(s) == Some(stars) && ParseInt(e).Some?
                  && now < ParseInt(e).value <= now + 300_000)
  {
    SplitFields(message, p, s, n, e);
  }

  /** Exactly what the parser accepts: any spelling of the numbers that starts like the number. */
  lemma AcceptedIffSpelled(message: string, productId: string, stars: int, now: int)
    ensures ParseAndValidate(message, productId, stars, now) == Passed
       <==> exists s, n, e ::
              && ColonFree(productId) && ColonFree(s) && ColonFree(n) && ColonFree(e)
              && message == Spelled(productId, s, n, e)
              && ParseInt(s) == Some(stars)
              && ParseInt(e).Some? && now < ParseInt(e).value <= now + EXPIRY_WINDOW_MS
  {
    if ParseAndValidate(message, productId, stars, now) == Passed {
      JoinOfSplit(message);
      var parts := Split(message);
      assert parts == ["supply-link", "rate", productId, parts[3], parts[4], parts[5]];
      assert message == Spelled(productId, parts[3], parts[4], parts[5]);
    }
    if s, n, e :|
      && ColonFree(productId) && ColonFree(s) && ColonFree(n) && ColonFree(e)
      && message == Spelled(productId, s, n, e)
      && ParseInt(s) == Some(stars)
      && ParseInt(e).Some? && now < ParseInt(e).value <= now + EXPIRY_WINDOW_MS
    {
      SplitSpelled(productId, s, n, e);
    }
  }

  /** The source asks for the canonical format. An accepted message is in it exactly when both its
      numbers are written as the client prints them. */
  lemma CanonicalIff(message: string, productId: string, stars: int, now: int)
    requires ParseAndValidate(message, productId, stars, now) == Passed
    ensures var parts := Split(message);
            && |parts| == 6 && ParseInt(parts[5]).Some?
            && ((exists p :: message == Build(p)) <==>
                  parts[3] == IntToString(stars) && parts[5] == IntToString(ParseInt(parts[5]).value))
  {
    var parts := Split(message);
    JoinOfSplit(message);
    assert parts == ["supply-link", "rate", productId, parts[3], parts[4], parts[5]];
    if p :| message == Build(p) {
      PartsOfBuilt(p);
      ParsePrintedAlone(p.stars);
      ParsePrintedAlone(p.expiresAt);
    }
    if parts[3] == IntToString(stars) && parts[5] == IntToString(ParseInt(parts[5]).value) {
      BuildIsSpelled(RatingSigningPayload(productId, stars, parts[4], ParseInt(parts[5]).value));
    }
  }

  lemma ParsePrintedAlone(n: int)
    ensures ParseInt(IntToString(n)) == Some(n)
  {
    ParsePrinted(n, "");
    assert IntToString(n) + "" == IntToString(n);
  }

  /** A built message that splits into six parts splits into its own. */
  lemma PartsOfBuilt(p: RatingSigningPayload)
    requires |Split(Build(p))| == 6
    ensures Split(Build(p)) == ["supply-link", "rate", p.productId, IntToString(p.stars), p.nonce, IntToString(p.expiresAt)]
  {
    var parts := ["supply-link", "rate", p.productId, IntToString(p.stars), p.nonce, IntToString(p.expiresAt)];
    BuildIsSpelled(p);
    if ColonFree(p.productId) && ColonFree(p.nonce) {
      SplitSpelled(p.productId, IntToString(p.stars), p.nonce, IntToString(p.expiresAt));
    } else {
      ColonsOfJoin(parts);
      assert !ColonFree(parts[2]) || !ColonFree(parts[4]);
      PartsCountColons(Build(p));
      assert false;
    }
  }

  /** Numbers in any spelling the parser understands are let through; only the printed one is canonical. */
  lemma OtherSpellings(productId: string, s: string, nonce: string, e: string, now: int)
    requires ColonFree(productId) && ColonFree(s) && ColonFree(nonce) && ColonFree(e)
    requires ParseInt(s).Some? && ParseInt(e).Some? && now < ParseInt(e).value <= now + EXPIRY_WINDOW_MS
    ensures var message := Spelled(productId, s, nonce, e);
            && ParseAndValidate(message, productId, ParseInt(s).value, now) == Passed
            && ((exists p :: message == Build(p)) <==>
                  s == IntToString(ParseInt(s).value) && e == IntToString(ParseInt(e).value))
  {
    SplitSpelled(productId, s, nonce, e);
    CanonicalIff(Spelled(productId, s, nonce, e), productId, ParseInt(s).value, now);
  }

  /** A message that passes though nobody builds it: space, a sign and a leading zero before a number
      are let through, and so is text after it. */
  lemma NonCanonicalAccepted()
    ensures var message := Spelled("p", " +05 stars", "n", "300000");
            ParseAndValidate(message, "p", 5, 0) == Passed && forall p :: message != Build(p)
  {
    SpaceSignZero();
    PrintsAs300000();
    ParsePrintedAlone(300000);
    OtherSpellings("p", " +05 stars", "n", "300000", 0);
    assert IntToString(5) == "5";
  }

  lemma PrintsAs300000()
    ensures IntToString(300000) == "300000"
  {
    assert NatToString(300) == "300" by { assert NatToString(30) == "30"; }
    assert NatToString(3000) == "3000";
    assert NatToString(30000) == "30000";
  }

  lemma SpaceSignZero()
    ensures ParseInt(" +05 stars") == Some(5)
  {
    assert " +05 stars"[1..] == "+05 stars" && "+05 stars"[1..] == "05 stars";
    assert TrimStart(" +05 stars") == TrimStart("+05 stars") == "+05 stars";
    assert "05 stars"[1..] == "5 stars" && "5 stars"[1..] == " stars";
    assert DigitsValue("05 stars", 0) == DigitsValue("5 stars", 0) == DigitsValue(" stars", 5) == 5;
  }

  /** In particular text after either number; if there is any, no one builds the message. */
  lemma TrailingTextAccepted(p: RatingSigningPayload, junk: string, junk': string, now: int)
    requires ColonFree(p.productId) && ColonFree(p.nonce) && now < p.expiresAt <= now + EXPIRY_WINDOW_MS
    requires Junk(junk) && Junk(junk') && ColonFree(junk) && ColonFree(junk')
    ensures var message :=
              Spelled(p.productId, IntToString(p.stars) + junk, p.nonce, IntToString(p.expiresAt) + junk');
            && ParseAndValidate(message, p.productId, p.stars, now) == Passed
            && ((exists q :: message == Build(q)) <==> junk == "" && junk' == "")
  {
    ParsePrinted(p.stars, junk);
    ParsePrinted(p.expiresAt, junk');
    OtherSpellings(p.productId, IntToString(p.stars) + junk, p.nonce, IntToString(p.expiresAt) + junk', now);
    SameWithRest(IntToString(p.stars), junk);
    SameWithRest(IntToString(p.expiresAt), junk');
  }

  lemma SameWithRest(s: string, rest: string)
    ensures s + rest == s <==> rest == ""
  {
    if rest != "" { assert |s + rest| > |s|; }
  }
}
