/**
 * Message ids (`cyclops-proto` mailbox) and the doorbell lines that carry
 * them (`cyclops-proto` notification).
 */
module Doorbell {
  import opened Wrappers
  import opened Text
  import opened Identity
  import opened Token
  import opened Seqs

  // ---------------------------------------------------------------------
  // Message ids
  // ---------------------------------------------------------------------

  predicate IsIdPart(part: string) {
    |part| == 8 && forall i :: 0 <= i < |part| ==> IsLowerHex(part[i])
  }

  predicate IsIdChar(c: char) {
    IsAlphanumeric(c) || c == '_' || c == '-'
  }

  // What `MessageId::new` accepts.
  predicate IsMessageId(value: string) {
    match StripPrefix(value, "cyc-")
    case Some(parts) =>
      (match SplitOnce(parts, "-")
       case Some((thread, message)) => IsIdPart(thread) && IsIdPart(message)
       case None => false)
    case None =>
      (match StripPrefix(value, "m-")
       case Some(suffix) => suffix != [] && forall i :: 0 <= i < |suffix| ==> IsIdChar(suffix[i])
       case None => false)
  }

  // THEOREM. The ids are exactly `cyc-` with two runs of eight hex characters, and
  // `m-` with at least one letter, digit, `_` or `-`.
  lemma MessageIdExactly(value: string)
    ensures IsMessageId(value) <==>
      || (exists thread, message :: IsMintedId(value, thread, message))
      || (exists suffix :: IsLegacyId(value, suffix))
  {
    if "cyc-" <= value {
      assert value[0] == 'c';
      assert forall suffix :: !IsLegacyId(value, suffix) by {
        forall suffix
          ensures !IsLegacyId(value, suffix)
        {
          assert ("m-" + suffix)[0] == 'm';
        }
      }
      MintedIdExactly(value);
    } else {
      if IsMessageId(value) { assert IsLegacyId(value, value[2..]); }
      if suffix :| IsLegacyId(value, suffix) { assert value[2..] == suffix; }
    }
  }

  ghost predicate HexRun(part: string) {
    |part| == 8 && forall i :: 0 <= i < 8 ==> '0' <= part[i] <= '9' || 'a' <= part[i] <= 'f'
  }

  ghost predicate IsMintedId(value: string, thread: string, message: string) {
    HexRun(thread) && HexRun(message) && value == "cyc-" + (thread + "-" + message)
  }

  ghost predicate IsLegacyId(value: string, suffix: string) {
    && suffix != [] && value == "m-" + suffix
    && forall i :: 0 <= i < |suffix| ==>
         || '0' <= suffix[i] <= '9' || 'a' <= suffix[i] <= 'z' || 'A' <= suffix[i] <= 'Z'
         || suffix[i] == '_' || suffix[i] == '-'
  }

  lemma MintedIdExactly(value: string)
    requires "cyc-" <= value
    ensures IsMessageId(value) <==> exists thread, message :: IsMintedId(value, thread, message)
  {
    var parts := value[4..];
    assert value == "cyc-" + parts;
    if IsMessageId(value) {
      var (thread, message) := SplitOnce(parts, "-").value;
      assert IsMintedId(value, thread, message);
    }
    if thread, message :| IsMintedId(value, thread, message) {
      assert parts == thread + "-" + message;
      SplitOnceAt(thread, "-", message);
    }
  }

  lemma MessageIdChars(value: string)
    requires IsMessageId(value)
    ensures forall i :: 0 <= i < |value| ==> IsIdChar(value[i])
  {
  }

  // ---------------------------------------------------------------------
  // Rendering and parsing
  // ---------------------------------------------------------------------

  const CLAIM: string := "cyclops inbox claim "
  const ATTEMPT_MARK: string := " #c:"
  const LOCATOR_PREFIX: string := "m-att_"
  const JSON_FLAG: string := " --json"

  function Locator(attempt: DurableId): string {
    LOCATOR_PREFIX + EncodeToken(attempt)
  }

  function RenderV2(message: string, attempt: DurableId): string {
    CLAIM + message + ATTEMPT_MARK + EncodeToken(attempt)
  }

  function RenderV3(attempt: DurableId): string {
    CLAIM + Locator(attempt)
  }

  // One trailing newline is the only transport normalization.
  function Untrailed(payload: string): (s: string)
    ensures payload == s || payload == s + "\n"
  {
    match StripSuffix(payload, "\n")
    case Some(stripped) => stripped
    case None => payload
  }

  function ParseV2(payload: string): Option<(string, DurableId)> {
    match StripPrefix(Untrailed(payload), CLAIM)
    case None => None
    case Some(rest) => ParseV2Rest(rest)
  }

  function ParseV2Rest(rest: string): Option<(string, DurableId)> {
    match SplitOnce(rest, ATTEMPT_MARK)
    case None => None
    case Some((message, token)) =>
      if exists i :: 0 <= i < |token| && IsWhitespace(token[i]) then None
      else if !IsMessageId(message) then None
      else match ParseToken(token)
        case None => None
        case Some(attempt) => Some((message, attempt))
  }

  function ParseLocator(message: string): Option<DurableId> {
    match StripPrefix(message, LOCATOR_PREFIX)
    case None => None
    case Some(token) =>
      match ParseToken(token)
      case None => None
      case Some(attempt) => if Locator(attempt) == message then Some(attempt) else None
  }

  function ParseV3(payload: string): Option<DurableId> {
    match StripPrefix(Untrailed(payload), CLAIM)
    case None => None
    case Some(text) => ParseV3Text(text)
  }

  function ParseV3Text(text: string): Option<DurableId> {
    var locator := match StripSuffix(text, JSON_FLAG) case Some(bare) => bare case None => text;
    if IsMessageId(locator) then ParseLocator(locator) else None
  }

  // ---------------------------------------------------------------------
  // The languages the parsers accept
  // ---------------------------------------------------------------------

  lemma TokenChars(attempt: DurableId)
    ensures forall i :: 0 <= i < 22 ==> IsIdChar(EncodeToken(attempt)[i])
  {
    forall i | 0 <= i < 22
      ensures IsIdChar(EncodeToken(attempt)[i])
    {
      CharacterBijection(Values(attempt)[i], EncodeToken(attempt)[i]);
    }
  }

  // The payload is the line, with or without a trailing newline.
  ghost predicate IsLine(payload: string, line: string) {
    payload == line || payload == line + "\n"
  }

  // Behind the claim words stands exactly what the payload carried, unless
  // it ends in a newline of its own.
  lemma ClaimPayload(payload: string, rest: string)
    requires rest != [] && rest[|rest| - 1] != '\n'
    ensures StripPrefix(Untrailed(payload), CLAIM) == Some(rest) <==> IsLine(payload, CLAIM + rest)
  {
    var line := CLAIM + rest;
    assert line[|CLAIM|..] == rest && line[|line| - 1] == rest[|rest| - 1];
    if payload == line {
      assert line[|line| - 1..] == [line[|line| - 1]];
    } else if payload == line + "\n" {
      assert payload[|line|..] == "\n";
    }
  }

  lemma LocatorIsMessageId(attempt: DurableId)
    ensures IsMessageId(Locator(attempt))
    ensures forall i :: 0 <= i < |Locator(attempt)| ==> IsIdChar(Locator(attempt)[i])
  {
    var l := Locator(attempt);
    TokenChars(attempt);
    assert l[0] == 'm' && l[1] == '-';
    assert "m-" <= l;
    forall i | 0 <= i < |l|
      ensures IsIdChar(l[i])
    {
      if i >= 6 { assert l[i] == EncodeToken(attempt)[i - 6]; }
    }
  }

  // A locator is accepted exactly as the attempt it was built from.
  lemma LocatorCanonical(message: string, attempt: DurableId)
    ensures ParseLocator(message) == Some(attempt) <==> message == "m-att_" + EncodeToken(attempt)
    ensures ParseLocator(Locator(attempt)) == Some(attempt)
  {
    var locator := Locator(attempt);
    assert locator[|LOCATOR_PREFIX|..] == EncodeToken(attempt);
    TokenBijection(EncodeToken(attempt), attempt);
  }

  lemma V2Rest(rest: string, message: string, attempt: DurableId)
    ensures ParseV2Rest(rest) == Some((message, attempt)) <==>
      IsMessageId(message) && rest == message + ATTEMPT_MARK + EncodeToken(attempt)
  {
    var token := EncodeToken(attempt);
    if IsMessageId(message) && rest == message + ATTEMPT_MARK + token {
      TokenChars(attempt);
      MessageIdChars(message);
      SplitOnceAt(message, ATTEMPT_MARK, token);
      TokenBijection(token, attempt);
    }
    if ParseV2Rest(rest) == Some((message, attempt)) {
      TokenBijection(SplitOnce(rest, ATTEMPT_MARK).value.1, attempt);
    }
  }

  // THEOREM. Format 2 accepts exactly its own lines: a payload parses as a
  // message id and an attempt exactly when it is their rendering, with or
  // without a trailing newline.
  lemma V2Canonical(payload: string, message: string, attempt: DurableId)
    ensures ParseV2(payload) == Some((message, attempt)) <==>
      IsMessageId(message) && IsLine(payload, "cyclops inbox claim " + message + " #c:" + EncodeToken(attempt))
    ensures IsMessageId(message) ==> ParseV2(RenderV2(message, attempt)) == Some((message, attempt))
  {
    var rest, token := message + ATTEMPT_MARK + EncodeToken(attempt), EncodeToken(attempt);
    TokenChars(attempt);
    assert rest[|rest| - 1] == token[21];
    assert CLAIM + rest == RenderV2(message, attempt);
    ClaimPayload(payload, rest);
    V2Rest(rest, message, attempt);
    if ParseV2(payload) == Some((message, attempt)) {
      V2Rest(StripPrefix(Untrailed(payload), CLAIM).value, message, attempt);
    }
    ClaimPayload(RenderV2(message, attempt), rest);
  }

  lemma V3Text(text: string, attempt: DurableId)
    ensures ParseV3Text(text) == Some(attempt) <==> text == Locator(attempt) || text == Locator(attempt) + JSON_FLAG
  {
    var locator := Locator(attempt);
    LocatorIsMessageId(attempt);
    LocatorCanonical(locator, attempt);
    if text == locator {
      var n := |text| - |JSON_FLAG|;
      assert text[n..][0] == text[n] != JSON_FLAG[0];
    } else if text == locator + JSON_FLAG {
      assert text[|locator|..] == JSON_FLAG;
    }
    if ParseV3Text(text) == Some(attempt) {
      LocatorCanonical(match StripSuffix(text, JSON_FLAG) case Some(bare) => bare case None => text, attempt);
    }
  }

  // THEOREM. Format 3 accepts exactly its own lines: the rendering, with or
  // without the JSON flag and with or without a trailing newline.
  lemma V3Canonical(payload: string, attempt: DurableId)
    ensures ParseV3(payload) == Some(attempt) <==>
      var line := "cyclops inbox claim " + ("m-att_" + EncodeToken(attempt));
      IsLine(payload, line) || IsLine(payload, line + " --json")
    ensures ParseV3(RenderV3(attempt)) == Some(attempt)
  {
    V3Payload(payload, attempt);
    BarePayload(payload, attempt);
    FlaggedPayload(payload, attempt);
    V3Payload(RenderV3(attempt), attempt);
    BarePayload(RenderV3(attempt), attempt);
  }

  lemma BarePayload(payload: string, attempt: DurableId)
    ensures StripPrefix(Untrailed(payload), CLAIM) == Some(Locator(attempt)) <==> IsLine(payload, RenderV3(attempt))
  {
    LocatorIsMessageId(attempt);
    ClaimPayload(payload, Locator(attempt));
  }

  lemma FlaggedPayload(payload: string, attempt: DurableId)
    ensures StripPrefix(Untrailed(payload), CLAIM) == Some(Locator(attempt) + JSON_FLAG)
       <==> IsLine(payload, RenderV3(attempt) + JSON_FLAG)
  {
    EndsInFlag(Locator(attempt));
    ClaimPayload(payload, Locator(attempt) + JSON_FLAG);
    Assoc(CLAIM, Locator(attempt), JSON_FLAG);
  }

  lemma EndsInFlag(text: string)
    ensures var flagged := text + JSON_FLAG; flagged != [] && flagged[|flagged| - 1] != '\n'
  {
    assert (text + JSON_FLAG)[|text| + 6] == JSON_FLAG[6];
  }

  lemma V3Payload(payload: string, attempt: DurableId)
    ensures ParseV3(payload) == Some(attempt) <==>
      || StripPrefix(Untrailed(payload), CLAIM) == Some(Locator(attempt))
      || StripPrefix(Untrailed(payload), CLAIM) == Some(Locator(attempt) + JSON_FLAG)
  {
    var rest := StripPrefix(Untrailed(payload), CLAIM);
    if rest.Some? {
      V3Text(rest.value, attempt);
    }
  }

  // The first space of a format 2 rest is followed by '#', that of a format 3
  // text, if it has one, by '-'.
  lemma SpaceTellsApart(message: string, token: string, locator: string)
    requires forall i :: 0 <= i < |message| ==> IsIdChar(message[i])
    requires forall i :: 0 <= i < |locator| ==> IsIdChar(locator[i])
    ensures message + ATTEMPT_MARK + token != locator
    ensures message + ATTEMPT_MARK + token != locator + JSON_FLAG
  {
    var rest, text := message + ATTEMPT_MARK + token, locator + JSON_FLAG;
    assert rest[|message|] == ' ' && rest[|message| + 1] == '#';
    assert text[|locator|] == ' ' && text[|locator| + 1] == '-';
    if |message| < |locator| {
      assert text[|message|] == locator[|message|] != ' ';
    } else if |message| > |locator| {
      assert rest[|locator|] == message[|locator|] != ' ';
    }
  }

  // THEOREM. No payload is accepted as both formats.
  lemma FormatsDisjoint(payload: string)
    ensures ParseV2(payload).None? || ParseV3(payload).None?
  {
    if ParseV2(payload).Some? && ParseV3(payload).Some? {
      var rest := StripPrefix(Untrailed(payload), CLAIM).value;
      var (message, a) := ParseV2Rest(rest).value;
      var b := ParseV3Text(rest).value;
      V2Rest(rest, message, a);
      V3Text(rest, b);
      MessageIdChars(message);
      LocatorIsMessageId(b);
      SpaceTellsApart(message, EncodeToken(a), Locator(b));
    }
  }

  // THEOREM. The locator namespace is reserved: no locator is a minted
  // `cyc-` id or a legacy id of `m-` and 32 hex characters.
  lemma LocatorReserved(attempt: DurableId, value: string)
    requires "cyc-" <= value || (|value| == 34 && "m-" <= value && forall i :: 2 <= i < 34 ==> IsLowerHex(value[i]))
    ensures value != Locator(attempt)
  {
    assert Locator(attempt)[0] == 'm' && |Locator(attempt)| == 28;
  }
}
