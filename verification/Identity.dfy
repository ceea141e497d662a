/** Durable identities and their one textual form (`cyclops-proto` identity). */
module Identity {
  import opened Wrappers
  import opened Text

  // ---------------------------------------------------------------------
  // Decimal numbers and tmux ids
  // ---------------------------------------------------------------------

  predicate AllDigits(s: string) {
    forall i :: 0 <= i < |s| ==> IsDigit(s[i])
  }

  function DigitChar(d: nat): char
    requires d < 10
  {
    ('0' as int + d) as char
  }

  // How the source prints a `u64`.
  function Decimal(n: nat): (s: string)
    ensures s != [] && AllDigits(s)
    ensures s[0] == '0' ==> n == 0 && |s| == 1
  {
    if n < 10 then [DigitChar(n)] else Decimal(n / 10) + [DigitChar(n % 10)]
  }

  // The number a run of digits denotes, however many leading zeros it has.
  function DigitsValue(s: string): nat
    requires AllDigits(s)
  {
    if s == [] then 0 else 10 * DigitsValue(s[..|s| - 1]) + (s[|s| - 1] as int - '0' as int)
  }

  lemma {:induction false} DecimalValue(n: nat)
    ensures DigitsValue(Decimal(n)) == n
  {
    if n >= 10 {
      DecimalValue(n / 10);
      var s := Decimal(n);
      assert s[..|s| - 1] == Decimal(n / 10);
    } else {
      assert Decimal(n)[..0] == [];
    }
  }

  function ParseTmuxId(value: string, sigil: char): Option<nat> {
    match StripPrefix(value, [sigil])
    case None => None
    case Some(digits) =>
      if digits == [] || !AllDigits(digits) then None
      else
        var number := DigitsValue(digits);
        if number > MAX_U64 || [sigil] + Decimal(number) != value then None else Some(number)
  }

  function DisplayTmuxId(sigil: char, number: nat): (s: string)
    ensures sigil != '/' ==> '/' !in s
  {
    [sigil] + Decimal(number)
  }

  // A tmux id has exactly one text: the parser accepts a string exactly when
  // it is the display of a 64-bit number, and returns that number.
  lemma TmuxIdCanonical(value: string, sigil: char, n: nat)
    ensures ParseTmuxId(value, sigil) == Some(n) <==> n <= MAX_U64 && value == DisplayTmuxId(sigil, n)
  {
    if value == DisplayTmuxId(sigil, n) {
      assert value[1..] == Decimal(n);
      DecimalValue(n);
    }
  }

  // Digits without a leading zero are how their number is printed.
  lemma {:induction false} DecimalUnique(digits: string)
    requires digits != [] && AllDigits(digits) && (digits[0] == '0' ==> |digits| == 1)
    ensures Decimal(DigitsValue(digits)) == digits
    decreases |digits|
  {
    var front, last := digits[..|digits| - 1], digits[|digits| - 1];
    assert digits == front + [last];
    if front == [] {
      assert DigitsValue(front) == 0;
    } else {
      DecimalUnique(front);
      PositiveValue(front);
    }
  }

  lemma {:induction false} PositiveValue(digits: string)
    requires digits != [] && AllDigits(digits) && digits[0] != '0'
    ensures DigitsValue(digits) > 0
    decreases |digits|
  {
    if |digits| > 1 {
      PositiveValue(digits[..|digits| - 1]);
    }
  }

  // THEOREM. The ids accepted are the sigil and a decimal number of 64 bits with
  // no leading zero.
  lemma TmuxIdExactly(value: string, sigil: char, n: nat)
    ensures ParseTmuxId(value, sigil) == Some(n) <==>
      && n <= 0xFFFF_FFFF_FFFF_FFFF && |value| >= 2 && value[0] == sigil
      && (forall i :: 1 <= i < |value| ==> '0' <= value[i] <= '9')
      && (value[1] == '0' ==> |value| == 2)
      && AllDigits(value[1..]) && DigitsValue(value[1..]) == n
  {
    TmuxIdCanonical(value, sigil, n);
    DecimalValue(n);
    var shown := DisplayTmuxId(sigil, n);
    assert shown[1..] == Decimal(n) && shown[1] == Decimal(n)[0];
    assert forall i :: 1 <= i < |shown| ==> shown[i] == Decimal(n)[i - 1];
    if |value| >= 2 && AllDigits(value[1..]) && (value[1] == '0' ==> |value| == 2) {
      DecimalUnique(value[1..]);
      assert value == [value[0]] + value[1..];
    }
  }

  // Leading zeros and numbers beyond 64 bits are refused.
  lemma TmuxIdRefusals(digits: string, sigil: char)
    requires digits != [] && AllDigits(digits)
    requires (|digits| > 1 && digits[0] == '0') || DigitsValue(digits) > MAX_U64
    ensures ParseTmuxId([sigil] + digits, sigil) == None
  {
    assert ([sigil] + digits)[1..] == digits;
    var n := DigitsValue(digits);
    assert ([sigil] + Decimal(n))[1..] == Decimal(n);
  }

  // ---------------------------------------------------------------------
  // UUIDs
  // ---------------------------------------------------------------------

  const NIL: Bytes := [0, 0, 0, 0, 0, 0, 0, 0, 0, 0, 0, 0, 0, 0, 0, 0]

  type Uuid = bytes: Bytes | |bytes| == 16 witness [0, 0, 0, 0, 0, 0, 0, 0, 0, 0, 0, 0, 0, 0, 0, 0]

  // The durable ids are the non-nil UUIDs.
  type DurableId = id: Uuid | id != NIL witness [1, 0, 0, 0, 0, 0, 0, 0, 0, 0, 0, 0, 0, 0, 0, 0]

  function HexDigit(d: nat): char
    requires d < 16
    ensures IsLowerHex(HexDigit(d))
  {
    if d < 10 then ('0' as int + d) as char else ('a' as int + d - 10) as char
  }

  function Hex(bytes: Bytes): (s: string)
    ensures |s| == 2 * |bytes| && forall i :: 0 <= i < |s| ==> IsLowerHex(s[i])
  {
    if bytes == [] then [] else [HexDigit(bytes[0] / 16), HexDigit(bytes[0] % 16)] + Hex(bytes[1..])
  }

  // The canonical 8-4-4-4-12 text.
  function Hyphenated(id: Uuid): (s: string)
    ensures |s| == 36 && '/' !in s
  {
    Hex(id[..4]) + "-" + Hex(id[4..6]) + "-" + Hex(id[6..8]) + "-" + Hex(id[8..10]) + "-" + Hex(id[10..])
  }

  lemma {:induction false} HexInjective(a: Bytes, b: Bytes)
    requires Hex(a) == Hex(b)
    ensures a == b
  {
    if a != [] {
      var s := Hex(a);
      assert s[0] == HexDigit(a[0] / 16) == HexDigit(b[0] / 16) && s[1] == HexDigit(a[0] % 16) == HexDigit(b[0] % 16);
      assert s[2..] == Hex(a[1..]) && s[2..] == Hex(b[1..]);
      HexInjective(a[1..], b[1..]);
      assert a == [a[0]] + a[1..] && b == [b[0]] + b[1..];
    }
  }

  lemma HyphenatedFields(id: Uuid)
    ensures var s := Hyphenated(id);
      && s[..8] == Hex(id[..4]) && s[9..13] == Hex(id[4..6]) && s[14..18] == Hex(id[6..8])
      && s[19..23] == Hex(id[8..10]) && s[24..] == Hex(id[10..])
  {
  }

  // Two lower-case hex characters a byte, high half first.
  lemma {:induction false} HexAt(bytes: Bytes, i: nat)
    requires i < |bytes|
    ensures var digits := "0123456789abcdef";
      Hex(bytes)[2 * i] == digits[bytes[i] / 16] && Hex(bytes)[2 * i + 1] == digits[bytes[i] % 16]
  {
    if i > 0 {
      HexAt(bytes[1..], i - 1);
    }
  }

  lemma HyphensAt(id: Uuid)
    ensures var s := Hyphenated(id); s[8] == '-' && s[13] == '-' && s[18] == '-' && s[23] == '-'
  {
  }

  // Two ids never share a text.
  lemma HyphenatedInjective(a: Uuid, b: Uuid)
    requires Hyphenated(a) == Hyphenated(b)
    ensures a == b
  {
    HyphenatedFields(a);
    HyphenatedFields(b);
    HexInjective(a[..4], b[..4]);
    HexInjective(a[4..6], b[4..6]);
    HexInjective(a[6..8], b[6..8]);
    HexInjective(a[8..10], b[8..10]);
    HexInjective(a[10..], b[10..]);
    FiveSlices(a);
    FiveSlices(b);
  }

  lemma FiveSlices(id: Uuid)
    ensures id == id[..4] + id[4..6] + id[6..8] + id[8..10] + id[10..]
  {
  }

  // So a parser that reads canonical text back exists.
  lemma CanonicalReaderExists()
    ensures exists parseUuid :: ReadsCanonical(parseUuid)
  {
    var reader: string -> Option<Uuid> := s => if exists id: Uuid :: Hyphenated(id) == s then Some(ReadBack(s)) else None;
    forall id: Uuid
      ensures reader(Hyphenated(id)) == Some(id)
    {
      HyphenatedInjective(id, ReadBack(Hyphenated(id)));
    }
    assert ReadsCanonical(reader);
  }

  ghost function ReadBack(s: string): (id: Uuid)
    requires exists id: Uuid :: Hyphenated(id) == s
    ensures Hyphenated(id) == s
  {
    var id: Uuid :| Hyphenated(id) == s;
    id
  }

  // The UUID library's parser takes several spellings; all that is asked of
  // it is that it reads canonical text back.
  ghost predicate ReadsCanonical(parseUuid: string -> Option<Uuid>) {
    forall id: Uuid :: parseUuid(Hyphenated(id)) == Some(id)
  }

  function ParseDurableId(value: string, parseUuid: string -> Option<Uuid>): Option<DurableId> {
    match parseUuid(value)
    case None => None
    case Some(id) => if id == NIL || Hyphenated(id) != value then None else Some(id)
  }

  lemma DurableIdCanonical(value: string, parseUuid: string -> Option<Uuid>, id: DurableId)
    requires ReadsCanonical(parseUuid)
    ensures ParseDurableId(value, parseUuid) == Some(id) <==> value == Hyphenated(id)
  {
  }

  // ---------------------------------------------------------------------
  // Recipient keys
  // ---------------------------------------------------------------------

  type PaneNumber = n: nat | n <= MAX_U64

  datatype Recipient = Admin | Agent(session: DurableId, pane: PaneNumber) | Headless(instance: DurableId)

  datatype RecipientKey = RecipientKey(workspace: DurableId, recipient: Recipient)

  function Kind(key: RecipientKey): string {
    match key.recipient
    case Admin => "admin:"
    case Agent(_, _) => "agent:"
    case Headless(_) => "headless:"
  }

  // The slash-separated fields after the kind.
  function Fields(key: RecipientKey): (fields: seq<string>)
    ensures 1 <= |fields| <= 3
  {
    var workspace := Hyphenated(key.workspace);
    match key.recipient
    case Admin => [workspace]
    case Agent(session, pane) => [workspace, Hyphenated(session), DisplayTmuxId('%', pane)]
    case Headless(instance) => [workspace, Hyphenated(instance)]
  }

  function Display(key: RecipientKey): string {
    Kind(key) + Join(Fields(key), '/')
  }

  lemma DisplayExactly(key: RecipientKey)
    ensures Display(key) == match key.recipient
      case Admin => "admin:" + Hyphenated(key.workspace)
      case Agent(session, pane) =>
        "agent:" + (Hyphenated(key.workspace) + "/" + (Hyphenated(session) + "/" + DisplayTmuxId('%', pane)))
      case Headless(instance) => "headless:" + (Hyphenated(key.workspace) + "/" + Hyphenated(instance))
  {
    var fields := Fields(key);
    assert |fields| > 1 ==> Join(fields, '/') == fields[0] + ['/'] + Join(fields[1..], '/');
    assert |fields| == 3 ==> Join(fields[1..], '/') == fields[1] + ['/'] + Join(fields[1..][1..], '/');
  }

  function Parse(value: string, parseUuid: string -> Option<Uuid>): Option<RecipientKey> {
    match StripPrefix(value, "admin:")
    case Some(rest) => ParseAdmin(rest, parseUuid)
    case None =>
      match StripPrefix(value, "headless:")
      case Some(rest) => ParseHeadless(Split(rest, '/'), parseUuid)
      case None =>
        match StripPrefix(value, "agent:")
        case Some(rest) => ParseAgent(Split(rest, '/'), parseUuid)
        case None => None
  }

  function ParseAdmin(rest: string, parseUuid: string -> Option<Uuid>): Option<RecipientKey> {
    match ParseDurableId(rest, parseUuid)
    case Some(workspace) => Some(RecipientKey(workspace, Admin))
    case None => None
  }

  function ParseHeadless(parts: seq<string>, parseUuid: string -> Option<Uuid>): Option<RecipientKey> {
    if |parts| != 2 then None
    else match (ParseDurableId(parts[0], parseUuid), ParseDurableId(parts[1], parseUuid))
      case (Some(workspace), Some(instance)) => Some(RecipientKey(workspace, Headless(instance)))
      case _ => None
  }

  function ParseAgent(parts: seq<string>, parseUuid: string -> Option<Uuid>): Option<RecipientKey> {
    if |parts| != 3 then None
    else match (ParseDurableId(parts[0], parseUuid), ParseDurableId(parts[1], parseUuid), ParseTmuxId(parts[2], '%'))
      case (Some(workspace), Some(session), Some(pane)) =>
        TmuxIdCanonical(parts[2], '%', pane);
        Some(RecipientKey(workspace, Agent(session, pane)))
      case _ => None
  }

  lemma {:induction false} SplitJoin(parts: seq<string>, sep: char)
    requires parts != [] && forall i :: 0 <= i < |parts| ==> sep !in parts[i]
    ensures Split(Join(parts, sep), sep) == parts
    decreases |parts|
  {
    if |parts| == 1 {
      SplitSingle(parts[0], sep);
    } else {
      SplitJoin(parts[1..], sep);
      SplitCons(parts[0], Join(parts[1..], sep), sep);
      assert parts == [parts[0]] + parts[1..];
    }
  }

  // The kinds are told apart before the fields are read.
  lemma ParseByKind(key: RecipientKey, rest: string, parseUuid: string -> Option<Uuid>)
    ensures Parse(Kind(key) + rest, parseUuid) == match key.recipient
      case Admin => ParseAdmin(rest, parseUuid)
      case Headless(_) => ParseHeadless(Split(rest, '/'), parseUuid)
      case Agent(_, _) => ParseAgent(Split(rest, '/'), parseUuid)
  {
    match key.recipient
    case Admin => StripOwnPrefix("admin:", rest);
    case Headless(_) =>
      StripOwnPrefix("headless:", rest);
      StripOtherPrefix("headless:", rest, "admin:", 0);
    case Agent(_, _) =>
      StripOwnPrefix("agent:", rest);
      StripOtherPrefix("agent:", rest, "admin:", 1);
      StripOtherPrefix("agent:", rest, "headless:", 0);
  }

  lemma StripOwnPrefix(p: string, rest: string)
    ensures StripPrefix(p + rest, p) == Some(rest)
  {
  }

  lemma StripOtherPrefix(p: string, rest: string, q: string, i: nat)
    requires i < |p| && i < |q| && p[i] != q[i]
    ensures StripPrefix(p + rest, q) == None
  {
    assert (p + rest)[i] == p[i];
  }

  // THEOREM. A recipient key has exactly one text: a string is accepted
  // exactly when it is the display of the key it is accepted as.
  lemma RecipientKeyCanonical(value: string, parseUuid: string -> Option<Uuid>, key: RecipientKey)
    requires ReadsCanonical(parseUuid)
    ensures Parse(value, parseUuid) == Some(key) <==> value == Display(key)
  {
    if value == Display(key) {
      ParseDisplay(parseUuid, key);
    }
    if Parse(value, parseUuid) == Some(key) {
      DisplayParse(value, parseUuid, key);
    }
  }

  lemma FieldsSlashFree(key: RecipientKey, i: nat)
    requires i < |Fields(key)|
    ensures '/' !in Fields(key)[i]
  {
  }

  lemma ParseDisplay(parseUuid: string -> Option<Uuid>, key: RecipientKey)
    requires ReadsCanonical(parseUuid)
    ensures Parse(Display(key), parseUuid) == Some(key)
  {
    forall i | 0 <= i < |Fields(key)|
      ensures '/' !in Fields(key)[i]
    {
      FieldsSlashFree(key, i);
    }
    SplitJoin(Fields(key), '/');
    ParseByKind(key, Join(Fields(key), '/'), parseUuid);
    match key.recipient
    case Admin =>
    case Headless(_) => HeadlessFields(parseUuid, key);
    case Agent(_, _) => AgentFields(parseUuid, key);
  }

  lemma HeadlessFields(parseUuid: string -> Option<Uuid>, key: RecipientKey)
    requires ReadsCanonical(parseUuid) && key.recipient.Headless?
    ensures ParseHeadless(Fields(key), parseUuid) == Some(key)
  {
    DurableIdCanonical(Fields(key)[0], parseUuid, key.workspace);
    DurableIdCanonical(Fields(key)[1], parseUuid, key.recipient.instance);
  }

  lemma AgentFields(parseUuid: string -> Option<Uuid>, key: RecipientKey)
    requires ReadsCanonical(parseUuid) && key.recipient.Agent?
    ensures ParseAgent(Fields(key), parseUuid) == Some(key)
  {
    DurableIdCanonical(Fields(key)[0], parseUuid, key.workspace);
    DurableIdCanonical(Fields(key)[1], parseUuid, key.recipient.session);
    TmuxIdCanonical(Fields(key)[2], '%', key.recipient.pane);
  }

  lemma DisplayParse(value: string, parseUuid: string -> Option<Uuid>, key: RecipientKey)
    requires Parse(value, parseUuid) == Some(key)
    ensures Display(key) == value
  {
    assert StripPrefix(value, Kind(key)).Some?;
    var rest := StripPrefix(value, Kind(key)).value;
    ParseByKind(key, rest, parseUuid);
    match key.recipient
    case Admin =>
    case Headless(_) => FieldsOfHeadless(Split(rest, '/'), parseUuid, key);
    case Agent(_, _) => FieldsOfAgent(Split(rest, '/'), parseUuid, key);
  }

  lemma FieldsOfHeadless(parts: seq<string>, parseUuid: string -> Option<Uuid>, key: RecipientKey)
    requires ParseHeadless(parts, parseUuid) == Some(key)
    ensures parts == Fields(key)
  {
  }

  lemma FieldsOfAgent(parts: seq<string>, parseUuid: string -> Option<Uuid>, key: RecipientKey)
    requires ParseAgent(parts, parseUuid) == Some(key)
    ensures parts == Fields(key)
  {
    TmuxIdCanonical(parts[2], '%', key.recipient.pane);
  }
}
