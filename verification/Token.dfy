/**
 * The 22-character attempt token: base64url (section 5 of RFC 4648) of the 16
 * bytes of an attempt id, without padding characters and with the pad bits of
 * the last character zero (section 3.5). Bytes and six-bit values are numbers,
 * so a shift is a multiplication or division and joining disjoint bit fields
 * is an addition.
 */
module Token {
  import opened Wrappers
  import opened Identity
  import opened Seqs

  // `count` consecutive characters from `first`.
  function CharRange(first: char, count: nat): string
    requires first as int + count <= 128
  {
    seq(count, i requires 0 <= i < count => (first as int + i) as char)
  }

  // A..Z, a..z, 0..9, '-', '_'.
  const ALPHABET: string := CharRange('A', 26) + CharRange('a', 26) + CharRange('0', 10) + ['-', '_']

  type Sextet = v: int | 0 <= v < 64

  function EncodeCharacter(v: Sextet): char {
    ALPHABET[v]
  }

  function DecodeCharacter(c: char): (v: Option<Sextet>)
  {
    if 'A' <= c <= 'Z' then Some(c as int - 'A' as int)
    else if 'a' <= c <= 'z' then Some(c as int - 'a' as int + 26)
    else if '0' <= c <= '9' then Some(c as int - '0' as int + 52)
    else if c == '-' then Some(62)
    else if c == '_' then Some(63)
    else None
  }

  // The URL-safe alphabet of RFC 4648, section 5.
  lemma AlphabetExactly(v: Sextet)
    ensures EncodeCharacter(v) as int ==
      if v < 26 then 'A' as int + v
      else if v < 52 then 'a' as int + (v - 26)
      else if v < 62 then '0' as int + (v - 52)
      else if v == 62 then '-' as int else '_' as int
  {
  }

  // The alphabet and the character table are inverse to each other.
  lemma CharacterBijection(v: Sextet, c: char)
    ensures DecodeCharacter(c) == Some(v) <==> c == EncodeCharacter(v)
  {
  }

  // ---------------------------------------------------------------------
  // Three bytes as four six-bit values, and back
  // ---------------------------------------------------------------------

  function Quad(a: byte, b: byte, c: byte): seq<Sextet> {
    [a / 4, (a % 4) * 16 + b / 16, (b % 16) * 4 + c / 64, c % 64]
  }

  // A left shift of a `u8` loses the high bits.
  function Triple(v: Sextet, w: Sextet, x: Sextet, y: Sextet): Bytes {
    [(v * 4) % 256 + w / 16, (w * 16) % 256 + x / 4, (x * 64) % 256 + y]
  }

  // A number made of two bit fields splits into them again.
  lemma SplitFields(high: nat, low: nat)
    ensures low < 4 ==> (high * 4 + low) / 4 == high && (high * 4 + low) % 4 == low
    ensures low < 16 ==> (high * 16 + low) / 16 == high && (high * 16 + low) % 16 == low
    ensures low < 64 ==> (high * 64 + low) / 64 == high && (high * 64 + low) % 64 == low
    ensures low < 256 ==> (high * 256 + low) % 256 == low
  {
  }

  // A shift of a `u8` keeps the low bits.
  lemma ShiftKeepsLow(w: Sextet)
    ensures (w * 16) % 256 == (w % 16) * 16 && (w * 64) % 256 == (w % 4) * 64
  {
    SplitFields(w / 16, (w % 16) * 16);
    SplitFields(w / 4, (w % 4) * 64);
  }

  lemma QuadTriple(a: byte, b: byte, c: byte)
    ensures var q := Quad(a, b, c); Triple(q[0], q[1], q[2], q[3]) == [a, b, c]
  {
    var q := Quad(a, b, c);
    SplitFields(a % 4, b / 16);
    SplitFields(b % 16, c / 64);
    ShiftKeepsLow(q[1]);
    ShiftKeepsLow(q[2]);
    assert q[1] / 16 == a % 4 && q[1] % 16 == b / 16 && q[2] / 4 == b % 16 && q[2] % 4 == c / 64;
  }

  lemma TripleQuad(v: Sextet, w: Sextet, x: Sextet, y: Sextet)
    ensures var t := Triple(v, w, x, y); Quad(t[0], t[1], t[2]) == [v, w, x, y]
  {
    var t := Triple(v, w, x, y);
    ShiftKeepsLow(w);
    ShiftKeepsLow(x);
    SplitFields(v, w / 16);
    SplitFields(w % 16, x / 4);
    SplitFields(x % 4, y);
    assert t[0] / 4 == v && t[0] % 4 == w / 16 && t[1] / 16 == w % 16 && t[1] % 16 == x / 4;
    assert t[2] / 64 == x % 4 && t[2] % 64 == y;
  }

  // The sixteenth byte: six bits and the two that are not padding.
  function LastByte(v: Sextet, w: Sextet): byte {
    var high: int := v;
    (high * 4) % 256 + w / 16
  }

  // `k` groups of three bytes as `k` groups of four six-bit values, and back.
  function ToSextets(bytes: Bytes, k: nat): (values: seq<Sextet>)
    requires |bytes| == 3 * k
    ensures |values| == 4 * k
  {
    if k == 0 then []
    else
      var n := 3 * k - 3;
      ToSextets(bytes[..n], k - 1) + Quad(bytes[n], bytes[n + 1], bytes[n + 2])
  }

  function FromSextets(values: seq<Sextet>, k: nat): (bytes: Bytes)
    requires |values| == 4 * k
    ensures |bytes| == 3 * k
  {
    if k == 0 then []
    else
      var n := 4 * k - 4;
      FromSextets(values[..n], k - 1) + Triple(values[n], values[n + 1], values[n + 2], values[n + 3])
  }

  lemma ToStep(front: Bytes, k: nat, t: Bytes)
    requires |front| == 3 * k && |t| == 3
    ensures ToSextets(front + t, k + 1) == ToSextets(front, k) + Quad(t[0], t[1], t[2])
  {
    assert (front + t)[..3 * k] == front;
  }

  lemma FromStep(front: seq<Sextet>, k: nat, q: seq<Sextet>)
    requires |front| == 4 * k && |q| == 4
    ensures FromSextets(front + q, k + 1) == FromSextets(front, k) + Triple(q[0], q[1], q[2], q[3])
  {
    assert (front + q)[..4 * k] == front;
  }

  lemma FromToOneMore(front: Bytes, k: nat, t: Bytes)
    requires |front| == 3 * k && |t| == 3
    requires FromSextets(ToSextets(front, k), k) == front
    ensures FromSextets(ToSextets(front + t, k + 1), k + 1) == front + t
  {
    var q := Quad(t[0], t[1], t[2]);
    ToStep(front, k, t);
    FromStep(ToSextets(front, k), k, q);
    QuadTriple(t[0], t[1], t[2]);
    Three(t);
  }

  lemma ToFromOneMore(front: seq<Sextet>, k: nat, q: seq<Sextet>)
    requires |front| == 4 * k && |q| == 4
    requires ToSextets(FromSextets(front, k), k) == front
    ensures ToSextets(FromSextets(front + q, k + 1), k + 1) == front + q
  {
    var t := Triple(q[0], q[1], q[2], q[3]);
    FromStep(front, k, q);
    ToStep(FromSextets(front, k), k, t);
    TripleQuad(q[0], q[1], q[2], q[3]);
    Four(q);
  }

  lemma {:induction false} FromToSextets(bytes: Bytes, k: nat)
    requires |bytes| == 3 * k
    ensures FromSextets(ToSextets(bytes, k), k) == bytes
  {
    if k > 0 {
      FromToSextets(bytes[..3 * k - 3], k - 1);
      FromToOneMore(bytes[..3 * k - 3], k - 1, bytes[3 * k - 3..]);
      SplitAt(bytes, 3 * k - 3);
    }
  }

  lemma {:induction false} ToFromSextets(values: seq<Sextet>, k: nat)
    requires |values| == 4 * k
    ensures ToSextets(FromSextets(values, k), k) == values
  {
    if k > 0 {
      ToFromSextets(values[..4 * k - 4], k - 1);
      ToFromOneMore(values[..4 * k - 4], k - 1, values[4 * k - 4..]);
      SplitAt(values, 4 * k - 4);
    }
  }

  // ---------------------------------------------------------------------
  // The token
  // ---------------------------------------------------------------------

  // The 22 six-bit values of an id: fifteen bytes in threes, then the last
  // byte with four zero pad bits.
  function Values(id: Uuid): (values: seq<Sextet>)
    ensures |values| == 22
  {
    ToSextets(id[..15], 5) + [id[15] / 4, (id[15] % 4) * 16]
  }

  function Spell(values: seq<Sextet>): (s: string)
    ensures |s| == |values| && forall i :: 0 <= i < |s| ==> s[i] == EncodeCharacter(values[i])
  {
    seq(|values|, i requires 0 <= i < |values| => EncodeCharacter(values[i]))
  }

  function EncodeToken(id: Uuid): (s: string)
    ensures |s| == 22
  {
    Spell(Values(id))
  }

  method NotificationAttemptToken(id: Uuid) returns (encoded: string)
    ensures encoded == EncodeToken(id)
  {
    encoded := "";
    for chunk := 0 to 5
      invariant encoded == Spell(ToSextets(id[..3 * chunk], chunk))
    {
      var a, b, c := id[3 * chunk], id[3 * chunk + 1], id[3 * chunk + 2];
      assert id[..3 * chunk + 3][..3 * chunk] == id[..3 * chunk];
      var q := Quad(a, b, c);
      encoded := encoded + [ALPHABET[q[0]], ALPHABET[q[1]], ALPHABET[q[2]], ALPHABET[q[3]]];
    }
    var last := id[15];
    encoded := encoded + [ALPHABET[last / 4]];
    encoded := encoded + [ALPHABET[(last % 4) * 16]];
  }

  // Every character decoded, or none.
  function ReadValues(s: string): (values: Option<seq<Sextet>>)
    ensures values.Some? ==> |values.value| == |s| && Spell(values.value) == s
    ensures values.None? ==> exists i :: 0 <= i < |s| && DecodeCharacter(s[i]).None?
  {
    if s == [] then Some([])
    else
      var n := |s| - 1;
      match (ReadValues(s[..n]), DecodeCharacter(s[n]))
      case (Some(before), Some(v)) =>
        CharacterBijection(v, s[n]);
        Some(before + [v])
      case _ => None
  }

  // What the sixteen bytes are built from.
  function Built(values: seq<Sextet>): (bytes: Bytes)
    requires |values| == 22
    ensures |bytes| == 16
  {
    FromSextets(values[..20], 5) + [LastByte(values[20], values[21])]
  }

  // The bytes a token denotes, before the final re-encode check.
  function Denoted(s: string): (bytes: Option<Bytes>)
    ensures bytes.Some? ==> |bytes.value| == 16
  {
    if |s| != 22 || exists i :: 0 <= i < |s| && s[i] as int >= 128 then None
    else match ReadValues(s)
      case None => None
      case Some(values) =>
        if values[21] % 16 != 0 then None
        else Some(Built(values))
  }

  function ParseToken(s: string): Option<DurableId> {
    match Denoted(s)
    case None => None
    case Some(bytes) => if bytes != NIL && EncodeToken(bytes) == s then Some(bytes) else None
  }

  method ParseNotificationAttemptToken(encoded: string) returns (r: Option<DurableId>)
    ensures r == ParseToken(encoded)
  {
    if |encoded| != 22 || exists i :: 0 <= i < |encoded| && encoded[i] as int >= 128 { return None; }
    var read := ReadValues(encoded);
    if read.None? { return None; }
    var values := read.value;
    if values[21] % 16 != 0 { return None; }
    var bytes := FillBytes(values);
    if bytes == NIL { return None; }
    var again := NotificationAttemptToken(bytes);
    if again != encoded { return None; }
    return Some(bytes);
  }

  // Fill the sixteen bytes from the six-bit values, three from every four.
  method FillBytes(values: seq<Sextet>) returns (filled: Bytes)
    requires |values| == 22
    ensures filled == Built(values)
  {
    var bytes := new byte[16];
    for chunk := 0 to 5
      invariant bytes[..3 * chunk] == FromSextets(values[..4 * chunk], chunk)
    {
      var q := values[4 * chunk..4 * chunk + 4];
      assert values[..4 * chunk + 4] == values[..4 * chunk] + q;
      FromStep(values[..4 * chunk], chunk, q);
      WriteThree(bytes, 3 * chunk, Triple(q[0], q[1], q[2], q[3]));
    }
    ghost var first := bytes[..15];
    bytes[15] := LastByte(values[20], values[21]);
    assert bytes[..15] == first;
    return bytes[..15] + [bytes[15]];
  }

  method WriteThree(bytes: array<byte>, at: nat, three: Bytes)
    requires at + 3 <= bytes.Length && |three| == 3
    modifies bytes
    ensures bytes[..at + 3] == old(bytes[..at]) + three
  {
    bytes[at], bytes[at + 1], bytes[at + 2] := three[0], three[1], three[2];
  }

  lemma {:induction false} ReadSpelled(values: seq<Sextet>)
    ensures ReadValues(Spell(values)) == Some(values)
  {
    if values != [] {
      var n := |values| - 1;
      ReadSpelled(values[..n]);
      assert Spell(values)[..n] == Spell(values[..n]);
      CharacterBijection(values[n], Spell(values)[n]);
      assert values == values[..n] + [values[n]];
    }
  }

  lemma DenotedSpelled(values: seq<Sextet>)
    requires |values| == 22 && values[21] % 16 == 0
    ensures Denoted(Spell(values)) == Some(Built(values))
  {
    ReadSpelled(values);
    forall i | 0 <= i < 22
      ensures Spell(values)[i] as int < 128
    {
      CharacterBijection(values[i], Spell(values)[i]);
    }
  }

  lemma BuiltFromId(id: Uuid)
    ensures Values(id)[21] % 16 == 0 && Built(Values(id)) == id
  {
    FromToSextets(id[..15], 5);
    assert Values(id)[..20] == ToSextets(id[..15], 5);
    LastValues(id[15]);
    assert id == id[..15] + [id[15]];
  }

  lemma LastValues(last: byte)
    ensures ((last % 4) * 16) % 16 == 0 && LastByte(last / 4, (last % 4) * 16) == last
  {
    SplitFields(last % 4, 0);
  }

  lemma DenotedEncoded(id: Uuid)
    ensures Denoted(EncodeToken(id)) == Some(id)
  {
    BuiltFromId(id);
    DenotedSpelled(Values(id));
  }

  // With clear pad bits, the bytes built from 22 values have those values.
  lemma ValuesOfBuilt(values: seq<Sextet>)
    requires |values| == 22 && values[21] % 16 == 0
    ensures Values(Built(values)) == values
  {
    var first, last := FromSextets(values[..20], 5), LastByte(values[20], values[21]);
    ToFromSextets(values[..20], 5);
    LastByteSplits(values[20], values[21]);
    var id := first + [last];
    assert id[..15] == first && id[15] == last;
    assert values == values[..20] + [values[20], values[21]];
  }

  lemma LastByteSplits(v: Sextet, w: Sextet)
    requires w % 16 == 0
    ensures LastByte(v, w) / 4 == v && (LastByte(v, w) % 4) * 16 == w
  {
    SplitFields(v, w / 16);
  }

  // THEOREM. The re-encode check never rejects what the pad-bit check let
  // through: a token that denotes sixteen bytes is their encoding.
  lemma RecheckNeverRejects(s: string)
    requires Denoted(s).Some?
    ensures EncodeToken(Denoted(s).value) == s
  {
    ValuesOfBuilt(ReadValues(s).value);
  }

  // THEOREM. The token is a bijection between non-nil ids and accepted
  // strings: a string is accepted as an id exactly when it is its token.
  lemma TokenBijection(s: string, id: DurableId)
    ensures ParseToken(s) == Some(id) <==> s == EncodeToken(id)
  {
    if s == EncodeToken(id) {
      DenotedEncoded(id);
    }
  }

  // ---------------------------------------------------------------------
  // What the characters mean
  // ---------------------------------------------------------------------

  // A big-endian positional number.
  function Number(digits: seq<nat>, base: nat): nat {
    if digits == [] then 0 else base * Number(digits[..|digits| - 1], base) + digits[|digits| - 1]
  }

  lemma NumberSnoc(digits: seq<nat>, d: nat, base: nat)
    ensures Number(digits + [d], base) == base * Number(digits, base) + d
  {
    assert (digits + [d])[..|digits|] == digits;
  }

  lemma NumberAppend4(digits: seq<nat>, a: nat, b: nat, c: nat, d: nat)
    ensures Number(digits + [a, b, c, d], 64) == 16777216 * Number(digits, 64) + 262144 * a + 4096 * b + 64 * c + d
  {
    NumberSnoc(digits, a, 64);
    NumberSnoc(digits + [a], b, 64);
    NumberSnoc(digits + [a] + [b], c, 64);
    NumberSnoc(digits + [a] + [b] + [c], d, 64);
    assert digits + [a] + [b] + [c] + [d] == digits + [a, b, c, d];
  }

  lemma NumberAppend3(digits: seq<nat>, a: nat, b: nat, c: nat)
    ensures Number(digits + [a, b, c], 256) == 16777216 * Number(digits, 256) + 65536 * a + 256 * b + c
  {
    NumberSnoc(digits, a, 256);
    NumberSnoc(digits + [a], b, 256);
    NumberSnoc(digits + [a] + [b], c, 256);
    assert digits + [a] + [b] + [c] == digits + [a, b, c];
  }

  lemma QuadNumber(a: nat, b: nat, c: nat)
    ensures 262144 * (a / 4) + 4096 * ((a % 4) * 16 + b / 16) + 64 * ((b % 16) * 4 + c / 64) + c % 64
         == 65536 * a + 256 * b + c
  {
  }

  lemma SameNumberOneMore(front: Bytes, k: nat, t: Bytes)
    requires |front| == 3 * k && |t| == 3
    requires Number(ToSextets(front, k), 64) == Number(front, 256)
    ensures Number(ToSextets(front + t, k + 1), 64) == Number(front + t, 256)
  {
    var q := Quad(t[0], t[1], t[2]);
    ToStep(front, k, t);
    Three(t);
    Four(q);
    NumberAppend4(ToSextets(front, k), q[0], q[1], q[2], q[3]);
    NumberAppend3(front, t[0], t[1], t[2]);
    QuadNumber(t[0], t[1], t[2]);
  }

  lemma {:induction false} SextetsSameNumber(bytes: Bytes, k: nat)
    requires |bytes| == 3 * k
    ensures Number(ToSextets(bytes, k), 64) == Number(bytes, 256)
  {
    if k > 0 {
      SextetsSameNumber(bytes[..3 * k - 3], k - 1);
      SameNumberOneMore(bytes[..3 * k - 3], k - 1, bytes[3 * k - 3..]);
      SplitAt(bytes, 3 * k - 3);
    }
  }

  // THEOREM. Read as a base-64 number the token is the 128-bit id followed by
  // four zero bits.
  lemma TokenIsBase64(id: Uuid)
    ensures Number(Values(id), 64) == 16 * Number(id, 256)
  {
    var first, last := id[..15], id[15];
    SextetsSameNumber(first, 5);
    assert id == first + [last] && id[..|id| - 1] == first;
    var values := Values(id);
    var head := ToSextets(first, 5);
    assert values[..21] == head + [last / 4];
    assert (head + [last / 4])[..20] == head;
  }
}
