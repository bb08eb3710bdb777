/** base58btc (draft-msporny-base58, sections 3 and 4) as the did:key fold encodes it, with a decoder
    that undoes it. */
module Base58 {
  import opened Bytes
  import opened Uids
  import Uvarint

  /** The Bitcoin / multibase 'z' alphabet (no 0, O, I, l), run by run. */
  const ALPHABET := "123456789" + "ABCDEFGH" + "JKLMN" + "PQRSTUVWXYZ" + "abcdefghijk" + "mnopqrstuvwxyz"

  type digit = d: nat | d < 58

  function Letter(d: digit): char {
    ALPHABET[d]
  }

  // ---- digits, least significant first ----

  function Nat(d: digit): nat {
    d
  }

  function Low(c: nat): digit {
    var low: int := c % 58;
    low
  }

  ghost function Value(digits: seq<digit>): nat {
    if digits == [] then 0 else Nat(digits[0]) + 58 * Value(digits[1..])
  }

  function CarryDigits(carry: nat): seq<digit> {
    if carry == 0 then [] else [Low(carry)] + CarryDigits(carry / 58)
  }

  /** 256 times the digits, plus a carry in. */
  function MulAdd(digits: seq<digit>, carry: nat): seq<digit> {
    if digits == [] then CarryDigits(carry) else
    var c := carry + 256 * Nat(digits[0]);
    [Low(c)] + MulAdd(digits[1..], c / 58)
  }

  ghost predicate NoTopZero(digits: seq<digit>) {
    digits != [] ==> digits[|digits| - 1] != 0
  }

  lemma {:induction false} CarryValue(carry: nat)
    ensures Value(CarryDigits(carry)) == carry
    ensures NoTopZero(CarryDigits(carry))
    ensures carry > 0 ==> CarryDigits(carry) != []
  {
    if carry > 0 {
      CarryValue(carry / 58);
    }
  }

  lemma {:induction false} MulAddValue(digits: seq<digit>, carry: nat)
    ensures Value(MulAdd(digits, carry)) == 256 * Value(digits) + carry
    ensures NoTopZero(digits) ==> NoTopZero(MulAdd(digits, carry))
    ensures NoTopZero(digits) && digits != [] ==> MulAdd(digits, carry) != []
  {
    if digits == [] {
      CarryValue(carry);
    } else {
      hide MulAdd, Low;
      var c := carry + 256 * Nat(digits[0]);
      MulAddValue(digits[1..], c / 58);
      MulAddHead(digits, carry);
      if |digits| == 1 {
        CarryValue(c / 58);
      }
    }
  }

  lemma MulAddHead(digits: seq<digit>, carry: nat)
    requires digits != []
    ensures var c := carry + 256 * Nat(digits[0]);
      && MulAdd(digits, carry) == [Low(c)] + MulAdd(digits[1..], c / 58)
      && Value(MulAdd(digits, carry)) == c % 58 + 58 * Value(MulAdd(digits[1..], c / 58))
  {
    var c := carry + 256 * Nat(digits[0]);
    var rest := MulAdd(digits[1..], c / 58);
    assert ([Low(c)] + rest)[1..] == rest;
  }

  /** The digits of a byte string. */
  ghost function Digits(raw: seq<byte>): seq<digit> {
    if raw == [] then [] else MulAdd(Digits(raw[..|raw| - 1]), raw[|raw| - 1])
  }

  /** Their base-58 value is the base-256 value of the bytes, and the top digit is never zero. */
  lemma {:induction false} DigitsValue(raw: seq<byte>)
    ensures Value(Digits(raw)) == FromBigEndian(raw)
    ensures NoTopZero(Digits(raw))
  {
    if raw != [] {
      DigitsValue(raw[..|raw| - 1]);
      MulAddValue(Digits(raw[..|raw| - 1]), raw[|raw| - 1]);
    }
  }

  // ---- text ----

  ghost function LeadingZeros(raw: seq<byte>): (n: nat)
    ensures n <= |raw| && (n < |raw| ==> raw[n] != 0)
  {
    if raw == [] || raw[0] != 0 then 0 else 1 + LeadingZeros(raw[1..])
  }

  ghost function Text(digits: seq<digit>): string {
    if digits == [] then "" else Text(digits[1..]) + [Letter(digits[0])]
  }

  function Repeat<T>(x: T, n: nat): (s: seq<T>)
    ensures |s| == n
  {
    if n == 0 then [] else [x] + Repeat(x, n - 1)
  }

  ghost function Encoded(raw: seq<byte>): string {
    var zeros := LeadingZeros(raw);
    Repeat(Letter(0), zeros) + Text(Digits(raw[zeros..]))
  }

  method Base58btcEncode(raw: seq<byte>) returns (encoded: string)
    ensures encoded == Encoded(raw)
  {
    hide Text, Digits, Letter;
    var zeros := 0;
    while zeros < |raw| && raw[zeros] == 0
      invariant zeros <= |raw| && LeadingZeros(raw) == zeros + LeadingZeros(raw[zeros..])
    {
      zeros := zeros + 1;
    }
    var rest := raw[zeros..];
    var digits: seq<digit> := [];
    NoBytes(rest);
    for i := 0 to |rest|
      invariant digits == Digits(rest[..i])
      invariant Value(digits) == FromBigEndian(rest[..i]) && NoTopZero(digits)
    {
      NextByte(rest, i);
      DigitsValue(rest[..i + 1]);
      digits := PushByte(digits, rest[i]);
    }
    assert rest[..|rest|] == rest;
    encoded := "";
    for z := 0 to zeros
      invariant encoded == Repeat(Letter(0), z)
    {
      RepeatAtEnd(Letter(0), z);
      encoded := encoded + [Letter(0)];
    }
    var digitIdx: nat := |digits|;
    ghost var start := encoded;
    assert digits[..digitIdx] == digits;
    while digitIdx > 0
      invariant digitIdx <= |digits|
      invariant encoded + Text(digits[..digitIdx]) == start + Text(digits)
    {
      digitIdx := digitIdx - 1;
      EmitTop(encoded, digits, digitIdx);
      encoded := encoded + [Letter(digits[digitIdx])];
    }
    assert encoded + Text(digits[..0]) == encoded by { NoText(digits); }
  }

  lemma NoBytes(rest: seq<byte>)
    ensures Digits(rest[..0]) == [] && Value([]) == FromBigEndian(rest[..0])
  {
  }

  lemma NextByte(rest: seq<byte>, i: nat)
    requires i < |rest|
    ensures Digits(rest[..i + 1]) == MulAdd(Digits(rest[..i]), rest[i])
  {
    assert rest[..i + 1][..i] == rest[..i];
  }

  lemma NoText(digits: seq<digit>)
    ensures Text(digits[..0]) == ""
  {
  }

  lemma EmitTop(encoded: string, digits: seq<digit>, i: nat)
    requires i < |digits|
    ensures encoded + Text(digits[..i + 1]) == (encoded + [Letter(digits[i])]) + Text(digits[..i])
  {
    hide Letter;
    TextTop(digits[..i + 1]);
    assert digits[..i + 1][..i] == digits[..i];
  }

  /** Folds one more byte into the digit buffer, in place, the carry never above 255. */
  method PushByte(was: seq<digit>, inByte: byte) returns (digits: seq<digit>)
    ensures digits == MulAdd(was, inByte)
  {
    hide MulAdd, CarryDigits;
    digits := was;
    var carry: nat := inByte;
    var digitIdx: nat := 0;
    assert was[..0] + MulAdd(was[0..], inByte) == MulAdd(was, inByte) by { assert was[0..] == was; }
    while digitIdx < |digits|
      invariant digitIdx <= |digits| == |was| && carry <= 255
      invariant forall i | digitIdx <= i < |was| :: digits[i] == was[i]
      invariant digits[..digitIdx] + MulAdd(was[digitIdx..], carry) == MulAdd(was, inByte)
    {
      MulAddStep(digits[..digitIdx], was, digitIdx, carry);
      carry := carry + 256 * Nat(digits[digitIdx]);
      digits := digits[digitIdx := Low(carry)];
      carry := carry / 58;
      digitIdx := digitIdx + 1;
      assert digits[..digitIdx] == digits[..digitIdx - 1] + [digits[digitIdx - 1]];
    }
    assert digits[..digitIdx] == digits && was[digitIdx..] == [];
    NothingLeft(digits, carry);
    while carry > 0
      invariant digits + CarryDigits(carry) == MulAdd(was, inByte)
    {
      CarryStep(digits, carry);
      digits := digits + [Low(carry)];
      carry := carry / 58;
    }
    NothingLeft(digits, 0);
  }

  lemma MulAddStep(done: seq<digit>, was: seq<digit>, i: nat, carry: nat)
    requires i < |was|
    ensures var c := carry + 256 * Nat(was[i]);
      done + MulAdd(was[i..], carry) == (done + [Low(c)]) + MulAdd(was[i + 1..], c / 58)
  {
    assert was[i..][1..] == was[i + 1..];
  }

  lemma CarryStep(done: seq<digit>, carry: nat)
    requires carry > 0
    ensures done + CarryDigits(carry) == (done + [Low(carry)]) + CarryDigits(carry / 58)
  {
  }

  lemma NothingLeft(done: seq<digit>, carry: nat)
    ensures MulAdd([], carry) == CarryDigits(carry)
    ensures done + CarryDigits(0) == done
  {
  }

  lemma {:induction false} RepeatAtEnd<T>(x: T, n: nat)
    ensures Repeat(x, n + 1) == Repeat(x, n) + [x]
  {
    if n > 0 {
      RepeatAtEnd(x, n - 1);
    }
  }

  /** The top digit is the first character. */
  lemma {:induction false} TextTop(digits: seq<digit>)
    requires digits != []
    ensures Text(digits) == [Letter(digits[|digits| - 1])] + Text(digits[..|digits| - 1])
  {
    hide Letter;
    if |digits| > 1 {
      TextTop(digits[1..]);
      assert digits[1..][..|digits| - 2] == digits[1..|digits| - 1];
      assert digits[..|digits| - 1][1..] == digits[1..|digits| - 1];
    }
  }

  // ---- the decoder ----

  ghost function IndexFrom(c: char, i: nat): Option<digit>
    requires i <= 58
    decreases 58 - i
  {
    if i == 58 then None else if Letter(i) == c then Some(i) else IndexFrom(c, i + 1)
  }

  /** The number big-endian text spells, None at a character outside the alphabet. */
  ghost function Number(text: string): Option<nat> {
    if text == "" then Some(0) else
    match (Number(text[..|text| - 1]), IndexFrom(text[|text| - 1], 0))
    case (Some(high), Some(d)) => Some(58 * high + Nat(d))
    case _ => None
  }

  /** The shortest big-endian bytes of a number. */
  ghost function Minimal(n: nat): seq<byte> {
    if n == 0 then [] else Minimal(n / 256) + [n % 256]
  }

  ghost function LeadingOnes(text: string): (n: nat)
    ensures n <= |text|
  {
    if text == "" || text[0] != Letter(0) then 0 else 1 + LeadingOnes(text[1..])
  }

  ghost function Decoded(text: string): Option<seq<byte>> {
    var ones := LeadingOnes(text);
    match Number(text[ones..])
    case None => None
    case Some(n) => Some(Repeat(0, ones) + Minimal(n))
  }

  // ---- decode undoes encode ----

  ghost function CharOf(d: digit): char {
    var n := Nat(d);
    if n < 9 then '1' + n as char
    else if n < 17 then 'A' + (n - 9) as char
    else if n < 22 then 'J' + (n - 17) as char
    else if n < 33 then 'P' + (n - 22) as char
    else if n < 44 then 'a' + (n - 33) as char
    else 'm' + (n - 44) as char
  }

  lemma AlphabetRuns(d: digit)
    ensures Letter(d) == CharOf(d)
  {
  }

  /** The alphabet ascends, so no character repeats. */
  lemma AlphabetOrder(i: digit, j: digit)
    requires i < j
    ensures Letter(i) < Letter(j)
  {
    AlphabetRuns(i);
    AlphabetRuns(j);
  }

  lemma {:induction false} IndexInverse(d: digit, i: nat)
    requires i <= d
    ensures IndexFrom(Letter(d), i) == Some(d)
    decreases d - i
  {
    hide Letter;
    if i < d {
      AlphabetOrder(i, d);
      IndexInverse(d, i + 1);
    }
  }

  lemma {:induction false} NumberOfText(digits: seq<digit>)
    ensures Number(Text(digits)) == Some(Value(digits))
  {
    hide Letter, IndexFrom, Number;
    if digits != [] {
      NumberOfText(digits[1..]);
      IndexInverse(digits[0], 0);
      NumberAppends(Text(digits[1..]), Letter(digits[0]));
    } else {
      NumberOfNone();
    }
  }

  lemma NumberOfNone()
    ensures Number("") == Some(0)
  {
  }

  lemma NumberAppends(text: string, c: char)
    requires Number(text).Some? && IndexFrom(c, 0).Some?
    ensures Number(text + [c]) == Some(58 * Number(text).value + Nat(IndexFrom(c, 0).value))
  {
    hide IndexFrom;
    assert (text + [c])[..|text|] == text;
  }

  lemma {:induction false} MinimalInverse(raw: seq<byte>)
    requires raw != [] ==> raw[0] != 0
    ensures Minimal(FromBigEndian(raw)) == raw
    ensures raw != [] ==> FromBigEndian(raw) > 0
  {
    if raw != [] {
      var n := |raw| - 1;
      hide Minimal, FromBigEndian;
      MinimalInverse(raw[..n]);
      LastByte(raw);
      assert n > 0 ==> raw[..n][0] == raw[0];
      MinimalAppends(FromBigEndian(raw[..n]), raw[n]);
      assert raw == raw[..n] + [raw[n]];
    }
  }

  lemma LastByte(raw: seq<byte>)
    requires raw != []
    ensures FromBigEndian(raw) == 256 * FromBigEndian(raw[..|raw| - 1]) + raw[|raw| - 1]
  {
  }

  lemma MinimalAppends(high: nat, low: byte)
    requires high > 0 || low > 0
    ensures Minimal(256 * high + low) == Minimal(high) + [low]
  {
    var n := 256 * high + low;
    assert n / 256 == high && n % 256 == low;
  }

  lemma {:induction false} OnesCount(n: nat, text: string)
    requires text != "" ==> text[0] != Letter(0)
    ensures LeadingOnes(Repeat(Letter(0), n) + text) == n
  {
    hide Letter;
    var all := Repeat(Letter(0), n) + text;
    if n == 0 {
      assert all == text;
    } else {
      OnesCount(n - 1, text);
      assert all[1..] == Repeat(Letter(0), n - 1) + text;
    }
  }

  lemma {:induction false} ZerosThenRest(raw: seq<byte>)
    ensures raw == Repeat(0, LeadingZeros(raw)) + raw[LeadingZeros(raw)..]
  {
    if raw != [] && raw[0] == 0 {
      ZerosThenRest(raw[1..]);
      assert raw == [0] + raw[1..];
    }
  }

  /** The encoding loses nothing, and its leading '1's count the leading zero bytes exactly. */
  lemma DecodeUndoesEncode(raw: seq<byte>)
    ensures Decoded(Encoded(raw)) == Some(raw)
    ensures LeadingOnes(Encoded(raw)) == LeadingZeros(raw)
  {
    hide LeadingOnes, LeadingZeros, Minimal, Digits, Text, Number, Letter;
    var zeros := LeadingZeros(raw);
    var rest := raw[zeros..];
    var text := Text(Digits(rest));
    DigitsValue(rest);
    MinimalInverse(rest);
    NumberOfText(Digits(rest));
    FirstCharacter(Digits(rest));
    OnesCount(zeros, text);
    assert Encoded(raw)[zeros..] == text;
    ZerosThenRest(raw);
  }

  lemma FirstCharacter(digits: seq<digit>)
    requires NoTopZero(digits)
    ensures Text(digits) != "" ==> Text(digits)[0] != Letter(0)
  {
    hide Letter;
    if digits != [] {
      TextTop(digits);
      AlphabetOrder(0, digits[|digits| - 1]);
    }
  }

  lemma EncodeInjective(a: seq<byte>, b: seq<byte>)
    requires Encoded(a) == Encoded(b)
    ensures a == b
  {
    DecodeUndoesEncode(a);
    DecodeUndoesEncode(b);
  }

  // ---- did:key ----

  const ED25519_PUB := 0xED

  /** The canonical did:key URI of a key: "did:key:z" and the multicodec varint and key in base58btc. */
  ghost function DIDKeyURI(pubKey: seq<byte>): string {
    "did:key:z" + Encoded(Uvarint.Put(ED25519_PUB) + pubKey)
  }

  /** The MemberID a signing key folds to: the hash of its URI.  Only a 32-byte key of the Ed25519 kit has one. */
  method DIDKeyUID(hashName: string -> UID, ed25519Kit: UID, kit: UID, pubKey: seq<byte>) returns (memberID: UID, ok: bool)
    ensures ok <==> kit == ed25519Kit && |pubKey| == 32
    ensures memberID == if ok then hashName(DIDKeyURI(pubKey)) else NIL
  {
    if kit != ed25519Kit || |pubKey| != 32 {
      return NIL, false;
    }
    var payload := Uvarint.Put(ED25519_PUB) + pubKey;
    var encoded := Base58btcEncode(payload);
    return hashName("did:key:z" + encoded), true;
  }

  /** The Ed25519 multicodec is the two bytes 0xED 0x01. */
  lemma URIPayload(pubKey: seq<byte>)
    ensures DIDKeyURI(pubKey) == "did:key:z" + Encoded([0xED, 0x01] + pubKey)
  {
    hide Encoded;
    assert Uvarint.Put(1) == [0x01];
    assert Uvarint.Put(ED25519_PUB) == [0xED, 0x01];
  }

  /** No two keys share a URI. */
  lemma DIDKeysDistinct(a: seq<byte>, b: seq<byte>)
    requires DIDKeyURI(a) == DIDKeyURI(b)
    ensures a == b
  {
    hide Encoded;
    var prefix := Uvarint.Put(ED25519_PUB);
    assert ("did:key:z" + Encoded(prefix + a))[9..] == Encoded(prefix + a);
    assert ("did:key:z" + Encoded(prefix + b))[9..] == Encoded(prefix + b);
    EncodeInjective(prefix + a, prefix + b);
    assert (prefix + a)[|prefix|..] == a && (prefix + b)[|prefix|..] == b;
  }
}
