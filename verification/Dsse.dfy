/** DSSE v1: the pre-authentication encoding and envelope verification. */
module Dsse {
  import opened Wrappers

  const SPACE: U8 := 32

  /** The text "DSSEv1 ". */
  const HEADER: Bytes := [68, 83, 83, 69, 118, 49, SPACE]

  // Decimal lengths

  function Decimal(n: nat): (s: Bytes)
    ensures s != []
  {
    if n < 10 then [48 + n] else Decimal(n / 10) + [48 + n % 10]
  }

  predicate Digits(s: Bytes) {
    forall i :: 0 <= i < |s| ==> 48 <= s[i] < 58
  }

  function Value(s: Bytes): nat
    requires Digits(s)
  {
    if s == [] then 0 else 10 * Value(s[..|s| - 1]) + (s[|s| - 1] - 48)
  }

  lemma {:induction false} DecimalRoundTrip(n: nat)
    ensures Digits(Decimal(n)) && Value(Decimal(n)) == n
    ensures Decimal(n)[0] == 48 <==> n == 0
  {
    if n >= 10 {
      DecimalRoundTrip(n / 10);
      assert Decimal(n)[..|Decimal(n)| - 1] == Decimal(n / 10);
    }
  }

  // The encoding

  /** "DSSEv1" SP LEN(type) SP type SP LEN(payload) SP payload, as section "Signature Definition" of DSSE v1 writes it. */
  function Encoding(payloadType: Bytes, payload: Bytes): Bytes {
    HEADER + (Decimal(|payloadType|) + [SPACE] + (payloadType + [SPACE] + (Decimal(|payload|) + [SPACE] + payload)))
  }

  method Pae(payloadType: Bytes, payload: Bytes) returns (out: Bytes)
    ensures out == Encoding(payloadType, payload)
  {
    out := HEADER;
    out := out + Decimal(|payloadType|);
    out := out + [SPACE];
    out := out + payloadType;
    out := out + [SPACE];
    out := out + Decimal(|payload|);
    out := out + [SPACE];
    out := out + payload;
  }

  /** Index of the first space. */
  function FirstSpace(s: Bytes): (i: nat)
    ensures i <= |s| && SPACE !in s[..i] && (i < |s| ==> s[i] == SPACE)
  {
    if s == [] || s[0] == SPACE then 0
    else assert s[..1 + FirstSpace(s[1..])] == [s[0]] + s[1..][..FirstSpace(s[1..])]; 1 + FirstSpace(s[1..])
  }

  /** A canonical decimal number, the space after it, and what follows. */
  function ReadNumber(s: Bytes): Option<(nat, Bytes)> {
    var i := FirstSpace(s);
    if i < |s| && Digits(s[..i]) && Decimal(Value(s[..i])) == s[..i] then Some((Value(s[..i]), s[i + 1..])) else None
  }

  /** The inverse of the encoding: type and payload, or nothing for bytes that encode no pair. */
  function Decode(s: Bytes): Option<(Bytes, Bytes)> {
    if !(HEADER <= s) then None
    else
      match ReadNumber(s[|HEADER|..])
      case None => None
      case Some((n, rest)) =>
        if |rest| <= n || rest[n] != SPACE then None
        else
          match ReadNumber(rest[n + 1..])
          case None => None
          case Some((m, payload)) => if |payload| == m then Some((rest[..n], payload)) else None
  }

  lemma FirstSpaceUnique(s: Bytes, i: nat)
    requires i < |s| && s[i] == SPACE && SPACE !in s[..i]
    ensures FirstSpace(s) == i
  {
    var k := FirstSpace(s);
    assert forall j | 0 <= j < i :: s[j] == s[..i][j];
    assert forall j | 0 <= j < k :: s[j] == s[..k][j];
  }

  lemma ReadDecimal(n: nat, rest: Bytes)
    ensures ReadNumber(Decimal(n) + [SPACE] + rest) == Some((n, rest))
  {
    DecimalRoundTrip(n);
    var s, i := Decimal(n) + [SPACE] + rest, |Decimal(n)|;
    assert s[..i] == Decimal(n) && s[i] == SPACE && s[i + 1..] == rest;
    FirstSpaceUnique(s, i);
  }

  lemma ReadNumberExact(s: Bytes)
    requires ReadNumber(s).Some?
    ensures s == Decimal(ReadNumber(s).value.0) + [SPACE] + ReadNumber(s).value.1
  {
    var i := FirstSpace(s);
    assert s == s[..i] + [s[i]] + s[i + 1..];
  }

  /** Decoding undoes encoding, for all byte strings. */
  lemma DecodeEncode(payloadType: Bytes, payload: Bytes)
    ensures Decode(Encoding(payloadType, payload)) == Some((payloadType, payload))
  {
    var tail := Decimal(|payload|) + [SPACE] + payload;
    var body := payloadType + [SPACE] + tail;
    var s := Encoding(payloadType, payload);
    assert s[..|HEADER|] == HEADER && s[|HEADER|..] == Decimal(|payloadType|) + [SPACE] + body;
    ReadDecimal(|payloadType|, body);
    assert body[..|payloadType|] == payloadType && body[|payloadType|] == SPACE && body[|payloadType| + 1..] == tail;
    ReadDecimal(|payload|, payload);
  }

  /** Encoding undoes decoding: only encodings decode. */
  lemma EncodeDecode(s: Bytes)
    requires Decode(s).Some?
    ensures Encoding(Decode(s).value.0, Decode(s).value.1) == s
  {
    var (n, rest) := ReadNumber(s[|HEADER|..]).value;
    var (m, payload) := ReadNumber(rest[n + 1..]).value;
    ReadNumberExact(s[|HEADER|..]);
    ReadNumberExact(rest[n + 1..]);
    SplitAt(rest, n);
    Reassembled(s, rest[..n], rest, payload);
  }

  lemma Reassembled(s: Bytes, payloadType: Bytes, rest: Bytes, payload: Bytes)
    requires HEADER <= s && s[|HEADER|..] == Decimal(|payloadType|) + [SPACE] + rest
    requires rest == payloadType + [SPACE] + (Decimal(|payload|) + [SPACE] + payload)
    ensures Encoding(payloadType, payload) == s
  {
    assert s == HEADER + s[|HEADER|..];
  }

  lemma SplitAt(s: Bytes, n: nat)
    requires n < |s| && s[n] == SPACE
    ensures s == s[..n] + [SPACE] + s[n + 1..]
  {
  }

  /** The encoding is injective: what is signed determines both the type and the payload. */
  lemma EncodingInjective(type1: Bytes, payload1: Bytes, type2: Bytes, payload2: Bytes)
    requires Encoding(type1, payload1) == Encoding(type2, payload2)
    ensures type1 == type2 && payload1 == payload2
  {
    DecodeEncode(type1, payload1);
    DecodeEncode(type2, payload2);
  }

  // Verification

  datatype Envelope = Envelope(payloadType: Bytes, payload: string, signatures: seq<string>)

  datatype DsseError = NoSignatures | PayloadType | Base64 | PayloadMismatch | KeyUnreadable | BadSignature

  /** What lies outside: Base64 decoding, the key file, and the signature check of the key. */
  datatype Crypto = Crypto(decode: string -> Option<Bytes>, keyReadable: bool, valid: (Bytes, Bytes) -> bool)

  method Verify(env: Envelope, expectedType: Option<Bytes>, expectedPayload: Option<Bytes>, c: Crypto)
    returns (r: Result<Bytes, DsseError>)
    ensures r == Outcome(env, expectedType, expectedPayload, c)
  {
    if env.signatures == [] {
      return Err(NoSignatures);
    }
    if expectedType.Some? {
      if env.payloadType != expectedType.value {
        return Err(PayloadType);
      }
    }
    var payload := c.decode(env.payload);
    if payload.None? {
      return Err(Base64);
    }
    if expectedPayload.Some? {
      if expectedPayload.value != payload.value {
        return Err(PayloadMismatch);
      }
    }
    if !c.keyReadable {
      return Err(KeyUnreadable);
    }
    var message := Pae(env.payloadType, payload.value);
    for i := 0 to |env.signatures|
      invariant Scan(env.signatures[i..], message, c) == Scan(env.signatures, message, c)
    {
      assert env.signatures[i..][1..] == env.signatures[i + 1..];
      var bytes := c.decode(env.signatures[i]);
      if bytes.None? {
        return Err(Base64);
      }
      if |bytes.value| != 64 {
        continue;
      }
      if c.valid(message, bytes.value) {
        return Ok(payload.value);
      }
    }
    return Err(BadSignature);
  }

  /** The first signature that is valid or undecodable decides. */
  function Scan(sigs: seq<string>, message: Bytes, c: Crypto): Option<DsseError> {
    if sigs == [] then Some(BadSignature)
    else if c.decode(sigs[0]).None? then Some(Base64)
    else if |c.decode(sigs[0]).value| == 64 && c.valid(message, c.decode(sigs[0]).value) then None
    else Scan(sigs[1..], message, c)
  }

  function Outcome(
    env: Envelope, expectedType: Option<Bytes>, expectedPayload: Option<Bytes>, c: Crypto): Result<Bytes, DsseError>
  {
    if env.signatures == [] then Err(NoSignatures)
    else if expectedType.Some? && env.payloadType != expectedType.value then Err(PayloadType)
    else if c.decode(env.payload).None? then Err(Base64)
    else if expectedPayload.Some? && expectedPayload != c.decode(env.payload) then Err(PayloadMismatch)
    else if !c.keyReadable then Err(KeyUnreadable)
    else
      match Scan(env.signatures, Encoding(env.payloadType, c.decode(env.payload).value), c)
      case None => Ok(c.decode(env.payload).value)
      case Some(e) => Err(e)
  }

  /** This signature decodes to 64 bytes that are valid for the message. */
  ghost predicate Signs(c: Crypto, message: Bytes, sig: string) {
    c.decode(sig).Some? && |c.decode(sig).value| == 64 && c.valid(message, c.decode(sig).value)
  }

  /** Some signature signs the message and every earlier one decodes. */
  ghost predicate SignedInTime(sigs: seq<string>, message: Bytes, c: Crypto) {
    exists i :: 0 <= i < |sigs| && Signs(c, message, sigs[i]) && forall j :: 0 <= j < i ==> c.decode(sigs[j]).Some?
  }

  lemma {:induction false} ScanExact(sigs: seq<string>, message: Bytes, c: Crypto)
    ensures Scan(sigs, message, c).None? <==> SignedInTime(sigs, message, c)
  {
    if sigs != [] {
      ScanExact(sigs[1..], message, c);
      if SignedInTime(sigs[1..], message, c) && c.decode(sigs[0]).Some? {
        var i :| 0 <= i < |sigs[1..]| && Signs(c, message, sigs[1..][i])
          && forall j :: 0 <= j < i ==> c.decode(sigs[1..][j]).Some?;
        assert Signs(c, message, sigs[i + 1]);
        assert forall j :: 0 < j < i + 1 ==> sigs[j] == sigs[1..][j - 1];
      }
      if SignedInTime(sigs, message, c) && !Signs(c, message, sigs[0]) {
        var i :| 0 <= i < |sigs| && Signs(c, message, sigs[i]) && forall j :: 0 <= j < i ==> c.decode(sigs[j]).Some?;
        assert Signs(c, message, sigs[1..][i - 1]);
      }
    }
  }

  /** The type, payload and key checks that come before any signature is looked at. */
  predicate ChecksPass(env: Envelope, expectedType: Option<Bytes>, expectedPayload: Option<Bytes>, c: Crypto) {
    && (expectedType.None? || env.payloadType == expectedType.value)
    && c.decode(env.payload).Some?
    && (expectedPayload.None? || expectedPayload == c.decode(env.payload))
    && c.keyReadable
  }

  /**
   Verification succeeds exactly when the checks pass and some 64-byte signature is valid for the
   encoding of this very type and payload, with no undecodable signature before it; it returns that
   payload.
   */
  lemma VerifyExact(env: Envelope, expectedType: Option<Bytes>, expectedPayload: Option<Bytes>, c: Crypto)
    ensures Outcome(env, expectedType, expectedPayload, c).Ok? <==>
      && (expectedType.Some? ==> env.payloadType == expectedType.value)
      && c.decode(env.payload).Some?
      && (expectedPayload.Some? ==> expectedPayload.value == c.decode(env.payload).value)
      && c.keyReadable
      && exists i ::
           && 0 <= i < |env.signatures|
           && (forall j :: 0 <= j <= i ==> c.decode(env.signatures[j]).Some?)
           && |c.decode(env.signatures[i]).value| == 64
           && c.valid(Encoding(env.payloadType, c.decode(env.payload).value), c.decode(env.signatures[i]).value)
    ensures Outcome(env, expectedType, expectedPayload, c).Ok? ==>
      Some(Outcome(env, expectedType, expectedPayload, c).value) == c.decode(env.payload)
  {
    if c.decode(env.payload).Some? {
      var message := Encoding(env.payloadType, c.decode(env.payload).value);
      ScanExact(env.signatures, message, c);
      SignedInTimeMeans(env.signatures, message, c);
    }
  }

  lemma SignedInTimeMeans(sigs: seq<string>, message: Bytes, c: Crypto)
    ensures SignedInTime(sigs, message, c) <==>
      exists i ::
        && 0 <= i < |sigs|
        && (forall j :: 0 <= j <= i ==> c.decode(sigs[j]).Some?)
        && |c.decode(sigs[i]).value| == 64
        && c.valid(message, c.decode(sigs[i]).value)
  {
    if SignedInTime(sigs, message, c) {
      var i :| 0 <= i < |sigs| && Signs(c, message, sigs[i]) && forall j :: 0 <= j < i ==> c.decode(sigs[j]).Some?;
      assert forall j :: 0 <= j <= i ==> c.decode(sigs[j]).Some?;
    }
  }

  /** When every signature decodes and the checks pass, any valid one suffices, wherever it stands. */
  lemma AnyValidSignatureSuffices(env: Envelope, expectedType: Option<Bytes>, expectedPayload: Option<Bytes>, c: Crypto)
    requires forall s :: s in env.signatures ==> c.decode(s).Some?
    ensures Outcome(env, expectedType, expectedPayload, c).Ok? <==>
      && ChecksPass(env, expectedType, expectedPayload, c)
      && exists s ::
           && s in env.signatures && |c.decode(s).value| == 64
           && c.valid(Encoding(env.payloadType, c.decode(env.payload).value), c.decode(s).value)
  {
    if ChecksPass(env, expectedType, expectedPayload, c) {
      var message := Encoding(env.payloadType, c.decode(env.payload).value);
      ScanExact(env.signatures, message, c);
      AnySigns(env.signatures, message, c);
    }
  }

  lemma AnySigns(sigs: seq<string>, message: Bytes, c: Crypto)
    requires forall s :: s in sigs ==> c.decode(s).Some?
    ensures SignedInTime(sigs, message, c) <==>
      exists s :: s in sigs && |c.decode(s).value| == 64 && c.valid(message, c.decode(s).value)
  {
    if s :| s in sigs && |c.decode(s).value| == 64 && c.valid(message, c.decode(s).value) {
      var i :| 0 <= i < |sigs| && sigs[i] == s;
      assert Signs(c, message, sigs[i]);
    }
  }

  /** An undecodable signature with no valid one before it aborts verification, whatever follows it. */
  lemma UndecodableAborts(env: Envelope, expectedType: Option<Bytes>, expectedPayload: Option<Bytes>, c: Crypto, i: nat)
    requires ChecksPass(env, expectedType, expectedPayload, c)
    requires i < |env.signatures| && c.decode(env.signatures[i]).None?
    requires forall j :: 0 <= j < i && c.decode(env.signatures[j]).Some? && |c.decode(env.signatures[j]).value| == 64 ==>
      !c.valid(Encoding(env.payloadType, c.decode(env.payload).value), c.decode(env.signatures[j]).value)
    ensures Outcome(env, expectedType, expectedPayload, c) == Err(Base64)
  {
    ScanAborts(env.signatures, Encoding(env.payloadType, c.decode(env.payload).value), c, i);
  }

  lemma {:induction false} ScanAborts(sigs: seq<string>, message: Bytes, c: Crypto, i: nat)
    requires i < |sigs| && c.decode(sigs[i]).None? && forall j :: 0 <= j < i ==> !Signs(c, message, sigs[j])
    ensures Scan(sigs, message, c) == Some(Base64)
  {
    if i > 0 {
      ScanAborts(sigs[1..], message, c, i - 1);
    }
  }

  /** Which check names the failure: the first that fails, in this order. */
  lemma OutcomeErrors(env: Envelope, expectedType: Option<Bytes>, expectedPayload: Option<Bytes>, c: Crypto)
    requires Outcome(env, expectedType, expectedPayload, c).Err?
    ensures match Outcome(env, expectedType, expectedPayload, c).error
      case NoSignatures => env.signatures == []
      case PayloadType => env.signatures != [] && expectedType.Some? && expectedType.value != env.payloadType
      case PayloadMismatch =>
        && env.signatures != [] && expectedType in {None, Some(env.payloadType)}
        && c.decode(env.payload).Some? && expectedPayload.Some? && expectedPayload.value != c.decode(env.payload).value
      case KeyUnreadable =>
        && env.signatures != [] && expectedType in {None, Some(env.payloadType)}
        && c.decode(env.payload).Some? && expectedPayload in {None, c.decode(env.payload)} && !c.keyReadable
      case Base64 =>
        && env.signatures != [] && expectedType in {None, Some(env.payloadType)}
        && (c.decode(env.payload).None? || exists s :: s in env.signatures && c.decode(s).None?)
      case BadSignature =>
        && env.signatures != [] && ChecksPass(env, expectedType, expectedPayload, c)
        && forall s :: s in env.signatures ==> c.decode(s).Some?
  {
    if ChecksPass(env, expectedType, expectedPayload, c) {
      ScanErrors(env.signatures, Encoding(env.payloadType, c.decode(env.payload).value), c);
    }
  }

  lemma {:induction false} ScanErrors(sigs: seq<string>, message: Bytes, c: Crypto)
    ensures match Scan(sigs, message, c)
      case None => true
      case Some(e) =>
        && (e == BadSignature ==> forall s :: s in sigs ==> c.decode(s).Some?)
        && (e == Base64 ==> exists s :: s in sigs && c.decode(s).None?)
        && (e == BadSignature || e == Base64)
  {
    if sigs != [] {
      assert sigs == [sigs[0]] + sigs[1..];
      ScanErrors(sigs[1..], message, c);
    }
  }

  // Signing

  /** What the private key and the Base64 encoder contribute. */
  datatype Signer = Signer(encode: Bytes -> string, sign: Bytes -> Bytes)

  /** The envelope around the one signature of the encoding. */
  function Sign(payload: Bytes, payloadType: Bytes, s: Signer): Envelope {
    Envelope(payloadType, s.encode(payload), [s.encode(s.sign(Encoding(payloadType, payload)))])
  }

  /** Base64 reads back what it wrote, and signatures are 64 bytes that the public key accepts for their own message only. */
  ghost predicate KeyPair(s: Signer, c: Crypto) {
    && c.keyReadable
    && (forall b :: c.decode(s.encode(b)) == Some(b))
    && (forall m :: |s.sign(m)| == 64)
    && (forall m, m' :: c.valid(m, s.sign(m')) <==> m == m')
  }

  /** A signature is accepted on the envelope it was made for, and on no envelope with another type or payload. */
  lemma SignedForOneEnvelope(payload: Bytes, payloadType: Bytes, payload': Bytes, type': Bytes, s: Signer, c: Crypto)
    requires KeyPair(s, c)
    ensures Outcome(Envelope(type', s.encode(payload'), Sign(payload, payloadType, s).signatures), None, None, c)
      == if type' == payloadType && payload' == payload then Ok(payload) else Err(BadSignature)
  {
    var sigs, message := Sign(payload, payloadType, s).signatures, Encoding(type', payload');
    if message == Encoding(payloadType, payload) {
      EncodingInjective(type', payload', payloadType, payload);
    }
    assert c.decode(sigs[0]) == Some(s.sign(Encoding(payloadType, payload)));
    assert sigs[1..] == [];
    assert Scan(sigs, message, c) == if message == Encoding(payloadType, payload) then None else Some(BadSignature);
  }

  /** What is signed verifies, also against the type and payload it was signed for, and against no others. */
  lemma SignThenVerify(
    payload: Bytes, payloadType: Bytes, expectedType: Option<Bytes>, expectedPayload: Option<Bytes>, s: Signer, c: Crypto)
    requires KeyPair(s, c)
    ensures Outcome(Sign(payload, payloadType, s), expectedType, expectedPayload, c) ==
      if expectedType !in {None, Some(payloadType)} then Err(PayloadType)
      else if expectedPayload !in {None, Some(payload)} then Err(PayloadMismatch)
      else Ok(payload)
  {
    SignedForOneEnvelope(payload, payloadType, payload, payloadType, s, c);
  }

  // The test vector of the protocol

  /**
   The bytes around a type of 29 and a payload of 11 bytes, "DSSEv1 29 " and " 11 ", as section "Test
   Vectors" of DSSE v1 gives them.
   */
  lemma TestVector(payloadType: Bytes, payload: Bytes)
    requires |payloadType| == 29 && |payload| == 11
    ensures Encoding(payloadType, payload) ==
      [68, 83, 83, 69, 118, 49, 32, 50, 57, 32] + payloadType + [32, 49, 49, 32] + payload
  {
    assert Decimal(29) == Decimal(2) + [57] == [50, 57];
    assert Decimal(11) == Decimal(1) + [49] == [49, 49];
  }
}
