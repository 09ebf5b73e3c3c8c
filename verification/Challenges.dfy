/** Challenge tokens (server/src/challenges.ts): version | epoch seconds | nonce | truncated HMAC. */
module Challenges {
  import opened Common
  import Radix
  import Integers
  import Base64
  import ByteStrings

  const CHALLENGE_LIFETIME_SECONDS := 120

  /** The first sixteen octets of HMAC-SHA256 under the server's key, as an abstract function. */
  type Tag = t: Bytes | |t| == 16 witness seq(16, _ => 0)
  type Mac = Bytes -> Tag

  function Payload(nowSeconds: nat, nonce: Bytes): Bytes {
    Radix.ValueOfFixedDigits(256, nowSeconds, 8);
    [1] + Radix.FixedDigits(256, nowSeconds, 8) + nonce
  }

  function ChallengeBytes(mac: Mac, nowSeconds: nat, nonce: Bytes): Bytes {
    Payload(nowSeconds, nonce) + mac(Payload(nowSeconds, nonce))
  }

  ghost function Token(mac: Mac, nowSeconds: nat, nonce: Bytes): string {
    Base64.EncodeOf(ChallengeBytes(mac, nowSeconds, nonce), Base64.URL_ALPHABET, false)
  }

  /** Writes the eight octets at 1, big end first, as DataView.setBigUint64 does. */
  method SetUint64(payload: array<byte>, v: nat)
    requires payload.Length >= 9
    modifies payload
    ensures payload[1..9] == Radix.FixedDigits(256, v, 8)
    ensures payload[0] == old(payload[0]) && payload[9..] == old(payload[9..])
  {
    var x := v;
    var k := 8;
    ghost var tail: seq<nat> := [];
    while k > 0
      invariant 0 <= k <= 8 && |tail| == 8 - k
      invariant Radix.FixedDigits(256, v, 8) == Radix.FixedDigits(256, x, k) + tail
      invariant payload[0] == old(payload[0]) && payload[9..] == old(payload[9..])
      invariant payload[1 + k..9] == tail
    {
      tail := [x % 256] + tail;
      assert Radix.FixedDigits(256, x, k) == Radix.FixedDigits(256, x / 256, k - 1) + [x % 256];
      payload[k] := x % 256;
      assert payload[k..9] == [payload[k]] + payload[k + 1..9];
      x := x / 256;
      k := k - 1;
    }
  }

  /** Uint8Array.set: copies part into out from off on. */
  method SetOctets(out: array<byte>, part: Bytes, off: nat)
    requires off + |part| <= out.Length
    modifies out
    ensures out[off..off + |part|] == part
    ensures out[..off] == old(out[..off]) && out[off + |part|..] == old(out[off + |part|..])
  {
    for i := 0 to |part|
      invariant forall k :: 0 <= k < i ==> out[off + k] == part[k]
      invariant out[..off] == old(out[..off]) && out[off + |part|..] == old(out[off + |part|..])
    {
      out[off + i] := part[i];
    }
  }

  method Issue(mac: Mac, nowSeconds: nat, nonce: Bytes) returns (token: string)
    requires |nonce| == 32
    ensures token == Token(mac, nowSeconds, nonce)
  {
    hide Radix.FixedDigits, Base64.EncodeOf;
    var payload := new byte[41](_ => 0);
    payload[0] := 1;
    SetUint64(payload, nowSeconds);
    SetOctets(payload, nonce, 9);
    assert payload[..] == payload[..9] + payload[9..41];
    assert payload[..9] == [payload[0]] + payload[1..9];
    var out := new byte[57](_ => 0);
    SetOctets(out, payload[..], 0);
    SetOctets(out, mac(payload[..]), 41);
    assert out[..] == out[..41] + out[41..57];
    AlphabetLength();
    token := Base64.Encode(out[..], Base64.URL_ALPHABET, false);
  }

  lemma AlphabetLength()
    ensures |Base64.URL_ALPHABET| == 64 && Base64.GoodAlphabet(Base64.URL_ALPHABET)
  {
    Base64.AlphabetsAreGood();
  }

  /** The signed 64-bit number at offset 1. */
  function IssuedAt(bytes: Bytes): int
    requires |bytes| >= 9
  {
    Integers.Signed(bytes[1..9])
  }

  function ExpiresAtSeconds(bytes: Bytes): int
    requires |bytes| >= 9
  {
    IssuedAt(bytes) + CHALLENGE_LIFETIME_SECONDS
  }

  /** hex(SHA-256(bytes)), with the digest as an abstract function. */
  function Id(sha256: Bytes -> Bytes, bytes: Bytes): string {
    ByteStrings.HexOf(sha256(bytes))
  }

  /** The challenge bytes, or the code a request is rejected with. */
  ghost function Verified(mac: Mac, encoded: string, nowSeconds: int): Result<Bytes, Code> {
    AlphabetLength();
    var decoded := Base64.DecodeOf(encoded, Base64.URL_ALPHABET);
    if |encoded| != 76 || decoded.Err? then Err(AttestationInvalid)
    else
      var bytes := decoded.value;
      if |bytes| != 57 || Base64.EncodeOf(bytes, Base64.URL_ALPHABET, false) != encoded || bytes[0] != 1
      then Err(AttestationInvalid)
      else if mac(bytes[..41]) != bytes[41..57] then Err(AttestationInvalid)
      else
        var issued := IssuedAt(bytes);
        if issued < 0 || issued > nowSeconds || nowSeconds - issued >= CHALLENGE_LIFETIME_SECONDS
        then Err(ChallengeExpired) else Ok(bytes)
  }

  method Verify(mac: Mac, encoded: string, nowSeconds: int) returns (r: Result<Bytes, Code>)
    ensures r == Verified(mac, encoded, nowSeconds)
  {
    AlphabetLength();
    if |encoded| != 76 { return Err(AttestationInvalid); }
    var table := Base64.Table(Base64.URL_ALPHABET);
    var decoded := Base64.Decode(encoded, table, Base64.URL_ALPHABET);
    if decoded.Err? { return Err(AttestationInvalid); }
    var bytes := decoded.value;
    if |bytes| != 57 { return Err(AttestationInvalid); }
    var again := Base64.Encode(bytes, Base64.URL_ALPHABET, false);
    if again != encoded || bytes[0] != 1 { return Err(AttestationInvalid); }
    var authentic := ByteStrings.BytesEqual(mac(bytes[..41]), bytes[41..57]);
    if !authentic { return Err(AttestationInvalid); }
    var issued := IssuedAt(bytes);
    if issued < 0 || issued > nowSeconds || nowSeconds - issued >= CHALLENGE_LIFETIME_SECONDS {
      return Err(ChallengeExpired);
    }
    r := Ok(bytes);
  }

  /** What an authentic challenge is, apart from its age. */
  ghost predicate Authentic(mac: Mac, bytes: Bytes) {
    |bytes| == 57 && bytes[0] == 1 && bytes[41..] == mac(bytes[..41]) && IssuedAt(bytes) >= 0
  }

  /** A token is accepted at a time exactly when it is the encoding of an authentic challenge issued
      no later than then and less than 120 seconds before. */
  lemma AcceptsExactlyLiveTokens(mac: Mac, s: string, now: int, bytes: Bytes)
    ensures Verified(mac, s, now) == Ok(bytes) <==>
            && Authentic(mac, bytes) && s == Base64.EncodeOf(bytes, Base64.URL_ALPHABET, false)
            && IssuedAt(bytes) <= now < ExpiresAtSeconds(bytes)
  {
    AlphabetLength();
    if |bytes| == 57 {
      Base64.DecodeOfEncode(bytes, Base64.URL_ALPHABET, false);
      EncodedLength(bytes);
    }
    hide Base64.DecodeOf, Base64.EncodeOf, Integers.Signed;
    assert |bytes| == 57 ==> bytes[41..57] == bytes[41..];
  }

  /** A token of the server, whatever its time says: 57 octets that begin with the version 1 and end with
      their tag, in URL Base64 without padding. */
  ghost predicate Encodes(mac: Mac, s: string, bytes: Bytes) {
    AlphabetLength();
    && |bytes| == 57 && bytes[0] == 1 && bytes[41..] == mac(bytes[..41])
    && s == Base64.EncodeOf(bytes, Base64.URL_ALPHABET, false)
  }

  ghost predicate IsAuthentic(mac: Mac, s: string) {
    exists bytes :: Encodes(mac, s, bytes)
  }

  ghost predicate IsLive(mac: Mac, s: string, now: int) {
    exists bytes :: Encodes(mac, s, bytes) && 0 <= IssuedAt(bytes) <= now < IssuedAt(bytes) + 120
  }

  /** A check accepts exactly the live tokens; an authentic one that is not live has expired, any other
      string is invalid. */
  lemma ChecksExactly(mac: Mac, s: string, now: int)
    ensures Verified(mac, s, now).Ok? <==> IsLive(mac, s, now)
    ensures Verified(mac, s, now).Err? ==>
            Verified(mac, s, now) == Err(if IsAuthentic(mac, s) then ChallengeExpired else AttestationInvalid)
  {
    AlphabetLength();
    forall bytes | Encodes(mac, s, bytes) ensures |s| == 76 && Base64.DecodeOf(s, Base64.URL_ALPHABET) == Ok(bytes) {
      Base64.DecodeOfEncode(bytes, Base64.URL_ALPHABET, false);
      EncodedLength(bytes);
      hide Base64.DecodeOf, Base64.EncodeOf;
    }
    hide Base64.DecodeOf, Base64.EncodeOf, Integers.Signed;
    var decoded := Base64.DecodeOf(s, Base64.URL_ALPHABET);
    if decoded.Ok? && |decoded.value| == 57 {
      var bytes := decoded.value;
      assert bytes[41..57] == bytes[41..];
      assert Verified(mac, s, now).Ok? || Verified(mac, s, now) == Err(ChallengeExpired) ==> Encodes(mac, s, bytes);
    }
  }

  /** Where the parts of an issued challenge stand: the version, the time with its highest octet first, the
      nonce, and the tag of these. */
  lemma Layout(mac: Mac, t: nat, nonce: Bytes)
    requires |nonce| == 32 && t < 0x1_0000_0000_0000_0000
    ensures var bytes := ChallengeBytes(mac, t, nonce);
            && |bytes| == 57 && bytes[0] == 1 && Radix.Value(256, bytes[1..9]) == t && bytes[9..41] == nonce
            && bytes[41..57] == mac(bytes[..41])
  {
    var bytes, field := ChallengeBytes(mac, t, nonce), Radix.FixedDigits(256, t, 8);
    assert Radix.Pow(256, 8) == 0x1_0000_0000_0000_0000 by {
      assert Radix.Pow(256, 4) == 0x1_0000_0000;
    }
    Radix.ValueOfFixedDigits(256, t, 8);
    hide Radix.Pow, Radix.FixedDigits, Radix.Value;
    assert bytes[1..9] == field && bytes[9..41] == nonce && bytes[..41] == Payload(t, nonce);
  }

  lemma EncodedLength(bytes: Bytes)
    requires |bytes| == 57
    ensures |Base64.EncodeOf(bytes, Base64.URL_ALPHABET, false)| == 76
  {
    Base64.SextetCountIs(19, 0);
  }

  /** The token text and the challenge bytes determine each other. */
  lemma TokensAndBytesAreOneToOne(mac: Mac, s: string, s': string, now: int, now': int)
    requires Verified(mac, s, now).Ok? && Verified(mac, s', now').Ok?
    ensures Verified(mac, s, now).value == Verified(mac, s', now').value <==> s == s'
  {
    hide Base64.DecodeOf, Base64.EncodeOf;
  }

  /** An issued token is accepted, and gives back its bytes, exactly while it is live. */
  lemma IssuedTokenLivesTwoMinutes(mac: Mac, t: nat, nonce: Bytes, now: int)
    requires |nonce| == 32 && t < 0x8000_0000_0000_0000
    ensures var bytes := ChallengeBytes(mac, t, nonce);
            && |bytes| == 57 && IssuedAt(bytes) == t && ExpiresAtSeconds(bytes) == t + 120
            && (Verified(mac, Token(mac, t, nonce), now) == Ok(bytes) <==> t <= now < t + 120)
  {
    var bytes := ChallengeBytes(mac, t, nonce);
    IssuedTimeReturns(mac, t, nonce);
    assert Authentic(mac, bytes) by {
      assert bytes[..41] == Payload(t, nonce) && bytes[41..] == mac(Payload(t, nonce));
    }
    AcceptsExactlyLiveTokens(mac, Token(mac, t, nonce), now, bytes);
  }

  lemma IssuedTimeReturns(mac: Mac, t: nat, nonce: Bytes)
    requires |nonce| == 32 && t < 0x8000_0000_0000_0000
    ensures |ChallengeBytes(mac, t, nonce)| == 57 && IssuedAt(ChallengeBytes(mac, t, nonce)) == t
  {
    var bytes := ChallengeBytes(mac, t, nonce);
    var field := Radix.FixedDigits(256, t, 8);
    assert bytes[1..9] == field;
    assert Radix.Pow(256, 8) == 0x1_0000_0000_0000_0000 by {
      assert Radix.Pow(256, 4) == 0x1_0000_0000;
    }
    Radix.ValueOfFixedDigits(256, t, 8);
    hide Radix.Pow;
    SignBitClear(field, t);
    Integers.SignedIsUnsignedMinusPower(field);
  }

  /** Eight octets below 2^63 have a clear sign bit. */
  lemma SignBitClear(field: Bytes, t: nat)
    requires |field| == 8 && Radix.Value(256, field) == t < 0x8000_0000_0000_0000
    ensures field[0] < 0x80
  {
    assert field == [field[0]] + field[1..];
    Radix.ValueConcat(256, [field[0]], field[1..]);
    assert [] + [field[0] as nat] == [field[0] as nat];
    Radix.ValueSnoc(256, [], field[0]);
    assert Radix.Value(256, [field[0]]) == field[0] as nat;
    assert Radix.Pow(256, 7) == 0x100_0000_0000_0000 by {
      assert Radix.Pow(256, 3) == 0x100_0000;
    }
  }
}
