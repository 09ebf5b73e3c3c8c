/** Attestation status feed (server/src/revocations.ts), from decoded entries and header values on. */
module Revocations {
  import opened Common
  import Radix
  import Text

  const MAX_TTL_SECONDS := 300

  /** One listed serial; `hasStatus` when its entry is an object with a status that is not blank. */
  datatype Entry = Entry(serial: string, hasStatus: bool)

  predicate IsHexDigit(c: char) {
    '0' <= c <= '9' || 'a' <= c <= 'f' || 'A' <= c <= 'F'
  }

  predicate ValidEntry(e: Entry) {
    1 <= |e.serial| <= 128 && (forall i :: 0 <= i < |e.serial| ==> IsHexDigit(e.serial[i])) && e.hasStatus
  }

  function Lower(c: char): char {
    if 'A' <= c <= 'Z' then c + ' ' else c
  }

  function LowerCase(s: string): (r: string)
    ensures |r| == |s| && forall i :: 0 <= i < |s| ==> r[i] == Lower(s[i])
  {
    seq(|s|, i requires 0 <= i < |s| => Lower(s[i]))
  }

  function WithoutLeadingZeros(s: string): string {
    if s != "" && s[0] == '0' then WithoutLeadingZeros(s[1..]) else s
  }

  function NormaliseSerial(serial: string): string {
    var s := WithoutLeadingZeros(LowerCase(serial));
    if s == "" then "0" else s
  }

  /** serial.toString(16), as certificates carry it. */
  function SerialHex(serial: int): string {
    if serial < 0 then "-" + Text.Numeral(16, -serial) else Text.Numeral(16, serial)
  }

  function ParsedFrom(entries: seq<Entry>, out: seq<string>): Option<seq<string>> {
    if entries == [] then Some(out)
    else if !ValidEntry(entries[0]) then None
    else ParsedFrom(entries[1..], Add(out, NormaliseSerial(entries[0].serial)))
  }

  /** The listed serials, or none when the feed cannot be used. */
  function ParsedFeed(entries: seq<Entry>): Option<seq<string>> {
    ParsedFrom(entries, [])
  }

  method ParseFeed(entries: seq<Entry>) returns (r: Option<seq<string>>)
    ensures r == ParsedFeed(entries)
    ensures r.Some? ==> NoDuplicates(r.value)
  {
    var out: seq<string> := [];
    for i := 0 to |entries|
      invariant ParsedFeed(entries) == ParsedFrom(entries[i..], out) && NoDuplicates(out)
    {
      if !ValidEntry(entries[i]) { return None; }
      AddKeepsNoDuplicates(out, NormaliseSerial(entries[i].serial));
      out := Add(out, NormaliseSerial(entries[i].serial));
      assert entries[i..][1..] == entries[i + 1..];
    }
    r := Some(out);
  }

  // ---- revocation by string is revocation by number -----------------------------------------

  lemma {:induction false} WithoutLeadingZerosKeepsValue(s: string)
    ensures Text.NumeralValue(16, WithoutLeadingZeros(s)) == Text.NumeralValue(16, s)
    ensures var r := WithoutLeadingZeros(s); r != "" ==> r[0] != '0' && r[0] in s
    ensures forall c :: c in WithoutLeadingZeros(s) ==> c in s
  {
    hide Radix.Value, Text.DigitValues;
    if s != "" && s[0] == '0' {
      WithoutLeadingZerosKeepsValue(s[1..]);
      LeadingZero(s);
    }
  }

  lemma LeadingZero(s: string)
    requires s != "" && s[0] == '0'
    ensures Text.NumeralValue(16, s) == Text.NumeralValue(16, s[1..])
  {
    var t := s[1..];
    assert Text.DigitValues(s) == [0] + Text.DigitValues(t);
    Radix.ValueConcat(16, [0], Text.DigitValues(t));
    Radix.ValueSnoc(16, [], 0);
    Radix.NoDigits(16);
    assert [] + [0] == [0 as nat];
  }

  predicate IsLowerHex(c: char) {
    '0' <= c <= '9' || 'a' <= c <= 'f'
  }

  /** A lowercase numeral without leading zeros is the numeral of its value. */
  lemma CanonicalNumeral(s: string)
    requires s != "" && s[0] != '0' && forall i :: 0 <= i < |s| ==> IsLowerHex(s[i])
    ensures Text.Numeral(16, Text.NumeralValue(16, s)) == s
  {
    var ds := Text.DigitValues(s);
    assert ds[0] != 0;
    Radix.DigitsOfValue(16, ds);
    hide Radix.Value, Radix.Digits;
    forall i | 0 <= i < |s| ensures Text.DigitChar(ds[i]) == s[i] {
    }
  }

  /** The stored form of a listed key is the hexadecimal numeral of its value. */
  lemma NormalisedIsNumeral(key: string)
    requires key != "" && forall i :: 0 <= i < |key| ==> IsHexDigit(key[i])
    ensures NormaliseSerial(key) == Text.Numeral(16, Text.NumeralValue(16, key))
  {
    var low := LowerCase(key);
    assert Text.DigitValues(low) == Text.DigitValues(key);
    WithoutLeadingZerosKeepsValue(low);
    var s := WithoutLeadingZeros(low);
    if s == "" {
      Radix.NoDigits(16);
      assert Text.DigitValues("") == [];
    } else {
      forall i | 0 <= i < |s| ensures IsLowerHex(s[i]) {
        assert s[i] in s;
      }
      CanonicalNumeral(s);
    }
  }

  lemma {:induction false} ParsedContains(entries: seq<Entry>, out: seq<string>, s: string)
    requires ParsedFrom(entries, out).Some?
    ensures s in ParsedFrom(entries, out).value <==>
            s in out || exists e :: e in entries && NormaliseSerial(e.serial) == s
    ensures forall e :: e in entries ==> ValidEntry(e)
  {
    if entries != [] {
      hide NormaliseSerial;
      ParsedContains(entries[1..], Add(out, NormaliseSerial(entries[0].serial)), s);
      assert entries == [entries[0]] + entries[1..];
    }
  }

  /** A feed can be used exactly when every key has 1 to 128 hexadecimal digits and a status. */
  lemma {:induction false} FeedIsUsable(entries: seq<Entry>, out: seq<string>)
    ensures ParsedFrom(entries, out).Some? <==>
            forall e :: e in entries ==>
              && 1 <= |e.serial| <= 128 && e.hasStatus
              && forall i :: 0 <= i < |e.serial| ==>
                   '0' <= e.serial[i] <= '9' || 'a' <= e.serial[i] <= 'f' || 'A' <= e.serial[i] <= 'F'
  {
    if entries != [] {
      hide NormaliseSerial, Add;
      FeedIsUsable(entries[1..], Add(out, NormaliseSerial(entries[0].serial)));
      assert entries == [entries[0]] + entries[1..];
    }
  }

  /** A certificate's serial is listed exactly when some listed key, in any case and with any leading
      zeros, has the same numeric value; a negative serial never is. */
  lemma RevokedByNumber(entries: seq<Entry>, serial: int)
    requires ParsedFeed(entries).Some?
    ensures SerialHex(serial) in ParsedFeed(entries).value <==>
            serial >= 0 && exists e :: e in entries && Text.NumeralValue(16, e.serial) == serial
  {
    ParsedContains(entries, [], SerialHex(serial));
    hide NormaliseSerial, ParsedFrom, Text.NumeralValue;
    forall e | e in entries
      ensures NormaliseSerial(e.serial) == SerialHex(serial) <==> Text.NumeralValue(16, e.serial) == serial
    {
      NormalisedIsNumeral(e.serial);
      var v := Text.NumeralValue(16, e.serial);
      if serial < 0 {
        assert SerialHex(serial)[0] == '-' && Text.Numeral(16, v)[0] != '-';
      } else if Text.Numeral(16, v) == Text.Numeral(16, serial) {
        Text.NumeralInjective(16, v, serial);
      }
    }
  }

  /** Stored serials are never empty and hold no line break, which is what the storage format needs. */
  predicate Storable(s: string) {
    s != "" && forall i :: 0 <= i < |s| ==> s[i] != '\n'
  }

  lemma {:induction false} ParsedIsStorable(entries: seq<Entry>, out: seq<string>)
    requires ParsedFrom(entries, out).Some? && forall s :: s in out ==> Storable(s)
    ensures forall s :: s in ParsedFrom(entries, out).value ==> Storable(s)
  {
    if entries != [] {
      NormalisedIsNumeral(entries[0].serial);
      hide NormaliseSerial;
      ParsedIsStorable(entries[1..], Add(out, NormaliseSerial(entries[0].serial)));
    }
  }

  // ---- how long a snapshot may be reused -----------------------------------------------------

  /** The parsed Cache-Control and Age headers of a feed response. */
  datatype Headers = Headers(noStoreOrNoCache: bool, maxAge: Option<nat>, age: Option<nat>)

  function SnapshotTtl(h: Headers): nat {
    if h.noStoreOrNoCache then 0
    else
      var originMaxAge := if h.maxAge.Some? then h.maxAge.value else MAX_TTL_SECONDS;
      var parsedAge := if h.age.Some? then h.age.value else 0;
      var remaining := originMaxAge - parsedAge;
      if remaining <= 0 then 0 else if remaining < MAX_TTL_SECONDS then remaining else MAX_TTL_SECONDS
  }

  /** A snapshot is usable d seconds after its refresh started only within 300 seconds and within what
      the origin still allows, and exactly then. */
  lemma TtlIsTheTightestLimit(h: Headers, d: nat)
    ensures d < SnapshotTtl(h) <==>
            && !h.noStoreOrNoCache && d < 300
            && (h.maxAge.Some? ==> d + (if h.age.Some? then h.age.value else 0) < h.maxAge.value)
            && (h.maxAge.None? ==> d + (if h.age.Some? then h.age.value else 0) < 300)
  {
  }
}
