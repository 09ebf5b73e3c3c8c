/** The strict DER reader of server/src/verifier/der.ts: one element, a whole buffer, and the
    children of a constructed element. Each loop of the source is a method proved against the
    function that specifies it. */
module Der {
  import opened Common
  import Radix

  const UNIVERSAL := 0
  const CONTEXT_SPECIFIC := 2

  const BOOLEAN := 1
  const INTEGER := 2
  const OCTET_STRING := 4
  const OID := 6
  const ENUMERATED := 10
  const UTF8_STRING := 12
  const SEQUENCE := 16
  const SET := 17
  const PRINTABLE_STRING := 19
  const UTC_TIME := 23
  const GENERALIZED_TIME := 24

  datatype DerError =
    | UnexpectedEnd | TruncatedTag | NonMinimalTag | TagTooLarge
    | TruncatedLength | IndefiniteLength | LengthTooLarge | NonMinimalLength | TruncatedContent
    | ExtraData | PrimitiveHasNoChildren | UnexpectedType
    | EmptyInteger | NonMinimalInteger | BooleanLength
    | EmptyOid | NonMinimalOid | TruncatedOid
    | MalformedTime | InvalidTime | InvalidDate
    | MalformedName

  /** One element. `raw` is the whole encoding, `content` what follows the header. */
  datatype Tlv = Tlv(cls: nat, constructed: bool, tag: nat, raw: Bytes, content: Bytes)

  /** The three fields of an identifier octet. */
  function ClassBits(o: byte): (c: nat) ensures c < 4 { o / 64 }
  predicate ConstructedBit(o: byte) { o / 32 % 2 == 1 }
  function TagBits(o: byte): (t: nat) ensures t < 32 { o % 32 }

  /** The seven value bits of a tag or subidentifier octet. */
  function SevenBits(o: byte): (v: nat)
    ensures v < 128 && o as nat == if o < 128 then v else 128 + v
  {
    o % 128
  }

  /** The tag octets from p on: base 128, high bit set on all but the last. */
  function TagOctets(b: Bytes, p: nat, tag: nat, count: nat): (r: Result<(nat, nat), DerError>)
    ensures r.Ok? ==> p < r.value.1 <= |b|
    decreases |b| - p
  {
    if p >= |b| then Err(TruncatedTag)
    else if count == 0 && b[p] == 0x80 then Err(NonMinimalTag)
    else if count + 1 > 4 then Err(TagTooLarge)
    else
      var next := tag * 128 + SevenBits(b[p]);
      if b[p] >= 128 then TagOctets(b, p + 1, next, count + 1) else Ok((next, p + 1))
  }

  /** The tag number of the identifier octets at offset, and the offset after them. */
  function TagAt(b: Bytes, offset: nat): (r: Result<(nat, nat), DerError>)
    requires offset < |b|
    ensures r.Ok? ==> offset < r.value.1 <= |b|
  {
    var low := TagBits(b[offset]);
    if low != 31 then Ok((low, offset + 1))
    else
      var (tag, p) :- TagOctets(b, offset + 1, 0, 0);
      if tag < 31 then Err(NonMinimalTag) else Ok((tag, p))
  }

  /** The content length announced at p, and the offset of the content. */
  function LengthAt(b: Bytes, p: nat): (r: Result<(nat, nat), DerError>)
    ensures r.Ok? ==> p < r.value.1 <= |b|
  {
    if p >= |b| then Err(TruncatedLength)
    else if b[p] == 0x80 then Err(IndefiniteLength)
    else if b[p] < 0x80 then Ok((b[p] as nat, p + 1))
    else
      var n := b[p] - 0x80;
      if n > 4 then Err(LengthTooLarge)
      else if p + 1 + n > |b| then Err(TruncatedLength)
      else
        var len := Radix.Value(256, b[p + 1..p + 1 + n]);
        if n == 1 && len < 0x80 then Err(NonMinimalLength)
        else if n > 1 && len < Radix.Pow(256, n - 1) then Err(NonMinimalLength)
        else Ok((len, p + 1 + n))
  }

  /** The element at offset and the offset after it. Every successful read moves forward, which is
      why the loop over children ends. */
  function TlvAt(b: Bytes, offset: nat): (r: Result<(Tlv, nat), DerError>)
    ensures r.Ok? ==> offset < r.value.1 <= |b| && r.value.0.raw == b[offset..r.value.1]
  {
    if offset >= |b| then Err(UnexpectedEnd)
    else
      var (tag, p) :- TagAt(b, offset);
      var (len, q) :- LengthAt(b, p);
      if q + len > |b| then Err(TruncatedContent)
      else
        Ok((Tlv(ClassBits(b[offset]), ConstructedBit(b[offset]), tag, b[offset..q + len], b[q..q + len]), q + len))
  }

  method ReadTlv(b: Bytes, offset: nat) returns (r: Result<(Tlv, nat), DerError>)
    ensures r == TlvAt(b, offset)
  {
    if offset >= |b| { return Err(UnexpectedEnd); }
    var first := b[offset];
    var identifier := ReadTag(b, offset);
    if identifier.Err? { return Err(identifier.error); }
    var (tag, p) := identifier.value;
    var announced := ReadLength(b, p);
    if announced.Err? { return Err(announced.error); }
    var (len, q) := announced.value;
    if q + len > |b| { return Err(TruncatedContent); }
    r := Ok((Tlv(ClassBits(first), ConstructedBit(first), tag, b[offset..q + len], b[q..q + len]), q + len));
  }

  /** The identifier octets of ReadTlv. */
  method ReadTag(b: Bytes, offset: nat) returns (r: Result<(nat, nat), DerError>)
    requires offset < |b|
    ensures r == TagAt(b, offset)
  {
    var tag: nat := TagBits(b[offset]);
    var p := offset + 1;
    if tag == 0x1f {
      tag := 0;
      var more := true;
      var count := 0;
      while more
        invariant offset < p
        invariant more ==> TagOctets(b, offset + 1, 0, 0) == TagOctets(b, p, tag, count)
        invariant !more ==> TagOctets(b, offset + 1, 0, 0) == Ok((tag, p))
        decreases more, |b| - p
      {
        if p >= |b| { return Err(TruncatedTag); }
        var octet := b[p];
        p := p + 1;
        if count == 0 && octet == 0x80 { return Err(NonMinimalTag); }
        tag := tag * 128 + SevenBits(octet);
        more := octet >= 128;
        count := count + 1;
        if count > 4 { return Err(TagTooLarge); }
      }
      if tag < 0x1f { return Err(NonMinimalTag); }
    }
    r := Ok((tag, p));
  }

  /** The length octets of ReadTlv. */
  method ReadLength(b: Bytes, at: nat) returns (r: Result<(nat, nat), DerError>)
    ensures r == LengthAt(b, at)
  {
    if at >= |b| { return Err(TruncatedLength); }
    var len: nat := b[at];
    var p := at + 1;
    if len == 0x80 { return Err(IndefiniteLength); }
    if len >= 0x80 {
      var n := len - 0x80;
      if n > 4 { return Err(LengthTooLarge); }
      if p + n > |b| { return Err(TruncatedLength); }
      len := 0;
      for i := 0 to n
        invariant len == Radix.Value(256, b[p..p + i])
      {
        assert b[p..p + i + 1][..i] == b[p..p + i];
        len := len * 256 + b[p + i];
      }
      if n == 1 && len < 0x80 { return Err(NonMinimalLength); }
      if n > 1 && len < Radix.Pow(256, n - 1) { return Err(NonMinimalLength); }
      p := p + n;
    }
    r := Ok((len, p));
  }

  /** Exactly one element filling the buffer. */
  function Single(b: Bytes): Result<Tlv, DerError> {
    var (t, end) :- TlvAt(b, 0);
    if end != |b| then Err(ExtraData) else Ok(t)
  }

  /** The elements of b from p on. */
  function ElementsFrom(b: Bytes, p: nat): Result<seq<Tlv>, DerError>
    decreases |b| - p
  {
    if p >= |b| then Ok([])
    else
      var (t, next) :- TlvAt(b, p);
      var rest :- ElementsFrom(b, next);
      Ok([t] + rest)
  }

  /** Elements already read, put before the outcome of reading the rest. */
  function After(out: seq<Tlv>, rest: Result<seq<Tlv>, DerError>): (r: Result<seq<Tlv>, DerError>) {
    if rest.Ok? then Ok(out + rest.value) else rest
  }

  lemma AfterOne(out: seq<Tlv>, t: Tlv, rest: Result<seq<Tlv>, DerError>)
    ensures After(out, After([t], rest)) == After(out + [t], rest)
  {
    if rest.Ok? {
      assert out + ([t] + rest.value) == out + [t] + rest.value;
    }
  }

  function ChildrenOf(t: Tlv): Result<seq<Tlv>, DerError> {
    if !t.constructed then Err(PrimitiveHasNoChildren) else ElementsFrom(t.content, 0)
  }

  method Children(t: Tlv) returns (r: Result<seq<Tlv>, DerError>)
    ensures r == ChildrenOf(t)
  {
    if !t.constructed { return Err(PrimitiveHasNoChildren); }
    var out: seq<Tlv> := [];
    var p := 0;
    assert ElementsFrom(t.content, 0).Ok? ==> [] + ElementsFrom(t.content, 0).value == ElementsFrom(t.content, 0).value;
    while p < |t.content|
      invariant p <= |t.content|
      invariant ElementsFrom(t.content, 0) == After(out, ElementsFrom(t.content, p))
    {
      var read := ReadTlv(t.content, p);
      if read.Err? { return Err(read.error); }
      AfterOne(out, read.value.0, ElementsFrom(t.content, read.value.1));
      out := out + [read.value.0];
      p := read.value.1;
    }
    assert out + [] == out;
    r := Ok(out);
  }

  predicate IsUniversal(t: Tlv, tag: nat) {
    t.cls == UNIVERSAL && t.tag == tag
  }

  /** A universal element whose constructed bit is fixed as well. */
  predicate Is(t: Tlv, tag: nat, constructed: bool) {
    IsUniversal(t, tag) && t.constructed == constructed
  }

  function SequenceItems(t: Tlv): Result<seq<Tlv>, DerError> {
    if !Is(t, SEQUENCE, true) then Err(UnexpectedType) else ChildrenOf(t)
  }

  function SetItems(t: Tlv): Result<seq<Tlv>, DerError> {
    if !Is(t, SET, true) then Err(UnexpectedType) else ChildrenOf(t)
  }
}
