/** The base64 codec of server/src/verifier/base64.ts: a bit accumulator on 32-bit integers. */
module Base64 {
  import opened Common
  import Radix

  datatype Base64Error = DanglingSextet | BadPadding | IllegalCharacter

  // A to Z, a to z, 0 to 9 and two more, in pieces short enough for the verifier to index.
  const LETTERS_AND_DIGITS: string :=
    "ABCDEFGHIJKLM" + "NOPQRSTUVWXYZ" + "abcdefghijklm" + "nopqrstuvwxyz" + "0123456789"
  const STD_ALPHABET: string := LETTERS_AND_DIGITS + "+/"
  const URL_ALPHABET: string := LETTERS_AND_DIGITS + "-_"

  ghost predicate GoodAlphabet(a: string) {
    && |a| == 64
    && (forall i :: 0 <= i < 64 ==> a[i] as int < 256 && a[i] != '=')
    && (forall i, j :: 0 <= i < j < 64 ==> a[i] != a[j])
  }

  /** The common order of both alphabets. */
  function Ordered(i: nat, plus: char, slash: char): char
    requires i < 64
  {
    if i < 26 then (i + 65) as char
    else if i < 52 then (i + 71) as char
    else if i < 62 then (i - 4) as char
    else if i == 62 then plus else slash
  }

  /** Tables 1 and 2 of RFC 4648. */
  lemma AlphabetsAreGood()
    ensures GoodAlphabet(STD_ALPHABET) && GoodAlphabet(URL_ALPHABET)
    ensures forall i :: 0 <= i < 64 ==> STD_ALPHABET[i] == Ordered(i, '+', '/') && URL_ALPHABET[i] == Ordered(i, '-', '_')
  {
    StandardIsGood();
    UrlIsGood();
    hide GoodAlphabet;
  }

  lemma StandardIsGood()
    ensures GoodAlphabet(STD_ALPHABET) && forall i :: 0 <= i < 64 ==> STD_ALPHABET[i] == Ordered(i, '+', '/')
  {
    assert forall i :: 0 <= i < 64 ==> STD_ALPHABET[i] == Ordered(i, '+', '/');
  }

  lemma UrlIsGood()
    ensures GoodAlphabet(URL_ALPHABET) && forall i :: 0 <= i < 64 ==> URL_ALPHABET[i] == Ordered(i, '-', '_')
  {
    assert forall i :: 0 <= i < 64 ==> URL_ALPHABET[i] == Ordered(i, '-', '_');
  }

  /** Where a character code last occurs in the alphabet, or -1. */
  function LastIndex(a: string, code: nat): int {
    if a == "" then -1
    else if a[|a| - 1] as int == code then |a| - 1
    else LastIndex(a[..|a| - 1], code)
  }

  method Table(alphabet: string) returns (t: array<int>)
    requires forall i :: 0 <= i < |alphabet| ==> alphabet[i] as int < 256
    ensures fresh(t) && t.Length == 256
    ensures forall code :: 0 <= code < 256 ==> t[code] == LastIndex(alphabet, code)
  {
    t := new int[256](_ => -1);
    for i := 0 to |alphabet|
      invariant forall code :: 0 <= code < 256 ==> t[code] == LastIndex(alphabet[..i], code)
    {
      assert alphabet[..i + 1][..i] == alphabet[..i];
      t[alphabet[i] as int] := i;
    }
    assert alphabet[..|alphabet|] == alphabet;
  }

  lemma {:induction false} LastIndexIs(a: string, k: nat, code: nat)
    requires k < |a| && a[k] as int == code && forall j :: k < j < |a| ==> a[j] as int != code
    ensures LastIndex(a, code) == k
  {
    if k < |a| - 1 { LastIndexIs(a[..|a| - 1], k, code); }
  }

  lemma {:induction false} LastIndexFinds(a: string, code: nat)
    ensures var k := LastIndex(a, code); -1 <= k < |a| && (k >= 0 ==> a[k] as int == code)
  {
    if a != "" { LastIndexFinds(a[..|a| - 1], code); }
  }

  // ---- sextets and octets ---------------------------------------------------------------------

  /** The three octets of the four sextets x, y, z, w. */
  function First(x: nat, y: nat): byte requires x < 64 && y < 64 { x * 4 + y / 16 }
  function Second(y: nat, z: nat): byte requires y < 64 && z < 64 { y % 16 * 16 + z / 4 }
  function Third(z: nat, w: nat): byte requires z < 64 && w < 64 { z % 4 * 64 + w }

  /** Math.floor(n * 6 / 8): the octets that n sextets fill. */
  function OctetCount(n: nat): nat {
    n * 6 / 8
  }

  /** The sextets that n octets need. */
  function SextetCount(n: nat): nat {
    if n % 3 == 0 then n / 3 * 4 else n / 3 * 4 + n % 3 + 1
  }

  lemma OctetCountIs(g: nat, e: nat)
    requires e < 4
    ensures OctetCount(4 * g + e) == 3 * g + (if e == 0 then 0 else e - 1)
  {
    var r := if e == 0 then 0 else e - 1;
    Radix.DivModIs((4 * g + e) * 6, 8, 3 * g + r, 6 * e - 8 * r);
  }

  lemma SextetCountIs(g: nat, e: nat)
    requires e < 3
    ensures SextetCount(3 * g + e) == 4 * g + (if e == 0 then 0 else e + 1)
  {
    Radix.DivModIs(3 * g + e, 3, g, e);
  }

  lemma CountsReturn(n: nat)
    ensures OctetCount(SextetCount(n)) == n
    ensures SextetCount(n) % 4 == if n % 3 == 0 then 0 else n % 3 + 1
  {
    var g, e := n / 3, n % 3;
    var f := if e == 0 then 0 else e + 1;
    OctetCountIs(g, f);
    Radix.DivModIs(4 * g + f, 4, g, f);
  }

  /** The sextets under octet 3q + r are there when the octet is. */
  lemma EnoughSextets(n: nat, q: nat, r: nat)
    requires r < 3 && 3 * q + r < n
    ensures 4 * q + r + 1 < SextetCount(n)
  {
    SextetCountIs(n / 3, n % 3);
  }

  /** The sextets an octet spans are there when the octet is counted. */
  lemma OctetSpans(n: nat, q: nat, r: nat)
    requires r < 3 && 3 * q + r < OctetCount(n)
    ensures 4 * q + r + 1 < n
  {
    OctetCountIs(n / 4, n % 4);
  }

  ghost predicate Sextets(v: seq<nat>) {
    forall i :: 0 <= i < |v| ==> v[i] < 64
  }

  /** Octet j of a sextet string: its bits 8j to 8j + 7. */
  ghost function OctetAt(v: seq<nat>, j: nat): byte
    requires Sextets(v) && j < OctetCount(|v|)
  {
    var q := j / 3;
    OctetSpans(|v|, q, j % 3);
    if j % 3 == 0 then First(v[4 * q], v[4 * q + 1])
    else if j % 3 == 1 then Second(v[4 * q + 1], v[4 * q + 2])
    else Third(v[4 * q + 2], v[4 * q + 3])
  }

  ghost function Octets(v: seq<nat>): (out: Bytes)
    requires Sextets(v)
    ensures |out| == OctetCount(|v|)
  {
    seq(OctetCount(|v|), j requires 0 <= j < OctetCount(|v|) => OctetAt(v, j))
  }

  /** The number m of n sextets without the low bits that no octet takes. */
  function Kept(m: nat, n: nat): nat {
    if n % 4 == 0 then m else if n % 4 == 1 then m / 64 else if n % 4 == 2 then m / 16 else m / 4
  }

  lemma OctetsPrefix(v: seq<nat>, n: nat)
    requires Sextets(v) && n <= |v|
    ensures OctetCount(n) <= OctetCount(|v|) && Octets(v[..n]) == Octets(v)[..OctetCount(n)]
  {
    var w := v[..n];
    forall j | 0 <= j < OctetCount(n) ensures OctetAt(w, j) == OctetAt(v, j) {
      OctetSpans(n, j / 3, j % 3);
      hide OctetCount, First, Second, Third;
    }
  }

  /** The octet that one more sextet w completes after u, if it completes one. */
  function Completed(n: nat, u: nat, w: nat): Bytes
    requires u < 64 && w < 64
  {
    if n % 4 == 0 then [] else if n % 4 == 1 then [First(u, w)] else if n % 4 == 2 then [Second(u, w)] else [Third(u, w)]
  }

  lemma OctetsGrow(v: seq<nat>, w: nat)
    requires Sextets(v) && w < 64
    ensures Octets(v + [w]) == Octets(v) + Completed(|v|, if v == [] then 0 else v[|v| - 1], w)
  {
    hide First, Second, Third, OctetAt, OctetCount;
    var n, t := |v|, v + [w];
    OctetsPrefix(t, n);
    assert t[..n] == v;
    var q, e := n / 4, n % 4;
    OctetsOfGroup(t, q);
    OctetCountIs(q, e);
    if e < 3 { OctetCountIs(q, e + 1); } else { OctetCountIs(q + 1, 0); }
    if e == 0 {
      assert |Octets(t)| == |Octets(v)|;
    } else {
      assert Octets(t)[3 * q + (e - 1)] == OctetAt(t, 3 * q + (e - 1));
    }
  }

  /** The octets are the sextets read as one unbounded bit string, less the bits that do not fill an octet. */
  lemma {:induction false} OctetsAreTheBitString(v: seq<nat>)
    requires Sextets(v)
    ensures Radix.Value(256, Octets(v)) == Kept(Radix.Value(64, v), |v|)
  {
    if v == [] {
      NoOctets();
    } else {
      var q := v[..|v| - 1];
      assert v == q + [v[|v| - 1]];
      OctetsAreTheBitString(q);
      BitStringGrows(q, v[|v| - 1]);
    }
  }

  lemma BitStringGrows(q: seq<nat>, w: nat)
    requires Sextets(q) && w < 64 && Radix.Value(256, Octets(q)) == Kept(Radix.Value(64, q), |q|)
    ensures Radix.Value(256, Octets(q + [w])) == Kept(Radix.Value(64, q + [w]), |q| + 1)
  {
    hide Radix.Value, Octets, Completed, Kept, Grown;
    var n := |q|;
    var u := if q == [] then 0 else q[n - 1];
    var m, o := Radix.Value(64, q), Radix.Value(256, Octets(q));
    Radix.ValueSnoc(64, q, w);
    OctetsGrow(q, w);
    OctetsValueGrows(Octets(q), n, u, w);
    if q == [] {
      OneMoreSextet(n, 0, m, o, u, w);
    } else {
      var head := q[..n - 1];
      assert q == head + [u];
      Radix.ValueSnoc(64, head, u);
      OneMoreSextet(n, Radix.Value(64, head), m, o, u, w);
    }
  }

  lemma OctetsValueGrows(out: Bytes, n: nat, u: nat, w: nat)
    requires u < 64 && w < 64
    ensures Radix.Value(256, out + Completed(n, u, w)) == Grown(Radix.Value(256, out), n, u, w)
  {
    var c := Completed(n, u, w);
    if c == [] {
      assert out + c == out;
    } else {
      assert c == [c[0]];
      Radix.ValueSnoc(256, out, c[0]);
    }
  }

  /** The number o of the octets so far, after one more sextet. */
  function Grown(o: nat, n: nat, u: nat, w: nat): nat
    requires u < 64 && w < 64
  {
    if n % 4 == 0 then o
    else if n % 4 == 1 then o * 256 + First(u, w)
    else if n % 4 == 2 then o * 256 + Second(u, w)
    else o * 256 + Third(u, w)
  }

  /** The octets' number stays the sextets' number without the dropped bits. */
  lemma OneMoreSextet(n: nat, k: nat, m: nat, o: nat, u: nat, w: nat)
    requires u < 64 && w < 64 && o == Kept(m, n) && (n > 0 ==> m == k * 64 + u)
    ensures Grown(o, n, u, w) == Kept(m * 64 + w, n + 1)
  {
    hide First, Second, Third;
    if n % 4 == 0 {
      Radix.DivModIs(m * 64 + w, 64, m, w);
    } else if n % 4 == 1 {
      OpenFirst(k, m, o, u, w);
    } else if n % 4 == 2 {
      OpenSecond(k, m, o, u, w);
    } else {
      OpenThird(k, m, o, u, w);
    }
  }

  lemma OpenFirst(k: nat, m: nat, o: nat, u: nat, w: nat)
    requires u < 64 && w < 64 && o == m / 64 && m == k * 64 + u
    ensures o * 256 + First(u, w) == (m * 64 + w) / 16
  {
    Radix.DivModIs(m, 64, k, u);
    Radix.DivModIs(m * 64 + w, 16, k * 256 + First(u, w) as nat, w % 16);
  }

  lemma OpenSecond(k: nat, m: nat, o: nat, u: nat, w: nat)
    requires u < 64 && w < 64 && o == m / 16 && m == k * 64 + u
    ensures o * 256 + Second(u, w) == (m * 64 + w) / 4
  {
    Radix.DivModIs(m, 16, 4 * k + u / 16, u % 16);
    Radix.DivModIs(m * 64 + w, 4, o * 256 + Second(u, w) as nat, w % 4);
  }

  lemma OpenThird(k: nat, m: nat, o: nat, u: nat, w: nat)
    requires u < 64 && w < 64 && o == m / 4 && m == k * 64 + u
    ensures o * 256 + Third(u, w) == m * 64 + w
  {
    Radix.DivModIs(m, 4, 16 * k + u / 4, u % 4);
  }

  /** Whole groups of four sextets are determined by their octets. */
  lemma OctetsInjective(v: seq<nat>, w: seq<nat>)
    requires Sextets(v) && Sextets(w) && |v| == |w| && |v| % 4 == 0 && Octets(v) == Octets(w)
    ensures v == w
  {
    OctetsAreTheBitString(v);
    OctetsAreTheBitString(w);
    Radix.ValueInjective(64, v, w);
  }

  // ---- decoding -------------------------------------------------------------------------------

  /** How many characters carry data, and how many terminal equals signs follow, at most two. */
  function Unpadded(s: string): (r: (nat, nat))
    ensures r.0 + r.1 == |s| && r.1 <= 2
    ensures forall i :: r.0 <= i < |s| ==> s[i] == '='
  {
    var n := |s|;
    if n > 0 && s[n - 1] == '=' then (if n > 1 && s[n - 2] == '=' then (n - 2, 2) else (n - 1, 1)) else (n, 0)
  }

  ghost function SextetsOf(s: string, a: string): (v: seq<int>)
    ensures |v| == |s|
  {
    seq(|s|, i requires 0 <= i < |s| => LastIndex(a, s[i] as int))
  }

  /** The octets of characters of the alphabet. */
  ghost function OctetsOfText(s: string, a: string): Result<Bytes, Base64Error>
    requires GoodAlphabet(a)
  {
    if exists i :: 0 <= i < |s| && LastIndex(a, s[i] as int) < 0 then Err(IllegalCharacter)
    else
      LegalSextets(s, a);
      Ok(Octets(SextetsOf(s, a)))
  }

  ghost function DecodeOf(s: string, a: string): Result<Bytes, Base64Error>
    requires GoodAlphabet(a)
  {
    var (end, pad) := Unpadded(s);
    var rem := end % 4;
    if rem == 1 then Err(DanglingSextet)
    else if pad > 0 && (rem == 0 || (rem == 2 && pad != 2) || (rem == 3 && pad != 1)) then Err(BadPadding)
    else OctetsOfText(s[..end], a)
  }

  lemma LegalSextets(s: string, a: string)
    requires GoodAlphabet(a) && forall i :: 0 <= i < |s| ==> LastIndex(a, s[i] as int) >= 0
    ensures forall i :: 0 <= i < |s| ==> 0 <= SextetsOf(s, a)[i] < 64 && a[SextetsOf(s, a)[i]] == s[i]
  {
    forall i | 0 <= i < |s| ensures 0 <= SextetsOf(s, a)[i] < 64 && a[SextetsOf(s, a)[i]] == s[i] {
      LastIndexFinds(a, s[i] as int);
    }
  }

  /** s is data, in the alphabet and not one character past a group of four, and then nothing or the equals
      signs that complete the last group. */
  ghost predicate IsPadded(s: string, a: string, data: string, pad: string) {
    && s == data + pad && |data| % 4 != 1 && (forall i :: 0 <= i < |data| ==> data[i] in a)
    && (pad == "" || (pad == "=" && |data| % 4 == 3) || (pad == "==" && |data| % 4 == 2))
  }

  lemma InAlphabet(a: string, c: char)
    ensures LastIndex(a, c as int) >= 0 <==> c in a
  {
    LastIndexFinds(a, c as int);
    if c in a {
      var k :| 0 <= k < |a| && a[k] == c;
      LastIndexIsAtLeast(a, k);
    }
  }

  lemma {:induction false} LastIndexIsAtLeast(a: string, k: nat)
    requires k < |a|
    ensures LastIndex(a, a[k] as int) >= k
  {
    if k < |a| - 1 { LastIndexIsAtLeast(a[..|a| - 1], k); }
  }

  lemma TextDecodes(s: string, a: string)
    requires GoodAlphabet(a)
    ensures OctetsOfText(s, a).Ok? <==> forall i :: 0 <= i < |s| ==> s[i] in a
  {
    hide LastIndex, Octets;
    forall i | 0 <= i < |s| ensures LastIndex(a, s[i] as int) >= 0 <==> s[i] in a {
      InAlphabet(a, s[i]);
    }
  }

  /** The decoder accepts exactly these strings. */
  lemma DecodesExactlyPadded(s: string, a: string)
    requires GoodAlphabet(a)
    ensures DecodeOf(s, a).Ok? <==> exists data, pad :: IsPadded(s, a, data, pad)
  {
    var (end, signs) := Unpadded(s);
    TextDecodes(s[..end], a);
    hide OctetsOfText, LastIndex;
    if DecodeOf(s, a).Ok? {
      assert s == s[..end] + s[end..];
      assert signs == 1 ==> s[end..] == "=";
      assert signs == 2 ==> s[end..] == "==";
      assert IsPadded(s, a, s[..end], s[end..]);
    }
    forall data, pad | IsPadded(s, a, data, pad) ensures DecodeOf(s, a).Ok? {
      PaddingIs(s, a, data, pad);
    }
  }

  lemma PaddingIs(s: string, a: string, data: string, pad: string)
    requires GoodAlphabet(a) && IsPadded(s, a, data, pad)
    ensures Unpadded(s) == (|data|, |pad|) && s[..|data|] == data
  {
    assert forall i :: 0 <= i < |data| ==> s[i] == data[i] && s[i] != '=';
    assert forall i :: |data| <= i < |s| ==> s[i] == pad[i - |data|];
  }

  /** ToInt32 of the specification of the source language. */
  function Int32(x: int): int {
    (x + 0x8000_0000) % 0x1_0000_0000 - 0x8000_0000
  }

  /** acc << 6 | v: six zero bits make room for the sextet. */
  function ShiftIn(acc: int, v: nat): int
    requires v < 64
  {
    Int32(acc * 64) + v
  }

  /** acc >> bits & 0xff, an arithmetic shift. */
  function TakeOctet(acc: int, bits: nat): byte {
    if bits == 0 then acc % 256 else if bits == 2 then acc / 4 % 256 else acc / 16 % 256
  }

  /** Overflow only loses bits that were already taken: the low twelve are the last two sextets. */
  lemma LowBits(acc: int, u: nat, v: nat)
    requires u < 64 && v < 64 && acc % 64 == u
    ensures ShiftIn(acc, v) % 4096 == u * 64 + v && ShiftIn(acc, v) % 64 == v
  {
    var m := acc / 64;
    var x := acc * 64 + 0x8000_0000;
    var r := m - x / 0x1_0000_0000 * 0x10_0000;
    assert acc == m * 64 + u;
    assert x == x / 0x1_0000_0000 * 0x1_0000_0000 + x % 0x1_0000_0000;
    assert ShiftIn(acc, v) == r * 4096 + (u * 64 + v);
    hide ShiftIn;
    Radix.DivModIs(ShiftIn(acc, v), 4096, r, u * 64 + v);
    Radix.DivModIs(ShiftIn(acc, v), 64, r * 64 + u, v);
  }

  lemma TakeLowBits(acc: int, u: nat, v: nat)
    requires u < 64 && v < 64 && acc % 4096 == u * 64 + v
    ensures TakeOctet(acc, 4) == First(u, v) && TakeOctet(acc, 2) == Second(u, v) && TakeOctet(acc, 0) == Third(u, v)
  {
    var k := acc / 4096;
    assert acc == k * 4096 + u * 64 + v;
    Radix.DivModIs(acc, 16, k * 256 + (u * 4 + v / 16), v % 16);
    Radix.DivModIs(acc / 16, 256, k, u * 4 + v / 16);
    Radix.DivModIs(acc, 4, k * 1024 + (u * 16 + v / 4), v % 4);
    Radix.DivModIs(acc / 4, 256, k * 4 + u / 16, u % 16 * 16 + v / 4);
    Radix.DivModIs(acc, 256, k * 16 + u / 4, u % 4 * 64 + v);
  }

  lemma NextCount(n: nat)
    ensures OctetCount(n + 1) == OctetCount(n) + (if n % 4 == 0 then 0 else 1)
    ensures n * 6 % 8 == (if n % 4 == 0 then 0 else 8 - 2 * (n % 4))
  {
    var g, e := n / 4, n % 4;
    OctetCountIs(g, e);
    if e < 3 { OctetCountIs(g, e + 1); } else { OctetCountIs(g + 1, 0); }
    var r := if e == 0 then 0 else e - 1;
    Radix.DivModIs((4 * g + e) * 6, 8, 3 * g + r, 6 * e - 8 * r);
  }

  lemma CountGrows(i: nat, n: nat)
    requires i <= n
    ensures OctetCount(i) <= OctetCount(n)
  {
    OctetCountIs(i / 4, i % 4);
    OctetCountIs(n / 4, n % 4);
  }

  /** One turn of the loop: the accumulator keeps the last sextet, and the octet taken from it, when
      eight bits are there, is the next octet of the sextet string. */
  lemma Turn(acc: int, bits: nat, vs: seq<nat>, v: nat)
    requires Sextets(vs) && v < 64 && bits == |vs| * 6 % 8 && (vs != [] ==> acc % 64 == vs[|vs| - 1])
    ensures ShiftIn(acc, v) % 64 == v && Sextets(vs + [v])
    ensures Octets(vs + [v]) == Octets(vs) + (if bits + 6 >= 8 then [TakeOctet(ShiftIn(acc, v), bits + 6 - 8)] else [])
  {
    hide Octets, ShiftIn, TakeOctet, First, Second, Third;
    NextCount(|vs|);
    LowBits(acc, acc % 64, v);
    TakeLowBits(ShiftIn(acc, v), acc % 64, v);
    OctetsGrow(vs, v);
  }

  method Decode(s: string, t: array<int>, ghost a: string) returns (r: Result<Bytes, Base64Error>)
    requires GoodAlphabet(a) && t.Length == 256
    requires forall code :: 0 <= code < 256 ==> t[code] == LastIndex(a, code)
    ensures r == DecodeOf(s, a)
  {
    var end := |s|;
    var pad := 0;
    if end > 0 && s[end - 1] == '=' {
      pad := pad + 1;
      end := end - 1;
      if end > 0 && s[end - 1] == '=' {
        pad := pad + 1;
        end := end - 1;
      }
    }
    assert Unpadded(s) == (end, pad);
    var rem := end % 4;
    if rem == 1 { return Err(DanglingSextet); }
    if pad > 0 && (rem == 0 || (rem == 2 && pad != 2) || (rem == 3 && pad != 1)) { return Err(BadPadding); }
    r := DecodeText(s[..end], t, a);
  }

  /** The loop over the characters that carry data. */
  method DecodeText(s: string, t: array<int>, ghost a: string) returns (r: Result<Bytes, Base64Error>)
    requires GoodAlphabet(a) && t.Length == 256
    requires forall code :: 0 <= code < 256 ==> t[code] == LastIndex(a, code)
    ensures r == OctetsOfText(s, a)
  {
    var out := new byte[OctetCount(|s|)](_ => 0);
    var acc := 0;
    var bits := 0;
    var o := 0;
    ghost var vs: seq<nat> := [];
    NoOctets();
    hide LastIndex, ShiftIn, TakeOctet, Octets, OctetCount, Sextets;
    for i := 0 to |s|
      invariant |vs| == i && Sextets(vs) && forall k :: 0 <= k < i ==> LastIndex(a, s[k] as int) == vs[k]
      invariant o == OctetCount(i) && bits == i * 6 % 8
      invariant i > 0 ==> acc % 64 == vs[i - 1]
      invariant out[..o] == Octets(vs)
    {
      if s[i] as int > 255 {
        CodeTooLarge(a, s[i] as int);
        return Err(IllegalCharacter);
      }
      var v := t[s[i] as int];
      if v < 0 { return Err(IllegalCharacter); }
      LastIndexFinds(a, s[i] as int);
      Turn(acc, bits, vs, v);
      NextCount(i);
      NextCount(i + 1);
      CountGrows(i + 1, |s|);
      vs := vs + [v];
      acc := ShiftIn(acc, v);
      bits := bits + 6;
      if bits >= 8 {
        bits := bits - 8;
        out[o] := TakeOctet(acc, bits);
        o := o + 1;
        assert out[..o] == out[..o - 1] + [out[o - 1]];
      }
    }
    assert SextetsOf(s, a) == vs;
    assert out[..] == out[..o];
    r := Ok(out[..]);
  }

  lemma NoOctets()
    ensures Sextets([]) && Octets([]) == []
  {
  }

  lemma CodeTooLarge(a: string, code: nat)
    requires GoodAlphabet(a) && code > 255
    ensures LastIndex(a, code) < 0
  {
    LastIndexFinds(a, code);
  }

  // ---- encoding -------------------------------------------------------------------------------

  function OrZero(b: Bytes, i: nat): byte {
    if i < |b| then b[i] else 0
  }

  /** The four sextets of the octets x, y, z. */
  function SextetOne(x: byte): nat { x / 4 }
  function SextetTwo(x: byte, y: byte): nat { x % 4 * 16 + y / 16 }
  function SextetThree(y: byte, z: byte): nat { y % 16 * 4 + z / 64 }
  function SextetFour(z: byte): nat { z % 64 }

  lemma SextetsInRange(x: byte, y: byte, z: byte)
    ensures SextetOne(x) < 64 && SextetTwo(x, y) < 64 && SextetThree(y, z) < 64 && SextetFour(z) < 64
  {
  }

  lemma OctetsReturn(x: byte, y: byte, z: byte)
    ensures SextetOne(x) < 64 && SextetTwo(x, y) < 64 && SextetThree(y, z) < 64 && SextetFour(z) < 64
    ensures First(SextetOne(x), SextetTwo(x, y)) == x
    ensures Second(SextetTwo(x, y), SextetThree(y, z)) == y
    ensures Third(SextetThree(y, z), SextetFour(z)) == z
  {
    Radix.DivModIs(SextetTwo(x, y), 16, x % 4, y / 16);
    Radix.DivModIs(SextetThree(y, z), 4, y % 16, z / 64);
  }

  /** Sextet j of an octet string: its bits 6j to 6j + 5, zeros standing in past the end. */
  ghost function SextetAt(b: Bytes, j: nat): nat {
    var q := j / 4;
    if j % 4 == 0 then SextetOne(OrZero(b, 3 * q))
    else if j % 4 == 1 then SextetTwo(OrZero(b, 3 * q), OrZero(b, 3 * q + 1))
    else if j % 4 == 2 then SextetThree(OrZero(b, 3 * q + 1), OrZero(b, 3 * q + 2))
    else SextetFour(OrZero(b, 3 * q + 2))
  }

  ghost function SextetsFor(b: Bytes): (v: seq<nat>)
    ensures |v| == SextetCount(|b|) && Sextets(v) && forall j :: 0 <= j < |v| ==> v[j] == SextetAt(b, j)
  {
    seq(SextetCount(|b|), j requires 0 <= j < SextetCount(|b|) => SextetAt(b, j))
  }

  ghost function Chars(v: seq<nat>, a: string): (s: string)
    requires |a| == 64 && Sextets(v)
    ensures |s| == |v| && forall j :: 0 <= j < |v| ==> s[j] == a[v[j]]
  {
    seq(|v|, i requires 0 <= i < |v| => a[v[i]])
  }

  function Padding(n: nat): string {
    if n % 3 == 0 then "" else if n % 3 == 1 then "==" else "="
  }

  ghost function EncodeOf(b: Bytes, a: string, padding: bool): string
    requires |a| == 64
  {
    Chars(SextetsFor(b), a) + (if padding then Padding(|b|) else "")
  }

  lemma SextetsOfGroup(b: Bytes, q: nat)
    ensures SextetAt(b, 4 * q) == SextetOne(OrZero(b, 3 * q))
    ensures SextetAt(b, 4 * q + 1) == SextetTwo(OrZero(b, 3 * q), OrZero(b, 3 * q + 1))
    ensures SextetAt(b, 4 * q + 2) == SextetThree(OrZero(b, 3 * q + 1), OrZero(b, 3 * q + 2))
    ensures SextetAt(b, 4 * q + 3) == SextetFour(OrZero(b, 3 * q + 2))
  {
    hide SextetOne, SextetTwo, SextetThree, SextetFour;
    Radix.DivModIs(4 * q, 4, q, 0);
    Radix.DivModIs(4 * q + 1, 4, q, 1);
    Radix.DivModIs(4 * q + 2, 4, q, 2);
    Radix.DivModIs(4 * q + 3, 4, q, 3);
  }

  lemma OctetsOfGroup(v: seq<nat>, q: nat)
    requires Sextets(v)
    ensures 3 * q < OctetCount(|v|) ==> 4 * q + 1 < |v| && OctetAt(v, 3 * q) == First(v[4 * q], v[4 * q + 1])
    ensures 3 * q + 1 < OctetCount(|v|) ==>
            4 * q + 2 < |v| && OctetAt(v, 3 * q + 1) == Second(v[4 * q + 1], v[4 * q + 2])
    ensures 3 * q + 2 < OctetCount(|v|) ==>
            4 * q + 3 < |v| && OctetAt(v, 3 * q + 2) == Third(v[4 * q + 2], v[4 * q + 3])
  {
    if 3 * q < OctetCount(|v|) { OctetSpans(|v|, q, 0); }
    if 3 * q + 1 < OctetCount(|v|) { OctetSpans(|v|, q, 1); }
    if 3 * q + 2 < OctetCount(|v|) { OctetSpans(|v|, q, 2); }
    hide OctetCount, First, Second, Third;
    Radix.DivModIs(3 * q, 3, q, 0);
    Radix.DivModIs(3 * q + 1, 3, q, 1);
    Radix.DivModIs(3 * q + 2, 3, q, 2);
  }

  /** The octets taken back from an octet string's sextets. */
  lemma OctetsOfSextets(b: Bytes)
    ensures Octets(SextetsFor(b)) == b
  {
    var v := SextetsFor(b);
    CountsReturn(|b|);
    hide OctetCount, SextetCount, SextetsFor;
    forall j | 0 <= j < |b| ensures OctetAt(v, j) == b[j] {
      OneOctetReturns(b, v, j / 3, j % 3);
    }
  }

  lemma OneOctetReturns(b: Bytes, v: seq<nat>, q: nat, r: nat)
    requires r < 3 && 3 * q + r < |b| && v == SextetsFor(b) && OctetCount(|v|) == |b|
    ensures OctetAt(v, 3 * q + r) == b[3 * q + r]
  {
    hide OctetCount, SextetCount, SextetsFor, OctetAt;
    EnoughSextets(|b|, q, r);
    if r == 0 { FirstReturns(b, v, q); } else if r == 1 { SecondReturns(b, v, q); } else { ThirdReturns(b, v, q); }
  }

  lemma FirstReturns(b: Bytes, v: seq<nat>, q: nat)
    requires v == SextetsFor(b) && OctetCount(|v|) == |b| && 3 * q < |b| && 4 * q + 1 < |v|
    ensures OctetAt(v, 3 * q) == b[3 * q]
  {
    hide SextetCount, SextetOne, SextetTwo, SextetThree, SextetFour;
    hide OctetCount, SextetsFor, OctetAt, SextetAt, First, Second, Third;
    SextetsOfGroup(b, q);
    OctetsOfGroup(v, q);
    OctetsReturn(b[3 * q], OrZero(b, 3 * q + 1), OrZero(b, 3 * q + 2));
  }

  lemma SecondReturns(b: Bytes, v: seq<nat>, q: nat)
    requires v == SextetsFor(b) && OctetCount(|v|) == |b| && 3 * q + 1 < |b| && 4 * q + 2 < |v|
    ensures OctetAt(v, 3 * q + 1) == b[3 * q + 1]
  {
    hide SextetCount, SextetOne, SextetTwo, SextetThree, SextetFour;
    hide OctetCount, SextetsFor, OctetAt, SextetAt, First, Second, Third;
    SextetsOfGroup(b, q);
    OctetsOfGroup(v, q);
    OctetsReturn(b[3 * q], b[3 * q + 1], OrZero(b, 3 * q + 2));
  }

  lemma ThirdReturns(b: Bytes, v: seq<nat>, q: nat)
    requires v == SextetsFor(b) && OctetCount(|v|) == |b| && 3 * q + 2 < |b| && 4 * q + 3 < |v|
    ensures OctetAt(v, 3 * q + 2) == b[3 * q + 2]
  {
    hide SextetCount, SextetOne, SextetTwo, SextetThree, SextetFour;
    hide OctetCount, SextetsFor, OctetAt, SextetAt, First, Second, Third;
    SextetsOfGroup(b, q);
    OctetsOfGroup(v, q);
    OctetsReturn(b[3 * q], b[3 * q + 1], b[3 * q + 2]);
  }

  /** n >> 18, n >> 12 & 63, n >> 6 & 63 and n & 63 of three octets packed into n. */
  lemma PackedSextets(x: byte, y: byte, z: byte, n: nat)
    requires n == x * 65536 + y * 256 + z
    ensures n / 262144 == SextetOne(x) && n / 4096 % 64 == SextetTwo(x, y)
         && n / 64 % 64 == SextetThree(y, z) && n % 64 == SextetFour(z)
  {
    Radix.DivModIs(n, 262144, x / 4, x % 4 * 65536 + y * 256 + z);
    Radix.DivModIs(n, 4096, x * 16 + y / 16, y % 16 * 256 + z);
    Radix.DivModIs(n / 4096, 64, x / 4, x % 4 * 16 + y / 16);
    Radix.DivModIs(n, 64, x * 1024 + y * 4 + z / 64, z % 64);
    Radix.DivModIs(n / 64, 64, x * 16 + y / 16, y % 16 * 4 + z / 64);
  }

  lemma EarlierSextet(b: Bytes, k: nat, j: nat)
    requires k % 3 == 0 && k <= |b| && j < k / 3 * 4
    ensures SextetAt(b, j) == SextetAt(b[..k], j)
  {
    assert j / 4 * 3 + 2 < k;
  }

  /** The characters of the last one to three octets follow those of the octets before. */
  lemma CharsGrow(b: Bytes, k: nat, a: string)
    requires |a| == 64 && k % 3 == 0 && k < |b| <= k + 3
    ensures var x, y, z := b[k], OrZero(b, k + 1), OrZero(b, k + 2);
            && SextetOne(x) < 64 && SextetTwo(x, y) < 64 && SextetThree(y, z) < 64 && SextetFour(z) < 64
            && Chars(SextetsFor(b), a)
            == Chars(SextetsFor(b[..k]), a) + [a[SextetOne(x)], a[SextetTwo(x, y)]]
               + (if |b| > k + 1 then [a[SextetThree(y, z)]] else []) + (if |b| > k + 2 then [a[SextetFour(z)]] else [])
  {
    hide SextetCount, SextetsFor, Chars, SextetAt, SextetOne, SextetTwo, SextetThree, SextetFour;
    var q, m := k / 3, k / 3 * 4;
    SextetsInRange(b[k], OrZero(b, k + 1), OrZero(b, k + 2));
    SextetsOfGroup(b, q);
    var head := b[..k];
    forall j | 0 <= j < m ensures SextetAt(b, j) == SextetAt(head, j) {
      EarlierSextet(b, k, j);
    }
    SextetCountIs(q, 0);
    if |b| == k + 3 { SextetCountIs(q + 1, 0); } else { SextetCountIs(q, |b| - k); }
    assert |SextetsFor(head)| == m;
  }

  method Encode(b: Bytes, alphabet: string, padding: bool) returns (s: string)
    requires |alphabet| == 64
    ensures s == EncodeOf(b, alphabet, padding)
  {
    s := "";
    var i := 0;
    hide SextetOne, SextetTwo, SextetThree, SextetFour, SextetAt;
    assert Chars(SextetsFor([]), alphabet) == "";
    assert b[..0] == [];
    while i + 2 < |b|
      invariant i % 3 == 0 && i <= |b|
      invariant s == Chars(SextetsFor(b[..i]), alphabet)
    {
      var n := b[i] * 65536 + b[i + 1] as nat * 256 + b[i + 2];
      PackedSextets(b[i], b[i + 1], b[i + 2], n);
      assert b[..i + 3][..i] == b[..i];
      CharsGrow(b[..i + 3], i, alphabet);
      s := s + [alphabet[n / 262144], alphabet[n / 4096 % 64]] + [alphabet[n / 64 % 64]] + [alphabet[n % 64]];
      i := i + 3;
      assert s == Chars(SextetsFor(b[..i]), alphabet);
    }
    if i < |b| {
      var n := b[i] * 65536 + (if i + 1 < |b| then b[i + 1] as nat else 0) * 256;
      PackedSextets(b[i], OrZero(b, i + 1), 0, n);
      CharsGrow(b, i, alphabet);
      s := s + [alphabet[n / 262144], alphabet[n / 4096 % 64]];
      s := s + (if i + 1 < |b| then [alphabet[n / 64 % 64]] else if padding then "=" else "");
      s := s + (if padding then "=" else "");
    } else {
      assert b[..i] == b;
    }
  }

  /** Decoding inverts encoding, for both alphabets, with and without padding. */
  lemma DecodeOfEncode(b: Bytes, a: string, padding: bool)
    requires GoodAlphabet(a)
    ensures DecodeOf(EncodeOf(b, a, padding), a) == Ok(b)
  {
    var v := SextetsFor(b);
    var chars, s := Chars(v, a), EncodeOf(b, a, padding);
    hide SextetsFor, Octets, LastIndex;
    UnpaddedEncoding(b, a, padding);
    assert s[..|v|] == chars;
    forall i | 0 <= i < |v| ensures LastIndex(a, s[i] as int) == v[i] {
      assert s[i] == a[v[i]];
      LastIndexIs(a, v[i], s[i] as int);
    }
    assert SextetsOf(chars, a) == v;
    OctetsOfSextets(b);
  }

  lemma UnpaddedEncoding(b: Bytes, a: string, padding: bool)
    requires GoodAlphabet(a)
    ensures Unpadded(EncodeOf(b, a, padding)) == (|SextetsFor(b)|, if padding then |Padding(|b|)| else 0)
    ensures |SextetsFor(b)| % 4 == if |b| % 3 == 0 then 0 else |b| % 3 + 1
  {
    var v := SextetsFor(b);
    var s := EncodeOf(b, a, padding);
    CountsReturn(|b|);
    hide SextetsFor, SextetCount;
    if v != [] {
      assert s[|v| - 1] == a[v[|v| - 1]] != '=';
    }
  }

  /** A string of whole groups that decodes without padding is the encoding of what it decodes to. */
  lemma EncodeOfDecode(s: string, a: string)
    requires GoodAlphabet(a) && DecodeOf(s, a).Ok? && |s| % 4 == 0 && (s != "" ==> s[|s| - 1] != '=')
    ensures EncodeOf(DecodeOf(s, a).value, a, false) == s
  {
    var b := DecodeOf(s, a).value;
    assert s[..|s|] == s;
    LegalSextets(s, a);
    var v := SextetsOf(s, a);
    OctetCountIs(|s| / 4, 0);
    SextetCountIs(|s| / 4, 0);
    OctetsOfSextets(b);
    OctetsInjective(SextetsFor(b), v);
    assert Chars(v, a) == s;
  }

  /** Among strings of 76 characters, those that decode to 57 octets are their encodings, so at most
      one decodes to any given 57 octets, and comparing such a token with its re-encoded octets never
      rejects it. */
  lemma SeventySixCharacters(s: string, a: string)
    requires GoodAlphabet(a) && |s| == 76 && DecodeOf(s, a).Ok? && |DecodeOf(s, a).value| == 57
    ensures EncodeOf(DecodeOf(s, a).value, a, false) == s
  {
    assert s[75] == '=' ==> Unpadded(s).0 <= 75;
    EncodeOfDecode(s, a);
  }
}
