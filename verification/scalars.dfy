/** The non-grouped AVP data types of models_base: how each is written to and read from an AVP body. */
module Scalars {
  import opened Bytes

  datatype Kind =
    | Unsigned32 | Unsigned64 | Integer32 | Integer64 | Enumerated
    | Float32 | Float64
    | OctetString | UTF8String | DiameterIdentity | DiameterURI
    | IPFilterRule | QoSFilterRule
    | Address | Time

  /** Word holds an integer or the bit pattern of a float; Instant holds Unix seconds. */
  datatype Scalar = Word(n: int) | Octets(s: bytes) | Instant(unix: int)

  /** Clash is a decoder result the emitted type assertion does not accept: the program panics. */
  datatype Decoded = Value(v: Scalar) | Error | Clash

  predicate HasKind(v: Scalar, kind: Kind) {
    match kind
    case Unsigned32 | Float32 => v.Word? && 0 <= v.n < U32_SPAN
    case Unsigned64 | Float64 => v.Word? && 0 <= v.n < U64_SPAN
    case Integer32 | Enumerated => v.Word? && -0x8000_0000 <= v.n < 0x8000_0000
    case Integer64 => v.Word? && -0x8000_0000_0000_0000 <= v.n < 0x8000_0000_0000_0000
    case Time => v.Instant?
    case _ => v.Octets?
  }

  /** What a field of the kind holds before anything is stored in it. */
  function Zero(kind: Kind): (v: Scalar)
    ensures HasKind(v, kind)
  {
    match kind
    case Unsigned32 | Float32 | Unsigned64 | Float64 | Integer32 | Enumerated | Integer64 => Word(0)
    case Time => Instant(YEAR_ONE)
    case _ => Octets([])
  }

  // Unix seconds of the zero time.Time, 1 January of the year 1.
  const YEAR_ONE := -62135596800

  // --- Address ---

  /** net.IP.To4: the four-byte form of a, when it has one. */
  predicate IsMapped(a: bytes) {
    |a| == 16 && a[..10] == Zeros(10) && a[10] == 255 && a[11] == 255
  }

  function Family(b: bytes): (f: nat)
    requires |b| >= 2
  {
    b[0] as int * 256 + b[1]
  }

  function SerializeAddress(a: bytes): (b: bytes) {
    if |a| == 4 then [0, 1] + a
    else if IsMapped(a) then [0, 1] + a[12..]
    else if |a| == 16 then [0, 2] + a
    else a
  }

  function AddressLen(a: bytes): (n: nat)
    ensures n == |SerializeAddress(a)|
  {
    if |a| == 4 || IsMapped(a) then 6 else if |a| == 16 then 18 else |a|
  }

  function DecodeAddress(b: bytes): (r: Decoded) {
    if |b| < 3 then Error
    else if Family(b) == 0 || Family(b) == 65535 then Error
    else if Family(b) == 1 then (if |b[2..]| != 4 then Error else Value(Octets(b[2..])))
    else if Family(b) == 2 then (if |b[2..]| != 16 then Error else Value(Octets(b[2..])))
    else Value(Octets(b))
  }

  // --- Time ---

  const RFC868_OFFSET := 2208988800
  const RFC2030_OFFSET := 2085978496

  function SerializeTime(unix: int): (b: bytes)
    ensures |b| == 4
  {
    Put32((unix % 0x1_0000_0000 + RFC868_OFFSET) % 0x1_0000_0000)
  }

  function DecodeTime(b: bytes): (r: Decoded) {
    if |b| != 4 then Clash
    else if !Bit(b[0], 0x80) then Value(Instant(Get32(b) + RFC2030_OFFSET))
    else Value(Instant(Get32(b) - RFC868_OFFSET))
  }

  // --- all kinds ---

  function Serialize(kind: Kind, v: Scalar): (b: bytes)
    requires HasKind(v, kind)
  {
    match kind
    case Unsigned32 | Float32 => Put32(v.n)
    case Integer32 | Enumerated => Put32(Unsigned(v.n, U32_SPAN))
    case Unsigned64 | Float64 => Put64(v.n)
    case Integer64 => Put64(Unsigned(v.n, U64_SPAN))
    case Address => SerializeAddress(v.s)
    case Time => SerializeTime(v.unix)
    case _ => v.s
  }

  /** A numeric body of the wrong length decodes to zero without an error. */
  function Decode(kind: Kind, b: bytes): (r: Decoded)
    ensures r.Value? ==> HasKind(r.v, kind)
  {
    match kind
    case Unsigned32 | Float32 => Value(Word(if |b| != 4 then 0 else Get32(b)))
    case Integer32 | Enumerated => Value(Word(if |b| != 4 then 0 else Signed(Get32(b), U32_SPAN)))
    case Unsigned64 | Float64 => Value(Word(if |b| != 8 then 0 else Get64(b)))
    case Integer64 => Value(Word(if |b| != 8 then 0 else Signed(Get64(b), U64_SPAN)))
    case Address => DecodeAddress(b)
    case Time => DecodeTime(b)
    case _ => Value(Octets(b))
  }

  /** Two's complement reading of an unsigned word of the given span. */
  function Signed(n: nat, span: nat): (i: int)
    requires n < span && span in {U32_SPAN, U64_SPAN}
    ensures -(span / 2) <= i < span / 2
  {
    if n < span / 2 then n else n - span
  }

  /** The unsigned word with the bit pattern of i. */
  function Unsigned(i: int, span: nat): (n: nat)
    requires span in {U32_SPAN, U64_SPAN} && -(span / 2) <= i < span / 2
    ensures n < span && Signed(n, span) == i
  {
    if i < 0 then i + span else i
  }

  // --- the bytes on the wire ---

  /** The number that four bytes hold, most significant first. */
  predicate Holds32(b: bytes, n: int) {
    |b| == 4 && b[0] as int * 0x100_0000 + b[1] as int * 0x1_0000 + b[2] as int * 0x100 + b[3] == n
  }

  /** What is written for each kind (sections 4.2 and 4.3.1 of RFC 6733): numbers most significant byte first, negative
      ones in two's complement, a time as the seconds since 1900 modulo 2^32, text as it is. */
  lemma WrittenAs(kind: Kind, v: Scalar)
    requires HasKind(v, kind)
    ensures var b := Serialize(kind, v);
            match kind
            case Unsigned32 | Float32 => Holds32(b, v.n)
            case Integer32 | Enumerated => Holds32(b, if v.n < 0 then v.n + 0x1_0000_0000 else v.n)
            case Unsigned64 | Float64 =>
              |b| == 8 && Holds32(b[..4], v.n / 0x1_0000_0000) && Holds32(b[4..], v.n % 0x1_0000_0000)
            case Integer64 =>
              var n := if v.n < 0 then v.n + 0x1_0000_0000_0000_0000 else v.n;
              |b| == 8 && Holds32(b[..4], n / 0x1_0000_0000) && Holds32(b[4..], n % 0x1_0000_0000)
            case Time => Holds32(b, (v.unix + 2208988800) % 0x1_0000_0000)
            case Address => |v.s| == 4 ==> b == [0, 1] + v.s
            case _ => b == v.s
  {
    hide Put32, Put64, Holds32, SerializeAddress;
    match kind
    case Unsigned32 | Float32 => Holds(v.n);
    case Integer32 | Enumerated => Holds(Unsigned(v.n, U32_SPAN));
    case Unsigned64 | Float64 => HoldsTwo(v.n);
    case Integer64 => HoldsTwo(Unsigned(v.n, U64_SPAN));
    case Time => HoldsTime(v.unix);
    case Address => AddressWrittenAs(v.s);
    case _ =>
  }

  lemma HoldsTime(unix: int)
    ensures Holds32(SerializeTime(unix), (unix + 2208988800) % 0x1_0000_0000)
  {
    AddMod32(unix, 2208988800);
    WrapsOnce(unix % 0x1_0000_0000);
    hide Put32, Holds32;
    Holds((unix + 2208988800) % 0x1_0000_0000);
  }

  lemma WrapsOnce(r: u32)
    ensures (r + 2208988800) % 0x1_0000_0000
            == if r + 2208988800 < 0x1_0000_0000 then r + 2208988800 else r + 2208988800 - 0x1_0000_0000
  {
  }

  lemma Holds(n: nat)
    requires n < U32_SPAN
    ensures Holds32(Put32(n), n)
  {
    GetPut32(n);
  }

  lemma HoldsTwo(n: nat)
    requires n < U64_SPAN
    ensures Holds32(Put64(n)[..4], n / 0x1_0000_0000) && Holds32(Put64(n)[4..], n % 0x1_0000_0000)
  {
    BigEndian(n);
    BigEndian(n / 0x1_0000_0000);
    BigEndian(n % 0x1_0000_0000);
    var high, low := n / 0x1_0000_0000, n % 0x1_0000_0000;
    Holds(high);
    Holds(low);
    assert Put64(n)[..4] == Put32(high);
    LowWord(n);
    assert Put64(n)[4..] == Put32(low);
  }

  lemma LowWord(n: nat)
    ensures Put32(n) == Put32(n % 0x1_0000_0000)
  {
    GetPut32(n);
    GetPut32(n % 0x1_0000_0000);
    PutGet32(Put32(n));
    PutGet32(Put32(n % 0x1_0000_0000));
  }

  /** An address is written as a family of two bytes, 1 for four bytes and 2 for sixteen, and the address; sixteen bytes
      that start with ten zeros and two bytes of 255 count as the last four.  Anything else is written as it is. */
  lemma AddressWrittenAs(a: bytes)
    ensures var b := SerializeAddress(a);
            if |a| == 4 then b == [0, 1] + a
            else if |a| == 16 then
              b == if a[..12] == [0, 0, 0, 0, 0, 0, 0, 0, 0, 0, 255, 255] then [0, 1] + a[12..] else [0, 2] + a
            else b == a
  {
    if |a| == 16 {
      assert a[..12] == a[..10] + [a[10], a[11]];
      assert Zeros(10) == [0, 0, 0, 0, 0, 0, 0, 0, 0, 0];
      assert a[..12] == [0, 0, 0, 0, 0, 0, 0, 0, 0, 0, 255, 255] ==> a[..12][..10] == a[..10] && a[10] == a[..12][10];
    }
  }

  /** What is read from a body: a number of the wrong length is zero; an address of family 1 or 2 needs four or sixteen
      bytes, families 0 and 65535 and bodies below three bytes are refused, other families are kept as they are; a time
      counts from 1900 when the first bit is set and from 2036 when it is not; text is kept. */
  lemma ReadAs(kind: Kind, b: bytes)
    ensures var r := Decode(kind, b);
            match kind
            case Unsigned32 | Float32 | Integer32 | Enumerated => |b| != 4 ==> r == Value(Word(0))
            case Unsigned64 | Float64 | Integer64 => |b| != 8 ==> r == Value(Word(0))
            case Address =>
              if |b| < 3 || b[..2] == [0, 0] || b[..2] == [255, 255] then r == Error
              else if b[..2] == [0, 1] then r == (if |b| == 6 then Value(Octets(b[2..])) else Error)
              else if b[..2] == [0, 2] then r == (if |b| == 18 then Value(Octets(b[2..])) else Error)
              else r == Value(Octets(b))
            case Time =>
              if |b| != 4 then r == Clash
              else r.Value? && Holds32(b, if b[0] >= 128 then r.v.unix + 2208988800 else r.v.unix - 2085978496)
            case _ => r == Value(Octets(b))
  {
    if kind.Address? && |b| >= 3 {
      assert forall x, y :: b[..2] == [x, y] <==> b[0] == x && b[1] == y;
    }
  }

  // --- what survives a round trip, said without the codec ---

  /** The instant congruent to unix that the four-byte NTP word can name: 1968-01-20 to 2104-02-26. */
  const FIRST_INSTANT := -61505152
  const LAST_INSTANT := 4233462143

  function CanonInstant(unix: int): (u: int)
    ensures FIRST_INSTANT <= u <= LAST_INSTANT
  {
    FIRST_INSTANT + (unix - FIRST_INSTANT) % 0x1_0000_0000
  }

  /** IPv4-mapped addresses shrink to four bytes; a raw value is re-read by its family, and may be unreadable. */
  function CanonAddress(a: bytes): (r: Decoded) {
    if |a| == 4 then Value(Octets(a))
    else if |a| == 16 then Value(Octets(if IsMapped(a) then a[12..] else a))
    else if |a| < 3 || Family(a) == 0 || Family(a) == 65535 then Error
    else if Family(a) == 1 then (if |a| == 6 then Value(Octets(a[2..])) else Error)
    else if Family(a) == 2 then (if |a| == 18 then Value(Octets(a[2..])) else Error)
    else Value(Octets(a))
  }

  function Canon(kind: Kind, v: Scalar): (r: Decoded)
    requires HasKind(v, kind)
    ensures !r.Clash? && (r.Error? ==> kind.Address?)
    ensures r.Value? ==> HasKind(r.v, kind)
  {
    match kind
    case Address => CanonAddress(v.s)
    case Time => Value(Instant(CanonInstant(v.unix)))
    case _ => Value(v)
  }

  lemma AddressRoundTrip(a: bytes)
    ensures DecodeAddress(SerializeAddress(a)) == CanonAddress(a)
  {
    var b := SerializeAddress(a);
    if |a| == 4 || |a| == 16 {
      assert b[2..] == (if IsMapped(a) then a[12..] else a);
    }
  }

  /** The other direction: a decodable body is the encoding of what it decodes to, unless it holds an IPv4-mapped
      address under family 2, or an unknown family whose raw length looks like an IP address. */
  lemma AddressBodyRoundTrip(b: bytes)
    requires DecodeAddress(b).Value?
    ensures SerializeAddress(DecodeAddress(b).v.s) == b
            <==> !(Family(b) == 2 && IsMapped(b[2..])) && !(Family(b) !in {1, 2} && |b| in {4, 16})
  {
    var a := DecodeAddress(b).v.s;
    assert b == b[..2] + b[2..];
    if Family(b) in {1, 2} {
      assert b[..2] == [0, Family(b)];
    } else if |b| == 16 {
      assert |SerializeAddress(a)| != 16;
    }
  }

  lemma AddMod32(u: int, k: u32)
    ensures (u + k) % 0x1_0000_0000
            == var r := u % 0x1_0000_0000; if r + k < 0x1_0000_0000 then r + k else r + k - 0x1_0000_0000
  {
    var q, r := u / 0x1_0000_0000, u % 0x1_0000_0000;
    assert u + k == q * 0x1_0000_0000 + (r + k);
  }

  lemma TimeRoundTrip(unix: int)
    ensures DecodeTime(SerializeTime(unix)) == Value(Instant(CanonInstant(unix)))
  {
    var w := (unix % 0x1_0000_0000 + 2208988800) % 0x1_0000_0000;
    var c := (unix + 61505152) % 0x1_0000_0000;
    AddMod32(unix, 61505152);
    assert w == if c < 0x8000_0000 then c + 0x8000_0000 else c - 0x8000_0000;
    GetPut32(w);
    assert Put32(w)[0] == w / 0x100_0000;
  }

  /** The canonical instant is the given one exactly inside the era, and congruent to it modulo 2^32 always. */
  lemma CanonInstantMeaning(unix: int)
    ensures FIRST_INSTANT <= unix <= LAST_INSTANT <==> CanonInstant(unix) == unix
    ensures exists k :: CanonInstant(unix) == unix + k * U32_SPAN
  {
    var k := -((unix + 61505152) / 0x1_0000_0000);
    assert CanonInstant(unix) == unix + k * U32_SPAN;
  }

  /** The other direction: every four-byte body is the encoding of what it decodes to. */
  lemma TimeBodyRoundTrip(b: bytes)
    requires |b| == 4
    ensures DecodeTime(b).Value? && SerializeTime(DecodeTime(b).v.unix) == b
  {
    PutGet32(b);
    var n := Get32(b);
    var u := DecodeTime(b).v.unix;
    assert u == n as int + 2085978496 || u == n as int - 2208988800;
    hide Get32, Put32, Bit;
    BackToWord(u, n);
  }

  lemma BackToWord(u: int, n: u32)
    requires u == n + 2085978496 || u == n - 2208988800
    ensures (u % 0x1_0000_0000 + 2208988800) % 0x1_0000_0000 == n
  {
    AddMod32(u, 2208988800);
    WrapsOnce(u % 0x1_0000_0000);
    SmallWord(n);
  }

  lemma SmallWord(n: u32)
    ensures n % 0x1_0000_0000 == n && (n + 0x1_0000_0000) % 0x1_0000_0000 == n
  {
  }

  lemma ScalarRoundTrip(kind: Kind, v: Scalar)
    requires HasKind(v, kind)
    ensures Decode(kind, Serialize(kind, v)) == Canon(kind, v)
  {
    match kind
    case Unsigned32 | Float32 => GetPut32(v.n);
    case Integer32 | Enumerated => GetPut32(Unsigned(v.n, U32_SPAN));
    case Unsigned64 | Float64 => GetPut64(v.n);
    case Integer64 => GetPut64(Unsigned(v.n, U64_SPAN));
    case Address => AddressRoundTrip(v.s);
    case Time => TimeRoundTrip(v.unix);
    case _ =>
  }
}
