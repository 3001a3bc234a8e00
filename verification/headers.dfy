/** The 20-byte Diameter header, as the emitted marshalHeader and unmarshalHeader write and read it. */
module Headers {
  import opened Bytes

  const HEADER_LENGTH: nat := 20

  datatype Flags = Flags(request: bool, proxiable: bool, error: bool, retransmitted: bool)

  datatype Header = Header(version: byte, length: u32, flags: Flags, command: u32,
                           application: u32, hopByHop: u32, endToEnd: u32)

  function FlagsByte(f: Flags): (b: byte) {
    If(f.request, 0x80) + If(f.proxiable, 0x40) + If(f.error, 0x20) + If(f.retransmitted, 0x10)
  }

  function FlagsOf(b: byte): (f: Flags) {
    Flags(Bit(b, 0x80), Bit(b, 0x40), Bit(b, 0x20), Bit(b, 0x10))
  }

  function PrintHeader(h: Header): (b: bytes)
    ensures |b| == HEADER_LENGTH
  {
    [h.version] + Put24(h.length) + [FlagsByte(h.flags)] + Put24(h.command)
    + Put32(h.application) + Put32(h.hopByHop) + Put32(h.endToEnd)
  }

  function ReadHeader(b: bytes): (h: Header)
    requires |b| >= HEADER_LENGTH
  {
    Header(b[0], Get24(b[1..4]), FlagsOf(b[4]), Get24(b[5..8]),
           Get32(b[8..12]), Get32(b[12..16]), Get32(b[16..20]))
  }

  /** The length and the command code keep their low 24 bits; everything else comes back. */
  lemma HeaderRoundTrip(h: Header, rest: bytes)
    ensures ReadHeader(PrintHeader(h) + rest)
            == h.(length := h.length % 0x100_0000, command := h.command % 0x100_0000)
  {
    var b := PrintHeader(h) + rest;
    assert b[1..4] == Put24(h.length);
    assert b[5..8] == Put24(h.command);
    assert b[8..12] == Put32(h.application);
    assert b[12..16] == Put32(h.hopByHop);
    assert b[16..20] == Put32(h.endToEnd);
    GetPut24(h.length);
    GetPut24(h.command);
    GetPut32(h.application);
    GetPut32(h.hopByHop);
    GetPut32(h.endToEnd);
    assert FlagsOf(FlagsByte(h.flags)) == h.flags;
  }

  /** The layout of section 3 of RFC 6733: where each field is, most significant byte first. */
  predicate Laid(b: bytes, h: Header) {
    && |b| >= 20 && b[0] == h.version
    && b[1] as int * 0x1_0000 + b[2] as int * 0x100 + b[3] == h.length
    && (b[4] >= 128 <==> h.flags.request) && (b[4] / 64 % 2 == 1 <==> h.flags.proxiable)
    && (b[4] / 32 % 2 == 1 <==> h.flags.error) && (b[4] / 16 % 2 == 1 <==> h.flags.retransmitted)
    && b[5] as int * 0x1_0000 + b[6] as int * 0x100 + b[7] == h.command
    && b[8] as int * 0x100_0000 + b[9] as int * 0x1_0000 + b[10] as int * 0x100 + b[11] == h.application
    && b[12] as int * 0x100_0000 + b[13] as int * 0x1_0000 + b[14] as int * 0x100 + b[15] == h.hopByHop
    && b[16] as int * 0x100_0000 + b[17] as int * 0x1_0000 + b[18] as int * 0x100 + b[19] == h.endToEnd
  }

  lemma ReadIsLaid(b: bytes)
    requires |b| >= HEADER_LENGTH
    ensures Laid(b, ReadHeader(b))
  {
    assert b[1..4] == [b[1], b[2], b[3]] && b[5..8] == [b[5], b[6], b[7]];
    assert b[8..12] == [b[8], b[9], b[10], b[11]] && b[12..16] == [b[12], b[13], b[14], b[15]];
    assert b[16..20] == [b[16], b[17], b[18], b[19]];
  }

  /** The printed header has that layout, with the reserved flag bits clear. */
  lemma PrintIsLaid(h: Header, rest: bytes)
    ensures Laid(PrintHeader(h) + rest, h.(length := h.length % 0x100_0000, command := h.command % 0x100_0000))
    ensures PrintHeader(h)[4] % 16 == 0
  {
    FourFlags(h);
    hide PrintHeader, ReadHeader, Laid;
    HeaderRoundTrip(h, rest);
    ReadIsLaid(PrintHeader(h) + rest);
  }

  lemma FourFlags(h: Header)
    ensures PrintHeader(h)[4] % 16 == 0
  {
  }

  /** binary.BigEndian.PutUint32 into four bytes of a buffer. */
  method PutUint32(b: array<byte>, at: nat, v: u32)
    requires at + 4 <= b.Length
    modifies b
    ensures b[..] == old(b[..at]) + Put32(v) + old(b[at + 4..])
  {
    b[at] := v / 0x100_0000 % 256;
    b[at + 1] := v / 0x1_0000 % 256;
    b[at + 2] := v / 0x100 % 256;
    b[at + 3] := v % 256;
  }

  /** marshalHeader: 32-bit stores into a buffer, each followed by restoring the byte it ran over. */
  method MarshalHeader(h: Header) returns (b: array<byte>)
    ensures fresh(b) && b[..] == PrintHeader(h)
  {
    hide Put24, FlagsByte;
    b := new byte[HEADER_LENGTH](_ => 0);
    b[0] := h.version;
    PutUint32(b, 0, h.length);
    b[0] := h.version;
    ghost var done := [h.version] + Put24(h.length);
    assert b[..4] == done;
    var flags: byte := FlagsByte(h.flags);
    b[4] := flags;
    PutUint32(b, 4, h.command);
    b[4] := flags;
    done := done + [flags] + Put24(h.command);
    assert b[..8] == b[..4] + [b[4]] + b[5..8] == done;
    PutUint32(b, 8, h.application);
    done := done + Put32(h.application);
    assert b[..12] == done;
    PutUint32(b, 12, h.hopByHop);
    done := done + Put32(h.hopByHop);
    assert b[..16] == done;
    PutUint32(b, 16, h.endToEnd);
    assert b[..] == b[..20] == done + Put32(h.endToEnd);
  }
}
