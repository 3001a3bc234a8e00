/** The error answer the relay builds by hand for a request it cannot forward. */
module ProtocolErrors {
  import opened Bytes
  import opened Headers
  import opened Avps
  import opened Rewriter

  const RESULT_CODE: u32 := 268

  const DIAMETER_UNABLE_TO_DELIVER: u32 := 3002
  const DIAMETER_REALM_NOT_SERVED: u32 := 3003
  const DIAMETER_INVALID_AVP_VALUE: u32 := 5004
  const DIAMETER_UNABLE_TO_COMPLY: u32 := 5012

  function ErrorAvps(resultCode: u32, host: bytes, realm: bytes): (chunks: seq<bytes>) {
    [PrintAvp(RESULT_CODE, 0, true, false, Put32(resultCode)), StringAvp(ORIGIN_HOST, host),
     StringAvp(ORIGIN_REALM, realm)]
  }

  /** The answer to a request: R clear, P kept, E set, the request's identifiers. */
  function ErrorAnswer(req: Shallow, resultCode: u32, host: bytes, realm: bytes): (out: bytes) {
    var avps := Concat(ErrorAvps(resultCode, host, realm));
    PrintHeader(Header(1, (HEADER_LENGTH + |avps|) % 0x1_0000_0000, Flags(false, Bit(req.flags, 0x40), true, false),
                       req.command, req.application, req.hopByHop, req.endToEnd)) + avps
  }

  method BuildProtocolError(req: Shallow, resultCode: u32, host: bytes, realm: bytes) returns (out: bytes)
    requires req.command < U24_SPAN
    ensures out == ErrorAnswer(req, resultCode, host, realm)
  {
    var rcAvp := ResultCodeAvp(resultCode);
    var hostAvp := EncodeStringAVP(ORIGIN_HOST, host, true);
    var realmAvp := EncodeStringAVP(ORIGIN_REALM, realm, true);
    hide PrintAvp, Concat, Put24, Put32;
    var avps := rcAvp[..] + hostAvp[..] + realmAvp[..];
    ErrorAvpsConcat(resultCode, host, realm);
    var header := ErrorHeader(req, HEADER_LENGTH + |avps|);
    out := header + avps;
  }

  method ResultCodeAvp(resultCode: u32) returns (rcAvp: array<byte>)
    ensures fresh(rcAvp) && rcAvp[..] == PrintAvp(RESULT_CODE, 0, true, false, Put32(resultCode))
  {
    rcAvp := new byte[12](_ => 0);
    rcAvp[2], rcAvp[3], rcAvp[4], rcAvp[7] := 1, 12, 0x40, 12;
    rcAvp[8], rcAvp[9] := resultCode / 0x100_0000 % 256, resultCode / 0x1_0000 % 256;
    rcAvp[10], rcAvp[11] := resultCode / 0x100 % 256, resultCode % 256;
    ResultCodeBytes(resultCode);
  }

  method ErrorHeader(req: Shallow, total: nat) returns (header: bytes)
    requires req.command < U24_SPAN
    ensures header == PrintHeader(Header(1, total % 0x1_0000_0000, Flags(false, Bit(req.flags, 0x40), true, false),
                                         req.command, req.application, req.hopByHop, req.endToEnd))
  {
    var length: u32 := total % 0x1_0000_0000;
    var flags: byte := If(Bit(req.flags, 0x40), 0x40) + 0x20;
    header := [1] + Put24(length) + [flags] + Put24(req.command)
              + Put32(req.application) + Put32(req.hopByHop) + Put32(req.endToEnd);
  }

  lemma ResultCodeBytes(resultCode: u32)
    ensures PrintAvp(RESULT_CODE, 0, true, false, Put32(resultCode))
            == [0, 0, 1, 12, 0x40, 0, 0, 12] + Put32(resultCode)
  {
    assert Put32(268) == [0, 0, 1, 12];
    assert Put24(12) == [0, 0, 12];
  }

  lemma ErrorAvpsConcat(resultCode: u32, host: bytes, realm: bytes)
    ensures Concat(ErrorAvps(resultCode, host, realm))
            == PrintAvp(RESULT_CODE, 0, true, false, Put32(resultCode)) + StringAvp(ORIGIN_HOST, host)
            + StringAvp(ORIGIN_REALM, realm)
  {
    var a := PrintAvp(RESULT_CODE, 0, true, false, Put32(resultCode));
    var b, c := StringAvp(ORIGIN_HOST, host), StringAvp(ORIGIN_REALM, realm);
    hide PrintAvp, StringAvp;
    ConcatAppend([a, b], [c]);
    ConcatAppend([a], [b]);
    ConcatOne(a);
    ConcatOne(b);
    ConcatOne(c);
    assert [a, b, c] == [a, b] + [c] && [a, b] == [a] + [b];
  }

  lemma ErrorAvpsWalk(resultCode: u32, host: bytes, realm: bytes)
    requires PrintedLength(0, host) < U24_SPAN && PrintedLength(0, realm) < U24_SPAN
    ensures var w := Walk(Concat(ErrorAvps(resultCode, host, realm)));
            w.stop == Clean && |w.chunks| == 3
            && Seen(w.chunks[0]) == View(RESULT_CODE, 0, Put32(resultCode))
            && Seen(w.chunks[1]) == View(ORIGIN_HOST, 0, host) && Seen(w.chunks[2]) == View(ORIGIN_REALM, 0, realm)
  {
    var chunks := ErrorAvps(resultCode, host, realm);
    PrintIsAvp(RESULT_CODE, 0, true, false, Put32(resultCode));
    PrintIsAvp(ORIGIN_HOST, 0, true, false, host);
    PrintIsAvp(ORIGIN_REALM, 0, true, false, realm);
    hide IsAvp, HeaderFits, PrintAvp, Walk, Seen, Concat;
    forall c <- chunks
      ensures IsAvp(c)
    {
      assert c == chunks[0] || c == chunks[1] || c == chunks[2];
    }
    WalkOfAvps(chunks);
  }

  lemma ErrorAnswerParts(req: Shallow, resultCode: u32, host: bytes, realm: bytes)
    ensures var out, avps := ErrorAnswer(req, resultCode, host, realm), Concat(ErrorAvps(resultCode, host, realm));
            |out| == HEADER_LENGTH + |avps| && out[HEADER_LENGTH..] == avps
  {
    hide Concat, ErrorAvps, PrintHeader;
  }

  /** Whoever sent the request recognises the answer: same command, application and identifiers, an answer with the
      error bit; it holds exactly the result code and the relay's identity, which both AVP walkers read. */
  lemma ErrorAnswerRead(req: Shallow, resultCode: u32, host: bytes, realm: bytes)
    requires req.command < U24_SPAN
    requires PrintedLength(0, host) < U24_SPAN && PrintedLength(0, realm) < U24_SPAN
    ensures var out := ErrorAnswer(req, resultCode, host, realm);
            |out| >= HEADER_LENGTH
            && ReadHeader(out) == Header(1, |out| % 0x100_0000, Flags(false, Bit(req.flags, 0x40), true, false),
                                         req.command, req.application, req.hopByHop, req.endToEnd)
    ensures var w := Walk(ErrorAnswer(req, resultCode, host, realm)[HEADER_LENGTH..]);
            w.stop == Clean && |w.chunks| == 3
            && Seen(w.chunks[0]) == View(RESULT_CODE, 0, Put32(resultCode))
            && Seen(w.chunks[1]) == View(ORIGIN_HOST, 0, host) && Seen(w.chunks[2]) == View(ORIGIN_REALM, 0, realm)
  {
    hide IsAvp, HeaderFits, PrintAvp, Walk, Seen, Concat, PrintHeader, ReadHeader, ErrorAvps;
    var avps := Concat(ErrorAvps(resultCode, host, realm));
    var n := HEADER_LENGTH + |avps|;
    ErrorAvpsWalk(resultCode, host, realm);
    ErrorAnswerParts(req, resultCode, host, realm);
    HeaderRoundTrip(Header(1, n % 0x1_0000_0000, Flags(false, Bit(req.flags, 0x40), true, false),
                           req.command, req.application, req.hopByHop, req.endToEnd), avps);
    WordLength(n);
  }

  /** The error answer in bytes: version 1, the true length, of the flags only E and, if the request has it, P, and what
      identifies the request; then a mandatory Result-Code and the relay's mandatory Origin-Host and Origin-Realm. */
  lemma ErrorAnswerBytes(req: Shallow, resultCode: u32, host: bytes, realm: bytes)
    requires req.command < U24_SPAN && 8 + |host| < 0x100_0000 && 8 + |realm| < 0x100_0000
    ensures var out := ErrorAnswer(req, resultCode, host, realm);
            Laid(out, Header(1, |out| % 0x100_0000, Flags(false, req.flags / 64 % 2 == 1, true, false), req.command,
                             req.application, req.hopByHop, req.endToEnd))
            && out[4] == 0x20 + (if req.flags / 64 % 2 == 1 then 0x40 else 0)
            && ErrorBody(out[20..], resultCode, host, realm)
  {
    var out := ErrorAnswer(req, resultCode, host, realm);
    ErrorFlags(req, resultCode, host, realm);
    ErrorAnswerRead(req, resultCode, host, realm);
    ErrorAnswerParts(req, resultCode, host, realm);
    hide Concat, ErrorAvps, PrintHeader, ReadHeader, Laid, Walk, Seen, ErrorBody, ErrorAnswer;
    ReadIsLaid(out);
    ErrorBodyBytes(resultCode, host, realm);
  }

  /** Result-Code (268, unsigned), Origin-Host and Origin-Realm, all mandatory, and nothing else. */
  predicate ErrorBody(avps: bytes, resultCode: u32, host: bytes, realm: bytes) {
    var n := 12 + Padded(8 + |host|);
    n <= |avps| && avps[..8] == [0, 0, 1, 12, 0x40, 0, 0, 12]
    && avps[8..12] == [resultCode / 0x100_0000 % 256, resultCode / 0x1_0000 % 256, resultCode / 0x100 % 256,
                       resultCode % 256]
    && NameAvp(avps[12..n], 8, host) && NameAvp(avps[n..], 40, realm)
  }

  lemma ErrorBodyBytes(resultCode: u32, host: bytes, realm: bytes)
    requires 8 + |host| < 0x100_0000 && 8 + |realm| < 0x100_0000
    ensures ErrorBody(Concat(ErrorAvps(resultCode, host, realm)), resultCode, host, realm)
  {
    var a, b, c := [0, 0, 1, 12, 0x40, 0, 0, 12] + Put32(resultCode), StringAvp(264, host), StringAvp(296, realm);
    hide PrintAvp, StringAvp, Concat, NameAvp, Put32, ErrorAvps;
    StringAvpIsName(264, 8, host);
    StringAvpIsName(296, 40, realm);
    NameAvpLength(b, 8, host);
    ErrorAvpsConcat(resultCode, host, realm);
    ResultCodeBytes(resultCode);
    BigEndian(resultCode);
    var avps := a + b + c;
    assert avps[..8] == a[..8] && avps[8..12] == a[8..12] == Put32(resultCode);
    assert avps[12..12 + |b|] == b && avps[12 + |b|..] == c;
  }

  lemma NameAvpLength(c: bytes, low: byte, name: bytes)
    requires NameAvp(c, low, name)
    ensures |c| == Padded(8 + |name|)
  {
  }

  lemma ErrorFlags(req: Shallow, resultCode: u32, host: bytes, realm: bytes)
    ensures |ErrorAnswer(req, resultCode, host, realm)| >= 20
    ensures ErrorAnswer(req, resultCode, host, realm)[4] == 0x20 + (if req.flags / 64 % 2 == 1 then 0x40 else 0)
    ensures Bit(req.flags, 0x40) == (req.flags / 64 % 2 == 1)
  {
    hide Concat, ErrorAvps;
  }
}
