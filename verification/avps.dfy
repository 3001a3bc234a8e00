/** The AVP layer: one AVP is a chunk of bytes with its padding, and a message body is a row of chunks. */
module Avps {
  import opened Bytes

  // --- one AVP ---

  /** The header length of the AVP at the front of data. */
  function HeaderSize(data: bytes): (n: nat)
    requires |data| >= 8
    ensures n == 8 || n == 12
  {
    if Bit(data[4], 0x80) then 12 else 8
  }

  /** The AVP length field: header and body, without padding. */
  function AvpLength(data: bytes): (n: u24)
    requires |data| >= 8
  {
    Get24(data[5..8])
  }

  /** Does data start with an AVP whose length field fits both its header and data? */
  predicate HeaderFits(data: bytes) {
    |data| >= 8 && HeaderSize(data) <= AvpLength(data) <= |data|
  }

  function Code(data: bytes): (c: u32)
    requires |data| >= 8
  {
    Get32(data[..4])
  }

  /** The vendor of the AVP, zero when the V bit is clear. */
  function Vendor(data: bytes): (v: u32)
    requires HeaderFits(data)
  {
    if HeaderSize(data) == 12 then Get32(data[8..12]) else 0
  }

  function Body(data: bytes): (b: bytes)
    requires HeaderFits(data)
    ensures |b| == AvpLength(data) - HeaderSize(data)
  {
    data[HeaderSize(data)..AvpLength(data)]
  }

  /** What a reader sees of an AVP. */
  datatype View = View(code: u32, vendor: u32, body: bytes)

  function Seen(data: bytes): (v: View)
    requires HeaderFits(data)
  {
    View(Code(data), Vendor(data), Body(data))
  }

  /** A whole AVP: header, body and padding, nothing more. */
  predicate IsAvp(c: bytes) {
    HeaderFits(c) && |c| == Padded(AvpLength(c))
  }

  /** The layout of section 4.1 of RFC 6733, in bytes: code, flags with the V bit first, a length of 24 bits, and a
      vendor if the V bit is set; the length says where the body ends. */
  lemma AvpLaid(d: bytes)
    ensures HeaderFits(d) <==>
              |d| >= 8 && (if d[4] >= 128 then 12 else 8) <= d[5] as int * 0x1_0000 + d[6] as int * 0x100 + d[7] <= |d|
    ensures HeaderFits(d) ==>
              var n := d[5] as int * 0x1_0000 + d[6] as int * 0x100 + d[7];
              AvpLength(d) == n
              && Code(d) == d[0] as int * 0x100_0000 + d[1] as int * 0x1_0000 + d[2] as int * 0x100 + d[3]
              && Vendor(d) == (if d[4] < 128 then 0
                               else d[8] as int * 0x100_0000 + d[9] as int * 0x1_0000 + d[10] as int * 0x100 + d[11])
              && Body(d) == (if d[4] < 128 then d[8..n] else d[12..n])
  {
    if |d| >= 8 {
      assert d[5..8] == [d[5], d[6], d[7]] && d[..4] == [d[0], d[1], d[2], d[3]];
      if |d| >= 12 {
        assert d[8..12] == [d[8], d[9], d[10], d[11]];
      }
    }
  }

  // --- printing one AVP ---

  function FlagByte(vendor: bool, must: bool, protect: bool): (b: byte) {
    If(vendor, 0x80) + If(must, 0x40) + If(protect, 0x20)
  }

  /** The emitted marshalAVP and marshalAVPWithVendor; the latter with vendor 0 writes the former's bytes. */
  function PrintAvp(code: u32, vendor: u32, must: bool, protect: bool, body: bytes): (c: bytes) {
    var header := if vendor != 0 then 12 else 8;
    var total := header + |body|;
    Put32(code) + [FlagByte(vendor != 0, must, protect)] + Put24(total)
    + (if vendor != 0 then Put32(vendor) else []) + body + Zeros(Padded(total) - total)
  }

  function PrintedLength(vendor: u32, body: bytes): (n: nat) {
    (if vendor != 0 then 12 else 8) + |body|
  }

  /** While the length fits its 24 bits, what is printed is one whole AVP, seen as it was meant. */
  lemma PrintIsAvp(code: u32, vendor: u32, must: bool, protect: bool, body: bytes)
    requires PrintedLength(vendor, body) < U24_SPAN
    ensures var c := PrintAvp(code, vendor, must, protect, body);
            IsAvp(c) && Seen(c) == View(code, vendor, body) && AvpLength(c) == PrintedLength(vendor, body)
  {
    var c := PrintAvp(code, vendor, must, protect, body);
    var total := PrintedLength(vendor, body);
    GetPut32(code);
    GetPut32(vendor);
    GetPut24(total);
    assert c[..4] == Put32(code);
    assert c[5..8] == Put24(total);
    assert Bit(c[4], 0x80) <==> vendor != 0;
    if vendor != 0 {
      assert c[8..12] == Put32(vendor);
      assert c[12..total] == body;
    } else {
      assert c[8..total] == body;
    }
  }

  /** Its flags byte holds the V, M and P bits and no other, and its padding is zeros. */
  lemma PrintedFlags(code: u32, vendor: u32, must: bool, protect: bool, body: bytes)
    ensures var c := PrintAvp(code, vendor, must, protect, body);
            |c| >= 8
            && c[4] == (if vendor != 0 then 0x80 else 0) + (if must then 0x40 else 0) + (if protect then 0x20 else 0)
            && forall i :: PrintedLength(vendor, body) <= i < |c| ==> c[i] == 0
  {
  }

  /** From 2^24 on the length field wraps: no reader of the AVP gets the body back. */
  lemma PrintTooLong(code: u32, vendor: u32, must: bool, protect: bool, body: bytes)
    requires PrintedLength(vendor, body) >= U24_SPAN
    ensures var c := PrintAvp(code, vendor, must, protect, body);
            HeaderFits(c) ==> Body(c) != body
  {
  }

  // --- walking a row of AVPs ---

  /** How a walk ended: at the end of the data; inside the padding of the last AVP; before a rest of one to seven
      bytes; or at an AVP whose length field is wrong. */
  datatype Stop = Clean | Ragged | Short | Bad

  datatype Walked = Walked(chunks: seq<bytes>, stop: Stop)

  function Total(chunks: seq<bytes>): (n: nat)
    ensures n == |Concat(chunks)|
  {
    if chunks == [] then 0 else |chunks[0]| + Total(chunks[1..])
  }

  function Walk(data: bytes): (w: Walked)
    ensures forall c <- w.chunks :: HeaderFits(c)
    ensures Total(w.chunks) <= |data|
    decreases |data|
  {
    if |data| == 0 then Walked([], Clean)
    else if |data| < 8 then Walked([], Short)
    else if !HeaderFits(data) then Walked([], Bad)
    else
      var n := Padded(AvpLength(data));
      if n > |data| then Walked([data], Ragged)
      else
        HeadSame(data, n);
        var rest := Walk(data[n..]);
        Walked([data[..n]] + rest.chunks, rest.stop)
  }

  /** The cases of the walk. */
  lemma WalkUnfold(data: bytes)
    ensures |data| == 0 ==> Walk(data) == Walked([], Clean)
    ensures HeaderFits(data) ==> |data| >= 8
    ensures |data| > 0 && !HeaderFits(data) ==> Walk(data).chunks == [] && Walk(data).stop in {Short, Bad}
    ensures HeaderFits(data) ==>
              var n := Padded(AvpLength(data));
              0 < |data| && AvpLength(data) <= |data| && 8 <= n
              && Walk(data) == if n > |data| then Walked([data], Ragged)
                               else Walked([data[..n]] + Walk(data[n..]).chunks, Walk(data[n..]).stop)
  {
  }

  /** The chunks are the data, cut up: nothing is skipped, reordered or read twice. */
  lemma {:induction false} WalkTiles(data: bytes)
    ensures Concat(Walk(data).chunks) <= data
    ensures Walk(data).stop in {Clean, Ragged} <==> Concat(Walk(data).chunks) == data
    decreases |data|
  {
    if HeaderFits(data) {
      var n := Padded(AvpLength(data));
      if n > |data| {
        ConcatOne(data);
      } else {
        WalkTiles(data[n..]);
        assert data == data[..n] + data[n..];
      }
    }
  }

  /** The walk stops before a rest too short for a header exactly when what it has not visited is that short. */
  lemma {:induction false} ShortExactly(data: bytes)
    ensures Walk(data).stop == Short <==> 0 < |data| - |Concat(Walk(data).chunks)| < 8
    decreases |data|
  {
    WalkUnfold(data);
    if HeaderFits(data) {
      var n := Padded(AvpLength(data));
      if n > |data| {
        ConcatOne(data);
      } else {
        ShortExactly(data[n..]);
      }
    }
  }

  /** The walk stops early only where it must: what it has not visited is no AVP. */
  lemma {:induction false} StopsOnlyThere(data: bytes)
    ensures Concat(Walk(data).chunks) <= data
    ensures Walk(data).stop in {Short, Bad} ==> !HeaderFits(data[|Concat(Walk(data).chunks)|..])
    decreases |data|
  {
    WalkTiles(data);
    WalkUnfold(data);
    hide HeaderFits, Walk, AvpLength;
    if HeaderFits(data) && Padded(AvpLength(data)) <= |data| {
      var n := Padded(AvpLength(data));
      StopsOnlyThere(data[n..]);
      var m := |Concat(Walk(data[n..]).chunks)|;
      assert |Concat(Walk(data).chunks)| == n + m;
      assert data[n..][m..] == data[n + m..];
    } else if !HeaderFits(data) {
      assert data[0..] == data;
    }
  }

  /** Cutting data behind its first AVP, or gluing more behind it, does not change how that AVP is seen. */
  lemma HeadSame(data: bytes, n: nat)
    requires HeaderFits(data) && AvpLength(data) <= n <= |data|
    ensures HeaderFits(data[..n]) && Seen(data[..n]) == Seen(data) && AvpLength(data[..n]) == AvpLength(data)
  {
    var d := data[..n];
    assert d[5..8] == data[5..8];
    assert d[..4] == data[..4];
    assert d[HeaderSize(data)..AvpLength(data)] == data[HeaderSize(data)..AvpLength(data)];
    if HeaderSize(data) == 12 {
      assert d[8..12] == data[8..12];
    }
  }

  lemma HeadGlued(a: bytes, b: bytes)
    requires |a| >= 8
    ensures HeaderSize(a + b) == HeaderSize(a) && AvpLength(a + b) == AvpLength(a)
  {
    assert (a + b)[5..8] == a[5..8];
  }

  /** One step of the walk, over an AVP whose padding is all there. */
  lemma WalkStep(c: bytes, rest: bytes)
    requires IsAvp(c)
    ensures Walk(c + rest) == Walked([c] + Walk(rest).chunks, Walk(rest).stop)
  {
    HeadGlued(c, rest);
    assert (c + rest)[..|c|] == c;
    assert (c + rest)[|c|..] == rest;
  }

  /** The walk passes over a row of whole AVPs, one by one, into whatever follows. */
  lemma {:induction false} WalkPast(chunks: seq<bytes>, rest: bytes)
    requires forall c <- chunks :: IsAvp(c)
    ensures Walk(Concat(chunks) + rest) == Walked(chunks + Walk(rest).chunks, Walk(rest).stop)
  {
    if chunks == [] {
      assert Concat(chunks) + rest == rest;
    } else {
      var c, tail := chunks[0], chunks[1..];
      WalkPast(tail, rest);
      WalkStep(c, Concat(tail) + rest);
      Assoc(c, Concat(tail), rest);
      Assoc([c], tail, Walk(rest).chunks);
      assert chunks == [c] + tail;
    }
  }

  /** The walk inverts concatenation of whole AVPs. */
  lemma WalkOfAvps(chunks: seq<bytes>)
    requires forall c <- chunks :: IsAvp(c)
    ensures Walk(Concat(chunks)) == Walked(chunks, Clean)
  {
    WalkPast(chunks, []);
    assert Concat(chunks) + [] == Concat(chunks);
  }

  /** Every chunk is a whole AVP, except that the last one of a ragged walk lacks padding. */
  predicate WholeButLast(w: Walked) {
    if w.stop == Ragged then
      |w.chunks| > 0 && (forall i :: 0 <= i < |w.chunks| - 1 ==> IsAvp(w.chunks[i]))
      && var last := w.chunks[|w.chunks| - 1]; HeaderFits(last) && |last| < Padded(AvpLength(last))
    else
      forall i :: 0 <= i < |w.chunks| ==> IsAvp(w.chunks[i])
  }

  lemma {:induction false} WalkGivesAvps(data: bytes)
    ensures WholeButLast(Walk(data))
    decreases |data|
  {
    if HeaderFits(data) && Padded(AvpLength(data)) <= |data| {
      var n := Padded(AvpLength(data));
      HeadSame(data, n);
      WalkGivesAvps(data[n..]);
    }
  }

  /** A clean walk continues into whatever follows. */
  lemma WalkThrough(a: bytes, b: bytes)
    requires Walk(a).stop == Clean
    ensures Walk(a + b) == Walked(Walk(a).chunks + Walk(b).chunks, Walk(b).stop)
  {
    WalkGivesAvps(a);
    WalkTiles(a);
    WalkPast(Walk(a).chunks, b);
  }

  /** Data made of whole 32-bit words never ends inside padding. */
  lemma {:induction false} AlignedNotRagged(data: bytes)
    requires |data| % 4 == 0
    ensures Walk(data).stop != Ragged
    decreases |data|
  {
    if HeaderFits(data) {
      var n := Padded(AvpLength(data));
      if n <= |data| {
        AlignedNotRagged(data[n..]);
      }
    }
  }
}
