/** The relay's own view of a message: a shallow header, a second AVP walker, and the Origin rewriting. */
module Rewriter {
  import opened Wrappers
  import opened Bytes
  import opened Headers
  import opened Avps

  const ORIGIN_HOST: u32 := 264
  const ORIGIN_REALM: u32 := 296
  const DESTINATION_HOST: u32 := 293
  const DESTINATION_REALM: u32 := 283

  // --- the shallow header ---

  datatype Shallow = Shallow(version: byte, length: u32, flags: byte, command: u32,
                             application: u32, hopByHop: u32, endToEnd: u32)
  {
    predicate IsRequest() {
      Bit(flags, 0x80)
    }
  }

  function ParseShallow(b: bytes): (h: Shallow)
    requires |b| >= HEADER_LENGTH
  {
    Shallow(b[0], Get24(b[1..4]), b[4], Get24(b[5..8]), Get32(b[8..12]), Get32(b[12..16]), Get32(b[16..20]))
  }

  /** The relay's header and the codec's header are two views of the same twenty bytes. */
  lemma ShallowAgrees(b: bytes)
    requires |b| >= HEADER_LENGTH
    ensures var s, h := ParseShallow(b), ReadHeader(b);
            s.version == h.version && s.length == h.length && s.command == h.command && s.application == h.application
            && s.hopByHop == h.hopByHop && s.endToEnd == h.endToEnd && s.IsRequest() == h.flags.request
            && s.flags == b[4]
  {
  }

  function WithHopByHop(msg: bytes, id: u32): (r: bytes)
    requires |msg| >= HEADER_LENGTH
    ensures |r| == |msg|
  {
    msg[..12] + Put32(id) + msg[16..]
  }

  method SetHopByHop(msg: array<byte>, id: u32)
    requires msg.Length >= HEADER_LENGTH
    modifies msg
    ensures msg[..] == WithHopByHop(old(msg[..]), id)
  {
    PutUint32(msg, 12, id);
  }

  /** Only the Hop-by-Hop identifier changes. */
  lemma HopByHopReplaced(msg: bytes, id: u32)
    requires |msg| >= HEADER_LENGTH
    ensures ParseShallow(WithHopByHop(msg, id)) == ParseShallow(msg).(hopByHop := id)
    ensures WithHopByHop(msg, id)[HEADER_LENGTH..] == msg[HEADER_LENGTH..]
    ensures WithHopByHop(WithHopByHop(msg, id), ParseShallow(msg).hopByHop) == msg
  {
    var r := WithHopByHop(msg, id);
    assert r[1..4] == msg[1..4] && r[5..8] == msg[5..8] && r[8..12] == msg[8..12] && r[16..20] == msg[16..20];
    assert r[12..16] == Put32(id);
    GetPut32(id);
    PutGet32(msg[12..16]);
    assert msg == msg[..12] + msg[12..16] + msg[16..];
    assert r[..12] == msg[..12] && r[16..] == msg[16..];
  }

  // --- the second walker ---

  datatype AvpLoc = AvpLoc(start: nat, hdrLen: nat, dataLen: nat, paddedTo: nat)

  datatype Visit = Visit(code: u32, vendor: u32, loc: AvpLoc, body: bytes)

  datatype Iteration = Iteration(visits: seq<Visit>, ok: bool)

  /** The AVP at an offset, by its header fields, or None when its length is wrong. */
  function VisitAt(msg: bytes, pos: nat): (r: Option<Visit>)
    requires pos <= |msg|
    ensures r.Some? ==> r.value.loc.start == pos && r.value.loc.paddedTo >= 8
  {
    if pos + 8 > |msg| then None
    else
      var avpLen := Get24(msg[pos + 5..pos + 8]);
      if avpLen < 8 || avpLen > |msg| - pos then None
      else if !Bit(msg[pos + 4], 0x80) then
        Some(Visit(Get32(msg[pos..pos + 4]), 0, AvpLoc(pos, 8, avpLen - 8, Padded(avpLen)), msg[pos + 8..pos + avpLen]))
      else if pos + 12 > |msg| || avpLen < 12 then None
      else
        Some(Visit(Get32(msg[pos..pos + 4]), Get32(msg[pos + 8..pos + 12]),
                   AvpLoc(pos, 12, avpLen - 12, Padded(avpLen)), msg[pos + 12..pos + avpLen]))
  }

  /** iterateAVPs from an offset on: the calls it makes and whether it ends without an error.  The offset can run
      past the end over padding that is not there. */
  function Iterate(msg: bytes, pos: nat): (r: Iteration)
    decreases if pos < |msg| then |msg| - pos else 0
  {
    if pos >= |msg| then Iteration([], true)
    else
      match VisitAt(msg, pos)
      case None => Iteration([], false)
      case Some(v) =>
        var rest := Iterate(msg, pos + v.loc.paddedTo);
        Iteration([v] + rest.visits, rest.ok)
  }

  method IterateAVPs(msg: bytes) returns (r: Iteration)
    ensures r == if |msg| < HEADER_LENGTH then Iteration([], false) else Iterate(msg, HEADER_LENGTH)
  {
    hide *;
    if |msg| < HEADER_LENGTH {
      return Iteration([], false);
    }
    var visits: seq<Visit> := [];
    var pos := HEADER_LENGTH;
    while pos < |msg|
      invariant pos >= HEADER_LENGTH
      invariant Iterate(msg, HEADER_LENGTH)
                == Iteration(visits + Iterate(msg, pos).visits, Iterate(msg, pos).ok)
      decreases |msg| - pos
    {
      var look := ReadVisit(msg, pos);
      IterateStep(msg, pos);
      if look.None? {
        assert visits + [] == visits;
        return Iteration(visits, false);
      }
      Assoc(visits, [look.value], Iterate(msg, pos + look.value.loc.paddedTo).visits);
      visits := visits + [look.value];
      pos := pos + look.value.loc.paddedTo;
    }
    IterateStep(msg, pos);
    assert visits + [] == visits;
    return Iteration(visits, true);
  }

  lemma IterateStep(msg: bytes, pos: nat)
    ensures pos >= |msg| ==> Iterate(msg, pos) == Iteration([], true)
    ensures pos < |msg| && VisitAt(msg, pos).None? ==> Iterate(msg, pos) == Iteration([], false)
    ensures pos < |msg| && VisitAt(msg, pos).Some? ==>
              var v := VisitAt(msg, pos).value;
              var rest := Iterate(msg, pos + v.loc.paddedTo);
              Iterate(msg, pos) == Iteration([v] + rest.visits, rest.ok)
  {
  }

  /** The body of the loop of iterateAVPs, up to the call. */
  method ReadVisit(msg: bytes, pos: nat) returns (r: Option<Visit>)
    requires pos <= |msg|
    ensures r == VisitAt(msg, pos)
  {
    if pos + 8 > |msg| {
      return None;
    }
    var code := Get32(msg[pos..pos + 4]);
    var flags := msg[pos + 4];
    var avpLen := Get24(msg[pos + 5..pos + 8]);
    if avpLen < 8 || avpLen > |msg| - pos {
      return None;
    }
    var hdr := 8;
    var vendor: u32 := 0;
    if Bit(flags, 0x80) {
      if pos + 12 > |msg| {
        return None;
      }
      vendor := Get32(msg[pos + 8..pos + 12]);
      hdr := 12;
    }
    var dataLen := avpLen - hdr;
    if dataLen < 0 {
      return None;
    }
    var padded := avpLen as int;
    if padded % 4 != 0 {
      padded := padded + (4 - padded % 4);
    }
    return Some(Visit(code, vendor, AvpLoc(pos, hdr, dataLen, padded), msg[pos + hdr..pos + hdr + dataLen]));
  }

  /** The bytes a visit covers, with as much of the padding as is there. */
  function Covered(msg: bytes, v: Visit): (c: bytes)
    requires v.loc.start <= |msg|
  {
    var end := v.loc.start + v.loc.paddedTo;
    msg[v.loc.start..if end < |msg| then end else |msg|]
  }

  predicate Agrees(msg: bytes, v: Visit, c: bytes) {
    v.loc.start <= |msg| && Covered(msg, v) == c && HeaderFits(c) && Seen(c) == View(v.code, v.vendor, v.body)
    && v.loc.paddedTo == Padded(AvpLength(c)) && v.loc.hdrLen + v.loc.dataLen == AvpLength(c)
  }

  predicate Alike(msg: bytes, visits: seq<Visit>, chunks: seq<bytes>) {
    |visits| == |chunks| && forall k :: 0 <= k < |chunks| ==> Agrees(msg, visits[k], chunks[k])
  }

  /** The two AVP walkers agree on every input: the relay's sees exactly the AVPs the codec's sees, in order, and
      it ends without an error exactly when the codec's walk ends at the end of the data. */
  lemma {:induction false} WalkersAgree(msg: bytes, pos: nat)
    requires pos <= |msg|
    ensures var i, w := Iterate(msg, pos), Walk(msg[pos..]);
            (i.ok <==> w.stop in {Clean, Ragged}) && Alike(msg, i.visits, w.chunks)
    decreases |msg| - pos
  {
    hide *;
    var data := msg[pos..];
    LooksAgree(msg, pos);
    IterateStep(msg, pos);
    WalkUnfold(data);
    AlikeNone(msg);
    if HeaderFits(data) {
      var n := Padded(AvpLength(data));
      var v := VisitAt(msg, pos).value;
      IterateStep(msg, pos + n);
      if n <= |data| {
        assert data[n..] == msg[pos + n..];
        WalkersAgree(msg, pos + n);
        AlikeFirst(msg, v, data[..n], Iterate(msg, pos + n).visits, Walk(data[n..]).chunks);
      } else {
        AlikeFirst(msg, v, data, [], []);
        assert [v] + [] == [v] && [data] + [] == [data];
      }
    }
  }

  lemma AlikeNone(msg: bytes)
    ensures Alike(msg, [], [])
  {
  }

  lemma AlikeFirst(msg: bytes, v: Visit, c: bytes, visits: seq<Visit>, chunks: seq<bytes>)
    requires Agrees(msg, v, c) && Alike(msg, visits, chunks)
    ensures Alike(msg, [v] + visits, [c] + chunks)
  {
  }

  lemma LooksAgree(msg: bytes, pos: nat)
    requires pos <= |msg|
    ensures var data := msg[pos..];
            (VisitAt(msg, pos).Some? <==> HeaderFits(data))
            && (HeaderFits(data) ==>
                  var n := Padded(AvpLength(data));
                  VisitAt(msg, pos).value.loc.paddedTo == n
                  && Agrees(msg, VisitAt(msg, pos).value, if n > |data| then data else data[..n]))
  {
    var data := msg[pos..];
    if |data| >= 8 {
      assert msg[pos..pos + 4] == data[..4] && msg[pos + 5..pos + 8] == data[5..8];
      if HeaderFits(data) {
        SeenAt(msg, pos);
        var n := Padded(AvpLength(data));
        HeadSame(data, if n > |data| then |data| else n);
        assert data[..|data|] == data;
      }
    }
  }

  lemma SeenAt(msg: bytes, pos: nat)
    requires pos <= |msg| && HeaderFits(msg[pos..])
    ensures VisitAt(msg, pos).Some?
    ensures var v, data := VisitAt(msg, pos).value, msg[pos..];
            Seen(data) == View(v.code, v.vendor, v.body) && v.loc.hdrLen + v.loc.dataLen == AvpLength(data)
            && v.loc.paddedTo == Padded(AvpLength(data))
  {
    var data := msg[pos..];
    assert msg[pos..pos + 4] == data[..4] && msg[pos + 5..pos + 8] == data[5..8];
    assert msg[pos + HeaderSize(data)..pos + AvpLength(data)] == Body(data);
    if HeaderSize(data) == 12 {
      assert msg[pos + 8..pos + 12] == data[8..12];
    }
  }

  // --- routing AVPs ---

  /** Empty means not present; vendor-specific AVPs of the same code are passed over. */
  datatype RoutingView = RoutingView(originHost: bytes, originRealm: bytes, destinationHost: bytes,
                                     destinationRealm: bytes)

  /** The body of the last vendor-0 AVP of a code, or nothing. */
  function LastOf(visits: seq<Visit>, code: u32): (body: bytes) {
    if visits == [] then []
    else
      var v := visits[|visits| - 1];
      if v.vendor == 0 && v.code == code then v.body else LastOf(visits[..|visits| - 1], code)
  }

  function RoutingOf(visits: seq<Visit>): (rv: RoutingView) {
    RoutingView(LastOf(visits, ORIGIN_HOST), LastOf(visits, ORIGIN_REALM),
                LastOf(visits, DESTINATION_HOST), LastOf(visits, DESTINATION_REALM))
  }

  /** Is the k-th visit the last to an AVP of the code without vendor? */
  predicate IsLast(visits: seq<Visit>, code: u32, k: int) {
    0 <= k < |visits| && visits[k].vendor == 0 && visits[k].code == code
    && forall j :: k < j < |visits| ==> visits[j].vendor != 0 || visits[j].code != code
  }

  /** What the AVPs of a code without vendor say: the body of the last of them, or nothing when there is none. */
  predicate LastGives(visits: seq<Visit>, code: u32, value: bytes) {
    if exists v <- visits :: v.vendor == 0 && v.code == code then
      exists k :: 0 <= k < |visits| && IsLast(visits, code, k) && visits[k].body == value
    else
      value == []
  }

  lemma {:induction false} LastOfGives(visits: seq<Visit>, code: u32)
    ensures LastGives(visits, code, LastOf(visits, code))
  {
    if visits != [] {
      var before, v := visits[..|visits| - 1], visits[|visits| - 1];
      assert visits == before + [v];
      LastOfGives(before, code);
      if v.vendor == 0 && v.code == code {
        assert IsLast(visits, code, |before|) && v in visits;
      } else {
        var value := LastOf(before, code);
        hide LastOf;
        if k :| 0 <= k < |before| && IsLast(before, code, k) && before[k].body == value {
          assert IsLast(visits, code, k) && visits[k] == before[k] && visits[k] in visits;
        }
      }
    }
  }

  /** It says only one thing. */
  lemma LastGivesOne(visits: seq<Visit>, code: u32, value: bytes)
    requires LastGives(visits, code, value)
    ensures value == LastOf(visits, code)
  {
    LastOfGives(visits, code);
  }

  /** Each field of the view comes from the AVPs of its own code: Origin-Host 264, Origin-Realm 296, Destination-Host
      293, Destination-Realm 283. */
  lemma RoutingGives(visits: seq<Visit>)
    ensures var rv := RoutingOf(visits);
            LastGives(visits, 264, rv.originHost) && LastGives(visits, 296, rv.originRealm)
            && LastGives(visits, 293, rv.destinationHost) && LastGives(visits, 283, rv.destinationRealm)
  {
    hide LastOf, LastGives;
    LastOfGives(visits, 264);
    LastOfGives(visits, 296);
    LastOfGives(visits, 293);
    LastOfGives(visits, 283);
  }

  method ExtractRouting(msg: bytes) returns (rv: RoutingView, ok: bool)
    ensures |msg| < HEADER_LENGTH ==> !ok
    ensures |msg| >= HEADER_LENGTH ==>
              rv == RoutingOf(Iterate(msg, HEADER_LENGTH).visits) && ok == Iterate(msg, HEADER_LENGTH).ok
    ensures |msg| >= HEADER_LENGTH ==>
              var visits := Iterate(msg, HEADER_LENGTH).visits;
              LastGives(visits, 264, rv.originHost) && LastGives(visits, 296, rv.originRealm)
              && LastGives(visits, 293, rv.destinationHost) && LastGives(visits, 283, rv.destinationRealm)
  {
    hide Iterate, LastGives;
    var it := IterateAVPs(msg);
    rv := RoutingView([], [], [], []);
    var k := 0;
    while k < |it.visits|
      invariant k <= |it.visits|
      invariant rv == RoutingOf(it.visits[..k])
    {
      var v := it.visits[k];
      assert it.visits[..k + 1][..k] == it.visits[..k];
      if v.vendor == 0 {
        if v.code == ORIGIN_HOST {
          rv := rv.(originHost := v.body);
        } else if v.code == ORIGIN_REALM {
          rv := rv.(originRealm := v.body);
        } else if v.code == DESTINATION_HOST {
          rv := rv.(destinationHost := v.body);
        } else if v.code == DESTINATION_REALM {
          rv := rv.(destinationRealm := v.body);
        }
      }
      k := k + 1;
    }
    assert it.visits[..k] == it.visits;
    RoutingGives(it.visits);
    ok := it.ok;
  }

  // --- rewriting the Origin AVPs ---

  /** encodeStringAVP for a mandatory string. */
  function StringAvp(code: u32, value: bytes): (c: bytes) {
    PrintAvp(code, 0, true, false, value)
  }

  /** The bytes of an AVP that names the relay: code 256 + low, only the M bit, the length of 24 bits, the name, zeros
      up to a whole word. */
  predicate NameAvp(c: bytes, low: byte, name: bytes) {
    && 8 + |name| <= |c| < 8 + |name| + 4 && |c| % 4 == 0
    && c[..5] == [0, 0, 1, low, 0x40] && c[5] as int * 0x1_0000 + c[6] as int * 0x100 + c[7] == 8 + |name|
    && c[8..8 + |name|] == name && forall i :: 8 + |name| <= i < |c| ==> c[i] == 0
  }

  lemma StringAvpIsName(code: u32, low: byte, name: bytes)
    requires code == 256 + low && 8 + |name| < 0x100_0000
    ensures NameAvp(StringAvp(code, name), low, name)
  {
    var c := StringAvp(code, name);
    BigEndian(code);
    assert c[..4] == Put32(code);
    PrintedFlags(code, 0, true, false, name);
    PrintIsAvp(code, 0, true, false, name);
    AvpLaid(c);
  }

  lemma NameIsStringAvp(c: bytes, code: u32, low: byte, name: bytes)
    requires NameAvp(c, low, name) && code == 256 + low && 8 + |name| < 0x100_0000
    ensures c == StringAvp(code, name)
  {
    hide NameAvp, StringAvp;
    StringAvpIsName(code, low, name);
    OneNameAvp(c, StringAvp(code, name), low, name);
  }

  lemma OneNameAvp(c: bytes, d: bytes, low: byte, name: bytes)
    requires NameAvp(c, low, name) && NameAvp(d, low, name)
    ensures c == d
  {
    SameThree(c[5], c[6], c[7], d[5], d[6], d[7]);
    NextWord(8 + |name|, |c|);
    NextWord(8 + |name|, |d|);
    forall i | 0 <= i < |c|
      ensures c[i] == d[i]
    {
      if i < 5 {
        assert c[i] == c[..5][i] && d[i] == d[..5][i];
      } else if 8 <= i < 8 + |name| {
        assert c[i] == c[8..8 + |name|][i - 8] && d[i] == d[8..8 + |name|][i - 8];
      }
    }
  }

  lemma NextWord(n: nat, p: nat)
    requires n <= p < n + 4 && p % 4 == 0
    ensures p == Padded(n)
  {
  }

  lemma SameThree(a: byte, b: byte, c: byte, x: byte, y: byte, z: byte)
    requires a as int * 0x1_0000 + b as int * 0x100 + c == x as int * 0x1_0000 + y as int * 0x100 + z
    ensures a == x && b == y && c == z
  {
  }

  /** Does the AVP have code 256 + low and no vendor? */
  predicate HasName(c: bytes, low: byte) {
    |c| >= 8 && c[..4] == [0, 0, 1, low] && (c[4] < 128 || (|c| >= 12 && c[8..12] == [0, 0, 0, 0]))
  }

  lemma OriginIsName(c: bytes, code: u32, low: byte)
    requires HeaderFits(c) && code == 256 + low
    ensures IsOrigin(c, code) <==> HasName(c, low)
  {
    AvpLaid(c);
    assert c[..4] == [c[0], c[1], c[2], c[3]];
    if |c| >= 12 {
      assert c[8..12] == [c[8], c[9], c[10], c[11]];
    }
  }

  method EncodeStringAVP(code: u32, value: bytes, mandatory: bool) returns (b: array<byte>)
    ensures fresh(b) && b[..] == PrintAvp(code, 0, mandatory, false, value)
  {
    var total := 8 + |value|;
    var padded := total;
    if padded % 4 != 0 {
      padded := padded + (4 - padded % 4);
    }
    hide Put32, Put24, PrintAvp;
    b := new byte[padded](_ => 0);
    assert b[8..] == Zeros(padded - 8);
    PutUint32(b, 0, code);
    PutLength(b, if mandatory then 0x40 else 0, total);
    ghost var head := b[..8];
    assert head == Put32(code) + [FlagByte(false, mandatory, false)] + Put24(total);
    assert b[8..] == Zeros(padded - 8);
    assert b[total..] == b[8..][total - 8..] == Zeros(padded - total);
    forall i | 0 <= i < |value| {
      b[8 + i] := value[i];
    }
    assert b[..8] == head && b[8..total] == value && b[total..] == Zeros(padded - total);
    assert b[..] == head + value + Zeros(padded - total);
    StringAvpBytes(code, value, mandatory);
  }

  method PutLength(b: array<byte>, flags: byte, total: nat)
    requires b.Length >= 8
    modifies b
    ensures b[..] == old(b[..4]) + [flags] + Put24(total) + old(b[8..])
  {
    b[4] := flags;
    b[5], b[6], b[7] := total / 0x1_0000 % 256, total / 0x100 % 256, total % 256;
  }

  lemma StringAvpBytes(code: u32, value: bytes, mandatory: bool)
    ensures var total := 8 + |value|;
            PrintAvp(code, 0, mandatory, false, value)
            == Put32(code) + [FlagByte(false, mandatory, false)] + Put24(total) + value + Zeros(Padded(total) - total)
            && Padded(total) == if total % 4 != 0 then total + (4 - total % 4) else total
  {
  }

  predicate IsOrigin(c: bytes, code: u32)
    requires HeaderFits(c)
  {
    Vendor(c) == 0 && Code(c) == code
  }

  function NewAvp(c: bytes, host: bytes, realm: bytes): (r: bytes)
    requires HeaderFits(c)
  {
    if IsOrigin(c, ORIGIN_HOST) then StringAvp(ORIGIN_HOST, host)
    else if IsOrigin(c, ORIGIN_REALM) then StringAvp(ORIGIN_REALM, realm)
    else c
  }

  function NewAvps(chunks: seq<bytes>, host: bytes, realm: bytes): (r: seq<bytes>)
    requires forall c <- chunks :: HeaderFits(c)
    ensures |r| == |chunks|
  {
    if chunks == [] then [] else [NewAvp(chunks[0], host, realm)] + NewAvps(chunks[1..], host, realm)
  }

  predicate Has(chunks: seq<bytes>, code: u32)
    requires forall c <- chunks :: HeaderFits(c)
  {
    exists c <- chunks :: IsOrigin(c, code)
  }

  /** The AVP appended when a code is missing, as a row of none or one. */
  function IfMissing(missing: bool, code: u32, value: bytes): (r: seq<bytes>) {
    if missing then [StringAvp(code, value)] else []
  }

  /** The AVPs of the rewritten message: each Origin AVP replaced where it stands, missing ones appended. */
  function NewRow(chunks: seq<bytes>, host: bytes, realm: bytes): (r: seq<bytes>)
    requires forall c <- chunks :: HeaderFits(c)
  {
    NewAvps(chunks, host, realm)
    + IfMissing(!Has(chunks, ORIGIN_HOST), ORIGIN_HOST, host)
    + IfMissing(!Has(chunks, ORIGIN_REALM), ORIGIN_REALM, realm)
  }

  function WithLength(msg: bytes): (r: bytes)
    requires |msg| >= HEADER_LENGTH
    ensures |r| == |msg|
  {
    [msg[0]] + Put24(|msg|) + msg[4..]
  }

  /** Panicked: the source slices past the end of a message that lacks the padding of its last AVP. */
  datatype Rewritten = Rewritten(out: bytes) | Rejected | Panicked

  function Rewrite(msg: bytes, host: bytes, realm: bytes): (r: Rewritten)
    ensures r.Rewritten? ==> |r.out| >= HEADER_LENGTH
  {
    if |msg| < HEADER_LENGTH then Rejected
    else
      var w := Walk(msg[HEADER_LENGTH..]);
      if w.stop in {Short, Bad} then Rejected
      else if CopiesRagged(w) then Panicked
      else Rewritten(WithLength(msg[..HEADER_LENGTH] + Concat(NewRow(w.chunks, host, realm))))
  }

  /** Is the last AVP one that is copied although its padding is missing? */
  predicate CopiesRagged(w: Walked)
    requires forall c <- w.chunks :: HeaderFits(c)
  {
    w.stop == Ragged && w.chunks != []
    && var c := w.chunks[|w.chunks| - 1]; !IsOrigin(c, ORIGIN_HOST) && !IsOrigin(c, ORIGIN_REALM)
  }

  lemma {:induction false} NewAvpsAppend(a: seq<bytes>, c: bytes, host: bytes, realm: bytes)
    requires (forall d <- a :: HeaderFits(d)) && HeaderFits(c)
    ensures NewAvps(a + [c], host, realm) == NewAvps(a, host, realm) + [NewAvp(c, host, realm)]
  {
    if a == [] {
      assert a + [c] == [c];
    } else {
      assert (a + [c])[0] == a[0] && (a + [c])[1..] == a[1..] + [c];
      NewAvpsAppend(a[1..], c, host, realm);
    }
  }

  /** What one more AVP adds to the rewritten message. */
  lemma NewAvpsGrow(chunks: seq<bytes>, k: nat, host: bytes, realm: bytes)
    requires k < |chunks| && forall c <- chunks :: HeaderFits(c)
    ensures Concat(NewAvps(chunks[..k + 1], host, realm))
            == Concat(NewAvps(chunks[..k], host, realm)) + NewAvp(chunks[k], host, realm)
    ensures Has(chunks[..k + 1], ORIGIN_HOST) <==> Has(chunks[..k], ORIGIN_HOST) || IsOrigin(chunks[k], ORIGIN_HOST)
    ensures Has(chunks[..k + 1], ORIGIN_REALM) <==> Has(chunks[..k], ORIGIN_REALM) || IsOrigin(chunks[k], ORIGIN_REALM)
  {
    var c := chunks[k];
    assert chunks[..k + 1] == chunks[..k] + [c];
    NewAvpsAppend(chunks[..k], c, host, realm);
    ConcatAppend(NewAvps(chunks[..k], host, realm), [NewAvp(c, host, realm)]);
    ConcatOne(NewAvp(c, host, realm));
  }

  /** Does the callback append something for this AVP, rather than panic? */
  predicate Writable(c: bytes)
    requires HeaderFits(c)
  {
    IsAvp(c) || IsOrigin(c, ORIGIN_HOST) || IsOrigin(c, ORIGIN_REALM)
  }

  predicate WritableUpTo(chunks: seq<bytes>, k: nat)
    requires k <= |chunks| && forall c <- chunks :: HeaderFits(c)
  {
    forall j :: 0 <= j < k ==> Writable(chunks[j])
  }

  lemma RaggedExactly(w: Walked, k: nat)
    requires (forall c <- w.chunks :: HeaderFits(c)) && WholeButLast(w) && k <= |w.chunks| && WritableUpTo(w.chunks, k)
    ensures k == |w.chunks| ==> !CopiesRagged(w)
    ensures k < |w.chunks| ==> if Writable(w.chunks[k]) then WritableUpTo(w.chunks, k + 1) else CopiesRagged(w)
  {
  }

  /** What the callback appends for one AVP; panicked when the slice of the message runs past its end. */
  method Replacement(msg: bytes, v: Visit, newHost: bytes, newRealm: bytes, ghost c: bytes)
      returns (piece: bytes, isHost: bool, isRealm: bool, panicked: bool)
    requires Agrees(msg, v, c)
    ensures isHost == IsOrigin(c, ORIGIN_HOST) && isRealm == IsOrigin(c, ORIGIN_REALM) && panicked == !Writable(c)
    ensures !panicked ==> piece == NewAvp(c, newHost, newRealm)
  {
    if v.vendor == 0 && v.code == ORIGIN_HOST {
      var avp := EncodeStringAVP(ORIGIN_HOST, newHost, true);
      return avp[..], true, false, false;
    }
    if v.vendor == 0 && v.code == ORIGIN_REALM {
      var avp := EncodeStringAVP(ORIGIN_REALM, newRealm, true);
      return avp[..], false, true, false;
    }
    if v.loc.start + v.loc.paddedTo > |msg| {
      return [], false, false, true;
    }
    return msg[v.loc.start..v.loc.start + v.loc.paddedTo], false, false, false;
  }

  method RewriteOriginHostRealm(msg: bytes, newHost: bytes, newRealm: bytes) returns (r: Rewritten)
    ensures r == Rewrite(msg, newHost, newRealm)
  {
    if |msg| < HEADER_LENGTH {
      return Rejected;
    }
    var it := IterateAVPs(msg);
    ghost var w := Walk(msg[HEADER_LENGTH..]);
    WalkersAgree(msg, HEADER_LENGTH);
    WalkGivesAvps(msg[HEADER_LENGTH..]);
    hide *;
    var avps, wroteHost, wroteRealm, panicked := ReplaceAll(msg, it.visits, newHost, newRealm, w);
    RewriteCases(msg, newHost, newRealm);
    if panicked {
      return Panicked;
    }
    if !it.ok {
      return Rejected;
    }
    avps := AppendMissing(avps, !wroteHost, ORIGIN_HOST, newHost);
    avps := AppendMissing(avps, !wroteRealm, ORIGIN_REALM, newRealm);
    RowConcat(w.chunks, newHost, newRealm);
    var out := FixLength(msg[..HEADER_LENGTH] + avps);
    return Rewritten(out);
  }

  /** The three stores into the length field. */
  method FixLength(msg: bytes) returns (out: bytes)
    requires |msg| >= HEADER_LENGTH
    ensures out == WithLength(msg)
  {
    var total := |msg|;
    out := msg[1 := total / 0x1_0000 % 256][2 := total / 0x100 % 256][3 := total % 256];
    assert out[4..] == msg[4..];
    assert out == [out[0], out[1], out[2], out[3]] + out[4..];
  }

  lemma RewriteCases(msg: bytes, host: bytes, realm: bytes)
    requires |msg| >= HEADER_LENGTH
    ensures var w, r := Walk(msg[HEADER_LENGTH..]), Rewrite(msg, host, realm);
            if CopiesRagged(w) then r == Panicked
            else if w.stop !in {Clean, Ragged} then r == Rejected
            else r == Rewritten(WithLength(msg[..HEADER_LENGTH] + Concat(NewRow(w.chunks, host, realm))))
  {
  }

  /** The calls of the callback, one for each AVP; avps is what they append to out behind the header. */
  method ReplaceAll(msg: bytes, visits: seq<Visit>, newHost: bytes, newRealm: bytes, ghost w: Walked)
      returns (avps: bytes, wroteHost: bool, wroteRealm: bool, panicked: bool)
    requires (forall c <- w.chunks :: HeaderFits(c)) && WholeButLast(w) && Alike(msg, visits, w.chunks)
    ensures panicked <==> CopiesRagged(w)
    ensures !panicked ==> avps == Concat(NewAvps(w.chunks, newHost, newRealm))
    ensures !panicked ==> (wroteHost <==> Has(w.chunks, ORIGIN_HOST)) && (wroteRealm <==> Has(w.chunks, ORIGIN_REALM))
  {
    hide *;
    avps, wroteHost, wroteRealm := [], false, false;
    var k := 0;
    NothingReplaced(w.chunks, newHost, newRealm);
    AlikeAt(msg, visits, w.chunks);
    while k < |visits|
      invariant k <= |visits|
      invariant avps == Concat(NewAvps(w.chunks[..k], newHost, newRealm))
      invariant wroteHost <==> Has(w.chunks[..k], ORIGIN_HOST)
      invariant wroteRealm <==> Has(w.chunks[..k], ORIGIN_REALM)
      invariant WritableUpTo(w.chunks, k)
    {
      var piece, isHost, isRealm, past := Replacement(msg, visits[k], newHost, newRealm, w.chunks[k]);
      RaggedExactly(w, k);
      if past {
        return avps, wroteHost, wroteRealm, true;
      }
      wroteHost := wroteHost || isHost;
      wroteRealm := wroteRealm || isRealm;
      NewAvpsGrow(w.chunks, k, newHost, newRealm);
      avps := avps + piece;
      k := k + 1;
    }
    RaggedExactly(w, k);
    assert w.chunks[..k] == w.chunks;
    panicked := false;
  }

  lemma NothingReplaced(chunks: seq<bytes>, host: bytes, realm: bytes)
    requires forall c <- chunks :: HeaderFits(c)
    ensures Concat(NewAvps(chunks[..0], host, realm)) == []
    ensures !Has(chunks[..0], ORIGIN_HOST) && !Has(chunks[..0], ORIGIN_REALM) && WritableUpTo(chunks, 0)
  {
  }

  lemma AlikeAt(msg: bytes, visits: seq<Visit>, chunks: seq<bytes>)
    requires Alike(msg, visits, chunks)
    ensures |visits| == |chunks| && forall k :: 0 <= k < |chunks| ==> Agrees(msg, visits[k], chunks[k])
  {
  }

  method AppendMissing(out: bytes, missing: bool, code: u32, value: bytes) returns (r: bytes)
    ensures r == out + if missing then StringAvp(code, value) else []
  {
    r := out;
    if missing {
      var avp := EncodeStringAVP(code, value, true);
      r := r + avp[..];
    }
  }

  lemma RowConcat(chunks: seq<bytes>, host: bytes, realm: bytes)
    requires forall c <- chunks :: HeaderFits(c)
    ensures Concat(NewRow(chunks, host, realm))
            == Concat(NewAvps(chunks, host, realm))
               + (if Has(chunks, ORIGIN_HOST) then [] else StringAvp(ORIGIN_HOST, host))
               + (if Has(chunks, ORIGIN_REALM) then [] else StringAvp(ORIGIN_REALM, realm))
  {
    var a := NewAvps(chunks, host, realm);
    var b := IfMissing(!Has(chunks, ORIGIN_HOST), ORIGIN_HOST, host);
    var c := IfMissing(!Has(chunks, ORIGIN_REALM), ORIGIN_REALM, realm);
    ConcatAppend(a + b, c);
    ConcatAppend(a, b);
    ConcatOne(StringAvp(ORIGIN_HOST, host));
    ConcatOne(StringAvp(ORIGIN_REALM, realm));
  }
}
