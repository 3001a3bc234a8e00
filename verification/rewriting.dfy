/** What the Origin rewriting does to a message, on the wire and to a decoder of it. */
module Rewriting {
  import opened Bytes
  import opened Headers
  import Scalars
  import opened Avps
  import opened Codec
  import opened Decoding
  import opened RoundTrip
  import opened Messages
  import opened Rewriter

  predicate NamesFit(host: bytes, realm: bytes) {
    PrintedLength(0, host) < U24_SPAN && PrintedLength(0, realm) < U24_SPAN
  }

  // --- the row of AVPs ---

  /** The AVPs that are not vendor-0 Origin AVPs. */
  function Others(chunks: seq<bytes>): (r: seq<bytes>)
    requires forall c <- chunks :: HeaderFits(c)
  {
    if chunks == [] then []
    else
      (if IsOrigin(chunks[0], ORIGIN_HOST) || IsOrigin(chunks[0], ORIGIN_REALM) then [] else [chunks[0]])
      + Others(chunks[1..])
  }

  /** A row of whole AVPs in which every AVP of code 264 or 296 without vendor is the new identity. */
  predicate Renamed(chunks: seq<bytes>, host: bytes, realm: bytes) {
    forall c <- chunks :: HeaderFits(c) && IsAvp(c) && RenamedAvp(c, host, realm)
  }

  predicate RenamedAvp(c: bytes, host: bytes, realm: bytes)
    requires HeaderFits(c)
  {
    (HasName(c, 8) ==> NameAvp(c, 8, host)) && (HasName(c, 40) ==> NameAvp(c, 40, realm))
  }

  lemma StringAvpSeen(code: u32, value: bytes)
    requires PrintedLength(0, value) < U24_SPAN
    ensures var c := StringAvp(code, value);
            IsAvp(c) && Seen(c) == View(code, 0, value) && (forall k: u32 :: IsOrigin(c, k) <==> k == code)
  {
    PrintIsAvp(code, 0, true, false, value);
  }

  lemma RenamedAvpIs(c: bytes, host: bytes, realm: bytes)
    requires HeaderFits(c) && NamesFit(host, realm)
    ensures RenamedAvp(c, host, realm) <==>
              (IsOrigin(c, ORIGIN_HOST) ==> c == StringAvp(ORIGIN_HOST, host))
              && (IsOrigin(c, ORIGIN_REALM) ==> c == StringAvp(ORIGIN_REALM, realm))
  {
    OriginIsName(c, ORIGIN_HOST, 8);
    OriginIsName(c, ORIGIN_REALM, 40);
    hide StringAvp, IsOrigin, HasName, NameAvp;
    StringAvpIsName(ORIGIN_HOST, 8, host);
    StringAvpIsName(ORIGIN_REALM, 40, realm);
    if NameAvp(c, 8, host) {
      NameIsStringAvp(c, ORIGIN_HOST, 8, host);
    }
    if NameAvp(c, 40, realm) {
      NameIsStringAvp(c, ORIGIN_REALM, 40, realm);
    }
  }

  lemma {:induction false} NewAvpsShape(chunks: seq<bytes>, host: bytes, realm: bytes)
    requires NamesFit(host, realm) && forall c <- chunks :: HeaderFits(c) && IsAvp(c)
    ensures var r := NewAvps(chunks, host, realm);
            Renamed(r, host, realm) && Others(r) == Others(chunks)
            && (Has(r, ORIGIN_HOST) <==> Has(chunks, ORIGIN_HOST))
            && (Has(r, ORIGIN_REALM) <==> Has(chunks, ORIGIN_REALM))
  {
    if chunks != [] {
      NewAvpsShape(chunks[1..], host, realm);
      StringAvpSeen(ORIGIN_HOST, host);
      StringAvpSeen(ORIGIN_REALM, realm);
      var r := NewAvps(chunks, host, realm);
      assert r[0] == NewAvp(chunks[0], host, realm) && r[1..] == NewAvps(chunks[1..], host, realm);
      hide RenamedAvp, StringAvp;
      RenamedAvpIs(r[0], host, realm);
      HasFirst(chunks, ORIGIN_HOST);
      HasFirst(chunks, ORIGIN_REALM);
      HasFirst(r, ORIGIN_HOST);
      HasFirst(r, ORIGIN_REALM);
    }
  }

  lemma HasFirst(chunks: seq<bytes>, code: u32)
    requires chunks != [] && forall c <- chunks :: HeaderFits(c)
    ensures Has(chunks, code) <==> IsOrigin(chunks[0], code) || Has(chunks[1..], code)
  {
    assert chunks == [chunks[0]] + chunks[1..];
  }

  lemma {:induction false} OthersAppend(a: seq<bytes>, b: seq<bytes>)
    requires (forall c <- a :: HeaderFits(c)) && forall c <- b :: HeaderFits(c)
    ensures Others(a + b) == Others(a) + Others(b)
  {
    if a == [] {
      assert a + b == b;
    } else {
      OthersAppend(a[1..], b);
      hide HeaderFits, IsOrigin, Total;
      assert (a + b)[0] == a[0] && (a + b)[1..] == a[1..] + b;
      Assoc(if IsOrigin(a[0], ORIGIN_HOST) || IsOrigin(a[0], ORIGIN_REALM) then [] else [a[0]],
            Others(a[1..]), Others(b));
    }
  }

  lemma HasAppend(a: seq<bytes>, b: seq<bytes>, code: u32)
    requires (forall c <- a :: HeaderFits(c)) && forall c <- b :: HeaderFits(c)
    ensures Has(a + b, code) <==> Has(a, code) || Has(b, code)
  {
    assert forall c :: c in a + b <==> c in a || c in b;
  }

  lemma RenamedJoin(a: seq<bytes>, b: seq<bytes>, host: bytes, realm: bytes)
    requires Renamed(a, host, realm) && Renamed(b, host, realm)
    ensures Renamed(a + b, host, realm)
  {
  }

  lemma MissingShape(missing: bool, code: u32, value: bytes, host: bytes, realm: bytes)
    requires NamesFit(host, realm)
    requires (code == ORIGIN_HOST && value == host) || (code == ORIGIN_REALM && value == realm)
    ensures var r := IfMissing(missing, code, value);
            Renamed(r, host, realm) && Others(r) == [] && (forall k: u32 :: Has(r, k) <==> missing && k == code)
  {
    StringAvpSeen(code, value);
    RenamedAvpIs(StringAvp(code, value), host, realm);
    hide RenamedAvp;
    if missing {
      assert IfMissing(missing, code, value)[1..] == [];
      assert StringAvp(code, value) in IfMissing(missing, code, value);
    }
  }

  /** The rewritten row: whole AVPs, the others untouched and in order, at least one Origin-Host and one
      Origin-Realm, and all of those new. */
  lemma NewRowShape(chunks: seq<bytes>, host: bytes, realm: bytes)
    requires NamesFit(host, realm) && forall c <- chunks :: HeaderFits(c) && IsAvp(c)
    ensures var r := NewRow(chunks, host, realm);
            Renamed(r, host, realm) && Others(r) == Others(chunks) && Has(r, ORIGIN_HOST) && Has(r, ORIGIN_REALM)
  {
    var a := NewAvps(chunks, host, realm);
    var b := IfMissing(!Has(chunks, ORIGIN_HOST), ORIGIN_HOST, host);
    var c := IfMissing(!Has(chunks, ORIGIN_REALM), ORIGIN_REALM, realm);
    NewAvpsShape(chunks, host, realm);
    MissingShape(!Has(chunks, ORIGIN_HOST), ORIGIN_HOST, host, host, realm);
    MissingShape(!Has(chunks, ORIGIN_REALM), ORIGIN_REALM, realm, host, realm);
    assert NewRow(chunks, host, realm) == a + b + c;
    hide *;
    RenamedJoin(a, b, host, realm);
    RenamedJoin(a + b, c, host, realm);
    HasAppend(a, b, ORIGIN_HOST);
    HasAppend(a, b, ORIGIN_REALM);
    HasAppend(a + b, c, ORIGIN_HOST);
    HasAppend(a + b, c, ORIGIN_REALM);
    OthersAppend(a, b);
    OthersAppend(a + b, c);
    assert Others(a) + [] == Others(a);
  }

  /** A row that is already renamed and complete is left alone. */
  lemma {:induction false} NewRowOfRenamed(chunks: seq<bytes>, host: bytes, realm: bytes)
    requires Renamed(chunks, host, realm) && Has(chunks, ORIGIN_HOST) && Has(chunks, ORIGIN_REALM)
    requires NamesFit(host, realm)
    ensures NewRow(chunks, host, realm) == chunks
  {
    NewAvpsOfRenamed(chunks, host, realm);
  }

  lemma {:induction false} NewAvpsOfRenamed(chunks: seq<bytes>, host: bytes, realm: bytes)
    requires Renamed(chunks, host, realm) && NamesFit(host, realm)
    ensures NewAvps(chunks, host, realm) == chunks
  {
    if chunks != [] {
      NewAvpsOfRenamed(chunks[1..], host, realm);
      assert IsAvp(chunks[0]) && RenamedAvp(chunks[0], host, realm);
      RenamedAvpIs(chunks[0], host, realm);
    }
  }

  // --- the message ---

  /** A message the relay's walker accepts, made of whole 32-bit words. */
  predicate Proper(msg: bytes) {
    |msg| >= HEADER_LENGTH && |msg| % 4 == 0 && Iterate(msg, HEADER_LENGTH).ok
  }

  lemma ProperWalk(msg: bytes)
    requires |msg| >= HEADER_LENGTH && |msg| % 4 == 0
    ensures Proper(msg) <==> Walk(msg[HEADER_LENGTH..]).stop == Clean
    ensures forall c <- Walk(msg[HEADER_LENGTH..]).chunks :: HeaderFits(c) && IsAvp(c)
  {
    hide Walk, Iterate, Alike, HeaderFits, IsAvp, Total;
    WalkersAgree(msg, HEADER_LENGTH);
    AlignedNotRagged(msg[HEADER_LENGTH..]);
    WalkGivesAvps(msg[HEADER_LENGTH..]);
  }

  lemma {:induction false} RowAligned(chunks: seq<bytes>)
    requires forall c <- chunks :: HeaderFits(c) && IsAvp(c)
    ensures |Concat(chunks)| % 4 == 0
  {
    if chunks != [] {
      assert IsAvp(chunks[0]);
      RowAligned(chunks[1..]);
    }
  }

  /** The rewriting keeps the header but for its length field, which becomes the true one, and replaces the row. */
  lemma RewriteMessage(msg: bytes, host: bytes, realm: bytes)
    requires Proper(msg) && NamesFit(host, realm)
    ensures var r := Rewrite(msg, host, realm);
            r.Rewritten? && Proper(r.out)
            && r.out[0] == msg[0] && r.out[4..HEADER_LENGTH] == msg[4..HEADER_LENGTH]
            && Get24(r.out[1..4]) == |r.out| % 0x100_0000
            && Walk(r.out[HEADER_LENGTH..]).chunks == NewRow(Walk(msg[HEADER_LENGTH..]).chunks, host, realm)
  {
    hide Walk, Iterate, HeaderFits, IsAvp, Total, Concat, NewRow, Rewrite, WithLength, Get24, Has, Others, RenamedAvp;
    var chunks := Walk(msg[HEADER_LENGTH..]).chunks;
    ProperWalk(msg);
    NotRaggedCopy(Walk(msg[HEADER_LENGTH..]));
    NewRowShape(chunks, host, realm);
    var row := NewRow(chunks, host, realm);
    RewriteCases(msg, host, realm);
    assert forall c <- row :: HeaderFits(c) && IsAvp(c);
    RowAligned(row);
    WalkOfAvps(row);
    var body := Concat(row);
    var out := Rewrite(msg, host, realm).out;
    LengthFixed(msg[..HEADER_LENGTH], body);
    assert out == WithLength(msg[..HEADER_LENGTH] + body);
    ProperWalk(out);
  }

  lemma NotRaggedCopy(w: Walked)
    requires w.stop == Clean && forall c <- w.chunks :: HeaderFits(c)
    ensures !CopiesRagged(w)
  {
  }

  lemma LengthFixed(header: bytes, body: bytes)
    requires |header| == HEADER_LENGTH
    ensures var out := WithLength(header + body);
            |out| == HEADER_LENGTH + |body| && out[HEADER_LENGTH..] == body
            && out[0] == header[0] && out[4..HEADER_LENGTH] == header[4..HEADER_LENGTH]
            && Get24(out[1..4]) == |out| % 0x100_0000
  {
    var out := WithLength(header + body);
    GetPut24(|out|);
    hide *;
    assert out[1..4] == Put24(|out|);
    assert out[4..] == (header + body)[4..];
    assert out[4..][..16] == out[4..20] && (header + body)[4..][..16] == header[4..20];
    assert out[4..][16..] == out[20..] && (header + body)[4..][16..] == body;
  }

  /** For every message that can be rewritten, whole words or not: of the header only the length changes, to the true
      one. */
  lemma RewriteKeepsHeader(msg: bytes, host: bytes, realm: bytes)
    requires |msg| >= HEADER_LENGTH && Rewrite(msg, host, realm).Rewritten?
    ensures var out := Rewrite(msg, host, realm).out;
            ParseShallow(out) == ParseShallow(msg).(length := |out| % 0x100_0000)
  {
    hide Walk, NewRow, Concat, WithLength, Get24, Get32, ParseShallow, Rewrite;
    RewriteCases(msg, host, realm);
    var body := Concat(NewRow(Walk(msg[HEADER_LENGTH..]).chunks, host, realm));
    LengthFixed(msg[..HEADER_LENGTH], body);
    var out := Rewrite(msg, host, realm).out;
    assert msg[..HEADER_LENGTH][4..HEADER_LENGTH] == msg[4..HEADER_LENGTH] && msg[..HEADER_LENGTH][0] == msg[0];
    ShallowButLength(msg, out);
  }

  /** The fields of a header behind its length, within the sixteen bytes they are. */
  lemma HeaderParts(s: bytes)
    requires |s| >= HEADER_LENGTH
    ensures s[4] == s[4..20][0] && s[5..8] == s[4..20][1..4] && s[8..12] == s[4..20][4..8]
            && s[12..16] == s[4..20][8..12] && s[16..20] == s[4..20][12..16]
  {
    SliceOfSlice(s, 4, 20, 1, 4);
    SliceOfSlice(s, 4, 20, 4, 8);
    SliceOfSlice(s, 4, 20, 8, 12);
    SliceOfSlice(s, 4, 20, 12, 16);
  }

  lemma ShallowButLength(msg: bytes, out: bytes)
    requires |msg| >= HEADER_LENGTH && |out| >= HEADER_LENGTH
    requires out[0] == msg[0] && out[4..HEADER_LENGTH] == msg[4..HEADER_LENGTH]
    ensures ParseShallow(out) == ParseShallow(msg).(length := Get24(out[1..4]))
  {
    HeaderParts(msg);
    HeaderParts(out);
  }

  /** Rewriting twice is rewriting once. */
  lemma RewriteIdempotent(msg: bytes, host: bytes, realm: bytes)
    requires Proper(msg) && NamesFit(host, realm)
    ensures Rewrite(msg, host, realm).Rewritten?
    ensures Rewrite(Rewrite(msg, host, realm).out, host, realm) == Rewrite(msg, host, realm)
  {
    hide Walk, Iterate, HeaderFits, IsAvp, Total, Concat, NewRow, Rewrite, Get24, Put24, Has, Others, RenamedAvp;
    RewriteMessage(msg, host, realm);
    var out := Rewrite(msg, host, realm).out;
    RewriteMessage(out, host, realm);
    ProperWalk(msg);
    ProperWalk(out);
    var chunks := Walk(msg[HEADER_LENGTH..]).chunks;
    NewRowShape(chunks, host, realm);
    NewRowOfRenamed(NewRow(chunks, host, realm), host, realm);
    WalkTiles(out[HEADER_LENGTH..]);
    NotRaggedCopy(Walk(out[HEADER_LENGTH..]));
    RewriteCases(out, host, realm);
    assert out[..HEADER_LENGTH] + out[HEADER_LENGTH..] == out;
    PutLow24(|out|, out[1..4]);
    assert out == [out[0]] + out[1..4] + out[4..];
  }

  lemma PutLow24(n: nat, b: bytes)
    requires |b| == 3 && Get24(b) == n % 0x100_0000
    ensures Put24(n) == b
  {
    GetPut24(n);
    PutGet24(b);
    PutGet24(Put24(n));
  }

  /** The rewritten message on the wire: all other AVPs byte for byte and in order, every Origin AVP the new identity
      and at least one of each. */
  lemma RewriteOnTheWire(msg: bytes, host: bytes, realm: bytes)
    requires Proper(msg) && NamesFit(host, realm)
    ensures Rewrite(msg, host, realm).Rewritten?
    ensures var before, after := Walk(msg[HEADER_LENGTH..]).chunks,
                                 Walk(Rewrite(msg, host, realm).out[HEADER_LENGTH..]).chunks;
            Others(after) == Others(before) && Renamed(after, host, realm)
            && Has(after, ORIGIN_HOST) && Has(after, ORIGIN_REALM)
  {
    RewriteMessage(msg, host, realm);
    ProperWalk(msg);
    NewRowShape(Walk(msg[HEADER_LENGTH..]).chunks, host, realm);
  }

  /** Does the relay's walker accept the message, although it ends inside the padding of an AVP that is copied? */
  predicate RunsPastEnd(msg: bytes) {
    |msg| >= HEADER_LENGTH && Iterate(msg, HEADER_LENGTH).ok && Iterate(msg, HEADER_LENGTH).visits != []
    && var visits := Iterate(msg, HEADER_LENGTH).visits;
       var v := visits[|visits| - 1];
       v.loc.start + v.loc.paddedTo > |msg| && (v.vendor == 0 ==> v.code !in {ORIGIN_HOST, ORIGIN_REALM})
  }

  /** Is d what becomes of c? */
  predicate Becomes(c: bytes, d: bytes, host: bytes, realm: bytes) {
    if HasName(c, 8) then NameAvp(d, 8, host) else if HasName(c, 40) then NameAvp(d, 40, realm) else d == c
  }

  /** AVP by AVP: the k-th stays as it is unless it has code 264 or 296 and no vendor, in which case the relay's name is
      in its place; a missing name is appended, the host before the realm, and nothing else is. */
  predicate Replaced(before: seq<bytes>, after: seq<bytes>, host: bytes, realm: bytes) {
    var n := |before|;
    var noHost, noRealm := (forall c <- before :: !HasName(c, 8)), (forall c <- before :: !HasName(c, 40));
    |after| == n + (if noHost then 1 else 0) + (if noRealm then 1 else 0)
    && (forall k :: 0 <= k < n ==> Becomes(before[k], after[k], host, realm))
    && (noHost ==> NameAvp(after[n], 8, host))
    && (noRealm ==> NameAvp(after[|after| - 1], 40, realm))
  }

  /** The rewritten message holds the AVPs of the old one, each in its place, with the relay's names. */
  lemma RewritePlaces(msg: bytes, host: bytes, realm: bytes)
    requires Proper(msg) && NamesFit(host, realm)
    ensures Rewrite(msg, host, realm).Rewritten?
    ensures var before, after := Walk(msg[HEADER_LENGTH..]).chunks,
                                 Walk(Rewrite(msg, host, realm).out[HEADER_LENGTH..]).chunks;
            Replaced(before, after, host, realm)
  {
    var before := Walk(msg[HEADER_LENGTH..]).chunks;
    RewriteMessage(msg, host, realm);
    hide Walk, Rewrite, Proper, Replaced, NewRow;
    RowPlaces(before, host, realm);
  }

  lemma RowPlaces(before: seq<bytes>, host: bytes, realm: bytes)
    requires NamesFit(host, realm) && forall c <- before :: HeaderFits(c)
    ensures Replaced(before, NewRow(before, host, realm), host, realm)
  {
    hide HasName, NameAvp, IsOrigin, StringAvp, Becomes;
    forall c <- before
      ensures (IsOrigin(c, ORIGIN_HOST) <==> HasName(c, 8)) && (IsOrigin(c, ORIGIN_REALM) <==> HasName(c, 40))
    {
      OriginIsName(c, ORIGIN_HOST, 8);
      OriginIsName(c, ORIGIN_REALM, 40);
    }
    StringAvpIsName(ORIGIN_HOST, 8, host);
    StringAvpIsName(ORIGIN_REALM, 40, realm);
    NewAvpsPlaces(before, host, realm);
  }

  lemma {:induction false} NewAvpsPlaces(chunks: seq<bytes>, host: bytes, realm: bytes)
    requires NamesFit(host, realm) && forall c <- chunks :: HeaderFits(c)
    ensures var r := NewAvps(chunks, host, realm);
            |r| == |chunks| && forall k :: 0 <= k < |chunks| ==> Becomes(chunks[k], r[k], host, realm)
  {
    hide HasName, NameAvp, IsOrigin, StringAvp, HeaderFits;
    if chunks != [] {
      NewAvpsPlaces(chunks[1..], host, realm);
      OriginIsName(chunks[0], ORIGIN_HOST, 8);
      OriginIsName(chunks[0], ORIGIN_REALM, 40);
      StringAvpIsName(ORIGIN_HOST, 8, host);
      StringAvpIsName(ORIGIN_REALM, 40, realm);
      var r := NewAvps(chunks, host, realm);
      assert r[0] == NewAvp(chunks[0], host, realm) && r[1..] == NewAvps(chunks[1..], host, realm);
      assert Becomes(chunks[0], r[0], host, realm);
      hide Becomes;
      forall k | 0 <= k < |chunks|
        ensures Becomes(chunks[k], r[k], host, realm)
      {
        if k > 0 {
          assert chunks[k] == chunks[1..][k - 1] && r[k] == r[1..][k - 1];
        }
      }
    }
  }

  /** Without the multiple-of-four rule: the rewriting panics exactly when the message ends inside the padding of an
      AVP that would be copied, and is rejected exactly when its AVPs do not end at its end. */
  lemma RewriteOutcome(msg: bytes, host: bytes, realm: bytes)
    requires |msg| >= HEADER_LENGTH
    ensures Rewrite(msg, host, realm) == Rejected <==> !Iterate(msg, HEADER_LENGTH).ok
    ensures Rewrite(msg, host, realm) == Panicked <==> RunsPastEnd(msg)
  {
    WalkersAgree(msg, HEADER_LENGTH);
    RewriteCases(msg, host, realm);
    PastEndExactly(msg);
    hide Walk, Iterate, Rewrite, Concat, NewRow, WithLength, RunsPastEnd, CopiesRagged, Alike;
  }

  /** Said of the chunks: the walk ends in padding, behind an AVP that is copied. */
  lemma PastEndExactly(msg: bytes)
    requires |msg| >= HEADER_LENGTH
    ensures RunsPastEnd(msg) <==> CopiesRagged(Walk(msg[HEADER_LENGTH..]))
  {
    var w, i := Walk(msg[HEADER_LENGTH..]), Iterate(msg, HEADER_LENGTH);
    WalkersAgree(msg, HEADER_LENGTH);
    WalkGivesAvps(msg[HEADER_LENGTH..]);
    RaggedLast(w);
    hide Walk, Iterate, WholeButLast, HeaderFits, IsAvp, IsOrigin, Agrees;
    if i.visits != [] {
      var last := |i.visits| - 1;
      assert Agrees(msg, i.visits[last], w.chunks[last]);
      LastVisit(msg, i.visits[last], w.chunks[last]);
    }
  }

  lemma RaggedLast(w: Walked)
    requires WholeButLast(w)
    ensures w.stop == Ragged ==> w.chunks != []
    ensures w.chunks != [] ==> (w.stop == Ragged <==> !IsAvp(w.chunks[|w.chunks| - 1]))
  {
  }

  lemma LastVisit(msg: bytes, v: Visit, c: bytes)
    requires Agrees(msg, v, c)
    ensures v.loc.start + v.loc.paddedTo > |msg| <==> !IsAvp(c)
    ensures forall code :: IsOrigin(c, code) <==> v.vendor == 0 && v.code == code
  {
  }

  /** An input: a header and an AVP with one byte of body and no padding. */
  lemma MissingPaddingPanics(header: bytes, host: bytes, realm: bytes)
    requires |header| == HEADER_LENGTH
    ensures Rewrite(header + [0, 0, 0, 1, 0x40, 0, 0, 9, 7], host, realm) == Panicked
  {
    var c: bytes := [0, 0, 0, 1, 0x40, 0, 0, 9, 7];
    assert (header + c)[HEADER_LENGTH..] == c;
    RaggedAvp(c);
  }

  /** An AVP with one byte of body and no padding. */
  lemma RaggedAvp(c: bytes)
    requires |c| == 9 && c[4..8] == [0x40, 0, 0, 9]
    ensures HeaderFits(c) && Seen(c) == View(Get32(c[..4]), 0, [c[8]]) && Walk(c) == Walked([c], Ragged)
    ensures Get32(c[..4]) !in {ORIGIN_HOST, ORIGIN_REALM} ==> CopiesRagged(Walk(c))
  {
    assert c[4] == c[4..8][0] && c[5..8] == c[4..8][1..] == [0, 0, 9];
  }

  // --- which messages the relay takes, and which the codec ---

  /** The relay refuses whatever Unmarshal fails on, and of what Unmarshal reads exactly the messages that leave a rest
      of one to seven bytes behind their AVPs. */
  lemma AcceptancesDiffer(schema: Schema, fields: seq<Field>, cells: seq<Cell>, msg: bytes)
    requires |msg| >= HEADER_LENGTH && |cells| == |fields|
    ensures Walk(msg[HEADER_LENGTH..]).stop in {Short, Bad} <==> !Iterate(msg, HEADER_LENGTH).ok
    ensures var p := Parsed(schema, fields, cells, msg);
            (p.Fail? ==> !Iterate(msg, HEADER_LENGTH).ok)
            && (p.Ok? ==> (!Iterate(msg, HEADER_LENGTH).ok <==> 0 < RestLength(msg) < 8))
  {
    hide Iterate, Walk, Fill, Alike, ReadHeader, Concat;
    WalkersAgree(msg, HEADER_LENGTH);
    ShortExactly(msg[HEADER_LENGTH..]);
  }

  /** How much of a message lies behind the AVPs that a walk of it visits. */
  function RestLength(msg: bytes): (n: int)
    requires |msg| >= HEADER_LENGTH
  {
    |msg| - HEADER_LENGTH - |Concat(Walk(msg[HEADER_LENGTH..]).chunks)|
  }

  /** Inputs: a header and up to seven bytes more, 24 bytes in all for instance. */
  lemma ShortRestDiffers(schema: Schema, fields: seq<Field>, cells: seq<Cell>, header: bytes, rest: bytes)
    requires |header| == HEADER_LENGTH && 0 < |rest| < 8 && |cells| == |fields|
    ensures var msg := header + rest;
            !Iterate(msg, HEADER_LENGTH).ok && Parsed(schema, fields, cells, msg) == Ok((ReadHeader(msg), cells))
  {
    var msg := header + rest;
    assert msg[HEADER_LENGTH..] == rest;
    assert Walk(rest) == Walked([], Short) && Fill(schema, fields, cells, []) == Ok(cells);
    hide Iterate, Walk, Fill;
    AcceptancesDiffer(schema, fields, cells, msg);
  }

  // --- for a decoder ---

  /** Field f carries the identity of the given code, as a vendor-0 string. */
  predicate IsIdentityField(f: Field, code: u32) {
    f.code == code ==> f.vendor == 0 && f.shape.Leaf? && f.shape.kind in IDENTITY_KINDS
  }

  const IDENTITY_KINDS: set<Scalars.Kind> := {Scalars.DiameterIdentity, Scalars.OctetString, Scalars.UTF8String,
                                              Scalars.DiameterURI}

  predicate IdentitySchema(fields: seq<Field>) {
    forall f <- fields :: IsIdentityField(f, ORIGIN_HOST) && IsIdentityField(f, ORIGIN_REALM)
  }

  /** No AVP of the identity codes carries a vendor; the relay does not rewrite those, but the codec reads them. */
  predicate NoVendorOrigin(chunks: seq<bytes>)
    requires forall c <- chunks :: HeaderFits(c)
  {
    forall c <- chunks :: NoVendor(c)
  }

  predicate NoVendor(c: bytes)
    requires HeaderFits(c)
  {
    Code(c) in {ORIGIN_HOST, ORIGIN_REALM} ==> Vendor(c) == 0
  }

  function Copies(n: nat, x: Item): (r: seq<Item>) {
    seq(n, _ => x)
  }

  /** An identity field after the rewriting: the new value for each value there was, and at least once. */
  function RenamedCell(f: Field, cell: Cell, host: bytes, realm: bytes): (r: Cell) {
    if f.code == 0 || f.code !in {ORIGIN_HOST, ORIGIN_REALM} then cell
    else
      var x := Scalar(Scalars.Octets(if f.code == ORIGIN_HOST then host else realm));
      Cell(if f.repeated && cell.items != [] then Copies(|cell.items|, x) else [x])
  }

  /** Other fields see the same AVPs before and after. */
  lemma {:induction false} OtherPicks(schema: Schema, f: Field, chunks: seq<bytes>, host: bytes, realm: bytes)
    requires NamesFit(host, realm) && (forall c <- chunks :: HeaderFits(c) && IsAvp(c))
    requires f.code !in {ORIGIN_HOST, ORIGIN_REALM}
    ensures forall c <- NewAvps(chunks, host, realm) :: HeaderFits(c)
    ensures Picks(schema, f, NewAvps(chunks, host, realm)) == Picks(schema, f, chunks)
  {
    if chunks != [] {
      StringAvpSeen(ORIGIN_HOST, host);
      StringAvpSeen(ORIGIN_REALM, realm);
      OtherPicks(schema, f, chunks[1..], host, realm);
      var r := NewAvps(chunks, host, realm);
      assert r[0] == NewAvp(chunks[0], host, realm) && r[1..] == NewAvps(chunks[1..], host, realm);
      assert Pick(schema, f, r[0]) == Pick(schema, f, chunks[0]);
    }
  }

  /** An identity field picks the new value once for each AVP of its code. */
  lemma {:induction false} IdentityPicks(schema: Schema, f: Field, chunks: seq<bytes>, host: bytes, realm: bytes)
    requires NamesFit(host, realm) && (forall c <- chunks :: HeaderFits(c) && IsAvp(c)) && NoVendorOrigin(chunks)
    requires f.code in {ORIGIN_HOST, ORIGIN_REALM} && IsIdentityField(f, f.code)
    ensures forall c <- NewAvps(chunks, host, realm) :: HeaderFits(c)
    ensures var x := Scalar(Scalars.Octets(if f.code == ORIGIN_HOST then host else realm));
            Picks(schema, f, NewAvps(chunks, host, realm)) == Copies(|Picks(schema, f, chunks)|, x)
    ensures Has(chunks, f.code) <==> Picks(schema, f, chunks) != []
  {
    assert chunks == [] ==> !Has(chunks, f.code);
    hide HeaderFits, IsAvp, IsOrigin, Pick, Has, NewAvp, NoVendor, IsIdentityField, NamesFit;
    if chunks != [] {
      IdentityPicks(schema, f, chunks[1..], host, realm);
      HasFirst(chunks, f.code);
      IdentityPick(schema, f, chunks[0], host, realm);
      var x := Scalar(Scalars.Octets(if f.code == ORIGIN_HOST then host else realm));
      var n, r := |Picks(schema, f, chunks[1..])|, NewAvps(chunks, host, realm);
      assert r[0] == NewAvp(chunks[0], host, realm) && r[1..] == NewAvps(chunks[1..], host, realm);
      assert [x] + Copies(n, x) == Copies(n + 1, x);
    }
  }

  lemma IdentityPick(schema: Schema, f: Field, c: bytes, host: bytes, realm: bytes)
    requires NamesFit(host, realm) && HeaderFits(c)
    requires NoVendor(c)
    requires f.code in {ORIGIN_HOST, ORIGIN_REALM} && IsIdentityField(f, f.code)
    ensures HeaderFits(NewAvp(c, host, realm))
    ensures |Pick(schema, f, c)| == if IsOrigin(c, f.code) then 1 else 0
    ensures Pick(schema, f, NewAvp(c, host, realm))
            == if IsOrigin(c, f.code) then [Scalar(Scalars.Octets(if f.code == ORIGIN_HOST then host else realm))]
            else []
  {
    StringAvpSeen(ORIGIN_HOST, host);
    StringAvpSeen(ORIGIN_REALM, realm);
    hide HeaderFits, IsAvp, StringAvp, Get24, Get32;
  }

  /** The appended AVPs, for a field. */
  lemma MissingPicks(schema: Schema, f: Field, missing: bool, code: u32, value: bytes)
    requires PrintedLength(0, value) < U24_SPAN && code != 0 && IsIdentityField(f, code)
    ensures forall c <- IfMissing(missing, code, value) :: HeaderFits(c)
    ensures Picks(schema, f, IfMissing(missing, code, value))
            == if missing && f.code == code then [Scalar(Scalars.Octets(value))] else []
  {
    StringAvpSeen(code, value);
    if missing {
      PicksOne(schema, f, StringAvp(code, value));
    }
  }

  /** What a field picks from a rewritten row, in terms of what it picked before. */
  function PicksAfter(f: Field, before: seq<Item>, host: bytes, realm: bytes): (r: seq<Item>) {
    if f.code !in {ORIGIN_HOST, ORIGIN_REALM} then before
    else
      Copies(if before == [] then 1 else |before|,
             Scalar(Scalars.Octets(if f.code == ORIGIN_HOST then host else realm)))
  }

  /** An identity field picks the new value once for each AVP of its code; other fields see the same AVPs. */
  lemma NewAvpsPicks(schema: Schema, f: Field, chunks: seq<bytes>, host: bytes, realm: bytes)
    requires NamesFit(host, realm) && (forall c <- chunks :: HeaderFits(c) && IsAvp(c)) && NoVendorOrigin(chunks)
    requires IsIdentityField(f, ORIGIN_HOST) && IsIdentityField(f, ORIGIN_REALM)
    ensures forall c <- NewAvps(chunks, host, realm) :: HeaderFits(c)
    ensures var before := Picks(schema, f, chunks);
            Picks(schema, f, NewAvps(chunks, host, realm))
            == (if f.code in {ORIGIN_HOST, ORIGIN_REALM}
                then Copies(|before|, Scalar(Scalars.Octets(if f.code == ORIGIN_HOST then host else realm)))
                else before)
            && (f.code in {ORIGIN_HOST, ORIGIN_REALM} ==> (Has(chunks, f.code) <==> before != []))
  {
    if f.code in {ORIGIN_HOST, ORIGIN_REALM} {
      IdentityPicks(schema, f, chunks, host, realm);
    } else {
      OtherPicks(schema, f, chunks, host, realm);
    }
  }

  lemma RowPicks(schema: Schema, f: Field, chunks: seq<bytes>, host: bytes, realm: bytes)
    requires NamesFit(host, realm) && (forall c <- chunks :: HeaderFits(c) && IsAvp(c)) && NoVendorOrigin(chunks)
    requires IsIdentityField(f, ORIGIN_HOST) && IsIdentityField(f, ORIGIN_REALM)
    ensures forall c <- NewRow(chunks, host, realm) :: HeaderFits(c)
    ensures Picks(schema, f, NewRow(chunks, host, realm)) == PicksAfter(f, Picks(schema, f, chunks), host, realm)
  {
    var a := NewAvps(chunks, host, realm);
    var b := IfMissing(!Has(chunks, ORIGIN_HOST), ORIGIN_HOST, host);
    var c := IfMissing(!Has(chunks, ORIGIN_REALM), ORIGIN_REALM, realm);
    assert NewRow(chunks, host, realm) == a + b + c;
    assert PrintedLength(0, host) < U24_SPAN && PrintedLength(0, realm) < U24_SPAN;
    NewAvpsPicks(schema, f, chunks, host, realm);
    MissingPicks(schema, f, !Has(chunks, ORIGIN_HOST), ORIGIN_HOST, host);
    MissingPicks(schema, f, !Has(chunks, ORIGIN_REALM), ORIGIN_REALM, realm);
    hide HeaderFits, IsAvp, Has, NewRow, NewAvps, IfMissing, Picks, NoVendorOrigin, Concat, Total, NamesFit,
         IsIdentityField, PrintedLength, PicksAfter;
    PicksAppend(schema, f, a, b);
    PicksAppend(schema, f, a + b, c);
    AfterCases(f, Picks(schema, f, chunks), host, realm);
  }

  lemma AfterCases(f: Field, before: seq<Item>, host: bytes, realm: bytes)
    ensures var x := Scalar(Scalars.Octets(if f.code == ORIGIN_HOST then host else realm));
            var after := PicksAfter(f, before, host, realm);
            after == (if f.code !in {ORIGIN_HOST, ORIGIN_REALM} then before + [] + []
                      else if before != [] then Copies(|before|, x) + [] + []
                      else Copies(|before|, x) + (if f.code == ORIGIN_HOST then [x] else [])
                           + (if f.code == ORIGIN_REALM then [x] else []))
  {
  }

  /** A field after the rewriting, in terms of the same field before it. */
  lemma FieldAfter(schema: Schema, f: Field, chunks: seq<bytes>, host: bytes, realm: bytes)
    requires NamesFit(host, realm) && (forall c <- chunks :: HeaderFits(c) && IsAvp(c)) && NoVendorOrigin(chunks)
    requires IsIdentityField(f, ORIGIN_HOST) && IsIdentityField(f, ORIGIN_REALM)
    ensures forall c <- NewRow(chunks, host, realm) :: HeaderFits(c)
    ensures MergeCell(schema, f, ZeroCell(f), NewRow(chunks, host, realm))
            == RenamedCell(f, MergeCell(schema, f, ZeroCell(f), chunks), host, realm)
  {
    RowPicks(schema, f, chunks, host, realm);
    hide HeaderFits, IsAvp, NewRow, Picks, NoVendorOrigin, NamesFit, IsIdentityField, Total, Concat;
    var before := Picks(schema, f, chunks);
    if f.code in {ORIGIN_HOST, ORIGIN_REALM} && f.repeated {
      assert ZeroCell(f).items == [];
      assert [] + before == before;
      var after := PicksAfter(f, before, host, realm);
      assert [] + after == after;
      if before == [] {
        assert after == [after[0]];
      }
    }
  }

  // --- whole messages ---

  /** An Origin AVP never makes the decoder of an identity field panic, so panics are the same before and after. */
  lemma {:induction false} CalmNewAvps(schema: Schema, fields: seq<Field>, chunks: seq<bytes>, host: bytes,
                                       realm: bytes)
    requires NamesFit(host, realm) && IdentitySchema(fields) && (forall c <- chunks :: HeaderFits(c) && IsAvp(c))
    ensures forall c <- NewAvps(chunks, host, realm) :: HeaderFits(c)
    ensures Calm(schema, fields, NewAvps(chunks, host, realm)) <==> Calm(schema, fields, chunks)
  {
    if chunks != [] {
      CalmNewAvps(schema, fields, chunks[1..], host, realm);
      var r := NewAvps(chunks, host, realm);
      assert r[0] == NewAvp(chunks[0], host, realm) && r[1..] == NewAvps(chunks[1..], host, realm);
      assert IsAvp(chunks[0]);
      CalmNewAvp(schema, fields, chunks[0], host, realm);
      hide HeaderFits, IsAvp, NewAvp, NewAvps, Total, Concat, Crashes;
      CalmFirst(schema, fields, r);
      CalmFirst(schema, fields, chunks);
    }
  }

  lemma CalmFirst(schema: Schema, fields: seq<Field>, chunks: seq<bytes>)
    requires chunks != [] && forall c <- chunks :: HeaderFits(c)
    ensures HeaderFits(chunks[0])
    ensures Calm(schema, fields, chunks) <==> !Crashes(schema, fields, chunks[0]) && Calm(schema, fields, chunks[1..])
  {
    assert chunks == [chunks[0]] + chunks[1..];
  }

  lemma CalmNewAvp(schema: Schema, fields: seq<Field>, c: bytes, host: bytes, realm: bytes)
    requires NamesFit(host, realm) && IdentitySchema(fields) && HeaderFits(c)
    ensures HeaderFits(NewAvp(c, host, realm))
    ensures Crashes(schema, fields, NewAvp(c, host, realm)) <==> Crashes(schema, fields, c)
  {
    StringAvpSeen(ORIGIN_HOST, host);
    StringAvpSeen(ORIGIN_REALM, realm);
    var d := NewAvp(c, host, realm);
    if d != c {
      CalmOrigin(schema, fields, c);
      CalmOrigin(schema, fields, d);
    }
  }

  lemma CalmOrigin(schema: Schema, fields: seq<Field>, c: bytes)
    requires IdentitySchema(fields) && HeaderFits(c) && Code(c) in {ORIGIN_HOST, ORIGIN_REALM}
    ensures !Crashes(schema, fields, c)
  {
    forall f <- fields
      ensures !(Matches(f, c) && DecodeItem(schema, f, Body(c)).Crash?)
    {
      assert IsIdentityField(f, ORIGIN_HOST) && IsIdentityField(f, ORIGIN_REALM);
    }
  }

  lemma CalmNewRow(schema: Schema, fields: seq<Field>, chunks: seq<bytes>, host: bytes, realm: bytes)
    requires NamesFit(host, realm) && IdentitySchema(fields) && (forall c <- chunks :: HeaderFits(c) && IsAvp(c))
    ensures forall c <- NewRow(chunks, host, realm) :: HeaderFits(c)
    ensures Calm(schema, fields, NewRow(chunks, host, realm)) <==> Calm(schema, fields, chunks)
  {
    var a := NewAvps(chunks, host, realm);
    var b := IfMissing(!Has(chunks, ORIGIN_HOST), ORIGIN_HOST, host);
    var c := IfMissing(!Has(chunks, ORIGIN_REALM), ORIGIN_REALM, realm);
    assert NewRow(chunks, host, realm) == a + b + c;
    StringAvpSeen(ORIGIN_HOST, host);
    StringAvpSeen(ORIGIN_REALM, realm);
    CalmOrigin(schema, fields, StringAvp(ORIGIN_HOST, host));
    CalmOrigin(schema, fields, StringAvp(ORIGIN_REALM, realm));
    CalmNewAvps(schema, fields, chunks, host, realm);
    assert Calm(schema, fields, b) && Calm(schema, fields, c);
    hide HeaderFits, IsAvp, NewAvps, NewRow, IfMissing, Calm, Total, Concat, StringAvp, IsOrigin;
    CalmAppend(schema, fields, a, b);
    CalmAppend(schema, fields, a + b, c);
  }

  /** Rewriting commutes with decoding: decoding the rewritten message gives what decoding the message gives, with
      only the two identity fields and the length changed.  The messages are arbitrary; vendor-specific AVPs that
      reuse the identity codes must not occur, because the codec reads them and the relay does not rewrite them. */
  lemma RewritingCommutes(schema: Schema, fields: seq<Field>, msg: bytes, host: bytes, realm: bytes)
    requires Proper(msg) && NamesFit(host, realm) && DistinctCodes(fields) && IdentitySchema(fields)
    requires NoVendorOrigin(Walk(msg[HEADER_LENGTH..]).chunks)
    ensures Rewrite(msg, host, realm).Rewritten?
    ensures var out := Rewrite(msg, host, realm).out;
            var p, q := Parsed(schema, fields, ZeroCells(fields), msg), Parsed(schema, fields, ZeroCells(fields), out);
            if !p.Ok? then q == p
            else
              q.Ok? && q.v.0 == p.v.0.(length := |out| % 0x100_0000)
              && |q.v.1| == |p.v.1| == |fields|
              && forall i :: 0 <= i < |fields| ==> q.v.1[i] == RenamedCell(fields[i], p.v.1[i], host, realm)
  {
    hide Walk, Fill, Picks, Rewrite, Iterate, NewRow, Get24, ReadHeader, HeaderFits, IsAvp, Calm, Total, Concat, Merge,
         RenamedCell, IsIdentityField, NamesFit, NoVendorOrigin, ZeroCell, DistinctCodes;
    RewriteMessage(msg, host, realm);
    var out := Rewrite(msg, host, realm).out;
    var chunks := Walk(msg[HEADER_LENGTH..]).chunks;
    ProperWalk(msg);
    ProperWalk(out);
    var row := NewRow(chunks, host, realm);
    CalmNewRow(schema, fields, chunks, host, realm);
    FillByField(schema, fields, ZeroCells(fields), chunks);
    FillByField(schema, fields, ZeroCells(fields), row);
    SameHeaderButLength(msg, out);
    forall i | 0 <= i < |fields|
      ensures MergeCell(schema, fields[i], ZeroCell(fields[i]), row)
              == RenamedCell(fields[i], MergeCell(schema, fields[i], ZeroCell(fields[i]), chunks), host, realm)
    {
      assert fields[i] in fields;
      FieldAfter(schema, fields[i], chunks, host, realm);
    }
  }

  lemma SameHeaderButLength(msg: bytes, out: bytes)
    requires |msg| >= HEADER_LENGTH && |out| >= HEADER_LENGTH
    requires out[0] == msg[0] && out[4..HEADER_LENGTH] == msg[4..HEADER_LENGTH]
    ensures ReadHeader(out) == ReadHeader(msg).(length := Get24(out[1..4]))
  {
    HeaderParts(msg);
    HeaderParts(out);
  }

  lemma EmittedNoVendor(schema: Schema, fields: seq<Field>, cells: seq<Cell>)
    requires IdentitySchema(fields) && TypedCells(schema, fields, cells) && FitsCells(schema, fields, cells)
    ensures forall c <- EmitCells(schema, fields, cells) :: HeaderFits(c) && IsAvp(c)
    ensures NoVendorOrigin(EmitCells(schema, fields, cells))
  {
    EmitCellsAreAvps(schema, fields, cells);
    hide TypedCells, FitsCells, EmitCells, Concat, Total;
    forall c <- EmitCells(schema, fields, cells)
      ensures HeaderFits(c) && IsAvp(c) && NoVendor(c)
    {
      var f :| f in fields && Code(c) == f.code != 0 && Vendor(c) == f.vendor;
      assert IsIdentityField(f, ORIGIN_HOST) && IsIdentityField(f, ORIGIN_REALM);
    }
  }

  /** What Marshal prints is accepted by the relay's walker, and its identity AVPs carry no vendor. */
  lemma MarshalledIsProper(schema: Schema, fields: seq<Field>, h: Header, cells: seq<Cell>)
    requires IdentitySchema(fields) && TypedCells(schema, fields, cells) && FitsCells(schema, fields, cells)
    ensures var msg := Printed(schema, fields, h, cells);
            Proper(msg) && NoVendorOrigin(Walk(msg[HEADER_LENGTH..]).chunks)
  {
    hide *;
    var msg := Printed(schema, fields, h, cells);
    var chunks := EmitCells(schema, fields, cells);
    PrintedBody(schema, fields, h, cells);
    EmittedNoVendor(schema, fields, cells);
    WalkOfAvps(chunks);
    RowAligned(chunks);
    ProperWalk(msg);
  }

  lemma PrintedBody(schema: Schema, fields: seq<Field>, h: Header, cells: seq<Cell>)
    requires TypedCells(schema, fields, cells)
    ensures var msg := Printed(schema, fields, h, cells);
            |msg| >= HEADER_LENGTH && |msg| % 4 == |Concat(EmitCells(schema, fields, cells))| % 4
            && msg[HEADER_LENGTH..] == Concat(EmitCells(schema, fields, cells))
  {
    hide EmitCells, Concat, TypedCells, PrintHeader;
  }

  /** The same for a message Marshal built: nothing else about it need be assumed. */
  lemma RewritingMarshalled(schema: Schema, fields: seq<Field>, h: Header, cells: seq<Cell>, host: bytes, realm: bytes)
    requires ValidSchema(schema) && DistinctCodes(fields) && IdentitySchema(fields) && NamesFit(host, realm)
    requires TypedCells(schema, fields, cells) && FitsCells(schema, fields, cells)
    ensures var r := Rewrite(Printed(schema, fields, h, cells), host, realm);
            r.Rewritten?
            && var q := Parsed(schema, fields, ZeroCells(fields), r.out);
               q.Ok? && q.v.0 == h.(length := |r.out| % 0x100_0000, command := h.command % 0x100_0000)
               && |q.v.1| == |fields|
               && forall i :: 0 <= i < |fields| ==>
                    q.v.1[i] == RenamedCell(fields[i], CanonCells(schema, fields, cells)[i], host, realm)
  {
    hide Printed, Rewrite, Parsed, RenamedCell, CanonCells, TypedCells, FitsCells, IdentitySchema, Proper,
         NoVendorOrigin, Walk;
    MessageRoundTrip(schema, fields, h, cells);
    MarshalledIsProper(schema, fields, h, cells);
    RewritingCommutes(schema, fields, Printed(schema, fields, h, cells), host, realm);
  }
}
