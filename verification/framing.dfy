/** Cutting a byte stream into messages: the relay's reader and the client's reader with its pooled buffer. */
module Framing {
  import opened Wrappers
  import opened Bytes
  import opened Headers

  const LARGEST_FRAME: nat := 0x10_0000
  const POOLED_LENGTH: nat := 4096

  /** Strict is the relay's reader; the client's takes any version and any length a header can hold. */
  datatype Rule = Strict | Lenient
  {
    predicate Accepts(version: byte, length: nat) {
      HEADER_LENGTH <= length && (Strict? ==> version == 1 && length <= LARGEST_FRAME)
    }
  }

  datatype Frame = Frame(msg: bytes, rest: bytes) | NoFrame

  /** The first message of a stream. */
  function Cut(rule: Rule, s: bytes): (r: Frame)
    ensures r.Frame? ==> r.msg + r.rest == s && |r.rest| < |s|
  {
    if |s| < 4 then NoFrame
    else
      var n := Get24(s[1..4]);
      if !rule.Accepts(s[0], n) || |s| < n then NoFrame else Frame(s[..n], s[n..])
  }

  /** A message whose length field is its length, within what the reader takes. */
  predicate WellFormed(rule: Rule, m: bytes) {
    |m| >= 4 && Get24(m[1..4]) == |m| && rule.Accepts(m[0], |m|)
  }

  /** In bytes: the length is in bytes 1 to 3, and at least 20; the relay wants version 1 and at most 2^20 bytes. */
  lemma CutExactly(rule: Rule, s: bytes)
    ensures Cut(rule, s).Frame? <==>
              |s| >= 4 && 20 <= s[1] as int * 0x1_0000 + s[2] as int * 0x100 + s[3] <= |s|
              && (rule == Strict ==> s[0] == 1 && s[1] as int * 0x1_0000 + s[2] as int * 0x100 + s[3] <= 1048576)
    ensures Cut(rule, s).Frame? ==>
              var n := s[1] as int * 0x1_0000 + s[2] as int * 0x100 + s[3]; Cut(rule, s) == Frame(s[..n], s[n..])
    ensures WellFormed(rule, s) <==> Cut(rule, s) == Frame(s, [])
  {
    if |s| >= 4 {
      assert s[1..4] == [s[1], s[2], s[3]];
      assert s[..|s|] == s && s[|s|..] == [];
    }
  }

  datatype Stream = Stream(msgs: seq<bytes>, rest: bytes)

  /** Reading until a read fails. */
  function Frames(rule: Rule, s: bytes): (r: Stream)
    decreases |s|
  {
    var c := Cut(rule, s);
    if c.NoFrame? then Stream([], s)
    else
      var more := Frames(rule, c.rest);
      Stream([c.msg] + more.msgs, more.rest)
  }

  lemma CutOne(rule: Rule, m: bytes, tail: bytes)
    requires WellFormed(rule, m)
    ensures Cut(rule, m + tail) == Frame(m, tail)
  {
    assert (m + tail)[1..4] == m[1..4];
    assert (m + tail)[..|m|] == m && (m + tail)[|m|..] == tail;
  }

  lemma CutWellFormed(rule: Rule, s: bytes)
    requires Cut(rule, s).Frame?
    ensures WellFormed(rule, Cut(rule, s).msg)
  {
    var m := Cut(rule, s).msg;
    assert m[1..4] == s[1..4];
  }

  /** Messages sent back to back come out as they went in, whatever follows them. */
  lemma {:induction false} FramesOfMessages(rule: Rule, ms: seq<bytes>, tail: bytes)
    requires forall m <- ms :: WellFormed(rule, m)
    ensures Frames(rule, Concat(ms) + tail)
            == var more := Frames(rule, tail); Stream(ms + more.msgs, more.rest)
  {
    hide *;
    if ms == [] {
      ConcatNone();
      assert [] + tail == tail && [] + Frames(rule, tail).msgs == Frames(rule, tail).msgs;
    } else {
      ConcatFirst(ms);
      Assoc(ms[0], Concat(ms[1..]), tail);
      CutOne(rule, ms[0], Concat(ms[1..]) + tail);
      FramesUnfold(rule, Concat(ms) + tail);
      FramesOfMessages(rule, ms[1..], tail);
      Assoc([ms[0]], ms[1..], Frames(rule, tail).msgs);
      assert ms == [ms[0]] + ms[1..];
    }
  }

  lemma FramesUnfold(rule: Rule, s: bytes)
    ensures var c := Cut(rule, s);
            if c.NoFrame? then Frames(rule, s) == Stream([], s)
            else var more := Frames(rule, c.rest); Frames(rule, s) == Stream([c.msg] + more.msgs, more.rest)
  {
  }

  lemma ConcatNone()
    ensures Concat([]) == []
  {
  }

  lemma ConcatFirst(ms: seq<bytes>)
    requires ms != []
    ensures Concat(ms) == ms[0] + Concat(ms[1..])
  {
  }

  /** Nothing is lost, invented or reordered: the messages and what is left over are the stream. */
  lemma {:induction false} FramesTile(rule: Rule, s: bytes)
    ensures var r := Frames(rule, s);
            Concat(r.msgs) + r.rest == s && (forall m <- r.msgs :: WellFormed(rule, m)) && Cut(rule, r.rest) == NoFrame
    decreases |s|
  {
    hide *;
    FramesUnfold(rule, s);
    ConcatNone();
    match Cut(rule, s)
    case NoFrame =>
      assert [] + s == s;
    case Frame(m, rest) =>
      assert m + rest == s;
      CutWellFormed(rule, s);
      FramesTile(rule, rest);
      var more := Frames(rule, rest);
      ConcatFirst([m] + more.msgs);
      assert ([m] + more.msgs)[1..] == more.msgs;
      Assoc(m, Concat(more.msgs), more.rest);
  }

  /** A reader drains exactly the streams that are messages back to back, and then it returns those messages. */
  lemma DrainedExactly(rule: Rule, s: bytes)
    ensures Frames(rule, s).rest == []
            <==> exists ms: seq<bytes> :: (forall m <- ms :: WellFormed(rule, m)) && Concat(ms) == s
    ensures forall ms: seq<bytes> | (forall m <- ms :: WellFormed(rule, m)) && Concat(ms) == s ::
              Frames(rule, s).msgs == ms
  {
    hide *;
    var r := Frames(rule, s);
    FramesTile(rule, s);
    if r.rest == [] {
      assert Concat(r.msgs) + [] == Concat(r.msgs);
    }
    forall ms: seq<bytes> | (forall m <- ms :: WellFormed(rule, m)) && Concat(ms) == s
      ensures r.rest == [] && r.msgs == ms
    {
      FramesOfMessages(rule, ms, []);
      FramesOfNothing(rule);
      assert s + [] == s && ms + [] == ms;
    }
  }

  lemma FramesOfNothing(rule: Rule)
    ensures Frames(rule, []) == Stream([], [])
  {
  }

  /** On a stream the relay's reader drains, the two readers return the same messages. */
  lemma {:induction false} ReadersAgree(s: bytes)
    requires Frames(Strict, s).rest == []
    ensures Frames(Lenient, s) == Frames(Strict, s)
  {
    hide *;
    var ms := Frames(Strict, s).msgs;
    FramesTile(Strict, s);
    assert Concat(ms) + [] == s;
    forall m <- ms
      ensures WellFormed(Lenient, m)
    {
      StrictIsLenient(m);
    }
    FramesOfMessages(Lenient, ms, []);
    FramesOfNothing(Lenient);
    assert ms + [] == ms;
  }

  lemma StrictIsLenient(m: bytes)
    requires WellFormed(Strict, m)
    ensures WellFormed(Lenient, m)
  {
  }

  // --- the readers ---

  /** The receiving end of a connection: the bytes that will arrive before it ends. */
  class Reader {
    var rest: bytes

    constructor (s: bytes)
      ensures rest == s
    {
      rest := s;
    }

    /** io.ReadFull into b[lo..hi]: all of it or an error. */
    method ReadFull(b: array<byte>, lo: nat, hi: nat) returns (ok: bool)
      requires lo <= hi <= b.Length
      modifies this, b
      ensures ok == (hi - lo <= |old(rest)|)
      ensures ok ==> b[..] == old(b[..lo]) + old(rest[..hi - lo]) + old(b[hi..]) && rest == old(rest[hi - lo..])
    {
      var n := if hi - lo <= |rest| then hi - lo else |rest|;
      forall i | 0 <= i < n {
        b[lo + i] := rest[i];
      }
      ok := n == hi - lo;
      rest := rest[n..];
    }
  }

  /** readMessage of the relay: four bytes, then the rest of the length they announce. */
  method ReadRelayMessage(conn: Reader) returns (r: Option<array<byte>>)
    modifies conn
    ensures r.None? <==> Cut(Strict, old(conn.rest)).NoFrame?
    ensures r.Some? ==> fresh(r.value) && Cut(Strict, old(conn.rest)) == Frame(r.value[..], conn.rest)
  {
    ghost var s := conn.rest;
    var prefix := new byte[4](_ => 0);
    var ok := conn.ReadFull(prefix, 0, 4);
    if !ok {
      return None;
    }
    assert prefix[..] == s[..4];
    if prefix[0] != 1 {
      return None;
    }
    assert s[1..4] == prefix[1..4];
    var total := Get24(prefix[1..4]);
    if total < HEADER_LENGTH || total > LARGEST_FRAME {
      return None;
    }
    var msg := new byte[total](_ => 0);
    forall i | 0 <= i < 4 {
      msg[i] := prefix[i];
    }
    assert msg[..4] == s[..4];
    ok := conn.ReadFull(msg, 4, total);
    if !ok {
      return None;
    }
    assert msg[..] == s[..4] + s[4..][..total - 4] == s[..total];
    return Some(msg);
  }

  // --- the header check of the client ---

  datatype Parsed = Info(h: Header) | Invalid

  /** What ParseMessageHeader makes of a message. */
  function HeaderInfo(data: bytes): (r: Parsed) {
    if |data| < HEADER_LENGTH || data[0] != 1 || Get24(data[1..4]) < HEADER_LENGTH then Invalid
    else Info(ReadHeader(data))
  }

  method ParseMessageHeader(data: bytes) returns (r: Parsed)
    ensures r == HeaderInfo(data)
    ensures r.Info? <==>
              |data| >= 20 && data[0] == 1 && data[1] as int * 0x1_0000 + data[2] as int * 0x100 + data[3] >= 20
    ensures r.Info? ==> Laid(data, r.h)
  {
    assert |data| >= 4 ==> data[1..4] == [data[1], data[2], data[3]];
    if |data| >= HEADER_LENGTH {
      ReadIsLaid(data);
    }
    if |data| < 20 {
      return Invalid;
    }
    var length := Get24(data[1..4]);
    var flags := Flags(Bit(data[4], 0x80), Bit(data[4], 0x40), Bit(data[4], 0x20), Bit(data[4], 0x10));
    var info := Header(data[0], length, flags, Get24(data[5..8]), Get32(data[8..12]), Get32(data[12..16]),
                       Get32(data[16..20]));
    if info.version != 1 || info.length < 20 {
      return Invalid;
    }
    return Info(info);
  }

  /** The relay's reader takes exactly what the client's reader takes, its header check passes, and is not too long. */
  lemma StrictExactly(m: bytes)
    ensures WellFormed(Strict, m) <==> WellFormed(Lenient, m) && HeaderInfo(m).Info? && |m| <= LARGEST_FRAME
  {
  }

  // --- the client's reader ---

  datatype Message = Message(length: nat, header: array<byte>, body: array<byte>)

  /** The buffers given back by earlier reads; a read may get any of them or a new one. */
  class BufferPool {
    var free: seq<array<byte>>

    constructor ()
      ensures free == [] && Valid()
    {
      free := [];
    }

    ghost function Buffers(): set<object>
      reads this
    {
      set b | b in free
    }

    predicate Valid()
      reads this
    {
      forall b <- free :: b.Length == POOLED_LENGTH
    }

    method Get() returns (b: array<byte>)
      requires Valid()
      modifies this
      ensures Valid() && b.Length == POOLED_LENGTH
      ensures (b in old(free) || fresh(b)) && forall c <- free :: c in old(free)
    {
      if * {
        if |free| > 0 {
          var k :| 0 <= k < |free|;
          b := free[k];
          free := free[..k] + free[k + 1..];
          return;
        }
      }
      b := new byte[POOLED_LENGTH](_ => 0);
    }

    method Put(b: array<byte>)
      requires Valid()
      modifies this
      ensures Valid() && free == old(free) + if b.Length == POOLED_LENGTH then [b] else []
    {
      if b.Length == POOLED_LENGTH {
        free := free + [b];
      }
    }
  }

  method Copied(b: array<byte>, n: nat) returns (c: array<byte>)
    requires n <= b.Length
    ensures fresh(c) && c[..] == b[..n]
  {
    c := new byte[n](i requires 0 <= i < n reads b => b[i]);
  }

  /** ReadMessage: the header and the body pass through a pooled buffer and are copied out of it, so that what is
      returned is no buffer of the pool. */
  method ReadMessage(reader: Reader, pool: BufferPool) returns (r: Option<Message>)
    requires pool.Valid()
    modifies reader, pool, pool.Buffers()
    ensures pool.Valid() && fresh(pool.Buffers() - old(pool.Buffers()))
    ensures r.None? <==> Cut(Lenient, old(reader.rest)).NoFrame?
    ensures r.Some? ==>
              var m := r.value;
              fresh(m.header) && fresh(m.body) && m.header !in pool.free && m.body !in pool.free
              && m.header.Length == HEADER_LENGTH && m.length == HEADER_LENGTH + m.body.Length
              && Cut(Lenient, old(reader.rest)) == Frame(m.header[..] + m.body[..], reader.rest)
  {
    var buf := pool.Get();
    r := ReadThrough(reader, buf);
    pool.Put(buf);
  }

  lemma Rejoined(s: bytes, n: nat)
    requires 20 <= n <= |s|
    ensures s[..20] + s[20..][..n - 20] == s[..n] && s[20..][n - 20..] == s[n..]
  {
  }

  lemma LenientCut(s: bytes)
    ensures |s| < HEADER_LENGTH ==> Cut(Lenient, s).NoFrame?
    ensures |s| >= HEADER_LENGTH ==>
              var n := Get24(s[1..4]);
              Cut(Lenient, s) == if HEADER_LENGTH <= n <= |s| then Frame(s[..n], s[n..]) else NoFrame
  {
  }

  method ReadThrough(reader: Reader, buf: array<byte>) returns (r: Option<Message>)
    requires buf.Length == POOLED_LENGTH
    modifies reader, buf
    ensures r.None? <==> Cut(Lenient, old(reader.rest)).NoFrame?
    ensures r.Some? ==>
              var m := r.value;
              fresh(m.header) && fresh(m.body)
              && m.header.Length == HEADER_LENGTH && m.length == HEADER_LENGTH + m.body.Length
              && Cut(Lenient, old(reader.rest)) == Frame(m.header[..] + m.body[..], reader.rest)
  {
    hide Get24, Cut;
    ghost var s := reader.rest;
    LenientCut(s);
    var ok := reader.ReadFull(buf, 0, HEADER_LENGTH);
    if !ok {
      return None;
    }
    assert buf[..20] == s[..20] && reader.rest == s[20..];
    assert buf[1..4] == s[..20][1..4] == s[1..4];
    var length := Get24(buf[1..4]);
    if length < HEADER_LENGTH {
      return None;
    }
    var header := Copied(buf, HEADER_LENGTH);
    assert header[..] == s[..20];
    var body := new byte[0];
    if length > HEADER_LENGTH {
      var n: nat := length - HEADER_LENGTH;
      var b := buf;
      if n > POOLED_LENGTH {
        b := new byte[n](_ => 0);
      }
      ok := reader.ReadFull(b, 0, n);
      if !ok {
        return None;
      }
      assert b[..n] == s[20..][..n];
      body := Copied(b, n);
    }
    Rejoined(s, length);
    assert header[..] == s[..20] && body[..] == s[20..][..length - 20] && reader.rest == s[20..][length - 20..];
    return Some(Message(length, header, body));
  }

  /** Reads to the end with one pool: every message returned still holds what was read when the last read is over. */
  method ReadAll(reader: Reader, pool: BufferPool) returns (ms: seq<Message>)
    requires pool.Valid()
    modifies reader, pool, pool.Buffers()
    ensures pool.Valid()
    ensures var msgs := Frames(Lenient, old(reader.rest)).msgs;
            |ms| == |msgs| && forall k :: 0 <= k < |ms| ==> ms[k].header[..] + ms[k].body[..] == msgs[k]
  {
    hide Cut, Frames;
    ms := [];
    ghost var done: seq<bytes> := [];
    var more := true;
    assert [] + Frames(Lenient, reader.rest).msgs == Frames(Lenient, reader.rest).msgs;
    while more
      invariant pool.Valid() && fresh(pool.Buffers() - old(pool.Buffers()))
      invariant |ms| == |done| && forall k :: 0 <= k < |ms| ==> ms[k].header[..] + ms[k].body[..] == done[k]
      invariant forall m <- ms :: fresh(m.header) && fresh(m.body) && m.header !in pool.free && m.body !in pool.free
      invariant Frames(Lenient, old(reader.rest)).msgs
                == done + if more then Frames(Lenient, reader.rest).msgs else []
      decreases more, |reader.rest|
    {
      ghost var s := reader.rest;
      ghost var before := pool.free;
      FramesUnfold(Lenient, s);
      var r := ReadMessage(reader, pool);
      if r.None? {
        more := false;
      } else {
        ghost var m := r.value.header[..] + r.value.body[..];
        Assoc(done, [m], Frames(Lenient, reader.rest).msgs);
        done := done + [m];
        ms := ms + [r.value];
      }
    }
    assert done + [] == done;
  }
}
