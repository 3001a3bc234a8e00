/** Commands: a header and a row of fields, marshalled and unmarshalled by the emitted methods. */
module Messages {
  import opened Bytes
  import opened Headers
  import Scalars
  import opened Avps
  import opened Codec
  import opened RoundTrip
  import opened Decoding

  // --- what the methods compute ---

  predicate EmptyCheckFails(f: Field, cell: Cell) {
    if f.repeated then cell.items == []
    else if f.shape.Grouped? then cell.items == []
    else f.shape.kind in {Scalars.UTF8String, Scalars.DiameterIdentity, Scalars.DiameterURI, Scalars.OctetString}
         && cell.items == [Scalar(Scalars.Octets([]))]
  }

  predicate RequiredSet(fields: seq<Field>, cells: seq<Cell>)
    requires |fields| == |cells|
  {
    forall i :: 0 <= i < |fields| && fields[i].required ==> !EmptyCheckFails(fields[i], cells[i])
  }

  /** The emitted Validate.  Without a required single field nothing is checked, not even required repeated fields. */
  predicate Validates(fields: seq<Field>, cells: seq<Cell>)
    requires |fields| == |cells|
  {
    (exists f <- fields :: f.required && !f.repeated) ==> RequiredSet(fields, cells)
  }

  function Printed(schema: Schema, fields: seq<Field>, h: Header, cells: seq<Cell>): (data: bytes)
    requires TypedCells(schema, fields, cells)
  {
    var body := Concat(EmitCells(schema, fields, cells));
    PrintHeader(h.(length := (HEADER_LENGTH + |body|) % 0x1_0000_0000)) + body
  }

  /** Unmarshal into a struct that already holds cells: first the header, then the loop over the rest. */
  function Parsed(schema: Schema, fields: seq<Field>, cells: seq<Cell>, data: bytes): (r: Res<(Header, seq<Cell>)>)
    requires |fields| == |cells|
  {
    if |data| < HEADER_LENGTH then Fail
    else
      match DecodeBody(schema, fields, cells, data[HEADER_LENGTH..])
      case Ok(filled) => Ok((ReadHeader(data), filled))
      case Fail => Fail
      case Panic => Panic
  }

  // --- the methods of a grouped AVP ---

  /** The loops of the emitted Marshal, which append to a buffer field by field and element by element. */
  method AppendFields(schema: Schema, fields: seq<Field>, cells: seq<Cell>) returns (buf: bytes)
    requires TypedCells(schema, fields, cells)
    ensures buf == Concat(EmitCells(schema, fields, cells))
    decreases cells, 1
  {
    buf := [];
    var i := 0;
    assert fields[0..] == fields && cells[0..] == cells;
    while i < |fields|
      invariant i <= |fields|
      invariant TypedCells(schema, fields[i..], cells[i..])
      invariant buf + Concat(EmitCells(schema, fields[i..], cells[i..])) == Concat(EmitCells(schema, fields, cells))
    {
      var f, cell := fields[i], cells[i];
      EmitHead(schema, fields[i..], cells[i..]);
      assert fields[i..][1..] == fields[i + 1..] && cells[i..][1..] == cells[i + 1..];
      var more := [];
      if f.code != 0 {
        more := AppendItems(schema, f, cell.items);
      }
      Assoc(buf, more, Concat(EmitCells(schema, fields[i + 1..], cells[i + 1..])));
      buf := buf + more;
      i := i + 1;
    }
    assert fields[i..] == [] && cells[i..] == [];
  }

  lemma EmitHead(schema: Schema, fields: seq<Field>, cells: seq<Cell>)
    requires TypedCells(schema, fields, cells) && cells != []
    ensures TypedCell(schema, fields[0], cells[0]) && TypedCells(schema, fields[1..], cells[1..])
    ensures Concat(EmitCells(schema, fields, cells))
            == Concat(EmitItems(schema, fields[0], cells[0].items)) + Concat(EmitCells(schema, fields[1..], cells[1..]))
  {
    assert TypedCell(schema, fields[0], cells[0]);
    ConcatAppend(EmitItems(schema, fields[0], cells[0].items), EmitCells(schema, fields[1..], cells[1..]));
  }

  method AppendItems(schema: Schema, f: Field, items: seq<Item>) returns (buf: bytes)
    requires f.code != 0 && forall x <- items :: TypedItem(schema, f, x)
    ensures buf == Concat(EmitItems(schema, f, items))
    decreases items, 1
  {
    buf := [];
    var j := 0;
    assert items[0..] == items;
    while j < |items|
      invariant j <= |items|
      invariant buf + Concat(EmitItems(schema, f, items[j..])) == Concat(EmitItems(schema, f, items))
    {
      var x := items[j];
      assert items[j..][1..] == items[j + 1..];
      ghost var rest := EmitItems(schema, f, items[j + 1..]);
      ConcatAppend(EmitItem(schema, f, x), rest);
      if x.NilGroup? {
        assert [] + Concat(rest) == Concat(rest);
      } else {
        var payload := MarshalPayload(schema, f, x);
        var avp := MarshalAvp(f.code, f.vendor, f.must, f.mayEncrypt, payload);
        ConcatOne(avp);
        Assoc(buf, avp, Concat(rest));
        buf := buf + avp;
      }
      j := j + 1;
    }
  }

  method MarshalPayload(schema: Schema, f: Field, x: Item) returns (body: bytes)
    requires TypedItem(schema, f, x) && !x.NilGroup?
    ensures body == Payload(schema, f, x)
    decreases x, 1
  {
    match x {
      case Scalar(v) => body := Scalars.Serialize(f.shape.kind, v);
      case Group(g) => body := MarshalGroup(schema, f.shape.name, g);
    }
  }

  method MarshalGroup(schema: Schema, name: string, g: Struct) returns (data: bytes)
    requires TypedStruct(schema, name, g)
    ensures data == EmitStruct(schema, name, g)
    decreases g, 1
  {
    match g {
      case Raw(d) => data := d;
      case Record(cells) => data := AppendFields(schema, FieldsOf(schema, name), cells);
    }
  }

  /** marshalAVP and marshalAVPWithVendor: a header filled in place, then the body and the padding appended. */
  method MarshalAvp(code: u32, vendor: u32, must: bool, protect: bool, body: bytes) returns (buf: bytes)
    ensures buf == PrintAvp(code, vendor, must, protect, body)
  {
    var headerSize := if vendor != 0 then 12 else 8;
    var totalLen := headerSize + |body|;
    var header := AvpHeader(code, vendor, FlagByte(vendor != 0, must, protect), totalLen);
    buf := header[..] + body;
    var padding := (4 - |buf| % 4) % 4;
    ghost var unpadded := buf;
    for i := 0 to padding
      invariant buf == unpadded + Zeros(i)
    {
      buf := buf + [0];
    }
    assert padding == Padded(totalLen) - totalLen;
  }

  method AvpHeader(code: u32, vendor: u32, flags: byte, totalLen: nat) returns (header: array<byte>)
    ensures fresh(header)
    ensures header[..] == Put32(code) + [flags] + Put24(totalLen) + if vendor != 0 then Put32(vendor) else []
  {
    hide Put24;
    header := new byte[if vendor != 0 then 12 else 8](_ => 0);
    PutUint32(header, 0, code);
    assert header[..4] == Put32(code);
    header[4] := flags;
    var word := LengthWord(totalLen);
    PutUint32(header, 4, word);
    header[4] := flags;
    ghost var done := Put32(code) + [flags] + Put24(totalLen);
    assert header[..8] == header[..4] + [header[4]] + header[5..8] == done;
    if vendor != 0 {
      PutUint32(header, 8, vendor);
      assert header[..] == header[..12] == done + Put32(vendor);
    } else {
      assert header[..] == header[..8] == done + [];
    }
  }

  /** The conversion of a length to uint32. */
  method LengthWord(n: nat) returns (w: u32)
    ensures Put24(w) == Put24(n)
  {
    w := n % 0x1_0000_0000;
    WordLength(n);
    GetPut24(w);
    GetPut24(n);
    PutGet24(Put24(w));
    PutGet24(Put24(n));
  }

  /** One turn of the emitted loop, up to the switch: where the AVP at the front ends, or why the loop ends. */
  datatype Turn = Next(avp: bytes, rest: bytes) | Last(avp: bytes) | Done | Broken

  /** The checks of the loop are those of the walk. */
  lemma ChecksFit(d: bytes)
    requires |d| >= 8
    ensures HeaderFits(d) <==>
              Get24(d[5..8]) <= |d| && (if Bit(d[4], 0x80) then |d| >= 12 && Get24(d[5..8]) >= 12
                                        else Get24(d[5..8]) >= 8)
    ensures AvpLength(d) == Get24(d[5..8])
  {
    hide Get24, Bit;
  }

  /** The walk by the cases of one turn. */
  lemma WalkTurn(d: bytes)
    ensures |d| < 8 ==> Walk(d) == Walked([], if d == [] then Clean else Short)
    ensures |d| >= 8 && !HeaderFits(d) ==> Walk(d) == Walked([], Bad)
    ensures HeaderFits(d) ==>
              |d| >= 8
              && var n := Padded(AvpLength(d));
                 n >= 8
                 && if n > |d| then Walk(d) == Walked([d], Ragged)
                    else HeaderFits(d[..n])
                         && Walk(d) == Walked([d[..n]] + Walk(d[n..]).chunks, Walk(d[n..]).stop)
  {
    if HeaderFits(d) && Padded(AvpLength(d)) <= |d| {
      HeadSame(d, Padded(AvpLength(d)));
    }
    hide Get24;
  }

  method ReadAvp(avpData: bytes) returns (t: Turn)
    ensures match t
            case Next(avp, rest) =>
              |rest| < |avpData| && HeaderFits(avp)
              && Walk(avpData) == Walked([avp] + Walk(rest).chunks, Walk(rest).stop)
            case Last(avp) => avp == avpData && HeaderFits(avp) && Walk(avpData) == Walked([avp], Ragged)
            case Done => Walk(avpData) == Walked([], if avpData == [] then Clean else Short)
            case Broken => Walk(avpData) == Walked([], Bad)
  {
    hide Get24, Walk, HeaderFits, AvpLength, Bit;
    WalkTurn(avpData);
    if |avpData| < 8 {
      return Done;
    }
    ChecksFit(avpData);
    var avpLength := Get24(avpData[5..8]);
    var fits := avpLength <= |avpData|;
    if fits {
      var headerSize := 8;
      if Bit(avpData[4], 0x80) {
        fits := |avpData| >= 12;
        headerSize := 12;
      }
      fits := fits && avpLength - headerSize >= 0;
    }
    if !fits {
      return Broken;
    }
    var paddedLength := if avpLength % 4 != 0 then avpLength + (4 - avpLength % 4) else avpLength;
    if paddedLength > |avpData| {
      return Last(avpData);
    }
    return Next(avpData[..paddedLength], avpData[paddedLength..]);
  }

  /** The loop of the emitted Unmarshal, re-slicing its input and assigning fields.  Group structs are decoded into
      fresh values by recursion on their shorter bodies. */
  method DecodeFields(schema: Schema, fields: seq<Field>, start: seq<Cell>, data: bytes)
      returns (outcome: Res<()>, cells: seq<Cell>)
    requires |start| == |fields|
    ensures |cells| == |fields|
    ensures var filled := Fill(schema, fields, start, Walk(data).chunks);
            if filled.Panic? then outcome == Panic
            else cells == filled.v && outcome == if Walk(data).stop.Bad? then Fail else Ok(())
    decreases |data|, 1
  {
    cells := start;
    var avpData := data;
    while |avpData| > 0
      invariant |avpData| <= |data| && |cells| == |fields|
      invariant Walk(avpData).stop == Walk(data).stop
      invariant Fill(schema, fields, cells, Walk(avpData).chunks) == Fill(schema, fields, start, Walk(data).chunks)
      decreases |avpData|
    {
      var t := ReadAvp(avpData);
      match t {
        case Done => return Ok(()), cells;
        case Broken => return Fail, cells;
        case Last(avp) =>
          var stored := Switch(schema, fields, cells, avp);
          if stored.Panic? {
            return Panic, cells;
          }
          return Ok(()), stored.v;
        case Next(avp, rest) =>
          var stored := Switch(schema, fields, cells, avp);
          if stored.Panic? {
            return Panic, cells;
          }
          cells, avpData := stored.v, rest;
      }
    }
    return Ok(()), cells;
  }

  /** The emitted switch on the AVP code. */
  method Switch(schema: Schema, fields: seq<Field>, cells: seq<Cell>, avp: bytes) returns (r: Res<seq<Cell>>)
    requires |cells| == |fields| && HeaderFits(avp)
    ensures r == Store(schema, fields, cells, avp)
    decreases |avp|, 0
  {
    var i := CaseOf(fields, Code(avp));
    if i == |fields| || (fields[i].vendor != 0 && Vendor(avp) != fields[i].vendor) {
      return Ok(cells);
    }
    var f, avpValue := fields[i], Body(avp);
    var item: Item;
    match f.shape {
      case Leaf(kind) =>
        match Scalars.Decode(kind, avpValue) {
          case Value(v) => item := Scalar(v);
          case Error => return Ok(cells);
          case Clash => return Panic;
        }
      case Grouped(name) =>
        var g := UnmarshalGroup(schema, name, avpValue);
        match g {
          case Ok(v) => item := Group(v);
          case Fail => return Ok(cells);
          case Panic => return Panic;
        }
    }
    r := Ok(cells[i := Cell(if f.repeated then cells[i].items + [item] else [item])]);
  }

  method UnmarshalGroup(schema: Schema, name: string, data: bytes) returns (r: Res<Struct>)
    ensures r == DecodeStruct(schema, name, data)
    decreases |data|, 2
  {
    var fields := FieldsOf(schema, name);
    if fields == [] {
      return Ok(Raw(data));
    }
    var outcome, cells := DecodeFields(schema, fields, ZeroCells(fields), data);
    match outcome {
      case Ok(_) => r := Ok(Record(cells));
      case Fail => r := Fail;
      case Panic => r := Panic;
    }
  }

  // --- a command ---

  /** An emitted command struct: its header and its fields, which Marshal and Unmarshal update. */
  class Message {
    const schema: Schema
    const fields: seq<Field>
    var header: Header
    var cells: seq<Cell>

    /** &Command{}: everything zero. */
    constructor (schema: Schema, fields: seq<Field>)
      ensures this.schema == schema && this.fields == fields
      ensures header == Header(0, 0, Flags(false, false, false, false), 0, 0, 0, 0) && cells == ZeroCells(fields)
    {
      this.schema, this.fields := schema, fields;
      header := Header(0, 0, Flags(false, false, false, false), 0, 0, 0, 0);
      cells := ZeroCells(fields);
    }

    /** Fails exactly when some required field is single and a required field is unset: a repeated field without
        elements, a group that is nil, or an empty text.  Other values, such as numbers, are never looked at. */
    method Validate() returns (ok: bool)
      requires |cells| == |fields|
      ensures ok == Validates(fields, cells)
      ensures !ok <==>
                (exists f <- fields :: f.required && !f.repeated)
                && exists i :: 0 <= i < |fields| && fields[i].required
                               && (((fields[i].repeated || fields[i].shape.Grouped?) && cells[i].items == [])
                                   || (!fields[i].repeated && fields[i].shape.Leaf?
                                       && fields[i].shape.kind in {Scalars.OctetString, Scalars.UTF8String,
                                                                   Scalars.DiameterIdentity, Scalars.DiameterURI}
                                       && cells[i].items == [Scalar(Scalars.Octets([]))]))
    {
      var hasRequired, i := false, 0;
      while i < |fields|
        invariant i <= |fields|
        invariant hasRequired <==> exists f <- fields[..i] :: f.required && !f.repeated
      {
        assert fields[..i + 1] == fields[..i] + [fields[i]];
        hasRequired := hasRequired || (fields[i].required && !fields[i].repeated);
        i := i + 1;
      }
      assert fields[..i] == fields;
      if !hasRequired {
        return true;
      }
      i := 0;
      while i < |fields|
        invariant i <= |fields|
        invariant forall k :: 0 <= k < i && fields[k].required ==> !EmptyCheckFails(fields[k], cells[k])
      {
        if fields[i].required && EmptyCheckFails(fields[i], cells[i]) {
          return false;
        }
        i := i + 1;
      }
      return true;
    }

    /** Appends everything behind a placeholder, then overwrites the placeholder with the header. */
    method Marshal() returns (r: Res<bytes>)
      requires TypedCells(schema, fields, cells)
      modifies this`header
      ensures !Validates(fields, cells) ==> r == Fail && header == old(header)
      ensures Validates(fields, cells) ==>
                r == Ok(Printed(schema, fields, old(header), cells))
                && header == old(header).(length := |r.v| % 0x1_0000_0000)
    {
      var ok := Validate();
      if !ok {
        return Fail;
      }
      var buf: bytes := Zeros(HEADER_LENGTH);
      var avps := AppendFields(schema, fields, cells);
      buf := buf + avps;
      header := header.(length := |buf| % 0x1_0000_0000);
      var top := MarshalHeader(header);
      buf := top[..] + buf[HEADER_LENGTH..];
      return Ok(buf);
    }

    /** A failed Unmarshal leaves the header and the AVPs before the failure in the struct. */
    method Unmarshal(data: bytes) returns (r: Res<()>)
      requires |cells| == |fields|
      modifies this
      ensures |cells| == |fields|
      ensures var p := Parsed(schema, fields, old(cells), data);
              (r.Ok? <==> p.Ok?) && (r.Panic? <==> p.Panic?) && (p.Ok? ==> header == p.v.0 && cells == p.v.1)
      ensures |data| < HEADER_LENGTH ==> header == old(header) && cells == old(cells)
      ensures |data| >= HEADER_LENGTH ==> header == ReadHeader(data)
      ensures |data| >= HEADER_LENGTH && r.Fail? ==>
                Fill(schema, fields, old(cells), Walk(data[HEADER_LENGTH..]).chunks) == Ok(cells)
    {
      if |data| < HEADER_LENGTH {
        return Fail;
      }
      header := ReadHeader(data);
      var outcome, filled := DecodeFields(schema, fields, cells, data[HEADER_LENGTH..]);
      cells := filled;
      return outcome;
    }
  }

  /** Validate accepts a command with a required field unset exactly when no required field is single and some required
      repeated field is empty. */
  lemma ValidateMisses(fields: seq<Field>, cells: seq<Cell>)
    requires |fields| == |cells|
    ensures Validates(fields, cells) && !RequiredSet(fields, cells)
            <==> (forall f <- fields :: f.required ==> f.repeated)
                 && exists i :: 0 <= i < |fields| && fields[i].required && cells[i].items == []
  {
    if i :| 0 <= i < |fields| && fields[i].required && EmptyCheckFails(fields[i], cells[i]) {
      assert fields[i] in fields;
    }
    if i :| 0 <= i < |fields| && fields[i].required && cells[i].items == [] {
      assert fields[i] in fields;
    }
  }

  lemma RepeatedMissed(f: Field)
    requires f.required && f.repeated
    ensures Validates([f], [Cell([])]) && !RequiredSet([f], [Cell([])])
  {
    ValidateMisses([f], [Cell([])]);
    assert [f][0].required && [Cell([])][0].items == [];
  }

  /** What a fresh command holds: nothing where the source has a pointer or a slice, zeros and empty texts elsewhere,
      and in a time the first second of the year 1. */
  lemma FreshFields(fields: seq<Field>, i: nat)
    requires i < |fields|
    ensures var f, cell := fields[i], ZeroCells(fields)[i];
            if f.repeated || !f.required || f.shape.Grouped? then cell.items == []
            else
              cell.items == [Scalar(if f.shape.kind.Time? then Scalars.Instant(-62135596800)
                                    else if f.shape.kind in {Scalars.OctetString, Scalars.UTF8String,
                                                             Scalars.DiameterIdentity, Scalars.DiameterURI,
                                                             Scalars.IPFilterRule, Scalars.QoSFilterRule,
                                                             Scalars.Address} then Scalars.Octets([])
                                    else Scalars.Word(0))]
  {
  }

  /** A fresh command with a required text or group never validates. */
  lemma FreshNeverValidates(fields: seq<Field>, i: nat)
    requires i < |fields| && fields[i].required && !fields[i].repeated
    requires fields[i].shape.Grouped? || fields[i].shape.kind in {Scalars.OctetString, Scalars.UTF8String,
                                                                  Scalars.DiameterIdentity, Scalars.DiameterURI}
    ensures !Validates(fields, ZeroCells(fields))
  {
    assert fields[i] in fields && EmptyCheckFails(fields[i], ZeroCells(fields)[i]);
  }

  // --- bytes on which Unmarshal panics ---

  /** Unmarshal panics exactly when the message has an AVP, in its body or in a group of any depth, that is taken for a
      Time and whose body is not four bytes. */
  lemma UnmarshalPanicsExactly(schema: Schema, fields: seq<Field>, cells: seq<Cell>, data: bytes)
    requires |cells| == |fields|
    ensures Parsed(schema, fields, cells, data).Panic? <==>
              |data| >= HEADER_LENGTH && !Sound(schema, fields, Walk(data[HEADER_LENGTH..]).chunks)
  {
    if |data| >= HEADER_LENGTH {
      PanicsExactly(schema, fields, cells, Walk(data[HEADER_LENGTH..]).chunks);
    }
  }

  /** An input: a header and an empty Time AVP. */
  lemma EmptyTimePanics(schema: Schema, f: Field, cell: Cell, header: bytes)
    requires f.shape == Leaf(Scalars.Time) && f.code != 0 && f.vendor == 0 && |header| == HEADER_LENGTH
    ensures Parsed(schema, [f], [cell], header + (Put32(f.code) + [0x40, 0, 0, 8])).Panic?
  {
    var c := Put32(f.code) + [0x40, 0, 0, 8];
    var data := header + c;
    UnmarshalPanicsExactly(schema, [f], [cell], data);
    assert data[HEADER_LENGTH..] == c;
    assert c[5..8] == [0, 0, 8] && c[..4] == Put32(f.code);
    GetPut32(f.code);
    assert HeaderFits(c) && Body(c) == [] && c[..8] == c;
    assert Walk(c).chunks == [c];
    assert CaseOf([f], f.code) == 0;
    assert !SoundAvp(schema, [f], c);
  }

  // --- the round trip of whole messages ---

  /** While every AVP fits its 24-bit length, Unmarshal into a fresh struct gives back what Marshal was given, made
      canonical. */
  lemma MessageRoundTrip(schema: Schema, fields: seq<Field>, h: Header, cells: seq<Cell>)
    requires ValidSchema(schema) && DistinctCodes(fields)
    requires TypedCells(schema, fields, cells) && FitsCells(schema, fields, cells)
    ensures var data := Printed(schema, fields, h, cells);
            Parsed(schema, fields, ZeroCells(fields), data)
            == Ok((h.(length := |data| % 0x100_0000, command := h.command % 0x100_0000),
                   CanonCells(schema, fields, cells)))
  {
    var data := Printed(schema, fields, h, cells);
    var body := Concat(EmitCells(schema, fields, cells));
    var top := h.(length := |data| % 0x1_0000_0000);
    HeaderRoundTrip(top, body);
    FieldsRoundTrip(schema, fields, cells);
    assert data[HEADER_LENGTH..] == body;
    WordLength(|data|);
  }

  lemma LengthKept(n: nat)
    ensures n % 0x1_0000_0000 < U24_SPAN <==> n % 0x1_0000_0000 == n % 0x100_0000
  {
    WordLength(n);
  }

  /** The struct Marshal leaves behind is read back exactly when the length in its header and its command code are below
      2^24 and its values can be kept.  Below 2^32 bytes that length is the true one, and nothing else is assumed; from
      2^32 bytes on, where it has wrapped, each AVP must fit its own length field. */
  lemma MessageKeptExactly(schema: Schema, fields: seq<Field>, h: Header, cells: seq<Cell>)
    requires ValidSchema(schema) && DistinctCodes(fields) && TypedCells(schema, fields, cells)
    requires |Printed(schema, fields, h, cells)| < U32_SPAN || FitsCells(schema, fields, cells)
    ensures var data := Printed(schema, fields, h, cells);
            Parsed(schema, fields, ZeroCells(fields), data) == Ok((h.(length := |data| % 0x1_0000_0000), cells))
            <==> |data| % 0x1_0000_0000 < U24_SPAN && h.command < U24_SPAN && KeptCells(schema, fields, cells)
  {
    hide Printed, Parsed, FitsCells, TypedCells, KeptCells, CanonCells, ZeroCells, DistinctCodes, ValidSchema;
    var data := Printed(schema, fields, h, cells);
    ShortFits(schema, fields, h, cells);
    if FitsCells(schema, fields, cells) {
      MessageRoundTrip(schema, fields, h, cells);
      KeptCellsExactly(schema, fields, cells);
      LengthKept(|data|);
    } else {
      LongLengthLost(schema, fields, data);
    }
  }

  lemma ShortFits(schema: Schema, fields: seq<Field>, h: Header, cells: seq<Cell>)
    requires TypedCells(schema, fields, cells)
    ensures |Printed(schema, fields, h, cells)| < U24_SPAN ==> FitsCells(schema, fields, cells)
  {
    if |Printed(schema, fields, h, cells)| < U24_SPAN {
      CellsFit(schema, fields, cells);
    }
  }

  /** Whatever else it does, Unmarshal reads a length below 2^24. */
  lemma LongLengthLost(schema: Schema, fields: seq<Field>, data: bytes)
    ensures var p := Parsed(schema, fields, ZeroCells(fields), data); p.Ok? ==> p.v.0.length < U24_SPAN
  {
    hide DecodeBody, Get24;
  }
}
