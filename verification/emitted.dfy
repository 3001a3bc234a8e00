/** What Marshal puts on the wire, said by what a reader of the bytes finds there. */
module Emitted {
  import opened Bytes
  import opened Headers
  import Scalars
  import opened Avps
  import opened Codec
  import opened RoundTrip
  import opened Messages

  /** An AVP of field f: its code, its vendor, the V, M and P bits the dictionary gives it and no other, and padding of
      zeros up to a whole word. */
  predicate Declared(f: Field, c: bytes) {
    && HeaderFits(c) && Code(c) == f.code && Vendor(c) == f.vendor
    && c[4] == (if f.vendor != 0 then 0x80 else 0) + (if f.must then 0x40 else 0) + (if f.mayEncrypt then 0x20 else 0)
    && |c| % 4 == 0 && |c| < AvpLength(c) + 4 && forall i :: AvpLength(c) <= i < |c| ==> c[i] == 0
  }

  /** How many AVPs the items of a field make: nil elements make none. */
  function NonNil(items: seq<Item>): (n: nat) {
    if items == [] then 0 else (if items[0].NilGroup? then 0 else 1) + NonNil(items[1..])
  }

  /** The AVP of one item: in its body the value, or the members of the group. */
  predicate ItemOnWire(schema: Schema, f: Field, x: Item, c: bytes)
    requires TypedItem(schema, f, x)
    decreases x, 1
  {
    Declared(f, c)
    && match x
       case Scalar(v) => Body(c) == Scalars.Serialize(f.shape.kind, v)
       case Group(g) => StructOnWire(schema, f.shape.name, g, Body(c))
       case NilGroup => false
  }

  predicate StructOnWire(schema: Schema, name: string, g: Struct, body: bytes)
    requires TypedStruct(schema, name, g)
    decreases g, 1
  {
    match g
    case Raw(data) => body == data
    case Record(cells) =>
      Walk(body).stop == Clean && CellsOnWire(schema, FieldsOf(schema, name), cells, Walk(body).chunks)
  }

  predicate ItemsOnWire(schema: Schema, f: Field, items: seq<Item>, chunks: seq<bytes>)
    requires forall x <- items :: TypedItem(schema, f, x)
    decreases items, 1
  {
    if items == [] then chunks == []
    else if items[0].NilGroup? then ItemsOnWire(schema, f, items[1..], chunks)
    else
      chunks != [] && ItemOnWire(schema, f, items[0], chunks[0]) && ItemsOnWire(schema, f, items[1..], chunks[1..])
  }

  /** The AVPs of a row of fields: those of the first field, in the order of its items, then those of the others.  A
      field of code 0 has none. */
  predicate CellsOnWire(schema: Schema, fields: seq<Field>, cells: seq<Cell>, chunks: seq<bytes>)
    requires TypedCells(schema, fields, cells)
    decreases cells, 1
  {
    if cells == [] then chunks == []
    else
      assert TypedCell(schema, fields[0], cells[0]);
      var n := if fields[0].code == 0 then 0 else NonNil(cells[0].items);
      n <= |chunks|
      && (fields[0].code != 0 ==> ItemsOnWire(schema, fields[0], cells[0].items, chunks[..n]))
      && CellsOnWire(schema, fields[1..], cells[1..], chunks[n..])
  }

  lemma PrintDeclared(f: Field, body: bytes)
    requires PrintedLength(f.vendor, body) < U24_SPAN
    ensures var c := PrintAvp(f.code, f.vendor, f.must, f.mayEncrypt, body);
            Declared(f, c) && Body(c) == body
  {
    PrintIsAvp(f.code, f.vendor, f.must, f.mayEncrypt, body);
    PrintedFlags(f.code, f.vendor, f.must, f.mayEncrypt, body);
    hide PrintAvp, HeaderFits;
  }

  lemma {:induction false} ItemEmitted(schema: Schema, f: Field, x: Item)
    requires TypedItem(schema, f, x) && FitsItem(schema, f, x) && !x.NilGroup?
    ensures ItemOnWire(schema, f, x, PrintAvp(f.code, f.vendor, f.must, f.mayEncrypt, Payload(schema, f, x)))
    decreases x, 2
  {
    PrintDeclared(f, Payload(schema, f, x));
    hide PrintAvp, Declared;
    if x.Group? && x.g.Record? {
      CellsEmitted(schema, FieldsOf(schema, f.shape.name), x.g.cells);
    }
  }

  lemma {:induction false} ItemsEmitted(schema: Schema, f: Field, items: seq<Item>)
    requires f.code != 0 && forall x <- items :: TypedItem(schema, f, x) && FitsItem(schema, f, x)
    ensures ItemsOnWire(schema, f, items, EmitItems(schema, f, items))
    ensures |EmitItems(schema, f, items)| == NonNil(items)
    decreases items, 1
  {
    if items != [] {
      ItemsEmitted(schema, f, items[1..]);
      if !items[0].NilGroup? {
        ItemEmitted(schema, f, items[0]);
      }
      var rest := EmitItems(schema, f, items[1..]);
      assert EmitItems(schema, f, items) == EmitItem(schema, f, items[0]) + rest;
      assert (EmitItem(schema, f, items[0]) + rest)[|EmitItem(schema, f, items[0])|..] == rest;
    }
  }

  /** The AVPs written for a row of fields, in groups of any depth too. */
  lemma {:induction false} CellsEmitted(schema: Schema, fields: seq<Field>, cells: seq<Cell>)
    requires TypedCells(schema, fields, cells) && FitsCells(schema, fields, cells)
    ensures var w := Walk(Concat(EmitCells(schema, fields, cells)));
            w.stop == Clean && CellsOnWire(schema, fields, cells, w.chunks)
    decreases cells, 2
  {
    EmitCellsAreAvps(schema, fields, cells);
    WalkOfAvps(EmitCells(schema, fields, cells));
    RowEmitted(schema, fields, cells);
  }

  lemma {:induction false} RowEmitted(schema: Schema, fields: seq<Field>, cells: seq<Cell>)
    requires TypedCells(schema, fields, cells) && FitsCells(schema, fields, cells)
    ensures CellsOnWire(schema, fields, cells, EmitCells(schema, fields, cells))
    decreases cells, 1
  {
    if cells != [] {
      assert TypedCell(schema, fields[0], cells[0]) && FitsCell(schema, fields[0], cells[0]);
      RowEmitted(schema, fields[1..], cells[1..]);
      var mine, rest := EmitItems(schema, fields[0], cells[0].items), EmitCells(schema, fields[1..], cells[1..]);
      if fields[0].code != 0 {
        ItemsEmitted(schema, fields[0], cells[0].items);
      }
      assert (mine + rest)[..|mine|] == mine && (mine + rest)[|mine|..] == rest;
    }
  }

  /** What Marshal returns: the header with the number of bytes, modulo 2^24 as the field has it, then for each field in
      turn one AVP for each of its values, with the field's code, vendor and flags and the value in its body. */
  lemma MarshalOnWire(schema: Schema, fields: seq<Field>, h: Header, cells: seq<Cell>)
    requires TypedCells(schema, fields, cells) && FitsCells(schema, fields, cells)
    ensures var data := Printed(schema, fields, h, cells);
            Laid(data, h.(length := |data| % 0x100_0000, command := h.command % 0x100_0000))
            && Walk(data[HEADER_LENGTH..]).stop == Clean
            && CellsOnWire(schema, fields, cells, Walk(data[HEADER_LENGTH..]).chunks)
  {
    var body := Concat(EmitCells(schema, fields, cells));
    var data := Printed(schema, fields, h, cells);
    var top := h.(length := |data| % 0x1_0000_0000);
    CellsEmitted(schema, fields, cells);
    PrintIsLaid(top, body);
    WordLength(|data|);
    assert data[HEADER_LENGTH..] == body;
  }
}
