/** The emitted Marshal and Unmarshal code, as an interpreter over the schema it is emitted from. */
module Codec {
  import opened Bytes
  import opened Scalars
  import opened Avps

  // --- schemas ---

  datatype FieldType = Leaf(kind: Kind) | Grouped(name: string)

  /** One AVP of a command or of a grouped AVP.  Code 0 marks an AVP the dictionary does not define. */
  datatype Field = Field(code: u32, vendor: u32, must: bool, mayEncrypt: bool,
                         shape: FieldType, required: bool, repeated: bool)

  /** The members of every grouped AVP, by name; groups may contain themselves. */
  type Schema = map<string, seq<Field>>

  function FieldsOf(schema: Schema, name: string): (fields: seq<Field>) {
    if name in schema then schema[name] else []
  }

  /** The emitted switch has one case for each defined code. */
  predicate DistinctCodes(fields: seq<Field>) {
    forall i, j :: 0 <= i < j < |fields| && fields[i].code == fields[j].code ==> fields[i].code == 0
  }

  predicate ValidSchema(schema: Schema) {
    forall name <- schema :: DistinctCodes(schema[name])
  }

  // --- values ---

  /** NilGroup is a nil pointer inside a slice of groups. */
  datatype Item = Scalar(v: Scalars.Scalar) | Group(g: Struct) | NilGroup

  /** A field: a slice when repeated; otherwise its value, or nothing for a nil pointer. */
  datatype Cell = Cell(items: seq<Item>)

  /** A group without members keeps its raw bytes. */
  datatype Struct = Raw(data: bytes) | Record(cells: seq<Cell>)

  predicate TypedStruct(schema: Schema, name: string, g: Struct)
    decreases g, 1
  {
    match g
    case Raw(_) => FieldsOf(schema, name) == []
    case Record(cells) => FieldsOf(schema, name) != [] && TypedCells(schema, FieldsOf(schema, name), cells)
  }

  predicate TypedCells(schema: Schema, fields: seq<Field>, cells: seq<Cell>)
    decreases cells, 1
  {
    |fields| == |cells| && forall i :: 0 <= i < |cells| ==> TypedCell(schema, fields[i], cells[i])
  }

  predicate TypedCell(schema: Schema, f: Field, cell: Cell)
    decreases cell, 1
  {
    (forall x <- cell.items :: TypedItem(schema, f, x))
    && (f.repeated || |cell.items| <= 1)
    && (f.required && !f.repeated && f.shape.Leaf? ==> |cell.items| == 1)
  }

  predicate TypedItem(schema: Schema, f: Field, x: Item)
    decreases x, 1
  {
    match x
    case Scalar(v) => f.shape.Leaf? && HasKind(v, f.shape.kind)
    case Group(g) => f.shape.Grouped? && TypedStruct(schema, f.shape.name, g)
    case NilGroup => f.shape.Grouped? && f.repeated
  }

  /** A fresh struct: zero values for required scalars, nil for everything else. */
  function ZeroCell(f: Field): (c: Cell) {
    Cell(if f.required && !f.repeated && f.shape.Leaf? then [Scalar(Zero(f.shape.kind))] else [])
  }

  function ZeroCells(fields: seq<Field>): (cells: seq<Cell>)
    ensures |cells| == |fields|
  {
    seq(|fields|, i requires 0 <= i < |fields| => ZeroCell(fields[i]))
  }

  // --- Marshal: the AVPs written, in order ---

  function EmitStruct(schema: Schema, name: string, g: Struct): (data: bytes)
    requires TypedStruct(schema, name, g)
    decreases g, 2
  {
    match g
    case Raw(data) => data
    case Record(cells) => Concat(EmitCells(schema, FieldsOf(schema, name), cells))
  }

  function EmitCells(schema: Schema, fields: seq<Field>, cells: seq<Cell>): (chunks: seq<bytes>)
    requires TypedCells(schema, fields, cells)
    decreases cells, 2
  {
    if cells == [] then []
    else
      assert TypedCell(schema, fields[0], cells[0]);
      EmitItems(schema, fields[0], cells[0].items) + EmitCells(schema, fields[1..], cells[1..])
  }

  function EmitItems(schema: Schema, f: Field, items: seq<Item>): (chunks: seq<bytes>)
    requires forall x <- items :: TypedItem(schema, f, x)
    decreases items, 2
  {
    if f.code == 0 || items == [] then []
    else EmitItem(schema, f, items[0]) + EmitItems(schema, f, items[1..])
  }

  function EmitItem(schema: Schema, f: Field, x: Item): (chunks: seq<bytes>)
    requires TypedItem(schema, f, x)
    ensures |chunks| == if x.NilGroup? then 0 else 1
    decreases x, 3
  {
    if x.NilGroup? then [] else [PrintAvp(f.code, f.vendor, f.must, f.mayEncrypt, Payload(schema, f, x))]
  }

  function Payload(schema: Schema, f: Field, x: Item): (body: bytes)
    requires TypedItem(schema, f, x) && !x.NilGroup?
    decreases x, 2
  {
    match x
    case Scalar(v) => Serialize(f.shape.kind, v)
    case Group(g) => EmitStruct(schema, f.shape.name, g)
  }

  // --- the only limit: every AVP length fits its 24-bit field ---

  predicate FitsStruct(schema: Schema, name: string, g: Struct)
    requires TypedStruct(schema, name, g)
    decreases g, 1
  {
    g.Record? ==> FitsCells(schema, FieldsOf(schema, name), g.cells)
  }

  predicate FitsCells(schema: Schema, fields: seq<Field>, cells: seq<Cell>)
    requires TypedCells(schema, fields, cells)
    decreases cells, 1
  {
    forall i :: 0 <= i < |cells| ==> TypedCell(schema, fields[i], cells[i]) && FitsCell(schema, fields[i], cells[i])
  }

  predicate FitsCell(schema: Schema, f: Field, cell: Cell)
    requires TypedCell(schema, f, cell)
    decreases cell, 1
  {
    f.code != 0 ==> forall x <- cell.items :: FitsItem(schema, f, x)
  }

  predicate FitsItem(schema: Schema, f: Field, x: Item)
    requires TypedItem(schema, f, x)
    decreases x, 1
  {
    (!x.NilGroup? ==> PrintedLength(f.vendor, Payload(schema, f, x)) < U24_SPAN)
    && (x.Group? ==> FitsStruct(schema, f.shape.name, x.g))
  }

  // --- Unmarshal ---

  datatype Res<T> = Ok(v: T) | Fail | Panic

  /** What one AVP body yields for a field: an item, nothing (a decoder error), or a panic. */
  datatype Got = Got(x: Item) | Skip | Crash

  /** The index of the switch case for a code; |fields| when there is none. */
  function CaseOf(fields: seq<Field>, code: u32): (i: nat)
    ensures i <= |fields|
    ensures i < |fields| ==> fields[i].code == code != 0
    ensures i == |fields| ==> forall f <- fields :: f.code == 0 || f.code != code
  {
    if fields == [] then 0
    else if fields[0].code == code != 0 then 0
    else 1 + CaseOf(fields[1..], code)
  }

  predicate VendorOk(f: Field, chunk: bytes)
    requires HeaderFits(chunk)
  {
    f.vendor != 0 ==> Vendor(chunk) == f.vendor
  }

  function DecodeItem(schema: Schema, f: Field, body: bytes): (r: Got)
    decreases |body|, 4, 0
  {
    match f.shape
    case Leaf(kind) => (match Decode(kind, body)
                        case Value(v) => Got(Scalar(v))
                        case Error => Skip
                        case Clash => Crash)
    case Grouped(name) => (match DecodeStruct(schema, name, body)
                           case Ok(g) => Got(Group(g))
                           case Fail => Skip
                           case Panic => Crash)
  }

  function DecodeStruct(schema: Schema, name: string, data: bytes): (r: Res<Struct>)
    decreases |data|, 3, 0
  {
    var fields := FieldsOf(schema, name);
    if fields == [] then Ok(Raw(data))
    else
      match DecodeBody(schema, fields, ZeroCells(fields), data)
      case Ok(cells) => Ok(Record(cells))
      case Fail => Fail
      case Panic => Panic
  }

  /** The loop over the AVPs of a body, started on the given cells.  A rest too short for an AVP header, or missing
      padding behind the last AVP, ends the loop without an error. */
  function DecodeBody(schema: Schema, fields: seq<Field>, cells: seq<Cell>, data: bytes): (r: Res<seq<Cell>>)
    requires |cells| == |fields|
    ensures r.Ok? ==> |r.v| == |fields|
    decreases |data|, 2, 0
  {
    match Fill(schema, fields, cells, Walk(data).chunks)
    case Ok(filled) => if Walk(data).stop.Bad? then Fail else Ok(filled)
    case Fail => Fail
    case Panic => Panic
  }

  /** The body of the loop, over all the AVPs of the data. */
  function Fill(schema: Schema, fields: seq<Field>, cells: seq<Cell>, chunks: seq<bytes>): (r: Res<seq<Cell>>)
    requires |cells| == |fields| && forall c <- chunks :: HeaderFits(c)
    ensures !r.Fail? && (r.Ok? ==> |r.v| == |fields|)
    decreases Total(chunks), 1, |chunks|
  {
    if chunks == [] then Ok(cells)
    else
      match Store(schema, fields, cells, chunks[0])
      case Ok(cells') => Fill(schema, fields, cells', chunks[1..])
      case Fail => Panic
      case Panic => Panic
  }

  /** The switch: one AVP into the field it is for. */
  function Store(schema: Schema, fields: seq<Field>, cells: seq<Cell>, chunk: bytes): (r: Res<seq<Cell>>)
    requires |cells| == |fields| && HeaderFits(chunk)
    ensures !r.Fail? && (r.Ok? ==> |r.v| == |fields|)
    decreases |chunk|, 0, 0
  {
    var i := CaseOf(fields, Code(chunk));
    if i == |fields| || !VendorOk(fields[i], chunk) then Ok(cells)
    else
      match DecodeItem(schema, fields[i], Body(chunk))
      case Got(x) => Ok(cells[i := Cell(if fields[i].repeated then cells[i].items + [x] else [x])])
      case Skip => Ok(cells)
      case Crash => Panic
  }

  // --- the same, field by field ---

  predicate Matches(f: Field, chunk: bytes)
    requires HeaderFits(chunk)
  {
    f.code != 0 && Code(chunk) == f.code && VendorOk(f, chunk)
  }

  /** What the decodable AVPs of a field hold, in the order they stand. */
  function Picks(schema: Schema, f: Field, chunks: seq<bytes>): (items: seq<Item>)
    requires forall c <- chunks :: HeaderFits(c)
  {
    if chunks == [] then [] else Pick(schema, f, chunks[0]) + Picks(schema, f, chunks[1..])
  }

  function Pick(schema: Schema, f: Field, chunk: bytes): (items: seq<Item>)
    requires HeaderFits(chunk)
  {
    if Matches(f, chunk) && DecodeItem(schema, f, Body(chunk)).Got?
    then [DecodeItem(schema, f, Body(chunk)).x] else []
  }

  predicate Crashes(schema: Schema, fields: seq<Field>, chunk: bytes)
    requires HeaderFits(chunk)
  {
    exists f <- fields :: Matches(f, chunk) && DecodeItem(schema, f, Body(chunk)).Crash?
  }

  /** No AVP of a row makes any decoder panic. */
  predicate Calm(schema: Schema, fields: seq<Field>, chunks: seq<bytes>)
    requires forall c <- chunks :: HeaderFits(c)
  {
    forall c <- chunks :: !Crashes(schema, fields, c)
  }

  /** A repeated field appends; any other keeps the last. */
  function Merge(f: Field, items: seq<Item>, picks: seq<Item>): (r: seq<Item>) {
    if f.repeated then items + picks else if picks == [] then items else [picks[|picks| - 1]]
  }

  function MergeCell(schema: Schema, f: Field, cell: Cell, chunks: seq<bytes>): (r: Cell)
    requires forall c <- chunks :: HeaderFits(c)
  {
    Cell(Merge(f, cell.items, Picks(schema, f, chunks)))
  }

  function MergeCells(schema: Schema, fields: seq<Field>, cells: seq<Cell>, chunks: seq<bytes>): (r: seq<Cell>)
    requires |cells| == |fields| && forall c <- chunks :: HeaderFits(c)
    ensures |r| == |fields|
  {
    seq(|fields|, i requires 0 <= i < |fields| => MergeCell(schema, fields[i], cells[i], chunks))
  }

  lemma PicksOne(schema: Schema, f: Field, chunk: bytes)
    requires HeaderFits(chunk)
    ensures Picks(schema, f, [chunk]) == Pick(schema, f, chunk)
  {
    assert Picks(schema, f, [chunk][1..]) == [];
  }

  /** At most one field matches an AVP: the one whose case the switch takes. */
  lemma OneCase(fields: seq<Field>, chunk: bytes, j: nat)
    requires DistinctCodes(fields) && HeaderFits(chunk) && j < |fields|
    ensures Matches(fields[j], chunk) <==> j == CaseOf(fields, Code(chunk)) && VendorOk(fields[j], chunk)
  {
  }

  lemma StoreByField(schema: Schema, fields: seq<Field>, cells: seq<Cell>, chunk: bytes)
    requires DistinctCodes(fields) && |cells| == |fields| && HeaderFits(chunk)
    ensures Store(schema, fields, cells, chunk)
            == if Crashes(schema, fields, chunk) then Panic else Ok(MergeCells(schema, fields, cells, [chunk]))
  {
    var i := CaseOf(fields, Code(chunk));
    if i < |fields| {
      OneCase(fields, chunk, i);
      assert fields[i] in fields;
    }
    if Crashes(schema, fields, chunk) {
      var j :| 0 <= j < |fields| && Matches(fields[j], chunk) && DecodeItem(schema, fields[j], Body(chunk)).Crash?;
      OneCase(fields, chunk, j);
    } else {
      StoreMerges(schema, fields, cells, chunk);
    }
  }

  lemma StoreMerges(schema: Schema, fields: seq<Field>, cells: seq<Cell>, chunk: bytes)
    requires DistinctCodes(fields) && |cells| == |fields| && HeaderFits(chunk)
    requires Store(schema, fields, cells, chunk).Ok?
    ensures Store(schema, fields, cells, chunk).v == MergeCells(schema, fields, cells, [chunk])
  {
    var r := Store(schema, fields, cells, chunk).v;
    forall j | 0 <= j < |fields|
      ensures r[j] == MergeCell(schema, fields[j], cells[j], [chunk])
    {
      PicksOne(schema, fields[j], chunk);
      OneCase(fields, chunk, j);
      assert cells[j] == Cell(cells[j].items);
    }
    assert r == MergeCells(schema, fields, cells, [chunk]);
  }

  lemma MergeTwice(f: Field, items: seq<Item>, a: seq<Item>, b: seq<Item>)
    ensures Merge(f, Merge(f, items, a), b) == Merge(f, items, a + b)
  {
    Assoc(items, a, b);
    if b == [] {
      assert a + b == a;
    }
  }

  lemma MergeInTwo(schema: Schema, fields: seq<Field>, cells: seq<Cell>, chunks: seq<bytes>)
    requires |cells| == |fields| && chunks != [] && forall c <- chunks :: HeaderFits(c)
    ensures MergeCells(schema, fields, MergeCells(schema, fields, cells, [chunks[0]]), chunks[1..])
            == MergeCells(schema, fields, cells, chunks)
  {
    var c := chunks[0];
    var mid := MergeCells(schema, fields, cells, [c]);
    forall j | 0 <= j < |fields|
      ensures MergeCell(schema, fields[j], mid[j], chunks[1..]) == MergeCell(schema, fields[j], cells[j], chunks)
    {
      PicksOne(schema, fields[j], c);
      MergeTwice(fields[j], cells[j].items, Pick(schema, fields[j], c), Picks(schema, fields[j], chunks[1..]));
    }
  }

  lemma MergeNothing(schema: Schema, fields: seq<Field>, cells: seq<Cell>)
    requires |cells| == |fields|
    ensures MergeCells(schema, fields, cells, []) == cells
  {
    forall j | 0 <= j < |fields|
      ensures cells[j] == MergeCell(schema, fields[j], cells[j], [])
    {
      assert cells[j] == Cell(cells[j].items);
    }
  }

  /** The loop with its switch computes every field on its own: a repeated field is the row of its decodable AVPs in
      order, any other field the last of them, and the loop panics exactly when some AVP makes its field's decoder. */
  lemma {:induction false} FillByField(schema: Schema, fields: seq<Field>, cells: seq<Cell>, chunks: seq<bytes>)
    requires DistinctCodes(fields) && |cells| == |fields| && forall c <- chunks :: HeaderFits(c)
    ensures Fill(schema, fields, cells, chunks)
            == if !Calm(schema, fields, chunks) then Panic
               else Ok(MergeCells(schema, fields, cells, chunks))
    decreases |chunks|
  {
    if chunks == [] {
      MergeNothing(schema, fields, cells);
    } else {
      var c, rest := chunks[0], chunks[1..];
      StoreByField(schema, fields, cells, c);
      assert Calm(schema, fields, chunks) <==> !Crashes(schema, fields, c) && Calm(schema, fields, rest);
      if !Crashes(schema, fields, c) {
        FillByField(schema, fields, MergeCells(schema, fields, cells, [c]), rest);
        MergeInTwo(schema, fields, cells, chunks);
      }
    }
  }
}
