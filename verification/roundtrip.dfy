/** Unmarshal after Marshal, for every schema: what comes back, and when it is the value itself. */
module RoundTrip {
  import opened Bytes
  import opened Scalars
  import opened Avps
  import opened Codec

  // --- what a round trip gives back, said without bytes ---

  function CanonStruct(schema: Schema, name: string, g: Struct): (r: Struct)
    requires TypedStruct(schema, name, g)
    decreases g, 2
  {
    match g
    case Raw(data) => g
    case Record(cells) => Record(CanonCells(schema, FieldsOf(schema, name), cells))
  }

  function CanonCells(schema: Schema, fields: seq<Field>, cells: seq<Cell>): (r: seq<Cell>)
    requires TypedCells(schema, fields, cells)
    ensures |r| == |cells|
    decreases cells, 2
  {
    if cells == [] then []
    else
      assert TypedCell(schema, fields[0], cells[0]);
      [CanonCell(schema, fields[0], cells[0])] + CanonCells(schema, fields[1..], cells[1..])
  }

  /** A field of code 0 is not written; the others keep their items, made canonical. */
  function CanonCell(schema: Schema, f: Field, cell: Cell): (r: Cell)
    requires TypedCell(schema, f, cell)
    decreases cell, 2
  {
    if f.code == 0 then ZeroCell(f)
    else Cell(Merge(f, ZeroCell(f).items, CanonItems(schema, f, cell.items)))
  }

  function CanonItems(schema: Schema, f: Field, items: seq<Item>): (r: seq<Item>)
    requires forall x <- items :: TypedItem(schema, f, x)
    decreases items, 2
  {
    if items == [] then [] else CanonItem(schema, f, items[0]) + CanonItems(schema, f, items[1..])
  }

  /** Nil elements and unreadable addresses are dropped. */
  function CanonItem(schema: Schema, f: Field, x: Item): (r: seq<Item>)
    requires TypedItem(schema, f, x)
    decreases x, 2
  {
    match x
    case Scalar(v) => (match Canon(f.shape.kind, v) case Value(w) => [Scalar(w)] case _ => [])
    case Group(g) => [Group(CanonStruct(schema, f.shape.name, g))]
    case NilGroup => []
  }

  // --- the emitted AVPs ---

  lemma {:induction false} EmitItemsAreAvps(schema: Schema, f: Field, items: seq<Item>)
    requires forall x <- items :: TypedItem(schema, f, x) && FitsItem(schema, f, x)
    ensures forall c <- EmitItems(schema, f, items) :: IsAvp(c) && Code(c) == f.code != 0 && Vendor(c) == f.vendor
  {
    if f.code != 0 && items != [] {
      EmitItemsAreAvps(schema, f, items[1..]);
      if !items[0].NilGroup? {
        PrintIsAvp(f.code, f.vendor, f.must, f.mayEncrypt, Payload(schema, f, items[0]));
      }
    }
  }

  lemma {:induction false} EmitCellsAreAvps(schema: Schema, fields: seq<Field>, cells: seq<Cell>)
    requires TypedCells(schema, fields, cells) && FitsCells(schema, fields, cells)
    ensures forall c <- EmitCells(schema, fields, cells) ::
              IsAvp(c) && exists f <- fields :: Code(c) == f.code != 0 && Vendor(c) == f.vendor
    decreases |cells|
  {
    if cells != [] {
      assert TypedCell(schema, fields[0], cells[0]) && FitsCell(schema, fields[0], cells[0]);
      EmitCellsAreAvps(schema, fields[1..], cells[1..]);
      if fields[0].code != 0 {
        EmitItemsAreAvps(schema, fields[0], cells[0].items);
      }
      assert fields[0] in fields && forall f <- fields[1..] :: f in fields;
    }
  }

  // --- reading them back, field by field ---

  lemma {:induction false} PicksAppend(schema: Schema, f: Field, a: seq<bytes>, b: seq<bytes>)
    requires (forall c <- a :: HeaderFits(c)) && forall c <- b :: HeaderFits(c)
    ensures Picks(schema, f, a + b) == Picks(schema, f, a) + Picks(schema, f, b)
  {
    if a == [] {
      assert a + b == b;
    } else {
      PicksAppend(schema, f, a[1..], b);
      assert (a + b)[0] == a[0] && (a + b)[1..] == a[1..] + b;
      Assoc(Pick(schema, f, a[0]), Picks(schema, f, a[1..]), Picks(schema, f, b));
    }
  }

  lemma {:induction false} PicksNone(schema: Schema, f: Field, chunks: seq<bytes>)
    requires forall c <- chunks :: HeaderFits(c) && !Matches(f, c)
    ensures Picks(schema, f, chunks) == []
  {
    if chunks != [] {
      PicksNone(schema, f, chunks[1..]);
    }
  }

  /** An item decodes to its canonical form from its own payload, and never panics. */
  lemma {:induction false} ItemRoundTrip(schema: Schema, f: Field, x: Item)
    requires ValidSchema(schema) && TypedItem(schema, f, x) && FitsItem(schema, f, x) && !x.NilGroup?
    ensures var r := DecodeItem(schema, f, Payload(schema, f, x));
            !r.Crash? && (if r.Got? then [r.x] else []) == CanonItem(schema, f, x)
    decreases x, 2
  {
    match x
    case Scalar(v) => ScalarRoundTrip(f.shape.kind, v);
    case Group(g) => StructRoundTrip(schema, f.shape.name, g);
  }

  lemma {:induction false} ItemsRoundTrip(schema: Schema, f: Field, items: seq<Item>)
    requires ValidSchema(schema) && f.code != 0
    requires forall x <- items :: TypedItem(schema, f, x) && FitsItem(schema, f, x)
    ensures forall c <- EmitItems(schema, f, items) ::
              HeaderFits(c) && Matches(f, c) && !DecodeItem(schema, f, Body(c)).Crash?
    ensures Picks(schema, f, EmitItems(schema, f, items)) == CanonItems(schema, f, items)
    decreases items, 1
  {
    if items != [] {
      var x := items[0];
      ItemsRoundTrip(schema, f, items[1..]);
      if x.NilGroup? {
        assert EmitItems(schema, f, items) == EmitItems(schema, f, items[1..]);
      } else {
        var body := Payload(schema, f, x);
        var c := PrintAvp(f.code, f.vendor, f.must, f.mayEncrypt, body);
        ItemRoundTrip(schema, f, x);
        PrintIsAvp(f.code, f.vendor, f.must, f.mayEncrypt, body);
        assert EmitItems(schema, f, items) == [c] + EmitItems(schema, f, items[1..]);
        assert Pick(schema, f, c) == CanonItem(schema, f, x);
      }
    }
  }

  /** The chunks hold nothing for the first k fields, and for the others what makes a fresh struct become cells. */
  predicate Explains(schema: Schema, all: seq<Field>, k: nat, cells: seq<Cell>, chunks: seq<bytes>)
    requires k + |cells| == |all| && forall c <- chunks :: HeaderFits(c)
  {
    Calm(schema, all, chunks)
    && (forall j :: 0 <= j < k ==> Picks(schema, all[j], chunks) == [])
    && forall j :: k <= j < |all| ==> cells[j - k] == MergeCell(schema, all[j], ZeroCell(all[j]), chunks)
  }

  lemma ExplainsJoin(schema: Schema, all: seq<Field>, k: nat, cell: Cell, cells: seq<Cell>, mine: seq<bytes>,
                     rest: seq<bytes>)
    requires k + 1 + |cells| == |all| && (forall c <- mine :: HeaderFits(c)) && (forall c <- rest :: HeaderFits(c))
    requires Explains(schema, all, k + 1, cells, rest) && Calm(schema, all, mine)
    requires forall j :: 0 <= j < |all| && j != k ==> Picks(schema, all[j], mine) == []
    requires cell == MergeCell(schema, all[k], ZeroCell(all[k]), mine)
    ensures Explains(schema, all, k, [cell] + cells, mine + rest)
  {
    hide HeaderFits, Picks, ZeroCell, Merge, Crashes;
    var joined := [cell] + cells;
    assert Picks(schema, all[k], rest) == [];
    forall j | 0 <= j < k
      ensures Picks(schema, all[j], mine + rest) == []
    {
      PicksAppend(schema, all[j], mine, rest);
    }
    forall j | k <= j < |all|
      ensures joined[j - k] == MergeCell(schema, all[j], ZeroCell(all[j]), mine + rest)
    {
      PicksAppend(schema, all[j], mine, rest);
      if j == k {
        assert Picks(schema, all[k], mine) + [] == Picks(schema, all[k], mine);
      } else {
        assert joined[j - k] == cells[j - (k + 1)];
        assert [] + Picks(schema, all[j], rest) == Picks(schema, all[j], rest);
      }
    }
  }

  lemma {:induction false} CellsRoundTrip(schema: Schema, all: seq<Field>, k: nat, cells: seq<Cell>)
    requires ValidSchema(schema) && DistinctCodes(all) && k <= |all|
    requires TypedCells(schema, all[k..], cells) && FitsCells(schema, all[k..], cells)
    ensures var chunks := EmitCells(schema, all[k..], cells);
            (forall c <- chunks :: HeaderFits(c))
            && Explains(schema, all, k, CanonCells(schema, all[k..], cells), chunks)
    decreases cells, 1
  {
    if cells != [] {
      assert TypedCell(schema, all[k..][0], cells[0]) && FitsCell(schema, all[k..][0], cells[0]);
      assert all[k..][1..] == all[k + 1..];
      CellsRoundTrip(schema, all, k + 1, cells[1..]);
      OneCellRoundTrip(schema, all, k, cells[0]);
      ExplainsJoin(schema, all, k, CanonCell(schema, all[k], cells[0]), CanonCells(schema, all[k + 1..], cells[1..]),
                   EmitItems(schema, all[k], cells[0].items), EmitCells(schema, all[k + 1..], cells[1..]));
    }
  }

  lemma {:induction false} OneCellRoundTrip(schema: Schema, all: seq<Field>, k: nat, cell: Cell)
    requires ValidSchema(schema) && DistinctCodes(all) && k < |all|
    requires TypedCell(schema, all[k], cell) && FitsCell(schema, all[k], cell)
    ensures var chunks := EmitItems(schema, all[k], cell.items);
            (forall c <- chunks :: HeaderFits(c)) && Calm(schema, all, chunks)
            && (forall j :: 0 <= j < |all| && j != k ==> Picks(schema, all[j], chunks) == [])
            && CanonCell(schema, all[k], cell) == MergeCell(schema, all[k], ZeroCell(all[k]), chunks)
    decreases cell, 1
  {
    var f := all[k];
    if f.code != 0 {
      ItemsRoundTrip(schema, f, cell.items);
      var chunks := EmitItems(schema, f, cell.items);
      forall j | 0 <= j < |all| && j != k
        ensures Picks(schema, all[j], chunks) == []
      {
        PicksNone(schema, all[j], chunks);
      }
    }
  }

  lemma {:induction false} StructRoundTrip(schema: Schema, name: string, g: Struct)
    requires ValidSchema(schema) && TypedStruct(schema, name, g) && FitsStruct(schema, name, g)
    ensures DecodeStruct(schema, name, EmitStruct(schema, name, g)) == Ok(CanonStruct(schema, name, g))
    decreases g, 2
  {
    if g.Record? {
      FieldsRoundTrip(schema, FieldsOf(schema, name), g.cells);
    }
  }

  /** The round trip of a row of fields: of a group's members, or of a command's. */
  lemma {:induction false} FieldsRoundTrip(schema: Schema, fields: seq<Field>, cells: seq<Cell>)
    requires ValidSchema(schema) && DistinctCodes(fields)
    requires TypedCells(schema, fields, cells) && FitsCells(schema, fields, cells)
    ensures var w := Walk(Concat(EmitCells(schema, fields, cells)));
            w.stop == Clean && w.chunks == EmitCells(schema, fields, cells)
            && Fill(schema, fields, ZeroCells(fields), w.chunks) == Ok(CanonCells(schema, fields, cells))
    decreases cells, 2
  {
    var chunks := EmitCells(schema, fields, cells);
    EmitCellsAreAvps(schema, fields, cells);
    WalkOfAvps(chunks);
    assert fields[0..] == fields;
    CellsRoundTrip(schema, fields, 0, cells);
    FillByField(schema, fields, ZeroCells(fields), chunks);
    assert MergeCells(schema, fields, ZeroCells(fields), chunks) == CanonCells(schema, fields, cells);
  }

  // --- short data holds no AVP that is too long ---

  lemma PrintedAtLeast(code: u32, vendor: u32, must: bool, protect: bool, body: bytes)
    ensures PrintedLength(vendor, body) <= |PrintAvp(code, vendor, must, protect, body)|
  {
  }

  lemma {:induction false} ItemFits(schema: Schema, f: Field, x: Item)
    requires TypedItem(schema, f, x) && |Concat(EmitItem(schema, f, x))| < U24_SPAN
    ensures FitsItem(schema, f, x)
    decreases x, 3
  {
    if !x.NilGroup? {
      var body := Payload(schema, f, x);
      ConcatOne(PrintAvp(f.code, f.vendor, f.must, f.mayEncrypt, body));
      PrintedAtLeast(f.code, f.vendor, f.must, f.mayEncrypt, body);
      hide PrintAvp;
      if x.Group? {
        StructFits(schema, f.shape.name, x.g);
      }
    }
  }

  lemma {:induction false} ItemsFit(schema: Schema, f: Field, items: seq<Item>)
    requires f.code != 0 && (forall x <- items :: TypedItem(schema, f, x))
             && |Concat(EmitItems(schema, f, items))| < U24_SPAN
    ensures forall x <- items :: FitsItem(schema, f, x)
    decreases items, 4
  {
    if items != [] {
      ConcatAppend(EmitItem(schema, f, items[0]), EmitItems(schema, f, items[1..]));
      ItemFits(schema, f, items[0]);
      ItemsFit(schema, f, items[1..]);
      assert items == [items[0]] + items[1..];
    }
  }

  lemma {:induction false} StructFits(schema: Schema, name: string, g: Struct)
    requires TypedStruct(schema, name, g) && |EmitStruct(schema, name, g)| < U24_SPAN
    ensures FitsStruct(schema, name, g)
    decreases g, 4
  {
    if g.Record? {
      CellsFit(schema, FieldsOf(schema, name), g.cells);
    }
  }

  /** If the AVPs of some fields come to less than 2^24 bytes then each of them, at any depth, does. */
  lemma {:induction false} CellsFit(schema: Schema, fields: seq<Field>, cells: seq<Cell>)
    requires TypedCells(schema, fields, cells) && |Concat(EmitCells(schema, fields, cells))| < U24_SPAN
    ensures FitsCells(schema, fields, cells)
    decreases cells, 4
  {
    if cells != [] {
      assert TypedCell(schema, fields[0], cells[0]);
      ConcatAppend(EmitItems(schema, fields[0], cells[0].items), EmitCells(schema, fields[1..], cells[1..]));
      if fields[0].code != 0 {
        ItemsFit(schema, fields[0], cells[0].items);
      }
      CellsFit(schema, fields[1..], cells[1..]);
      FitsFirst(schema, fields, cells);
    }
  }

  lemma FitsFirst(schema: Schema, fields: seq<Field>, cells: seq<Cell>)
    requires cells != [] && TypedCells(schema, fields, cells) && TypedCells(schema, fields[1..], cells[1..])
    requires TypedCell(schema, fields[0], cells[0])
    requires FitsCell(schema, fields[0], cells[0]) && FitsCells(schema, fields[1..], cells[1..])
    ensures FitsCells(schema, fields, cells)
  {
    forall i | 0 <= i < |cells|
      ensures TypedCell(schema, fields[i], cells[i]) && FitsCell(schema, fields[i], cells[i])
    {
      if i > 0 {
        assert fields[i] == fields[1..][i - 1] && cells[i] == cells[1..][i - 1];
      }
    }
  }
}
