/** Consequences of the field-by-field reading: which values survive a round trip, and which AVPs matter where. */
module Decoding {
  import opened Bytes
  import Scalars
  import opened Avps
  import opened Codec
  import opened RoundTrip

  // --- exactly which values come back as they were ---

  predicate KeptScalar(kind: Scalars.Kind, v: Scalars.Scalar)
    requires Scalars.HasKind(v, kind)
  {
    match kind
    case Time => Scalars.FIRST_INSTANT <= v.unix <= Scalars.LAST_INSTANT
    case Address => |v.s| == 4 || (|v.s| == 16 && !Scalars.IsMapped(v.s))
                    || (|v.s| >= 3 && |v.s| != 16 && Scalars.Family(v.s) !in {0, 1, 2, 65535})
    case _ => true
  }

  predicate KeptStruct(schema: Schema, name: string, g: Struct)
    requires TypedStruct(schema, name, g)
    decreases g, 1
  {
    g.Record? ==> KeptCells(schema, FieldsOf(schema, name), g.cells)
  }

  predicate KeptCells(schema: Schema, fields: seq<Field>, cells: seq<Cell>)
    requires TypedCells(schema, fields, cells)
    decreases cells, 1
  {
    forall i :: 0 <= i < |cells| ==> TypedCell(schema, fields[i], cells[i]) && KeptCell(schema, fields[i], cells[i])
  }

  /** Fields of code 0 must be untouched; an empty address of a required field stays what a fresh struct holds. */
  predicate KeptCell(schema: Schema, f: Field, cell: Cell)
    requires TypedCell(schema, f, cell)
    decreases cell, 1
  {
    if f.code == 0 then cell == ZeroCell(f)
    else KeptItems(schema, f, cell.items)
         || (f.required && !f.repeated && f.shape == Leaf(Scalars.Address) && cell == ZeroCell(f))
  }

  predicate KeptItems(schema: Schema, f: Field, items: seq<Item>)
    requires forall x <- items :: TypedItem(schema, f, x)
    decreases items, 1
  {
    forall x <- items :: KeptItem(schema, f, x)
  }

  predicate KeptItem(schema: Schema, f: Field, x: Item)
    requires TypedItem(schema, f, x)
    decreases x, 1
  {
    match x
    case Scalar(v) => KeptScalar(f.shape.kind, v)
    case Group(g) => KeptStruct(schema, f.shape.name, g)
    case NilGroup => false
  }

  lemma KeptScalarExactly(kind: Scalars.Kind, v: Scalars.Scalar)
    requires Scalars.HasKind(v, kind)
    ensures KeptScalar(kind, v) <==> Scalars.Canon(kind, v) == Scalars.Value(v)
  {
    if kind.Time? {
      Scalars.CanonInstantMeaning(v.unix);
    }
  }

  lemma {:induction false} KeptItemExactly(schema: Schema, f: Field, x: Item)
    requires TypedItem(schema, f, x)
    ensures KeptItem(schema, f, x) <==> CanonItem(schema, f, x) == [x]
    decreases x, 2
  {
    match x
    case Scalar(v) => KeptScalarExactly(f.shape.kind, v);
    case Group(g) => KeptStructExactly(schema, f.shape.name, g);
    case NilGroup =>
  }

  lemma {:induction false} KeptItemsExactly(schema: Schema, f: Field, items: seq<Item>)
    requires forall x <- items :: TypedItem(schema, f, x)
    ensures KeptItems(schema, f, items) <==> CanonItems(schema, f, items) == items
    ensures |CanonItems(schema, f, items)| <= |items|
    decreases items, 2
  {
    if items != [] {
      KeptItemExactly(schema, f, items[0]);
      KeptItemsExactly(schema, f, items[1..]);
      var a, b := CanonItem(schema, f, items[0]), CanonItems(schema, f, items[1..]);
      assert items == [items[0]] + items[1..];
      if a + b == items {
        assert |a| == 1 && (a + b)[0] == a[0] && (a + b)[1..] == b;
      }
    }
  }

  lemma {:induction false} KeptCellExactly(schema: Schema, f: Field, cell: Cell)
    requires TypedCell(schema, f, cell)
    ensures KeptCell(schema, f, cell) <==> CanonCell(schema, f, cell) == cell
    decreases cell, 2
  {
    assert cell == Cell(cell.items);
    KeptItemsExactly(schema, f, cell.items);
    if f.code != 0 && |cell.items| == 1 {
      assert CanonItems(schema, f, cell.items[1..]) == [];
    }
  }

  lemma {:induction false} KeptCellsExactly(schema: Schema, fields: seq<Field>, cells: seq<Cell>)
    requires TypedCells(schema, fields, cells)
    ensures KeptCells(schema, fields, cells) <==> CanonCells(schema, fields, cells) == cells
    decreases cells, 2
  {
    if cells != [] {
      assert TypedCell(schema, fields[0], cells[0]);
      KeptCellExactly(schema, fields[0], cells[0]);
      KeptCellsExactly(schema, fields[1..], cells[1..]);
      assert KeptCells(schema, fields, cells)
             <==> KeptCell(schema, fields[0], cells[0]) && KeptCells(schema, fields[1..], cells[1..]);
    }
  }

  /** A group is its own canonical form exactly when everything in it can be kept. */
  lemma {:induction false} KeptStructExactly(schema: Schema, name: string, g: Struct)
    requires TypedStruct(schema, name, g)
    ensures KeptStruct(schema, name, g) <==> CanonStruct(schema, name, g) == g
    decreases g, 2
  {
    if g.Record? {
      KeptCellsExactly(schema, FieldsOf(schema, name), g.cells);
    }
  }

  // --- which AVPs matter ---

  /** Fails exactly at a wrong length field, panics exactly at an AVP taken for a Time whose body is not four bytes, and
      otherwise every repeated field is the row of its decodable AVPs and every other field the last of them. */
  lemma DecodeExactly(schema: Schema, fields: seq<Field>, cells: seq<Cell>, data: bytes)
    requires DistinctCodes(fields) && |cells| == |fields|
    ensures var r := DecodeBody(schema, fields, cells, data);
            (r.Panic? <==> !Sound(schema, fields, Walk(data).chunks))
            && (!r.Panic? ==> (r.Fail? <==> Walk(data).stop == Bad))
            && (r.Ok? ==> forall i :: 0 <= i < |fields| ==>
                  r.v[i].items == Merge(fields[i], cells[i].items, Picks(schema, fields[i], Walk(data).chunks)))
  {
    FillByField(schema, fields, cells, Walk(data).chunks);
    PanicsExactly(schema, fields, cells, Walk(data).chunks);
  }

  /** Two rows of the same AVPs that give every field the same picks are read alike. */
  lemma SamePicksSameReading(schema: Schema, fields: seq<Field>, cells: seq<Cell>, a: seq<bytes>, b: seq<bytes>)
    requires DistinctCodes(fields) && |cells| == |fields|
    requires (forall c <- a :: HeaderFits(c)) && (forall c <- b :: HeaderFits(c))
    requires Calm(schema, fields, a) <==> Calm(schema, fields, b)
    requires forall f <- fields :: Picks(schema, f, a) == Picks(schema, f, b)
    ensures Fill(schema, fields, cells, a) == Fill(schema, fields, cells, b)
  {
    hide Fill, Calm, Picks, Merge, HeaderFits;
    FillByField(schema, fields, cells, a);
    FillByField(schema, fields, cells, b);
    forall i | 0 <= i < |fields|
      ensures MergeCell(schema, fields[i], cells[i], a) == MergeCell(schema, fields[i], cells[i], b)
    {
      assert fields[i] in fields;
    }
    assert MergeCells(schema, fields, cells, a) == MergeCells(schema, fields, cells, b);
  }

  lemma CalmAppend(schema: Schema, fields: seq<Field>, a: seq<bytes>, b: seq<bytes>)
    requires (forall c <- a :: HeaderFits(c)) && forall c <- b :: HeaderFits(c)
    ensures Calm(schema, fields, a + b) <==> Calm(schema, fields, a) && Calm(schema, fields, b)
  {
    assert forall c <- a :: c in a + b;
    assert forall c <- b :: c in a + b;
  }

  lemma PicksFirst(schema: Schema, f: Field, c: bytes, rest: seq<bytes>)
    requires HeaderFits(c) && forall d <- rest :: HeaderFits(d)
    ensures Picks(schema, f, [c] + rest) == Pick(schema, f, c) + Picks(schema, f, rest)
  {
    assert ([c] + rest)[1..] == rest;
  }

  /** An AVP that no field is for, as there is none of its code or only one of another vendor, can stand anywhere
      between two AVPs: the outcome is the same without it. */
  lemma UnknownAvpIgnored(schema: Schema, fields: seq<Field>, cells: seq<Cell>, a: bytes, u: bytes, b: bytes)
    requires DistinctCodes(fields) && |cells| == |fields|
    requires Walk(a).stop == Clean && IsAvp(u)
    requires forall f <- fields :: f.code == Code(u) != 0 ==> f.vendor != 0 && Vendor(u) != f.vendor
    ensures DecodeBody(schema, fields, cells, a + (u + b)) == DecodeBody(schema, fields, cells, a + b)
  {
    WalkThrough(a, u + b);
    WalkStep(u, b);
    WalkThrough(a, b);
    UnknownChunkIgnored(schema, fields, cells, Walk(a).chunks, u, Walk(b).chunks);
  }

  lemma UnknownChunkIgnored(schema: Schema, fields: seq<Field>, cells: seq<Cell>, x: seq<bytes>, u: bytes,
                            y: seq<bytes>)
    requires DistinctCodes(fields) && |cells| == |fields|
    requires (forall c <- x :: HeaderFits(c)) && HeaderFits(u) && (forall c <- y :: HeaderFits(c))
    requires forall f <- fields :: !Matches(f, u)
    ensures Fill(schema, fields, cells, x + ([u] + y)) == Fill(schema, fields, cells, x + y)
  {
    forall f <- fields
      ensures Picks(schema, f, x + ([u] + y)) == Picks(schema, f, x + y)
    {
      PicksAppend(schema, f, x, [u] + y);
      PicksFirst(schema, f, u, y);
      PicksAppend(schema, f, x, y);
      assert [] + Picks(schema, f, y) == Picks(schema, f, y);
    }
    CalmAppend(schema, fields, x, [u] + y);
    CalmAppend(schema, fields, [u], y);
    CalmAppend(schema, fields, x, y);
    SamePicksSameReading(schema, fields, cells, x + ([u] + y), x + y);
  }

  /** An AVP with the code of a field, and its vendor if the field has one, whose body can be decoded, is stored there:
      behind what a repeated field holds, in place of what any other holds. */
  lemma KnownAvpStored(schema: Schema, fields: seq<Field>, cells: seq<Cell>, a: bytes, u: bytes, j: nat, x: Item)
    requires DistinctCodes(fields) && |cells| == |fields| && j < |fields|
    requires Walk(a).stop == Clean && IsAvp(u) && DecodeBody(schema, fields, cells, a).Ok?
    requires fields[j].code == Code(u) != 0 && (fields[j].vendor == 0 || fields[j].vendor == Vendor(u))
    requires DecodeItem(schema, fields[j], Body(u)) == Got(x)
    ensures var before := DecodeBody(schema, fields, cells, a).v;
            DecodeBody(schema, fields, cells, a + u)
            == Ok(before[j := Cell(if fields[j].repeated then before[j].items + [x] else [x])])
  {
    OneMoreAvp(schema, fields, cells, a, u);
  }

  /** One whose body cannot be decoded changes nothing. */
  lemma UndecodableSkipped(schema: Schema, fields: seq<Field>, cells: seq<Cell>, a: bytes, u: bytes, j: nat)
    requires DistinctCodes(fields) && |cells| == |fields| && j < |fields|
    requires Walk(a).stop == Clean && IsAvp(u) && DecodeBody(schema, fields, cells, a).Ok?
    requires fields[j].code == Code(u) != 0 && DecodeItem(schema, fields[j], Body(u)) == Skip
    ensures DecodeBody(schema, fields, cells, a + u) == DecodeBody(schema, fields, cells, a)
  {
    OneMoreAvp(schema, fields, cells, a, u);
  }

  lemma OneMoreAvp(schema: Schema, fields: seq<Field>, cells: seq<Cell>, a: bytes, u: bytes)
    requires |cells| == |fields| && Walk(a).stop == Clean && IsAvp(u) && DecodeBody(schema, fields, cells, a).Ok?
    ensures DecodeBody(schema, fields, cells, a + u)
            == Store(schema, fields, DecodeBody(schema, fields, cells, a).v, u)
  {
    var chunks := Walk(a).chunks;
    WalkThrough(a, u);
    WalkStep(u, []);
    assert u + [] == u && [u] + [] == [u];
    assert Walk(u) == Walked([u], Clean);
    hide Walk, HeaderFits, Store;
    FillAppend(schema, fields, cells, chunks, u);
  }

  lemma {:induction false} FillAppend(schema: Schema, fields: seq<Field>, cells: seq<Cell>, chunks: seq<bytes>,
                                      u: bytes)
    requires |cells| == |fields| && (forall c <- chunks :: HeaderFits(c)) && HeaderFits(u)
    requires Fill(schema, fields, cells, chunks).Ok?
    ensures Fill(schema, fields, cells, chunks + [u]) == Store(schema, fields, Fill(schema, fields, cells, chunks).v, u)
    decreases |chunks|
  {
    hide HeaderFits, Store;
    if chunks == [] {
      assert chunks + [u] == [u];
      FillOne(schema, fields, cells, u);
    } else {
      assert (chunks + [u])[0] == chunks[0] && (chunks + [u])[1..] == chunks[1..] + [u];
      FillAppend(schema, fields, Store(schema, fields, cells, chunks[0]).v, chunks[1..], u);
    }
  }

  lemma FillOne(schema: Schema, fields: seq<Field>, cells: seq<Cell>, u: bytes)
    requires |cells| == |fields| && HeaderFits(u)
    ensures Fill(schema, fields, cells, [u]) == Store(schema, fields, cells, u)
  {
    hide HeaderFits, Store;
    assert [u][1..] == [];
  }

  /** The bodies that cannot be decoded: an address of family 0 or 65535, or shorter than three bytes, or of the wrong
      length for family 1 or 2; and a group with members in which a length field is wrong. */
  lemma SkipsExactly(schema: Schema, f: Field, body: bytes)
    ensures DecodeItem(schema, f, body) == Skip <==>
              if f.shape.Leaf? then
                f.shape.kind.Address?
                && (|body| < 3 || body[..2] in {[0, 0], [255, 255]} || (body[..2] == [0, 1] && |body| != 6)
                    || (body[..2] == [0, 2] && |body| != 18))
              else
                FieldsOf(schema, f.shape.name) != [] && Walk(body).stop == Bad
                && Sound(schema, FieldsOf(schema, f.shape.name), Walk(body).chunks)
  {
    match f.shape
    case Leaf(kind) => Scalars.ReadAs(kind, body);
    case Grouped(name) =>
      var inner := FieldsOf(schema, name);
      PanicsExactly(schema, inner, ZeroCells(inner), Walk(body).chunks);
      assert DecodeItem(schema, f, body) == Skip <==> DecodeStruct(schema, name, body) == Fail;
      assert DecodeStruct(schema, name, body) == Fail
             <==> inner != [] && DecodeBody(schema, inner, ZeroCells(inner), body) == Fail;
  }

  /** Neighbouring AVPs of different codes can change places. */
  lemma DifferentCodesCommute(schema: Schema, fields: seq<Field>, cells: seq<Cell>, a: bytes, u: bytes, v: bytes,
                              b: bytes)
    requires DistinctCodes(fields) && |cells| == |fields|
    requires Walk(a).stop == Clean && IsAvp(u) && IsAvp(v) && Code(u) != Code(v)
    ensures DecodeBody(schema, fields, cells, a + (u + (v + b))) == DecodeBody(schema, fields, cells, a + (v + (u + b)))
  {
    PairWalk(a, u, v, b);
    PairWalk(a, v, u, b);
    PairCommutes(schema, fields, cells, Walk(a).chunks, u, v, Walk(b).chunks);
  }

  lemma PairCommutes(schema: Schema, fields: seq<Field>, cells: seq<Cell>, x: seq<bytes>, u: bytes, v: bytes,
                     y: seq<bytes>)
    requires DistinctCodes(fields) && |cells| == |fields|
    requires (forall c <- x :: HeaderFits(c)) && HeaderFits(u) && HeaderFits(v) && (forall c <- y :: HeaderFits(c))
    requires Code(u) != Code(v)
    ensures Fill(schema, fields, cells, x + ([u] + ([v] + y))) == Fill(schema, fields, cells, x + ([v] + ([u] + y)))
  {
    var there, back := x + ([u] + ([v] + y)), x + ([v] + ([u] + y));
    forall f <- fields
      ensures Picks(schema, f, there) == Picks(schema, f, back)
    {
      PairPicks(schema, f, x, u, v, y);
      PairPicks(schema, f, x, v, u, y);
      assert Pick(schema, f, u) == [] || Pick(schema, f, v) == [];
      assert Pick(schema, f, u) + Pick(schema, f, v) == Pick(schema, f, v) + Pick(schema, f, u);
    }
    PairCalm(schema, fields, x, u, v, y);
    PairCalm(schema, fields, x, v, u, y);
    SamePicksSameReading(schema, fields, cells, there, back);
  }

  lemma PairWalk(a: bytes, u: bytes, v: bytes, b: bytes)
    requires Walk(a).stop == Clean && IsAvp(u) && IsAvp(v)
    ensures Walk(a + (u + (v + b))) == Walked(Walk(a).chunks + ([u] + ([v] + Walk(b).chunks)), Walk(b).stop)
  {
    WalkThrough(a, u + (v + b));
    WalkStep(u, v + b);
    WalkStep(v, b);
  }

  lemma PairCalm(schema: Schema, fields: seq<Field>, x: seq<bytes>, u: bytes, v: bytes, y: seq<bytes>)
    requires (forall c <- x :: HeaderFits(c)) && (forall c <- y :: HeaderFits(c)) && HeaderFits(u) && HeaderFits(v)
    ensures Calm(schema, fields, x + ([u] + ([v] + y)))
            <==> Calm(schema, fields, x) && !Crashes(schema, fields, u)
                 && !Crashes(schema, fields, v) && Calm(schema, fields, y)
  {
    CalmAppend(schema, fields, x, [u] + ([v] + y));
    CalmAppend(schema, fields, [u], [v] + y);
    CalmAppend(schema, fields, [v], y);
    assert u in [u] && v in [v];
  }

  lemma PairPicks(schema: Schema, f: Field, x: seq<bytes>, u: bytes, v: bytes, y: seq<bytes>)
    requires (forall c <- x :: HeaderFits(c)) && (forall c <- y :: HeaderFits(c)) && HeaderFits(u) && HeaderFits(v)
    ensures Picks(schema, f, x + ([u] + ([v] + y)))
            == Picks(schema, f, x) + ((Pick(schema, f, u) + Pick(schema, f, v)) + Picks(schema, f, y))
  {
    PicksAppend(schema, f, x, [u] + ([v] + y));
    PicksFirst(schema, f, u, [v] + y);
    PicksFirst(schema, f, v, y);
    Assoc(Pick(schema, f, u), Pick(schema, f, v), Picks(schema, f, y));
  }

  // --- when a decoder panics ---

  /** Each AVP taken for a Time has a body of four bytes, in groups of any depth too. */
  predicate Sound(schema: Schema, fields: seq<Field>, chunks: seq<bytes>)
    requires forall c <- chunks :: HeaderFits(c)
    decreases Total(chunks), 1, |chunks|
  {
    chunks == [] || (SoundAvp(schema, fields, chunks[0]) && Sound(schema, fields, chunks[1..]))
  }

  predicate SoundAvp(schema: Schema, fields: seq<Field>, c: bytes)
    requires HeaderFits(c)
    decreases |c|, 0, 0
  {
    var i := CaseOf(fields, Code(c));
    i < |fields| && VendorOk(fields[i], c) ==>
      match fields[i].shape
      case Leaf(kind) => kind.Time? ==> |Body(c)| == 4
      case Grouped(name) => FieldsOf(schema, name) == [] || Sound(schema, FieldsOf(schema, name), Walk(Body(c)).chunks)
  }

  lemma ClashExactly(kind: Scalars.Kind, body: bytes)
    ensures Scalars.Decode(kind, body).Clash? <==> kind.Time? && |body| != 4
  {
  }

  /** The decoding panics exactly when some AVP taken for a Time has a body of another length. */
  lemma {:induction false} PanicsExactly(schema: Schema, fields: seq<Field>, cells: seq<Cell>, chunks: seq<bytes>)
    requires |cells| == |fields| && forall c <- chunks :: HeaderFits(c)
    ensures Fill(schema, fields, cells, chunks).Panic? <==> !Sound(schema, fields, chunks)
    decreases Total(chunks), 1, |chunks|
  {
    if chunks != [] {
      AvpPanicsExactly(schema, fields, cells, chunks[0]);
      var r := Store(schema, fields, cells, chunks[0]);
      if r.Ok? {
        PanicsExactly(schema, fields, r.v, chunks[1..]);
      }
    }
  }

  lemma {:induction false} AvpPanicsExactly(schema: Schema, fields: seq<Field>, cells: seq<Cell>, c: bytes)
    requires |cells| == |fields| && HeaderFits(c)
    ensures Store(schema, fields, cells, c).Panic? <==> !SoundAvp(schema, fields, c)
    decreases |c|, 0, 0
  {
    var i := CaseOf(fields, Code(c));
    if i < |fields| && VendorOk(fields[i], c) {
      match fields[i].shape
      case Leaf(kind) => ClashExactly(kind, Body(c));
      case Grouped(name) =>
        var inner := FieldsOf(schema, name);
        PanicsExactly(schema, inner, ZeroCells(inner), Walk(Body(c)).chunks);
        assert DecodeItem(schema, fields[i], Body(c)).Crash? <==> DecodeStruct(schema, name, Body(c)).Panic?;
        assert DecodeStruct(schema, name, Body(c)).Panic?
               <==> inner != [] && DecodeBody(schema, inner, ZeroCells(inner), Body(c)).Panic?;
    }
  }

  predicate NoTime(fields: seq<Field>) {
    forall f <- fields :: f.shape != Leaf(Scalars.Time)
  }

  /** So a schema without Time never panics. */
  lemma NoTimeNoPanic(schema: Schema, fields: seq<Field>, cells: seq<Cell>, chunks: seq<bytes>)
    requires |cells| == |fields| && forall c <- chunks :: HeaderFits(c)
    requires NoTime(fields) && forall name <- schema :: NoTime(schema[name])
    ensures Fill(schema, fields, cells, chunks).Ok?
  {
    NoTimeSound(schema, fields, chunks);
    PanicsExactly(schema, fields, cells, chunks);
  }

  lemma {:induction false} NoTimeSound(schema: Schema, fields: seq<Field>, chunks: seq<bytes>)
    requires forall c <- chunks :: HeaderFits(c)
    requires NoTime(fields) && forall name <- schema :: NoTime(schema[name])
    ensures Sound(schema, fields, chunks)
    decreases Total(chunks), |chunks|
  {
    if chunks != [] {
      var c := chunks[0];
      assert HeaderFits(c);
      var i := CaseOf(fields, Code(c));
      if i < |fields| && fields[i].shape.Grouped? {
        var inner := FieldsOf(schema, fields[i].shape.name);
        if inner != [] {
          NoTimeSound(schema, inner, Walk(Body(c)).chunks);
        }
      }
      assert i < |fields| ==> fields[i] in fields && fields[i].shape != Leaf(Scalars.Time);
      NoTimeSound(schema, fields, chunks[1..]);
    }
  }
}
