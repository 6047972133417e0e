/**
 The shared grid document: a map from cell key to colour and a parallel map from the
 same key to who placed the cell and when, on a 200 by 100 board.
 */
module Grid {
  import opened Options
  import opened JsNumber
  import opened CellKey

  const GridWidth := 200
  const GridHeight := 100

  datatype Coord = Coord(x: int, y: int)

  predicate InBounds(c: Coord) {
    0 <= c.x < GridWidth && 0 <= c.y < GridHeight
  }

  function KeyOf(c: Coord): string {
    EncodeKey(c.x, c.y)
  }

  /** The bounds check of `calculateGridCoordinates`, applied to the integer cell
      position the mouse is over: a cell inside the board, or null. */
  function Locate(x: int, y: int): (r: Option<Coord>)
    ensures r.Some? <==> 0 <= x < 200 && 0 <= y < 100
    ensures r.Some? ==> r.value.x == x && r.value.y == y && DecodeKey(KeyOf(r.value)) == (Num(x), Num(y))
  {
    var c := Coord(x, y);
    DecodeEncode(x, y);
    if InBounds(c) then Some(c) else None
  }

  /** Who placed a cell, under which display name, and when (milliseconds since the epoch). */
  datatype CellMeta = CellMeta(userId: string, username: string, timestamp: int)

  /** The `canvas/grid` document: `cells` and `metadata`, both keyed by cell key. */
  datatype Canvas = Canvas(cells: map<string, string>, metadata: map<string, CellMeta>)

  /** The document `initializeGrid` creates when none exists. */
  const EmptyCanvas := Canvas(map[], map[])

  /** The write of one placement: the cell's colour and metadata are set, creating the
      cell if it was unset and overwriting it whoever placed it before; no other key
      of either map changes. */
  function Paint(g: Canvas, key: string, color: string, meta: CellMeta): (r: Canvas)
    ensures key in r.cells && r.cells[key] == color
    ensures key in r.metadata && r.metadata[key] == meta
    ensures r.cells.Keys == g.cells.Keys + {key}
    ensures r.metadata.Keys == g.metadata.Keys + {key}
    ensures forall k :: k in g.cells && k != key ==> r.cells[k] == g.cells[k]
    ensures forall k :: k in g.metadata && k != key ==> r.metadata[k] == g.metadata[k]
  {
    Canvas(g.cells[key := color], g.metadata[key := meta])
  }

  /** Writing the same cell twice with the same value is the same as writing it once. */
  lemma PaintIdempotent(g: Canvas, key: string, color: string, meta: CellMeta)
    ensures Paint(Paint(g, key, color, meta), key, color, meta) == Paint(g, key, color, meta)
  {
  }

  /** Of two writes to one cell, the later wins. */
  lemma PaintLastWriterWins(g: Canvas, key: string, c1: string, m1: CellMeta, c2: string, m2: CellMeta)
    ensures Paint(Paint(g, key, c1, m1), key, c2, m2) == Paint(g, key, c2, m2)
  {
  }

  /** Writes to different cells do not interfere: their order does not matter. */
  lemma PaintCommutes(g: Canvas, k1: string, c1: string, m1: CellMeta, k2: string, c2: string, m2: CellMeta)
    requires k1 != k2
    ensures Paint(Paint(g, k1, c1, m1), k2, c2, m2) == Paint(Paint(g, k2, c2, m2), k1, c1, m1)
  {
    assert g.cells[k1 := c1][k2 := c2] == g.cells[k2 := c2][k1 := c1];
    assert g.metadata[k1 := m1][k2 := m2] == g.metadata[k2 := m2][k1 := m1];
  }

  /** A key that the drawing code reads back as a cell inside the board, written in
      canonical form. */
  predicate IsCellKey(k: string) {
    var (x, y) := DecodeKey(k);
    x.Num? && y.Num? && InBounds(Coord(x.value, y.value)) && KeyOf(Coord(x.value, y.value)) == k
  }

  /** Every stored cell has metadata and vice versa, and every key names a cell of the board. */
  predicate WellKeyed(g: Canvas) {
    && g.cells.Keys == g.metadata.Keys
    && forall k :: k in g.cells ==> IsCellKey(k)
  }

  lemma EmptyCanvasWellKeyed()
    ensures WellKeyed(EmptyCanvas)
  {
  }

  /** Placing on a cell of the board keeps the document well keyed. */
  lemma PaintKeepsWellKeyed(g: Canvas, c: Coord, color: string, meta: CellMeta)
    requires WellKeyed(g) && InBounds(c)
    ensures WellKeyed(Paint(g, KeyOf(c), color, meta))
  {
    DecodeEncode(c.x, c.y);
    assert IsCellKey(KeyOf(c));
  }
}
