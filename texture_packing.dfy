// Packing automaton state into RGBA8 image bytes: `update_burns_and_cells_textures`
// (src/advection.rs) and `update_texture_data` (src/main.rs). Pixel `i` occupies bytes
// 4 * i .. 4 * i + 3 of the image's data.

module TexturePacking {
  import opened Cells

  /** One forcing sample of the wind field, four bytes as the burns texture stores them. */
  datatype Wind = Wind(dx: Byte, dy: Byte, pressure: Byte, density: Byte)

  /** One RGBA8 pixel. */
  datatype Rgba = Rgba(r: Byte, g: Byte, b: Byte, a: Byte)

  function WindPixel(w: Wind): Rgba
  {
    Rgba(w.dx, w.dy, w.pressure, w.density)
  }

  /** The cells texture stores `(species as u8, ra, rb, clock)`. */
  function CellPixel(c: Cell): Rgba
  {
    Rgba(Discriminant(c.species), c.ra, c.rb, c.clock)
  }

  function Channel(p: Rgba, c: nat): Byte
    requires c < 4
  {
    if c == 0 then p.r else if c == 1 then p.g else if c == 2 then p.b else p.a
  }

  /** The byte image of a pixel sequence, four bytes per pixel. */
  function Flatten(px: seq<Rgba>): (r: seq<Byte>)
    ensures |r| == 4 * |px|
  {
    seq(4 * |px|, j requires 0 <= j < 4 * |px| => Channel(px[j / 4], j % 4))
  }

  function WindPixels(winds: seq<Wind>): (r: seq<Rgba>)
    ensures |r| == |winds| && forall i :: 0 <= i < |winds| ==> r[i] == WindPixel(winds[i])
  {
    seq(|winds|, i requires 0 <= i < |winds| => WindPixel(winds[i]))
  }

  function CellPixels(cells: seq<Cell>): (r: seq<Rgba>)
    ensures |r| == |cells| && forall i :: 0 <= i < |cells| ==> r[i] == CellPixel(cells[i])
  {
    seq(|cells|, i requires 0 <= i < |cells| => CellPixel(cells[i]))
  }

  /** Pixel `i`'s four bytes sit at `4 * i .. 4 * i + 3` of the flattened image. */
  lemma FlattenAt(px: seq<Rgba>, i: nat)
    requires i < |px|
    ensures Flatten(px)[4 * i] == px[i].r && Flatten(px)[4 * i + 1] == px[i].g
    ensures Flatten(px)[4 * i + 2] == px[i].b && Flatten(px)[4 * i + 3] == px[i].a
    ensures Flatten(px)[4 * i .. 4 * i + 4] == [px[i].r, px[i].g, px[i].b, px[i].a]
  {
    var f := Flatten(px);
    assert f[4 * i] == px[i].r;
    assert f[4 * i + 1] == px[i].g;
    assert f[4 * i + 2] == px[i].b;
    assert f[4 * i + 3] == px[i].a;
  }

  /** Reading a cell back from a pixel: the species byte must be a discriminant. */
  function DecodeCell(p: Rgba): (r: Option<Cell>)
    ensures r.Some? ==> CellPixel(r.value) == p
  {
    match FromByte(p.r)
    case None => None
    case Some(sp) => Some(Cell(sp, p.g, p.b, p.a))
  }

  /** Reading a whole cells image back, four bytes at a time; fails on a trailing partial
      pixel or on a species byte that is no discriminant. */
  function DecodeCells(bytes: seq<Byte>): (r: Option<seq<Cell>>)
    ensures r.Some? ==> 4 * |r.value| == |bytes|
    decreases |bytes|
  {
    if |bytes| == 0 then Some([])
    else if |bytes| < 4 then None
    else
      match DecodeCell(Rgba(bytes[0], bytes[1], bytes[2], bytes[3]))
      case None => None
      case Some(c) =>
        match DecodeCells(bytes[4..])
        case None => None
        case Some(rest) => Some([c] + rest)
  }

  lemma FlattenTail(px: seq<Rgba>)
    requires |px| > 0
    ensures Flatten(px)[4..] == Flatten(px[1..])
  {
    var a, b := Flatten(px)[4..], Flatten(px[1..]);
    assert |a| == |b|;
    forall j | 0 <= j < |a| ensures a[j] == b[j] {
      assert (j + 4) / 4 == j / 4 + 1;
      assert (j + 4) % 4 == j % 4;
    }
  }

  lemma CellPixelsTail(cells: seq<Cell>)
    requires |cells| > 0
    ensures CellPixels(cells)[1..] == CellPixels(cells[1..])
  {
  }

  /** The cells image decodes to exactly the cells that were packed: the species
      discriminants are pairwise distinct, and ra, rb and clock are stored verbatim. */
  lemma {:induction false} CellsRoundTrip(cells: seq<Cell>)
    ensures DecodeCells(Flatten(CellPixels(cells))) == Some(cells)
    decreases |cells|
  {
    if |cells| > 0 {
      var px := CellPixels(cells);
      var bytes := Flatten(px);
      FlattenAt(px, 0);
      DiscriminantRoundTrip(cells[0].species);
      assert DecodeCell(Rgba(bytes[0], bytes[1], bytes[2], bytes[3])) == Some(cells[0]);
      FlattenTail(px);
      CellPixelsTail(cells);
      CellsRoundTrip(cells[1..]);
      assert [cells[0]] + cells[1..] == cells;
    }
  }

  /** Packing is injective: two cell sequences with the same image are equal. */
  lemma CellsPackingInjective(a: seq<Cell>, b: seq<Cell>)
    requires Flatten(CellPixels(a)) == Flatten(CellPixels(b))
    ensures a == b
  {
    CellsRoundTrip(a);
    CellsRoundTrip(b);
  }

  /** One packing loop of `update_burns_and_cells_textures`: pixel `i` goes to bytes
      `4 * i .. 4 * i + 3`. The slice indexing panics unless the image holds all of them;
      bytes past `4 * |px|` are left as they were. */
  method WriteRgba(pixels: array<Byte>, px: seq<Rgba>)
    requires 4 * |px| <= pixels.Length
    modifies pixels
    ensures pixels[..4 * |px|] == Flatten(px)
    ensures pixels[4 * |px|..] == old(pixels[4 * |px|..])
  {
    for i := 0 to |px|
      invariant forall j :: 0 <= j < 4 * i ==> pixels[j] == Flatten(px)[j]
      invariant forall j :: 4 * i <= j < pixels.Length ==> pixels[j] == old(pixels[j])
    {
      var idx := i * 4;
      pixels[idx] := px[i].r;
      pixels[idx + 1] := px[i].g;
      pixels[idx + 2] := px[i].b;
      pixels[idx + 3] := px[i].a;
    }
  }

  function ImageFrame(image: Option<array<Byte>>): set<array<Byte>>
  {
    if image.Some? then {image.value} else {}
  }

  /** `update_burns_and_cells_textures`: when the burns image is present, wind `i` becomes
      its pixel `i`; when the cells image is present, cell `i` becomes its pixel `i`. A
      missing image is skipped without affecting the other. The two images are distinct. */
  method UpdateBurnsAndCellsTextures(
    burns: Option<array<Byte>>, cellsImage: Option<array<Byte>>,
    winds: seq<Wind>, cells: seq<Cell>)
    requires burns.Some? ==> 4 * |winds| <= burns.value.Length
    requires cellsImage.Some? ==> 4 * |cells| <= cellsImage.value.Length
    requires burns.Some? && cellsImage.Some? ==> burns.value != cellsImage.value
    modifies ImageFrame(burns), ImageFrame(cellsImage)
    ensures burns.Some? ==>
      burns.value[..4 * |winds|] == Flatten(WindPixels(winds)) &&
      burns.value[4 * |winds|..] == old(burns.value[4 * |winds|..])
    ensures cellsImage.Some? ==>
      cellsImage.value[..4 * |cells|] == Flatten(CellPixels(cells)) &&
      cellsImage.value[4 * |cells|..] == old(cellsImage.value[4 * |cells|..])
  {
    if burns.Some? {
      WriteRgba(burns.value, WindPixels(winds));
    }
    if cellsImage.Some? {
      WriteRgba(cellsImage.value, CellPixels(cells));
    }
  }

  /** `update_texture_data`'s loop: only byte `4 * i` of each pixel is written, with the
      species discriminant of cell `i`; the other three channels and every byte past the
      last written one keep their values. The indexing panics unless `4 * (n - 1)` is in range. */
  method WriteSpeciesChannel(pixels: array<Byte>, cells: seq<Cell>)
    requires |cells| == 0 || 4 * (|cells| - 1) < pixels.Length
    modifies pixels
    ensures forall i :: 0 <= i < |cells| ==> pixels[4 * i] == Discriminant(cells[i].species)
    ensures forall i :: 0 <= i < |cells| ==> FromByte(pixels[4 * i]) == Some(cells[i].species)
    ensures forall j :: 0 <= j < pixels.Length && (j % 4 != 0 || j >= 4 * |cells|) ==>
      pixels[j] == old(pixels[j])
  {
    for i := 0 to |cells|
      invariant forall k :: 0 <= k < i ==> pixels[4 * k] == Discriminant(cells[k].species)
      invariant forall j :: 0 <= j < pixels.Length && (j % 4 != 0 || j >= 4 * i) ==>
        pixels[j] == old(pixels[j])
    {
      var idx := i * 4;
      pixels[idx] := Discriminant(cells[i].species);
    }
    forall i | 0 <= i < |cells| ensures FromByte(pixels[4 * i]) == Some(cells[i].species) {
      DiscriminantRoundTrip(cells[i].species);
    }
  }
}
