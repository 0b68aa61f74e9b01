/** Boot-progress stripes painted into a framebuffer, byte for byte. */
module Paint {
  import opened Bytes
  import opened BootArgs

  const STAGE_COLOURS: seq<u32> := [0x00FF_FFFF, 0x0000_FFFF, 0x0000_FF00]
  const DENIED_COLOUR: u32 := 0x00FF_0000
  const STRIPE_HEIGHT: int := 64

  // ---- The surface ----------------------------------------------------------------

  function Put(s: seq<u8>, offset: nat, value: u32): (t: seq<u8>)
    requires offset + 4 <= |s|
    ensures |t| == |s|
  {
    s[..offset] + LeBytes(value, 4) + s[offset + 4..]
  }

  /** The bytes from the framebuffer base on; a 32-bit write is little-endian. */
  class Surface {
    const bytes: array<u8>

    constructor (bytes: array<u8>)
      ensures this.bytes == bytes
    {
      this.bytes := bytes;
    }

    method PutU32(offset: u64, value: u32)
      requires offset + 4 <= bytes.Length
      modifies bytes
      ensures bytes[..] == Put(old(bytes[..]), offset, value)
    {
      var cell := LeBytes(value, 4);
      bytes[offset], bytes[offset + 1], bytes[offset + 2], bytes[offset + 3] := cell[0], cell[1], cell[2], cell[3];
    }
  }

  // ---- What a stripe leaves behind ---------------------------------------------------

  /** Every offset a pixel of `fb` can have is one the surface accepts. */
  ghost predicate Accepts(s: seq<u8>, fb: Framebuffer) {
    forall x: u64, y: u64 :: fb.PixelOffset(x, y).Some? ==> fb.PixelOffset(x, y).value + 4 <= |s|
  }

  /** One pixel coloured, or nothing where it has no offset. */
  ghost function Coloured(s: seq<u8>, fb: Framebuffer, x: u64, y: u64, colour: u32): (t: seq<u8>)
    requires Accepts(s, fb)
    ensures |t| == |s|
  {
    match fb.PixelOffset(x, y)
    case Some(offset) => Put(s, offset, colour)
    case None => s
  }

  /** Row `y` with its first `n` pixels coloured. */
  ghost function Row(s: seq<u8>, fb: Framebuffer, y: u64, n: nat, colour: u32): (t: seq<u8>)
    requires Accepts(s, fb) && n <= fb.width
    ensures |t| == |s| && Accepts(t, fb)
    decreases n
  {
    if n == 0 then s else Coloured(Row(s, fb, y, n - 1, colour), fb, n - 1, y, colour)
  }

  /** Rows `top..bottom` coloured across their full width. */
  ghost function Band(s: seq<u8>, fb: Framebuffer, top: nat, bottom: nat, colour: u32): (t: seq<u8>)
    requires Accepts(s, fb) && bottom <= fb.height
    ensures |t| == |s| && Accepts(t, fb)
    decreases bottom
  {
    if bottom <= top then s else Row(Band(s, fb, top, bottom - 1, colour), fb, bottom - 1, fb.width, colour)
  }

  /** The row after stripe `index`; a stripe whose rows pass the address width has none. */
  function BandEnd(fb: Framebuffer, index: nat): (bottom: nat)
    ensures bottom <= fb.height
  {
    var bottom := index * STRIPE_HEIGHT + STRIPE_HEIGHT;
    if bottom >= TWO_64 then 0 else Min(bottom, fb.height)
  }

  type Point = (u64, u64)

  /** The first `n` pixels of row `y` that have an offset. */
  ghost function RowSet(fb: Framebuffer, y: u64, n: nat): (points: set<Point>)
    requires n <= fb.width
    ensures forall p: Point :: p in points <==> p.1 == y && p.0 < n && fb.PixelOffset(p.0, p.1).Some?
    decreases n
  {
    if n == 0 then {} else
    RowSet(fb, y, n - 1) + (if fb.PixelOffset(n - 1, y).Some? then {(n - 1, y)} else {})
  }

  /** The pixels of rows `top..bottom` that have an offset. */
  ghost function BandSet(fb: Framebuffer, top: nat, bottom: nat): (points: set<Point>)
    requires bottom <= fb.height
    ensures forall p: Point :: p in points <==>
      top <= p.1 < bottom && p.0 < fb.width && fb.PixelOffset(p.0, p.1).Some?
    decreases bottom
  {
    if bottom <= top then {} else BandSet(fb, top, bottom - 1) + RowSet(fb, bottom - 1, fb.width)
  }

  /** Adding to a count that stops at the largest `u64`. */
  function Saturated(count: nat): (written: u64) {
    if count < TWO_64 then count else TWO_64 - 1
  }

  lemma Disjointly<T>(a: set<T>, b: set<T>)
    requires a !! b
    ensures |a + b| == |a| + |b|
  {
  }

  /** Paints stripe `index`; a band below the panel, or past the address width, paints nothing. */
  method Stripe(surface: Surface, fb: Framebuffer, index: u64, colour: u32) returns (written: u64)
    requires Accepts(surface.bytes[..], fb)
    modifies surface.bytes
    ensures surface.bytes[..] == Band(old(surface.bytes[..]), fb, index * STRIPE_HEIGHT, BandEnd(fb, index), colour)
    ensures written == Saturated(|BandSet(fb, index * STRIPE_HEIGHT, BandEnd(fb, index))|)
  {
    hide Row, RowSet, BandSet, Accepts;
    var top := index * STRIPE_HEIGHT;
    NoRows(fb, top);
    if top >= TWO_64 {
      return 0;
    }
    if top + STRIPE_HEIGHT >= TWO_64 {
      return 0;
    }
    var bottom := Min(top + STRIPE_HEIGHT, fb.height);
    ghost var before := surface.bytes[..];
    written := 0;
    var y := top;
    while y < bottom
      invariant top <= y && (y <= bottom || y == top)
      invariant surface.bytes[..] == Band(before, fb, top, Min(y, bottom), colour)
      invariant written == Saturated(|BandSet(fb, top, Min(y, bottom))|)
    {
      NextRow(fb, top, y);
      written := PaintRow(surface, fb, y, colour, |BandSet(fb, top, y)|, written);
      y := y + 1;
    }
  }

  lemma NoRows(fb: Framebuffer, top: nat)
    ensures forall bottom :: 0 <= bottom <= fb.height && bottom <= top ==> BandSet(fb, top, bottom) == {}
  {
  }

  lemma NextRow(fb: Framebuffer, top: nat, y: nat)
    requires top <= y < fb.height
    ensures |BandSet(fb, top, y + 1)| == |BandSet(fb, top, y)| + |RowSet(fb, y, fb.width)|
  {
    hide RowSet;
    Disjointly(BandSet(fb, top, y), RowSet(fb, y, fb.width));
  }

  lemma NextPixel(fb: Framebuffer, y: u64, x: nat)
    requires x < fb.width
    ensures |RowSet(fb, y, x + 1)| == |RowSet(fb, y, x)| + if fb.PixelOffset(x, y).Some? then 1 else 0
  {
  }

  /** The inner loop; `written` already stands for `count` pixels. */
  method PaintRow(surface: Surface, fb: Framebuffer, y: u64, colour: u32, ghost count: nat, before: u64)
    returns (written: u64)
    requires Accepts(surface.bytes[..], fb) && before == Saturated(count)
    modifies surface.bytes
    ensures surface.bytes[..] == Row(old(surface.bytes[..]), fb, y, fb.width, colour)
    ensures written == Saturated(count + |RowSet(fb, y, fb.width)|)
  {
    hide Put, RowSet, Accepts, Framebuffer.PixelOffset;
    ghost var initial := surface.bytes[..];
    assert |RowSet(fb, y, 0)| == 0 by { EmptyRow(fb, y); }
    written := before;
    var x := 0;
    while x < fb.width
      invariant 0 <= x <= fb.width && written == Saturated(count + |RowSet(fb, y, x)|)
      invariant surface.bytes[..] == Row(initial, fb, y, x, colour)
    {
      NextPixel(fb, y, x);
      var offset := fb.PixelOffset(x, y);
      if offset.Some? {
        OffsetIsAccepted(surface.bytes[..], fb, x, y);
        surface.PutU32(offset.value, colour);
        written := if written < TWO_64 - 1 then written + 1 else written;
      }
      x := x + 1;
    }
  }

  lemma EmptyRow(fb: Framebuffer, y: u64)
    ensures RowSet(fb, y, 0) == {}
  {
  }

  lemma OffsetIsAccepted(s: seq<u8>, fb: Framebuffer, x: u64, y: u64)
    requires Accepts(s, fb) && fb.PixelOffset(x, y).Some?
    ensures fb.PixelOffset(x, y).value + 4 <= |s|
  {
  }

  // ---- Progress ---------------------------------------------------------------------

  function StageColour(index: nat, reached: nat, denied: bool): (colour: u32)
    requires index < |STAGE_COLOURS|
  {
    if index + 1 == reached && denied then DENIED_COLOUR else STAGE_COLOURS[index]
  }

  function Stages(reached: nat): (stages: nat)
    ensures stages <= |STAGE_COLOURS|
  {
    Min(reached, |STAGE_COLOURS|)
  }

  ghost function Painted(s: seq<u8>, fb: Framebuffer, stages: nat, reached: nat, denied: bool): (t: seq<u8>)
    requires Accepts(s, fb) && stages <= |STAGE_COLOURS|
    ensures |t| == |s| && Accepts(t, fb)
    decreases stages
  {
    if stages == 0 then s else
    var index := stages - 1;
    Band(Painted(s, fb, index, reached, denied), fb, index * STRIPE_HEIGHT, BandEnd(fb, index),
         StageColour(index, reached, denied))
  }

  /** The pixels of the first `stages` stripes. */
  ghost function PaintedSet(fb: Framebuffer, stages: nat): (points: set<Point>) {
    BandSet(fb, 0, Min(stages * STRIPE_HEIGHT, fb.height))
  }

  /** The returned count is the number of pixels the stages coloured. */
  method Progress(surface: Surface, fb: Framebuffer, reached: u64, denied: bool) returns (written: u64)
    requires Accepts(surface.bytes[..], fb)
    modifies surface.bytes
    ensures surface.bytes[..] == Painted(old(surface.bytes[..]), fb, Stages(reached), reached, denied)
    ensures written == Saturated(|PaintedSet(fb, Stages(reached))|)
  {
    hide Band, BandSet, Accepts;
    ghost var before := surface.bytes[..];
    NoStage(fb);
    written := 0;
    var index := 0;
    while index < reached && index < |STAGE_COLOURS|
      invariant 0 <= index <= Stages(reached)
      invariant surface.bytes[..] == Painted(before, fb, index, reached, denied)
      invariant written == Saturated(|PaintedSet(fb, index)|)
    {
      var colour := if index + 1 == reached && denied then DENIED_COLOUR else STAGE_COLOURS[index];
      var more := Stripe(surface, fb, index, colour);
      NextStage(fb, index);
      written := if written + more < TWO_64 then written + more else TWO_64 - 1;
      index := index + 1;
    }
  }

  lemma NoStage(fb: Framebuffer)
    ensures PaintedSet(fb, 0) == {}
  {
  }

  lemma NextStage(fb: Framebuffer, index: nat)
    requires index < |STAGE_COLOURS|
    ensures |PaintedSet(fb, index + 1)|
         == |PaintedSet(fb, index)| + |BandSet(fb, index * STRIPE_HEIGHT, BandEnd(fb, index))|
  {
    hide BandSet;
    var above, band := PaintedSet(fb, index), BandSet(fb, index * STRIPE_HEIGHT, BandEnd(fb, index));
    assert PaintedSet(fb, index + 1) == above + band;
    Disjointly(above, band);
  }

  // ---- What is on the panel --------------------------------------------------------------

  /** The surface holds every visible pixel of an accepted framebuffer. */
  ghost predicate Holds(s: seq<u8>, fb: Framebuffer) {
    fb.Valid() && fb.height * fb.rowBytes <= |s|
  }

  lemma Fits(s: seq<u8>, fb: Framebuffer, x: nat, y: nat)
    requires Holds(s, fb) && Visible(fb, x, y)
    ensures Offset(fb, x, y) + 4 <= |s|
  {
    RowsAreApart(fb.rowBytes, y, fb.height);
  }

  /** A surface as long as an accepted framebuffer's span accepts every offset it has. */
  lemma SpanIsAccepted(s: seq<u8>, fb: Framebuffer)
    requires Holds(s, fb)
    ensures Accepts(s, fb)
  {
    hide Framebuffer.PixelOffset, Framebuffer.Valid, Offset;
    forall x: u64, y: u64 | fb.PixelOffset(x, y).Some? ensures fb.PixelOffset(x, y).value + 4 <= |s| {
      PixelOffsetMeaning(fb, x, y);
      Fits(s, fb, x, y);
    }
  }

  /** In an accepted framebuffer every visible pixel counts, so the count is an area and never saturates. */
  lemma PaintedArea(fb: Framebuffer, stages: nat)
    requires fb.Valid()
    ensures |PaintedSet(fb, stages)| == Min(stages * STRIPE_HEIGHT, fb.height) * fb.width < TWO_32
  {
    var rows := Min(stages * STRIPE_HEIGHT, fb.height);
    BandArea(fb, rows);
    AreaIsSmall(rows, fb.width);
  }

  lemma {:induction false} RowArea(fb: Framebuffer, y: u64, n: nat)
    requires fb.Valid() && y < fb.height && n <= fb.width
    ensures |RowSet(fb, y, n)| == n
    decreases n
  {
    hide Framebuffer.PixelOffset, Framebuffer.Valid, RowSet;
    if n == 0 {
      EmptyRow(fb, y);
    } else {
      RowArea(fb, y, n - 1);
      PixelOffsetMeaning(fb, n - 1, y);
      NextPixel(fb, y, n - 1);
    }
  }

  lemma {:induction false} BandArea(fb: Framebuffer, bottom: nat)
    requires fb.Valid() && bottom <= fb.height
    ensures |BandSet(fb, 0, bottom)| == bottom * fb.width
    decreases bottom
  {
    hide RowSet, BandSet, Framebuffer.PixelOffset, Framebuffer.Valid;
    NoRows(fb, 0);
    if bottom > 0 {
      BandArea(fb, bottom - 1);
      NextRow(fb, 0, bottom - 1);
      RowArea(fb, bottom - 1, fb.width);
      Distributes(bottom - 1, 1, fb.width);
    }
  }

  lemma Distributes(a: nat, b: nat, width: nat)
    ensures (a + b) * width == a * width + b * width
  {
  }

  lemma {:induction false} AreaIsSmall(rows: nat, width: nat)
    requires rows <= MAX_FB_EXTENT && width <= MAX_FB_EXTENT
    ensures 0 <= rows * width <= rows * MAX_FB_EXTENT < TWO_32
  {
    if rows > 0 {
      AreaIsSmall(rows - 1, width);
      Distributes(rows - 1, 1, width);
    }
  }

  /** The 32-bit value in pixel (`x`, `y`). */
  ghost function Pixel(s: seq<u8>, fb: Framebuffer, x: nat, y: nat): (value: u32)
    requires Holds(s, fb) && Visible(fb, x, y)
  {
    Fits(s, fb, x, y);
    U32At(s, Offset(fb, x, y))
  }

  ghost predicate InCell(fb: Framebuffer, x: nat, y: nat, k: nat) {
    Offset(fb, x, y) <= k < Offset(fb, x, y) + 4
  }

  lemma PutReads(s: seq<u8>, offset: nat, value: u32, at: nat)
    requires offset + 4 <= |s| && at + 4 <= |s|
    ensures at == offset ==> U32At(Put(s, offset, value), at) == value
    ensures at + 4 <= offset || offset + 4 <= at ==> U32At(Put(s, offset, value), at) == U32At(s, at)
  {
    hide LeBytes, LeValue;
    var t := Put(s, offset, value);
    if at == offset {
      PowWidths();
      LeRoundTrip(value, 4);
      assert t[at..at + 4] == LeBytes(value, 4);
    } else if at + 4 <= offset || offset + 4 <= at {
      assert t[at..at + 4] == s[at..at + 4];
    }
  }

  lemma {:induction false} RowPixels(s: seq<u8>, fb: Framebuffer, y: nat, n: nat, colour: u32, x1: nat, y1: nat)
    requires Holds(s, fb) && Accepts(s, fb) && y < fb.height && n <= fb.width && Visible(fb, x1, y1)
    ensures Pixel(Row(s, fb, y, n, colour), fb, x1, y1)
         == if y1 == y && x1 < n then colour else Pixel(s, fb, x1, y1)
    decreases n
  {
    hide Put, U32At, Offset, Accepts, Framebuffer.PixelOffset, Framebuffer.Valid;
    if n > 0 {
      RowPixels(s, fb, y, n - 1, colour, x1, y1);
      PixelOffsetMeaning(fb, n - 1, y);
      Fits(s, fb, n - 1, y);
      Fits(s, fb, x1, y1);
      PutReads(Row(s, fb, y, n - 1, colour), Offset(fb, n - 1, y), colour, Offset(fb, x1, y1));
      if (x1, y1) != (n - 1, y) {
        CellsAreDisjoint(fb, x1, y1, n - 1, y);
      }
    }
  }

  lemma {:induction false} BandPixels(s: seq<u8>, fb: Framebuffer, top: nat, bottom: nat, colour: u32, x: nat, y: nat)
    requires Holds(s, fb) && Accepts(s, fb) && bottom <= fb.height && Visible(fb, x, y)
    ensures Pixel(Band(s, fb, top, bottom, colour), fb, x, y)
         == if top <= y < bottom then colour else Pixel(s, fb, x, y)
    decreases bottom
  {
    hide Pixel, Row, Accepts, Framebuffer.Valid;
    if top < bottom {
      BandPixels(s, fb, top, bottom - 1, colour, x, y);
      RowPixels(Band(s, fb, top, bottom - 1, colour), fb, bottom - 1, fb.width, colour, x, y);
    }
  }

  /**
   After `progress`, every pixel of the counted set has its stage colour and every other
   visible one is as it was.
   */
  lemma {:induction false} PaintedPixels(
    s: seq<u8>, fb: Framebuffer, stages: nat, reached: nat, denied: bool, x: nat, y: nat)
    requires Holds(s, fb) && stages <= |STAGE_COLOURS| && Visible(fb, x, y)
    ensures Accepts(s, fb)
    ensures (x, y) in PaintedSet(fb, stages) <==> y / STRIPE_HEIGHT < stages
    ensures Pixel(Painted(s, fb, stages, reached, denied), fb, x, y)
         == if y / STRIPE_HEIGHT < stages then StageColour(y / STRIPE_HEIGHT, reached, denied) else Pixel(s, fb, x, y)
    decreases stages
  {
    hide Pixel, Band, StageColour, Accepts, Framebuffer.Valid, Framebuffer.PixelOffset, BandSet;
    SpanIsAccepted(s, fb);
    PixelOffsetMeaning(fb, x, y);
    if stages > 0 {
      var index := stages - 1;
      PaintedPixels(s, fb, index, reached, denied, x, y);
      BandPixels(Painted(s, fb, index, reached, denied), fb, index * STRIPE_HEIGHT, BandEnd(fb, index),
                 StageColour(index, reached, denied), x, y);
    }
  }

  /** The four bytes of pixel (`x`, `y`): blue, green, red and a zero. */
  ghost function Cell(s: seq<u8>, fb: Framebuffer, x: nat, y: nat): (bytes: seq<u8>)
    requires Holds(s, fb) && Visible(fb, x, y)
  {
    Fits(s, fb, x, y);
    var at := y * fb.rowBytes + 4 * x;
    s[at..at + 4]
  }

  lemma CellIsPixel(s: seq<u8>, fb: Framebuffer, x: nat, y: nat, colour: u32)
    requires Holds(s, fb) && Visible(fb, x, y)
    ensures Pixel(s, fb, x, y) == colour <==> Cell(s, fb, x, y) == LeBytes(colour, 4)
  {
    hide LeBytes, LeValue, Framebuffer.Valid;
    Fits(s, fb, x, y);
    var at := Offset(fb, x, y);
    assert Cell(s, fb, x, y) == s[at..at + 4] && Pixel(s, fb, x, y) == LeValue(s[at..at + 4]);
    PowWidths();
    LeCanonical(s[at..at + 4]);
    LeRoundTrip(colour, 4);
  }

  lemma ColourBytes()
    ensures LeBytes(0x00FF_FFFF, 4) == [0xFF, 0xFF, 0xFF, 0] && LeBytes(0x0000_FFFF, 4) == [0xFF, 0xFF, 0, 0]
    ensures LeBytes(0x0000_FF00, 4) == [0, 0xFF, 0, 0] && LeBytes(0x00FF_0000, 4) == [0, 0, 0xFF, 0]
  {
    assert LeBytes(0x00FF_FFFF, 4) == [0xFF] + LeBytes(0xFFFF, 3);
    assert LeBytes(0x0000_FFFF, 4) == [0xFF] + LeBytes(0xFF, 3);
    assert LeBytes(0x0000_FF00, 4) == [0] + LeBytes(0xFF, 3);
    assert LeBytes(0x00FF_0000, 4) == [0] + LeBytes(0xFF00, 3);
    assert LeBytes(0xFFFF, 3) == [0xFF] + LeBytes(0xFF, 2);
    assert LeBytes(0xFF, 3) == [0xFF] + LeBytes(0, 2);
    assert LeBytes(0xFF00, 3) == [0] + LeBytes(0xFF, 2);
    assert LeBytes(0xFF, 2) == [0xFF, 0] && LeBytes(0, 2) == [0, 0];
  }

  /**
   The picture `progress` leaves, in bytes: a white, a cyan and a green stripe of 64 rows each
   for the stages reached, red in place of the last one when denied, and nothing else. Past the
   third stage no stripe is the last one, so none is red.
   */
  lemma ProgressPicture(s: seq<u8>, fb: Framebuffer, reached: nat, denied: bool, x: nat, y: nat)
    requires Holds(s, fb) && Visible(fb, x, y)
    ensures Accepts(s, fb)
    ensures var t := Painted(s, fb, Stages(reached), reached, denied);
      && Holds(t, fb)
      && Cell(t, fb, x, y) ==
           if denied && reached <= 3 && 64 * (reached - 1) <= y < 64 * reached then [0, 0, 0xFF, 0]
           else if y < 64 && reached >= 1 then [0xFF, 0xFF, 0xFF, 0]
           else if 64 <= y < 128 && reached >= 2 then [0xFF, 0xFF, 0, 0]
           else if 128 <= y < 192 && reached >= 3 then [0, 0xFF, 0, 0]
           else Cell(s, fb, x, y)
  {
    hide Pixel, Cell, Painted, PaintedSet, Accepts, LeBytes, Framebuffer.Valid;
    PaintedPixels(s, fb, Stages(reached), reached, denied, x, y);
    var t := Painted(s, fb, Stages(reached), reached, denied);
    ColourBytes();
    forall colour: u32 ensures Pixel(t, fb, x, y) == colour <==> Cell(t, fb, x, y) == LeBytes(colour, 4) {
      CellIsPixel(t, fb, x, y, colour);
    }
    CellIsPixel(s, fb, x, y, Pixel(s, fb, x, y));
  }

  lemma {:induction false} RowElsewhere(s: seq<u8>, fb: Framebuffer, y: nat, n: nat, colour: u32, k: nat)
    requires Holds(s, fb) && Accepts(s, fb) && y < fb.height && n <= fb.width && k < |s|
    requires forall x :: 0 <= x < fb.width ==> !InCell(fb, x, y, k)
    ensures Row(s, fb, y, n, colour)[k] == s[k]
    decreases n
  {
    hide Offset, Accepts, Framebuffer.PixelOffset, Framebuffer.Valid;
    if n > 0 {
      RowElsewhere(s, fb, y, n - 1, colour, k);
      PixelOffsetMeaning(fb, n - 1, y);
      Fits(s, fb, n - 1, y);
      assert !InCell(fb, n - 1, y, k);
    }
  }

  /** Every byte outside the coloured cells, row padding included, is as it was. */
  ghost predicate OutsideRows(fb: Framebuffer, top: nat, bottom: nat, k: nat) {
    forall x: nat, y: nat :: x < fb.width && top <= y < bottom ==> !InCell(fb, x, y, k)
  }

  lemma {:induction false} BandElsewhere(s: seq<u8>, fb: Framebuffer, top: nat, bottom: nat, colour: u32, k: nat)
    requires Holds(s, fb) && Accepts(s, fb) && bottom <= fb.height && k < |s| && OutsideRows(fb, top, bottom, k)
    ensures Band(s, fb, top, bottom, colour)[k] == s[k]
    decreases bottom
  {
    hide Row, InCell, Accepts, Framebuffer.Valid;
    if top < bottom {
      BandElsewhere(s, fb, top, bottom - 1, colour, k);
      RowElsewhere(Band(s, fb, top, bottom - 1, colour), fb, bottom - 1, fb.width, colour, k);
    }
  }

  /** `progress` writes no byte outside the pixels of the reached stripes. */
  lemma {:induction false} PaintedElsewhere(
    s: seq<u8>, fb: Framebuffer, stages: nat, reached: nat, denied: bool, k: nat)
    requires Holds(s, fb) && stages <= |STAGE_COLOURS| && k < |s|
    requires OutsideRows(fb, 0, Min(stages * STRIPE_HEIGHT, fb.height), k)
    ensures Accepts(s, fb)
    ensures Painted(s, fb, stages, reached, denied)[k] == s[k]
    decreases stages
  {
    hide Band, InCell, StageColour, Accepts, Framebuffer.Valid;
    SpanIsAccepted(s, fb);
    if stages > 0 {
      var index := stages - 1;
      PaintedElsewhere(s, fb, index, reached, denied, k);
      BandElsewhere(Painted(s, fb, index, reached, denied), fb, index * STRIPE_HEIGHT, BandEnd(fb, index),
                    StageColour(index, reached, denied), k);
    }
  }
}
