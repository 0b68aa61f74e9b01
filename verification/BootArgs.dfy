/** The two windows read from a firmware `boot_args` block: the device tree and the framebuffer. */
module BootArgs {
  import opened Results
  import opened Bytes

  datatype BootArgsError =
    | TruncatedBootArgs | ZeroDevtreeSize | DevtreeSizeBelowRootHeader | DevtreeSizeMisaligned
    | VirtualAddressUnderflow | PhysicalAddressOverflow | AdtPhysMisaligned
    | AdtWindowOverflow | DramWindowOverflow | AdtWindowOutsideDram
    | TruncatedVideo | NoFramebuffer | FramebufferMisaligned | ZeroFramebufferExtent
    | FramebufferExtentTooLarge | UnsupportedFramebufferDepth | RowBytesBelowWidth | FramebufferSpanOverflow

  // ---- The device-tree window ---------------------------------------------------

  const MIN_BOOT_ARGS_LEN: int := 0x6c

  datatype AdtWindow = AdtWindow(physAddr: u64, len: u32)

  function WrappingSub(a: u64, b: u64): (r: u64) {
    (a - b) % TWO_64
  }

  function WrappingAdd(a: u64, b: u64): (r: u64) {
    (a + b) % TWO_64
  }

  function AdtWindowOf(args: Slice): (r: Result<AdtWindow, BootArgsError>) {
    if |args| < MIN_BOOT_ARGS_LEN then Err(TruncatedBootArgs) else
    WindowOf(U64At(args, 0x08), U64At(args, 0x10), U64At(args, 0x18), U64At(args, 0x60), U32At(args, 0x68))
  }

  function WindowOf(virtBase: u64, physBase: u64, memSize: u64, devtree: u64, devtreeSize: u32)
    : (r: Result<AdtWindow, BootArgsError>)
  {
    if devtreeSize == 0 then Err(ZeroDevtreeSize) else
    if devtreeSize < 8 then Err(DevtreeSizeBelowRootHeader) else
    if devtreeSize % 4 != 0 then Err(DevtreeSizeMisaligned) else
    var physAddr := WrappingAdd(WrappingSub(devtree, virtBase), physBase);
    if physAddr % 4 != 0 then Err(AdtPhysMisaligned) else
    var adtEnd :- CheckedAdd(physAddr, devtreeSize).OkOr(AdtWindowOverflow);
    var dramEnd :- CheckedAdd(physBase, memSize).OkOr(DramWindowOverflow);
    if physAddr < physBase || adtEnd > dramEnd then Err(AdtWindowOutsideDram) else
    Ok(AdtWindow(physAddr, devtreeSize))
  }

  /**
   A window is handed out exactly when it lies inside the reported memory, is word
   aligned, holds at least a root header, and sits as far past the physical base as the
   tree's virtual address sits past the virtual base, modulo the address width.
   */
  lemma WindowMeaning(args: Slice, w: AdtWindow)
    ensures AdtWindowOf(args) == Ok(w) <==>
      && |args| >= MIN_BOOT_ARGS_LEN
      && var virtBase, physBase, memSize := U64At(args, 0x08), U64At(args, 0x10), U64At(args, 0x18);
         && w.len == U32At(args, 0x68) && w.len >= 8 && w.len % 4 == 0 && w.physAddr % 4 == 0
         && physBase <= w.physAddr && w.physAddr + w.len <= physBase + memSize < TWO_64
         && (w.physAddr - physBase) % TWO_64 == (U64At(args, 0x60) - virtBase) % TWO_64
  {
    hide WrappingAdd, U64At, U32At;
    if |args| >= MIN_BOOT_ARGS_LEN {
      WrappingInverse(WrappingSub(U64At(args, 0x60), U64At(args, 0x08)), U64At(args, 0x10), w.physAddr);
    }
  }

  lemma WrappingInverse(offset: u64, base: u64, address: u64)
    ensures WrappingAdd(offset, base) == address <==> WrappingSub(address, base) == offset
  {
    assert WrappingAdd(offset, base) == offset + base || WrappingAdd(offset, base) == offset + base - TWO_64;
    assert WrappingSub(address, base) == address - base || WrappingSub(address, base) == address - base + TWO_64;
  }

  /** Wrapping never denies: the two address-arithmetic errors have no input. */
  lemma AddressArithmeticNeverDenies(args: Slice)
    ensures var r := AdtWindowOf(args);
      r != Err(VirtualAddressUnderflow) && r != Err(PhysicalAddressOverflow)
  {
  }

  // ---- The framebuffer -------------------------------------------------------------

  const MIN_VIDEO_LEN: int := 0x58
  const MAX_FB_EXTENT: int := 16384
  const BYTES_PER_PIXEL: int := 4

  datatype Framebuffer = Framebuffer(physAddr: u64, width: u64, height: u64, rowBytes: u64, depth: u64)
  {
    /** Every check `FramebufferOf` makes, as one condition. */
    ghost predicate Valid() {
      && physAddr != 0 && physAddr % 8 == 0
      && 1 <= width <= MAX_FB_EXTENT && 1 <= height <= MAX_FB_EXTENT
      && (depth == 30 || depth == 32)
      && BYTES_PER_PIXEL * width <= rowBytes
      && physAddr + height * rowBytes < TWO_64
    }

    /** `row_bytes * height`, saturating. */
    function SpanBytes(): (span: u64) {
      if 0 <= rowBytes * height < TWO_64 then rowBytes * height else TWO_64 - 1
    }

    /** Where pixel (`x`, `y`) starts, or nothing outside the visible area. */
    function PixelOffset(x: u64, y: u64): (offset: Option<u64>) {
      if x >= width || y >= height then None else
      match CheckedMul(y, rowBytes)
      case None => None
      case Some(row) =>
        match CheckedMul(x, BYTES_PER_PIXEL)
        case None => None
        case Some(column) => CheckedAdd(row, column)
    }
  }

  function FramebufferOf(args: Slice): (r: Result<Framebuffer, BootArgsError>) {
    if |args| < MIN_VIDEO_LEN then Err(TruncatedVideo) else
    VideoOf(U64At(args, 0x28), U64At(args, 0x38), U64At(args, 0x40), U64At(args, 0x48), U64At(args, 0x50))
  }

  function VideoOf(physAddr: u64, rowBytes: u64, width: u64, height: u64, depth: u64)
    : (r: Result<Framebuffer, BootArgsError>)
  {
    if physAddr == 0 then Err(NoFramebuffer) else
    if physAddr % 8 != 0 then Err(FramebufferMisaligned) else
    if width == 0 || height == 0 then Err(ZeroFramebufferExtent) else
    if width > MAX_FB_EXTENT || height > MAX_FB_EXTENT then Err(FramebufferExtentTooLarge) else
    if depth != 30 && depth != 32 then Err(UnsupportedFramebufferDepth) else
    if rowBytes < width * BYTES_PER_PIXEL then Err(RowBytesBelowWidth) else
    var span :- CheckedMul(rowBytes, height).OkOr(FramebufferSpanOverflow);
    var _ :- CheckedAdd(physAddr, span).OkOr(FramebufferSpanOverflow);
    Ok(Framebuffer(physAddr, width, height, rowBytes, depth))
  }

  lemma VideoMeaning(physAddr: u64, rowBytes: u64, width: u64, height: u64, depth: u64)
    ensures VideoOf(physAddr, rowBytes, width, height, depth).Ok? <==>
      Framebuffer(physAddr, width, height, rowBytes, depth).Valid()
    ensures VideoOf(physAddr, rowBytes, width, height, depth).Ok? ==>
      VideoOf(physAddr, rowBytes, width, height, depth).value == Framebuffer(physAddr, width, height, rowBytes, depth)
  {
    RowStart(height, rowBytes);
    SpanCommutes(rowBytes, height);
  }

  lemma SpanCommutes(rowBytes: nat, height: nat)
    ensures rowBytes * height == height * rowBytes
  {
  }

  /** Exactly the valid framebuffers are handed out, with the fields firmware wrote. */
  lemma FramebufferMeaning(args: Slice, fb: Framebuffer)
    ensures FramebufferOf(args) == Ok(fb) <==>
      && |args| >= MIN_VIDEO_LEN && fb.Valid()
      && fb.physAddr == U64At(args, 0x28) && fb.rowBytes == U64At(args, 0x38) && fb.width == U64At(args, 0x40)
      && fb.height == U64At(args, 0x48) && fb.depth == U64At(args, 0x50)
  {
    hide U64At, VideoOf, Framebuffer.Valid;
    if |args| >= MIN_VIDEO_LEN {
      VideoMeaning(U64At(args, 0x28), U64At(args, 0x38), U64At(args, 0x40), U64At(args, 0x48), U64At(args, 0x50));
    }
  }

  /** A visible pixel's offset, free of the overflow checks that never fire. */
  function Offset(fb: Framebuffer, x: nat, y: nat): (offset: nat)
  {
    y * fb.rowBytes + x * BYTES_PER_PIXEL
  }

  predicate Visible(fb: Framebuffer, x: nat, y: nat) {
    x < fb.width && y < fb.height
  }

  lemma {:induction false} RowsAreApart(rowBytes: nat, y1: nat, y2: nat)
    requires y1 < y2
    ensures y1 * rowBytes + rowBytes <= y2 * rowBytes
    decreases y2
  {
    var previous := y2 - 1;
    assert y2 * rowBytes == previous * rowBytes + rowBytes;
    if y1 < previous {
      RowsAreApart(rowBytes, y1, previous);
    }
  }

  lemma {:induction false} RowStart(y: nat, rowBytes: nat)
    ensures 0 <= y * rowBytes
  {
    if y > 0 {
      RowStart(y - 1, rowBytes);
      assert y * rowBytes == (y - 1) * rowBytes + rowBytes;
    }
  }

  /** In an accepted framebuffer a pixel has an offset exactly when visible, and its cell is inside the span. */
  lemma PixelOffsetMeaning(fb: Framebuffer, x: u64, y: u64)
    requires fb.Valid()
    ensures fb.SpanBytes() == fb.height * fb.rowBytes
    ensures fb.PixelOffset(x, y) == if Visible(fb, x, y) then Some(Offset(fb, x, y)) else None
    ensures Visible(fb, x, y) ==> Offset(fb, x, y) + BYTES_PER_PIXEL <= fb.SpanBytes()
  {
    SpanCommutes(fb.rowBytes, fb.height);
    RowStart(fb.height, fb.rowBytes);
    if Visible(fb, x, y) {
      RowStart(y, fb.rowBytes);
      RowsAreApart(fb.rowBytes, y, fb.height);
    }
  }

  /** Distinct visible pixels never share a byte. */
  lemma CellsAreDisjoint(fb: Framebuffer, x1: nat, y1: nat, x2: nat, y2: nat)
    requires fb.Valid() && Visible(fb, x1, y1) && Visible(fb, x2, y2) && (x1, y1) != (x2, y2)
    ensures
      || Offset(fb, x1, y1) + BYTES_PER_PIXEL <= Offset(fb, x2, y2)
      || Offset(fb, x2, y2) + BYTES_PER_PIXEL <= Offset(fb, x1, y1)
  {
    if y1 < y2 {
      RowsAreApart(fb.rowBytes, y1, y2);
    } else if y2 < y1 {
      RowsAreApart(fb.rowBytes, y2, y1);
    }
  }
}
