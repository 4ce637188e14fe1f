/**
 * The expression-level decisions of the BMP decoder in sfl_bmp.h: the packed
 * header layouts, the row pitch, the image size, the flip rule, the pixel
 * format chosen by bit depth and the colour-table size.
 */
module BmpLayout {
  import opened BmpStream

  const TwoTo32: int := 0x1_0000_0000
  const TwoTo31: int := 0x8000_0000

  /** SFL_BMP_PIXEL_FORMAT_*. */
  const FormatB8G8R8A8: int := 1
  const FormatB8G8R8: int := 2
  const FormatB5G6R5: int := 3

  /** SFL_BMP_ATTRIBUTE_FLIPPED. */
  const AttributeFlipped: int := 1

  /** SFL_BMP_COMPRESSION_NONE. */
  const CompressionNone: int := 0

  /** sizeof(SflBmpFileHeader), sizeof(SflBmpInfoHeader40), sizeof(SflBmpInfoHeader124). */
  const FileHeaderSize: int := 14
  const InfoHeader40Size: int := 40
  const InfoHeader124Size: int := 124

  /** Conversion of an unsigned or signed C integer to SflBmpU32. */
  function U32(x: int): (r: int)
    ensures 0 <= r < TwoTo32
    ensures (x - r) % TwoTo32 == 0
  {
    x % TwoTo32
  }

  /** Little-endian fields of the packed headers. */
  function U16At(b: seq<Byte>, at: nat): (v: int)
    requires at + 2 <= |b|
    ensures 0 <= v < 0x1_0000
  {
    b[at] as int + 256 * b[at + 1] as int
  }

  function U32At(b: seq<Byte>, at: nat): (v: int)
    requires at + 4 <= |b|
    ensures 0 <= v < TwoTo32
    ensures v % 0x1_0000 == U16At(b, at) && v / 0x1_0000 == U16At(b, at + 2)
  {
    U16At(b, at) + 0x1_0000 * U16At(b, at + 2)
  }

  /** A two's-complement SflBmpI32. */
  function I32At(b: seq<Byte>, at: nat): (v: int)
    requires at + 4 <= |b|
    ensures -TwoTo31 <= v < TwoTo31
    ensures U32(v) == U32At(b, at)
    ensures v < 0 <==> b[at + 3] >= 0x80
  {
    var u := U32At(b, at);
    if u < TwoTo31 then u else u - TwoTo32
  }

  /** The values SflBmpDecodeSettings takes from the two headers. */
  datatype Settings = Settings(
    numColors: int,
    compression: int,
    bpp: int,
    width: int,
    height: int,
    offset: int,
    tableOffset: int)

  /** The packed SflBmpFileHeader: `hdr` holds "BM" (bytes 0-1), `offset` is at byte 10. */
  predicate HasSignature(fileHeader: seq<Byte>)
    requires |fileHeader| == FileHeaderSize
  {
    fileHeader[0] == 'B' as int && fileHeader[1] == 'M' as int
  }

  /**
   * The settings decode124 fills from the file header and the
   * BITMAPV5HEADER read after it.
   */
  function SettingsOf(fileHeader: seq<Byte>, info: seq<Byte>): (st: Settings)
    requires |fileHeader| == FileHeaderSize && |info| == InfoHeader124Size
    ensures SettingsValid(st)
    ensures st.offset == U32At(fileHeader, 10) && st.tableOffset == 138
  {
    Settings(
      U32At(info, 32),
      U32At(info, 16),
      U16At(info, 14),
      I32At(info, 4),
      I32At(info, 8),
      U32At(fileHeader, 10),
      FileHeaderSize + InfoHeader124Size)
  }

  /** The ranges of the SflBmpDecodeSettings fields. */
  predicate SettingsValid(st: Settings)
  {
    0 <= st.bpp < 0x1_0000 &&
    0 <= st.numColors < TwoTo32 && 0 <= st.compression < TwoTo32 &&
    0 <= st.offset < TwoTo32 && 0 <= st.tableOffset < TwoTo32 &&
    -TwoTo31 <= st.width < TwoTo31 && -TwoTo31 <= st.height < TwoTo31
  }

  /**
   * The row pitch of extract: 4 * ceil(bpp * width / 32), the product taken
   * in SflBmpU32.
   */
  function RowPitch(bpp: int, width: int): (pitch: int)
    ensures pitch % 4 == 0 && 0 <= pitch < TwoTo32
    ensures 8 * pitch >= U32(bpp * width)
    ensures 8 * (pitch - 4) < U32(bpp * width)
  {
    (U32(bpp * width) + 31) / 32 * 4
  }

  /**
   * The size extract stores: pitch times the height as it is in the header,
   * i.e. before the sign of a top-down image is removed.
   */
  function ImageSize(pitch: int, height: int): (size: int)
    ensures 0 <= size < TwoTo32
    ensures 0 <= pitch * height < TwoTo32 ==> size == pitch * height
    ensures height < 0 && 0 < pitch * Abs(height) < TwoTo32 ==> size == TwoTo32 - pitch * Abs(height)
  {
    var n := pitch * height;
    assert height < 0 ==> pitch * Abs(height) == -n;
    U32(n)
  }

  /** A top-down image of one 32-bit pixel gets a size of 2^32 - 4 bytes, not the 4 bytes of its one row. */
  lemma TopDownSizeWraps()
    ensures RowPitch(32, 1) == 4
    ensures ImageSize(RowPitch(32, 1), -1) == TwoTo32 - 4
    ensures ImageSizeIntended(RowPitch(32, 1), -1) == 4
  {
  }

  /** The size evidently intended: pitch times the number of rows, whatever the sign of the height. */
  function ImageSizeIntended(pitch: int, height: int): (size: int)
    ensures 0 <= size < TwoTo32
    ensures 0 <= pitch * Abs(height) < TwoTo32 ==> size == pitch * Abs(height)
    ensures height >= 0 ==> size == ImageSize(pitch, height)
  {
    U32(pitch * Abs(height))
  }

  function Abs(x: int): (r: int)
    ensures r >= 0 && (r == x || r == -x)
  {
    if x < 0 then -x else x
  }

  /** A positive height marks a bottom-up image; a non-positive one is stored negated. */
  function FlipAttributes(height: int): (attributes: int)
    ensures attributes == AttributeFlipped <==> height > 0
    ensures attributes == 0 <==> height <= 0
  {
    if height > 0 then AttributeFlipped else 0
  }

  function DescHeight(height: int): (h: int)
    ensures h >= 0 && Abs(height) == h
    ensures height > 0 ==> h == height
  {
    if height > 0 then height else -height
  }

  /** The raw formats of extract; 0 for a bit depth it does not copy raw. */
  function RawFormat(bpp: int): (format: int)
    ensures format != 0 <==> bpp == 32 || bpp == 24 || bpp == 16
    ensures format == FormatB8G8R8A8 <==> bpp == 32
    ensures format == FormatB8G8R8 <==> bpp == 24
    ensures format == FormatB5G6R5 <==> bpp == 16
  {
    if bpp == 32 then FormatB8G8R8A8
    else if bpp == 24 then FormatB8G8R8
    else if bpp == 16 then FormatB5G6R5
    else 0
  }

  predicate IsPaletted(bpp: int) {
    bpp == 4
  }

  function Pow(base: int, exponent: nat): int
  {
    if exponent == 0 then 1 else base * Pow(base, exponent - 1)
  }

  lemma {:induction false} PowPositive(base: int, exponent: nat)
    requires base > 0
    ensures Pow(base, exponent) > 0
  {
    if exponent > 0 {
      PowPositive(base, exponent - 1);
    }
  }

  lemma MulMod(a: int, b: int)
    ensures (a % TwoTo32) * b % TwoTo32 == a * b % TwoTo32
  {
    var q := a / TwoTo32;
    assert a == q * TwoTo32 + a % TwoTo32;
    assert a * b == (a % TwoTo32) * b + (q * b) * TwoTo32;
  }

  /** sfl_bmp_ipow: base^exponent in SflBmpU32, 1 for exponent 0. */
  method Ipow(base: int, exponent: int) returns (r: int)
    requires 0 <= base < TwoTo32 && 0 <= exponent < TwoTo32
    ensures r == Pow(base, exponent) % TwoTo32
  {
    if exponent == 0 {
      return 1;
    }
    r := base;
    var i := 1;
    while i < exponent
      invariant 1 <= i <= exponent
      invariant r == Pow(base, i) % TwoTo32
    {
      MulMod(Pow(base, i), base);
      r := U32(r * base);
      i := i + 1;
    }
  }

  /** The number of colour-table entries of extract_paletted. */
  function PaletteCount(numColors: int, bpp: nat): (count: int)
    ensures numColors == 0 ==> count == Pow(2, bpp) % TwoTo32
    ensures numColors != 0 ==> count == numColors
  {
    if numColors == 0 then Pow(2, bpp) % TwoTo32 else numColors
  }

  /** A 4-bit image without num_colors has a table of 16 entries, one per nibble. */
  lemma FourBitPalette()
    ensures PaletteCount(0, 4) == 16
    ensures TableSize(PaletteCount(0, 4)) == 64
  {
  }

  /** The byte size of the colour table, in SflBmpU32. */
  function TableSize(count: int): (size: int)
    ensures 0 <= size < TwoTo32 && size % 4 == 0
    ensures 0 <= count < TwoTo32 / 4 ==> size == 4 * count
  {
    U32(count * 4)
  }

  /** The entries of a colour table of `size` bytes stored at `at`. */
  function Table(b: seq<Byte>, at: nat, size: nat): (t: seq<int>)
    requires at + size <= |b|
    ensures |t| == size / 4
    ensures forall i :: 0 <= i < |t| ==> t[i] == U32At(b, at + 4 * i)
    decreases size
  {
    if size < 4 then [] else [U32At(b, at)] + Table(b, at + 4, size - 4)
  }
}
