/**
 * sfl_bmp_read_context_decode and the stages under it: the file header,
 * the dispatch on the info-header size, the BITMAPV5HEADER, and the raw and
 * paletted extraction into an SflBmpDesc.
 */
module BmpDecode {
  import opened BmpStream
  import opened BmpLayout
  import opened BmpPaletted

  /** The scalar fields of an SflBmpDesc. */
  datatype Fields = Fields(width: int, height: int, pitch: int, attributes: int, size: int, format: int)

  class Desc {
    var data: array?<int>
    var width: int
    var height: int
    var pitch: int
    var attributes: int
    var size: int
    var format: int

    constructor ()
      ensures data == null && View() == Fields(0, 0, 0, 0, 0, 0)
    {
      data := null;
      width, height, pitch, attributes, size, format := 0, 0, 0, 0, 0, 0;
    }

    function View(): Fields
      reads this
    {
      Fields(width, height, pitch, attributes, size, format)
    }
  }

  // ---------------------------------------------------------------------
  // What decoding a file produces
  // ---------------------------------------------------------------------

  /**
   * The fields extract leaves in the descriptor for `st`, whatever the
   * outcome; `format` is the one the descriptor had before, which an
   * unsupported bit depth leaves as it was. The size is the pitch times
   * the height as the header gives it.
   */
  function ExtractFields(st: Settings, format: int): (f: Fields)
    ensures f.width == st.width && f.height == Abs(st.height)
    ensures f.size == ImageSize(RowPitch(st.bpp, st.width), st.height)
    ensures IsPaletted(st.bpp) ==>
              f.format == FormatB8G8R8A8 && f.attributes == 0 && f.pitch == U32(st.width * 4)
    ensures !IsPaletted(st.bpp) ==>
              f.pitch == RowPitch(st.bpp, st.width) &&
              (f.attributes == AttributeFlipped <==> st.height > 0) &&
              (f.format == if RawFormat(st.bpp) != 0 then RawFormat(st.bpp) else format)
  {
    var pitch := RowPitch(st.bpp, st.width);
    var size := ImageSize(pitch, st.height);
    if IsPaletted(st.bpp) then
      Fields(st.width, DescHeight(st.height), U32(st.width * 4), 0, size, FormatB8G8R8A8)
    else
      Fields(st.width, DescHeight(st.height), pitch, FlipAttributes(st.height), size,
             if RawFormat(st.bpp) != 0 then RawFormat(st.bpp) else format)
  }

  /** The fields of the corrected extract: the size counts the rows whatever the sign of the height. */
  function IntendedFields(st: Settings, format: int): (f: Fields)
    ensures f.width == st.width && f.height == Abs(st.height)
    ensures f.size == ImageSizeIntended(RowPitch(st.bpp, st.width), st.height)
    ensures f.(size := 0) == ExtractFields(st, format).(size := 0)
    ensures st.height >= 0 ==> f == ExtractFields(st, format)
  {
    ExtractFields(st, format).(size := ImageSizeIntended(RowPitch(st.bpp, st.width), st.height))
  }

  /** extract_raw succeeds when `size` bytes follow the cursor. */
  function RawResult(b: seq<Byte>, pos: int, size: int): (r: int)
    ensures r == 1 <==> 0 < size && 0 <= pos && pos + size <= |b|
    ensures r == 0 || r == 1
  {
    if 0 < size && 0 <= pos && pos + size <= |b| then 1 else 0
  }

  function TableBytes(st: Settings): int
    requires SettingsValid(st)
  {
    TableSize(PaletteCount(st.numColors, st.bpp))
  }

  /** The colour table of a paletted image is in the file: the read of its bytes succeeds. */
  predicate TableRead(b: seq<Byte>, st: Settings)
    requires SettingsValid(st)
  {
    0 < TableBytes(st) && st.tableOffset + TableBytes(st) <= |b|
  }

  /** The colour table of a paletted image, when the file holds it. */
  function TableOf(b: seq<Byte>, st: Settings): seq<int>
    requires SettingsValid(st) && 0 <= st.tableOffset && st.tableOffset + TableBytes(st) <= |b|
  {
    Table(b[st.tableOffset..st.tableOffset + TableBytes(st)], 0, TableBytes(st))
  }

  /** The number of 32-bit pixels of the buffer extract_paletted allocates. */
  function OutputLength(st: Settings): int
  {
    U32(DescHeight(st.height) * st.width * 4) / 4
  }

  /**
   * extract_paletted as written: the colour table is read, compression is
   * NONE, and the loop of extract_paletted_none finds a byte for every
   * column of every row.
   */
  function PalettedResult(b: seq<Byte>, st: Settings): (r: int)
    requires SettingsValid(st)
    ensures r == 0 || r == 1
    ensures r == 1 ==> TableRead(b, st) && st.compression == CompressionNone
    ensures TableRead(b, st) && st.compression == CompressionNone ==>
              (r == 1 <==> PalettedNoneTrace(b, st.offset, st.width, DescHeight(st.height), BottomUp(st)).ok)
  {
    if !TableRead(b, st) || st.compression != CompressionNone then 0
    else if PalettedNoneTrace(b, st.offset, st.width, DescHeight(st.height), BottomUp(st)).ok then 1
    else 0
  }

  /** The corrected extract_paletted: the colour table is read, compression is NONE, and every pixel decodes. */
  function IntendedPalettedResult(b: seq<Byte>, st: Settings): (r: int)
    requires SettingsValid(st)
    ensures r == 0 || r == 1
    ensures r == 1 ==> st.compression == CompressionNone
    ensures r == 1 ==> TableRead(b, st)
  {
    if !TableRead(b, st) then 0
    else if st.compression != CompressionNone then 0
    else
      var w, h := st.width, DescHeight(st.height);
      if 0 <= w && OutputLength(st) == w * h &&
         Decodable(b, st.offset, RowPitch(st.bpp, w), |TableOf(b, st)|, w, h)
      then 1 else 0
  }

  /** extract as written, with the cursor at `pos`. */
  function ExtractResult(b: seq<Byte>, st: Settings, pos: int): (r: int)
    requires SettingsValid(st)
    ensures r == 0 || r == 1
    ensures r == 1 ==> RawFormat(st.bpp) != 0 || IsPaletted(st.bpp)
    ensures RawFormat(st.bpp) != 0 ==>
              (r == 1 <==> RawResult(b, pos, ImageSize(RowPitch(st.bpp, st.width), st.height)) == 1)
    ensures IsPaletted(st.bpp) ==> r == PalettedResult(b, st)
  {
    if RawFormat(st.bpp) != 0 then RawResult(b, pos, ImageSize(RowPitch(st.bpp, st.width), st.height))
    else if IsPaletted(st.bpp) then PalettedResult(b, st)
    else 0
  }

  /** The corrected extract, with the cursor at `pos`. */
  function IntendedResult(b: seq<Byte>, st: Settings, pos: int): (r: int)
    requires SettingsValid(st)
    ensures r == 0 || r == 1
    ensures r == 1 ==> RawFormat(st.bpp) != 0 || IsPaletted(st.bpp)
    ensures RawFormat(st.bpp) != 0 ==>
              (r == 1 <==> RawResult(b, pos, ImageSizeIntended(RowPitch(st.bpp, st.width), st.height)) == 1)
    ensures RawFormat(st.bpp) != 0 && st.height >= 0 ==> r == ExtractResult(b, st, pos)
  {
    if RawFormat(st.bpp) != 0 then RawResult(b, pos, ImageSizeIntended(RowPitch(st.bpp, st.width), st.height))
    else if IsPaletted(st.bpp) then IntendedPalettedResult(b, st)
    else 0
  }

  /** The file header and the info-header size at `start` are there and the signature is "BM". */
  predicate HeaderOk(b: seq<Byte>, start: int)
  {
    0 <= start && start + FileHeaderSize + 4 <= |b| && HasSignature(b[start..start + FileHeaderSize])
  }

  function InfoSizeAt(b: seq<Byte>, start: int): int
    requires HeaderOk(b, start)
  {
    U32At(b[start + FileHeaderSize..start + FileHeaderSize + 4], 0)
  }

  /** The decoder gets as far as extract: a V5 file whose info header is all there. */
  predicate ReachesExtract(b: seq<Byte>, start: int)
  {
    HeaderOk(b, start) && InfoSizeAt(b, start) == InfoHeader124Size &&
    start + FileHeaderSize + InfoHeader124Size <= |b|
  }

  function SettingsFor(b: seq<Byte>, start: int): (st: Settings)
    requires ReachesExtract(b, start)
    ensures SettingsValid(st)
  {
    SettingsOf(b[start..start + FileHeaderSize],
               b[start + FileHeaderSize..start + FileHeaderSize + InfoHeader124Size])
  }

  /** sfl_bmp_read_context_decode on the file `b` with the cursor at `start`. */
  function DecodeResult(b: seq<Byte>, start: int): (r: int)
    ensures r == 0 || r == 1
    ensures r == 1 ==> HeaderOk(b, start)
    ensures r == 1 ==> InfoSizeAt(b, start) == InfoHeader40Size || InfoSizeAt(b, start) == InfoHeader124Size
    ensures HeaderOk(b, start) && InfoSizeAt(b, start) == InfoHeader40Size ==> r == 1
    ensures ReachesExtract(b, start) ==> r == ExtractResult(b, SettingsFor(b, start), start + 138)
  {
    if !HeaderOk(b, start) then 0
    else if InfoSizeAt(b, start) == InfoHeader40Size then 1
    else if ReachesExtract(b, start) then ExtractResult(b, SettingsFor(b, start), start + 138)
    else 0
  }

  /** In BMP files a positive height means the rows are stored bottom-up. */
  predicate BottomUp(st: Settings)
  {
    st.height > 0
  }

  /**
   * The pixels extract_paletted_none as written leaves: a cell whose last
   * store names an entry of the colour table holds that entry's colour.
   */
  ghost predicate StoredPixels(data: seq<int>, b: seq<Byte>, st: Settings)
    requires SettingsValid(st) && TableRead(b, st)
  {
    var ws := PalettedNoneTrace(b, st.offset, st.width, DescHeight(st.height), BottomUp(st)).writes;
    forall i :: 0 <= i < |data| && 0 <= LastEntry(ws, i) < |TableOf(b, st)| ==>
      data[i] == TableOf(b, st)[LastEntry(ws, i)]
  }

  /** The pixels of the corrected decoder: output row y comes from file row height-1-y when bottom-up. */
  ghost predicate IntendedPixels(data: seq<int>, b: seq<Byte>, st: Settings)
    requires SettingsValid(st) && st.tableOffset + TableBytes(st) <= |b|
  {
    forall y, x :: 0 <= y < DescHeight(st.height) && 0 <= x < st.width ==>
      CellIs(data, st.width, y, x, PixelValue(b, st.offset, RowPitch(st.bpp, st.width), TableOf(b, st),
                                              FileRow(BottomUp(st), DescHeight(st.height), y), x))
  }

  // ---------------------------------------------------------------------
  // The decoder
  // ---------------------------------------------------------------------

  /** extract_raw as written: the pixel bytes are read into memory the descriptor never receives. */
  method ExtractRaw(s: Stream, desc: Desc) returns (r: int)
    requires s.Valid() && 0 <= desc.size
    modifies s
    ensures s.Valid()
    ensures r == RawResult(s.bytes, old(s.pos), desc.size)
    ensures desc.data == old(desc.data)
  {
    var ok, memory := s.Read(desc.size);
    if !ok {
      return 0;
    }
    return 1;
  }

  /** The corrected extract_raw: it stores the `size` bytes it reads as the image data. */
  method ExtractRawIntended(s: Stream, desc: Desc) returns (r: int)
    requires s.Valid() && 0 <= desc.size
    modifies s, desc
    ensures s.Valid()
    ensures r == RawResult(s.bytes, old(s.pos), old(desc.size))
    ensures desc.View() == old(desc.View())
    ensures r == 0 ==> desc.data == old(desc.data)
    ensures r == 1 ==> desc.data != null && fresh(desc.data) &&
                       desc.data[..] == s.bytes[old(s.pos)..old(s.pos) + desc.size]
  {
    var ok, memory := s.Read(desc.size);
    if !ok {
      return 0;
    }
    desc.data := new int[|memory|](i requires 0 <= i < |memory| => memory[i]);
    assert desc.data[..] == memory;
    return 1;
  }

  /**
   * extract_paletted as written: the colour table (2^bpp entries unless
   * num_colors says otherwise) is read from table_offset, the descriptor
   * becomes B8G8R8A8 with a pitch of width*4 and no attributes and gets a
   * buffer of height*width*4 bytes, and an uncompressed image goes through
   * the loop of extract_paletted_none.
   */
  method ExtractPaletted(s: Stream, st: Settings, desc: Desc) returns (r: int)
    requires s.Valid() && SettingsValid(st)
    requires desc.width == st.width && desc.height == DescHeight(st.height)
    modifies s, desc
    ensures s.Valid()
    ensures r == PalettedResult(s.bytes, st)
    ensures desc.View() == old(desc.View()).(pitch := U32(st.width * 4), attributes := 0, format := FormatB8G8R8A8)
    ensures desc.data != null && fresh(desc.data) && desc.data.Length == OutputLength(st)
    ensures r == 1 ==> StoredPixels(desc.data[..], s.bytes, st)
  {
    var count;
    if st.numColors == 0 {
      count := Ipow(2, st.bpp);
    } else {
      count := st.numColors;
    }
    var tableSize := TableSize(count);
    assert tableSize == TableBytes(st);
    var converted := U32(desc.height * desc.width * 4);
    desc.format := FormatB8G8R8A8;
    desc.pitch := U32(desc.width * 4);
    desc.attributes := 0;
    var pixels := new int[converted / 4];
    desc.data := pixels;
    var _ := s.Seek(st.tableOffset, SeekSet);
    var ok, tableBytes := s.Read(tableSize);
    if !ok {
      return 0;
    }
    var table := Table(tableBytes, 0, tableSize);
    assert table == TableOf(s.bytes, st);
    if st.compression != CompressionNone {
      return 0;
    }
    ghost var o := pixels[..];
    var writes;
    r, writes := ExtractPalettedNone(s, st.offset, table, desc.width, desc.height, st.height > 0, pixels);
    forall i | 0 <= i < pixels.Length && 0 <= LastEntry(writes, i) < |table|
      ensures pixels[..][i] == table[LastEntry(writes, i)]
    {
      ApplyLastEntry(o, writes, table, i);
    }
  }

  /** The corrected extract_paletted: it expands the image with ExtractPalettedNoneIntended. */
  method ExtractPalettedIntended(s: Stream, st: Settings, desc: Desc) returns (r: int)
    requires s.Valid() && SettingsValid(st)
    requires desc.width == st.width && desc.height == DescHeight(st.height)
    requires desc.pitch == RowPitch(st.bpp, st.width)
    modifies s, desc
    ensures s.Valid()
    ensures r == IntendedPalettedResult(s.bytes, st)
    ensures desc.View() == old(desc.View()).(pitch := U32(st.width * 4), attributes := 0, format := FormatB8G8R8A8)
    ensures r == 1 ==> desc.data != null && fresh(desc.data) && IntendedPixels(desc.data[..], s.bytes, st)
  {
    var count;
    if st.numColors == 0 {
      count := Ipow(2, st.bpp);
    } else {
      count := st.numColors;
    }
    var tableSize := TableSize(count);
    assert tableSize == TableBytes(st);
    var converted := U32(desc.height * desc.width * 4);
    assert converted / 4 == OutputLength(st);
    var sourcePitch := desc.pitch;
    desc.format := FormatB8G8R8A8;
    desc.pitch := U32(desc.width * 4);
    desc.attributes := 0;
    var pixels := new int[converted / 4];
    desc.data := pixels;
    var _ := s.Seek(st.tableOffset, SeekSet);
    var ok, tableBytes := s.Read(tableSize);
    if !ok {
      return 0;
    }
    var table := Table(tableBytes, 0, tableSize);
    assert table == TableOf(s.bytes, st);
    if st.compression != CompressionNone {
      return 0;
    }
    r := ExtractPalettedNoneIntended(s, st.offset, sourcePitch, table, desc.width, desc.height, st.height > 0, pixels);
  }

  /**
   * extract as written: width and height from the settings, the pitch
   * rounded up to four bytes, the size from the signed height, FLIPPED for
   * a positive height and the height made positive otherwise; then the raw
   * formats by bit depth, or the paletted path for 4 bits; any other depth
   * fails.
   */
  method Extract(s: Stream, st: Settings, desc: Desc) returns (r: int)
    requires s.Valid() && SettingsValid(st)
    modifies s, desc
    ensures s.Valid()
    ensures r == ExtractResult(s.bytes, st, old(s.pos))
    ensures desc.View() == ExtractFields(st, old(desc.format))
    ensures !IsPaletted(st.bpp) ==> desc.data == old(desc.data)
    ensures IsPaletted(st.bpp) ==> desc.data != null && fresh(desc.data) && desc.data.Length == OutputLength(st)
    ensures r == 1 && IsPaletted(st.bpp) ==> StoredPixels(desc.data[..], s.bytes, st)
  {
    desc.width := st.width;
    desc.height := st.height;
    desc.attributes := 0;
    var pitch := RowPitch(st.bpp, st.width);
    desc.size := ImageSize(pitch, desc.height);
    desc.pitch := pitch;
    if st.height > 0 {
      desc.attributes := AttributeFlipped;
    } else {
      desc.height := -desc.height;
    }
    if st.bpp == 32 {
      desc.format := FormatB8G8R8A8;
      r := ExtractRaw(s, desc);
    } else if st.bpp == 24 {
      desc.format := FormatB8G8R8;
      r := ExtractRaw(s, desc);
    } else if st.bpp == 16 {
      desc.format := FormatB5G6R5;
      r := ExtractRaw(s, desc);
    } else if st.bpp == 4 {
      r := ExtractPaletted(s, st, desc);
    } else {
      r := 0;
    }
  }

  /** The corrected extract: the size from the number of rows, the raw bytes kept, the corrected paletted path. */
  method ExtractIntended(s: Stream, st: Settings, desc: Desc) returns (r: int)
    requires s.Valid() && SettingsValid(st)
    modifies s, desc
    ensures s.Valid()
    ensures r == IntendedResult(s.bytes, st, old(s.pos))
    ensures desc.View() == IntendedFields(st, old(desc.format))
    ensures r == 1 && RawFormat(st.bpp) != 0 ==>
              desc.data != null && fresh(desc.data) && desc.data[..] == s.bytes[old(s.pos)..old(s.pos) + desc.size]
    ensures r == 1 && IsPaletted(st.bpp) ==>
              desc.data != null && fresh(desc.data) && IntendedPixels(desc.data[..], s.bytes, st)
  {
    desc.width := st.width;
    desc.height := st.height;
    desc.attributes := 0;
    var pitch := RowPitch(st.bpp, st.width);
    desc.pitch := pitch;
    if st.height > 0 {
      desc.attributes := AttributeFlipped;
    } else {
      desc.height := -desc.height;
    }
    desc.size := ImageSizeIntended(pitch, st.height);
    if st.bpp == 32 {
      desc.format := FormatB8G8R8A8;
      r := ExtractRawIntended(s, desc);
    } else if st.bpp == 24 {
      desc.format := FormatB8G8R8;
      r := ExtractRawIntended(s, desc);
    } else if st.bpp == 16 {
      desc.format := FormatB5G6R5;
      r := ExtractRawIntended(s, desc);
    } else if st.bpp == 4 {
      r := ExtractPalettedIntended(s, st, desc);
    } else {
      r := 0;
    }
  }

  /** decode124: the BITMAPV5HEADER is read and its fields, with the file header's offset, drive extract. */
  method Decode124(s: Stream, fileHeader: seq<Byte>, desc: Desc) returns (r: int)
    requires s.Valid() && |fileHeader| == FileHeaderSize
    modifies s, desc
    ensures s.Valid()
    ensures old(s.pos) + InfoHeader124Size > |s.bytes| ==> r == 0 && desc.View() == old(desc.View()) && desc.data == old(desc.data)
    ensures old(s.pos) + InfoHeader124Size <= |s.bytes| ==>
              var st := SettingsOf(fileHeader, s.bytes[old(s.pos)..old(s.pos) + InfoHeader124Size]);
              var pos := old(s.pos) + InfoHeader124Size;
              r == ExtractResult(s.bytes, st, pos) &&
              desc.View() == ExtractFields(st, old(desc.format)) &&
              (!IsPaletted(st.bpp) ==> desc.data == old(desc.data)) &&
              (IsPaletted(st.bpp) ==> desc.data != null && fresh(desc.data) && desc.data.Length == OutputLength(st)) &&
              (r == 1 && IsPaletted(st.bpp) ==> StoredPixels(desc.data[..], s.bytes, st))
  {
    var ok, info := s.Read(InfoHeader124Size);
    if !ok {
      return 0;
    }
    var st := SettingsOf(fileHeader, info);
    r := Extract(s, st, desc);
  }

  /**
   * sfl_bmp_read_context_decode: the 14-byte file header must read and
   * start with "BM"; the info-header size is peeked and the cursor put back;
   * 40 succeeds without touching the descriptor, 124 decodes a V5 file and
   * anything else fails.
   */
  method Decode(s: Stream, desc: Desc) returns (r: int)
    requires s.Valid()
    modifies s, desc
    ensures s.Valid()
    ensures r == DecodeResult(s.bytes, old(s.pos))
    ensures !ReachesExtract(s.bytes, old(s.pos)) ==> desc.View() == old(desc.View()) && desc.data == old(desc.data)
    ensures HeaderOk(s.bytes, old(s.pos)) && InfoSizeAt(s.bytes, old(s.pos)) == InfoHeader40Size ==>
              s.pos == old(s.pos) + FileHeaderSize
    ensures ReachesExtract(s.bytes, old(s.pos)) ==>
              var st := SettingsFor(s.bytes, old(s.pos));
              desc.View() == ExtractFields(st, old(desc.format)) &&
              (!IsPaletted(st.bpp) ==> desc.data == old(desc.data)) &&
              (IsPaletted(st.bpp) ==> desc.data != null && fresh(desc.data) && desc.data.Length == OutputLength(st)) &&
              (r == 1 && IsPaletted(st.bpp) ==> StoredPixels(desc.data[..], s.bytes, st))
  {
    ghost var start := s.pos;
    var ok, fileHeader := s.Read(FileHeaderSize);
    if !ok {
      return 0;
    }
    if fileHeader[0] != 'B' as int || fileHeader[1] != 'M' as int {
      return 0;
    }
    var peeked, infoSize := s.Read(4);
    if !peeked {
      return 0;
    }
    var back := s.Seek(-4, SeekCur);
    if back != 0 {
      return 0;
    }
    assert HeaderOk(s.bytes, start) && s.bytes[start..start + FileHeaderSize] == fileHeader;
    if U32At(infoSize, 0) == InfoHeader40Size {
      return 1;
    } else if U32At(infoSize, 0) == InfoHeader124Size {
      r := Decode124(s, fileHeader, desc);
    } else {
      return 0;
    }
  }

  // ---------------------------------------------------------------------
  // Properties of the decoder
  // ---------------------------------------------------------------------

  /**
   * The 2x2, 1-bit V5 file of misc/bmp_generate.c (gen_v5_1bpp): it has the
   * signature and a 124-byte info header, but 1 bit per pixel is no depth the
   * decoder handles, so decoding fails.
   */
  function GeneratedOneBitFile(): seq<Byte>
  {
    GeneratedFileHeader() + GeneratedInfoHeader() + GeneratedTableAndPixels()
  }

  /** "BM", file size 154, reserved 0, pixel data at 146. */
  function GeneratedFileHeader(): seq<Byte>
  {
    [66, 77, 154, 0, 0, 0, 0, 0, 0, 0, 146, 0, 0, 0]
  }

  /**
   * Size 124, width 2, height 2, 1 plane, 1 bit per pixel, no compression,
   * 8 bytes of pixels, 2 pixels per metre both ways, 2 colours, the red,
   * green and blue masks, "sRGB", and zeros for the rest.
   */
  function GeneratedInfoHeader(): seq<Byte>
  {
    [124, 0, 0, 0] + [2, 0, 0, 0] + [2, 0, 0, 0] + [1, 0] + [1, 0] +
    [0, 0, 0, 0] + [8, 0, 0, 0] + [2, 0, 0, 0] + [2, 0, 0, 0] + [2, 0, 0, 0] + [0, 0, 0, 0] +
    [0, 0, 255, 0] + [0, 255, 0, 0] + [255, 0, 0, 0] + [0, 0, 0, 0] + [66, 71, 82, 115] +
    seq(64, _ => 0)
  }

  /** Two colour-table entries and two padded rows. */
  function GeneratedTableAndPixels(): seq<Byte>
  {
    [0, 0, 255, 0, 0, 255, 0, 0, 128, 0, 0, 0, 64, 0, 0, 0]
  }

  /** A file made of a "BM" file header, a V5 info header and more bytes reaches extract with their settings. */
  lemma V5File(fileHeader: seq<Byte>, info: seq<Byte>, rest: seq<Byte>)
    requires |fileHeader| == FileHeaderSize && |info| == InfoHeader124Size
    requires HasSignature(fileHeader) && U32At(info, 0) == InfoHeader124Size
    ensures ReachesExtract(fileHeader + info + rest, 0)
    ensures SettingsFor(fileHeader + info + rest, 0) == SettingsOf(fileHeader, info)
  {
    var b := fileHeader + info + rest;
    assert b[0..FileHeaderSize] == fileHeader;
    assert b[FileHeaderSize..FileHeaderSize + InfoHeader124Size] == info;
    assert b[FileHeaderSize..FileHeaderSize + 4] == info[0..4];
  }

  lemma GeneratedSettings()
    ensures |GeneratedInfoHeader()| == InfoHeader124Size
    ensures U32At(GeneratedInfoHeader(), 0) == InfoHeader124Size
    ensures SettingsOf(GeneratedFileHeader(), GeneratedInfoHeader()).bpp == 1
    ensures SettingsOf(GeneratedFileHeader(), GeneratedInfoHeader()).offset == 146
  {
    var info := GeneratedInfoHeader();
    assert info[0] == 124 && info[1] == 0 && info[2] == 0 && info[3] == 0;
    assert info[14] == 1 && info[15] == 0;
  }

  /** A V5 file of 1 bit per pixel reaches extract, which has no path for that depth. */
  lemma OneBitFails(fileHeader: seq<Byte>, info: seq<Byte>, rest: seq<Byte>)
    requires |fileHeader| == FileHeaderSize && |info| == InfoHeader124Size
    requires HasSignature(fileHeader) && U32At(info, 0) == InfoHeader124Size
    requires SettingsOf(fileHeader, info).bpp == 1
    ensures DecodeResult(fileHeader + info + rest, 0) == 0
  {
    V5File(fileHeader, info, rest);
  }

  lemma GeneratedOneBitFileFails()
    ensures ReachesExtract(GeneratedOneBitFile(), 0)
    ensures SettingsFor(GeneratedOneBitFile(), 0).bpp == 1
    ensures SettingsFor(GeneratedOneBitFile(), 0).offset == 146
    ensures DecodeResult(GeneratedOneBitFile(), 0) == 0
  {
    GeneratedSettings();
    V5File(GeneratedFileHeader(), GeneratedInfoHeader(), GeneratedTableAndPixels());
    OneBitFails(GeneratedFileHeader(), GeneratedInfoHeader(), GeneratedTableAndPixels());
  }

  /**
   * A top-down V5 file of one 32-bit pixel: "BM", file size 142, pixel data
   * at 138; width 1, height -1, 1 plane, 32 bits per pixel, no compression;
   * then the four bytes of the pixel.
   */
  function TopDownPixelFile(): seq<Byte>
  {
    TopDownFileHeader() + TopDownInfoHeader() + [1, 2, 3, 4]
  }

  function TopDownFileHeader(): seq<Byte>
  {
    [66, 77, 142, 0, 0, 0, 0, 0, 0, 0, 138, 0, 0, 0]
  }

  function TopDownInfoHeader(): seq<Byte>
  {
    [124, 0, 0, 0, 1, 0, 0, 0, 255, 255, 255, 255, 1, 0, 32, 0] + seq(108, _ => 0)
  }

  /**
   * The size taken from the signed height wraps to 2^32 - 4, so extract_raw
   * as written asks for more bytes than the file has and decoding fails,
   * where the corrected size of 4 bytes decodes.
   */
  lemma TopDownSettings()
    ensures U32At(TopDownInfoHeader(), 0) == InfoHeader124Size
    ensures SettingsOf(TopDownFileHeader(), TopDownInfoHeader()) == Settings(0, 0, 32, 1, -1, 138, 138)
  {
    var info := TopDownInfoHeader();
    assert info[0] == 124 && info[1] == 0 && info[2] == 0 && info[3] == 0;
    assert info[4] == 1 && info[5] == 0 && info[6] == 0 && info[7] == 0;
    assert info[8] == 255 && info[9] == 255 && info[10] == 255 && info[11] == 255;
    assert info[14] == 32 && info[15] == 0;
    assert info[16] == 0 && info[17] == 0 && info[18] == 0 && info[19] == 0;
    assert info[32] == 0 && info[33] == 0 && info[34] == 0 && info[35] == 0;
  }

  /**
   * Any V5 file of one top-down 32-bit pixel stored right after the headers:
   * the wrapped size makes extract_raw fail, the corrected size reads the
   * four bytes.
   */
  lemma TopDownPixelFails(fileHeader: seq<Byte>, info: seq<Byte>, pixel: seq<Byte>)
    requires |fileHeader| == FileHeaderSize && |info| == InfoHeader124Size && |pixel| == 4
    requires HasSignature(fileHeader) && U32At(info, 0) == InfoHeader124Size
    requires SettingsOf(fileHeader, info) == Settings(0, 0, 32, 1, -1, 138, 138)
    ensures DecodeResult(fileHeader + info + pixel, 0) == 0
    ensures IntendedResult(fileHeader + info + pixel, SettingsOf(fileHeader, info), 138) == 1
  {
    V5File(fileHeader, info, pixel);
    TopDownSizeWraps();
  }

  lemma TopDownPixelFileFails()
    ensures ReachesExtract(TopDownPixelFile(), 0)
    ensures SettingsFor(TopDownPixelFile(), 0).height == -1
    ensures ExtractFields(SettingsFor(TopDownPixelFile(), 0), 0).size == TwoTo32 - 4
    ensures DecodeResult(TopDownPixelFile(), 0) == 0
    ensures IntendedResult(TopDownPixelFile(), SettingsFor(TopDownPixelFile(), 0), 138) == 1
  {
    TopDownSettings();
    V5File(TopDownFileHeader(), TopDownInfoHeader(), [1, 2, 3, 4]);
    TopDownPixelFails(TopDownFileHeader(), TopDownInfoHeader(), [1, 2, 3, 4]);
    TopDownSizeWraps();
  }

  /**
   * Past the colour table, the as-written paletted path succeeds exactly
   * when width*height bytes follow the pixel offset: one byte per pixel.
   */
  lemma PalettedNeedsBytes(b: seq<Byte>, st: Settings)
    requires SettingsValid(st) && TableRead(b, st) && st.compression == CompressionNone
    requires st.width > 0 && st.height != 0
    ensures PalettedResult(b, st) == 1 <==> st.offset + st.width * DescHeight(st.height) <= |b|
  {
    PalettedNoneOk(b, st.offset, st.width, DescHeight(st.height), BottomUp(st));
  }

  /**
   * A decoded 4-bit image without num_colors, when the buffer size does not
   * wrap: pixel (x, y) holds the colour of the entry AsWrittenPixel names.
   */
  lemma StoredPixelAt(data: seq<int>, b: seq<Byte>, st: Settings, w: int, h: int, y: int, x: int)
    requires SettingsValid(st) && st.bpp == 4 && st.numColors == 0 && TableRead(b, st)
    requires w == st.width && h == DescHeight(st.height)
    requires StoredPixels(data, b, st) && |data| == OutputLength(st)
    requires w > 0 && 4 * (w * h) < TwoTo32 && st.offset + w * h <= |b|
    requires 0 <= y < h && 0 <= x < w
    ensures 0 <= w * y && w * y + x < |data| && |TableOf(b, st)| == 16 &&
            data[w * y + x] == TableOf(b, st)[AsWrittenPixel(b, st.offset, w, h, BottomUp(st), y, x)]
  {
    FourBitPalette();
    assert TableBytes(st) == 64;
    assert h * w * 4 == 4 * (w * h);
    assert |data| == w * h;
    RowFits(w, h, y);
    PalettedNonePixels(b, st.offset, w, h, BottomUp(st), y, x);
  }

  /**
   * Without num_colors a 4-bit image has the full 16-entry table, so every
   * nibble names an entry and decoding needs only the row bytes in the file.
   */
  lemma FullPaletteNeedsOnlyBytes(b: seq<Byte>, st: Settings)
    requires SettingsValid(st) && st.bpp == 4 && st.numColors == 0
    requires st.tableOffset + TableBytes(st) <= |b|
    ensures |TableOf(b, st)| == 16
    ensures Decodable(b, st.offset, RowPitch(4, st.width), 16, st.width, DescHeight(st.height)) <==>
            forall c, x :: 0 <= c < DescHeight(st.height) && 0 <= x < st.width ==>
              PixelInFile(b, RowStart(st.offset, RowPitch(4, st.width), c), x)
  {
    FourBitPalette();
    assert TableBytes(st) == 64;
    var w, h, pitch := st.width, DescHeight(st.height), RowPitch(4, st.width);
    if forall c, x :: 0 <= c < h && 0 <= x < w ==> PixelInFile(b, RowStart(st.offset, pitch, c), x) {
      forall c, x | 0 <= c < h && 0 <= x < w
        ensures PixelOk(b, st.offset, pitch, 16, c, x)
      {
        assert PixelInFile(b, RowStart(st.offset, pitch, c), x);
      }
    } else {
      var c, x :| 0 <= c < h && 0 <= x < w && !PixelInFile(b, RowStart(st.offset, pitch, c), x);
      assert !PixelOk(b, st.offset, pitch, 16, c, x);
    }
  }

  /** A top-down 4-bit image keeps its rows in order; a bottom-up one is reversed. */
  lemma RowOrder(st: Settings, y: int)
    requires 0 <= y < DescHeight(st.height)
    ensures BottomUp(st) ==> FileRow(BottomUp(st), DescHeight(st.height), y) == st.height - 1 - y
    ensures !BottomUp(st) ==> FileRow(BottomUp(st), DescHeight(st.height), y) == y
    ensures 0 <= FileRow(BottomUp(st), DescHeight(st.height), y) < DescHeight(st.height)
  {
  }
}
