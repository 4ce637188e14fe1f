/**
 * extract_paletted_none of sfl_bmp.h: expanding the 4-bit codes of an
 * uncompressed paletted image into 32-bit colours.
 *
 * Two definitions live here. `Rows` is the loop as the source writes it,
 * kept as the list of stores it performs (the stores can leave the output
 * buffer); `ExtractPalettedNone` runs that loop on the output array and
 * applies the stores that land inside it, and the decoder in BmpDecode
 * uses it. `ExtractPalettedNoneIntended` is the decoding the source
 * evidently intends, in place on the output array.
 */
module BmpPaletted {
  import opened BmpStream
  import opened BmpLayout

  // ---------------------------------------------------------------------
  // The loop as written
  // ---------------------------------------------------------------------

  /** out_pixels[index] = color_table[entry]. */
  datatype Write = Write(index: int, entry: int)

  /** The result the loop returns and the stores it made before returning. */
  datatype Trace = Trace(ok: bool, writes: seq<Write>)

  function Prepend(ws: seq<Write>, t: Trace): (r: Trace)
    ensures r.ok == t.ok && r.writes == ws + t.writes
  {
    Trace(t.ok, ws + t.writes)
  }

  /** The output row of loop iteration `c`. */
  function RowY(flipped: bool, h: int, c: int): (y: int)
    ensures flipped ==> y == h - 1 - c
    ensures !flipped ==> y == c
  {
    if flipped then h - 1 - c else c
  }

  /**
   * The loop from row `c`, column `x`, with the cursor at `pos`: every byte
   * read stores its high nibble at `width*y + x` and its low nibble one
   * further, then `x` moves on by one; a row ends when `x` reaches the width.
   */
  function Rows(b: seq<Byte>, w: int, h: int, flipped: bool, c: int, x: int, pos: int): Trace
    requires pos >= 0
    decreases if pos <= |b| then |b| - pos else 0, h - c
  {
    if c >= h then Trace(true, [])
    else if x == w then Rows(b, w, h, flipped, c + 1, 0, pos)
    else if pos >= |b| then Trace(false, [])
    else
      var code := b[pos];
      var index := U32(w * RowY(flipped, h, c) + x);
      if x < w then
        Prepend([Write(index, code / 16), Write(index + 1, code % 16)],
                Rows(b, w, h, flipped, c, x + 1, pos + 1))
      else
        Prepend([Write(index, code / 16)], Rows(b, w, h, flipped, c, x, pos + 1))
  }

  /** extract_paletted_none as written: seek to the pixel data, then the rows. */
  function PalettedNoneTrace(b: seq<Byte>, offset: nat, w: int, h: int, flipped: bool): Trace
  {
    Rows(b, w, h, flipped, 0, 0, offset)
  }

  /** The stores of the row whose first pixel is at `base`, from column `x`, reading from `pos`. */
  function RowWrites(b: seq<Byte>, w: int, base: int, x: int, pos: int): (ws: seq<Write>)
    requires 0 <= x <= w && 0 <= pos && pos + (w - x) <= |b|
    ensures |ws| == 2 * (w - x)
    decreases w - x
  {
    if x == w then []
    else
      var index := U32(base + x);
      [Write(index, b[pos] / 16), Write(index + 1, b[pos] % 16)] + RowWrites(b, w, base, x + 1, pos + 1)
  }

  /** Each row consumes exactly `width` bytes, whatever the pitch. */
  lemma {:induction false} RowConsumesWidth(b: seq<Byte>, w: int, h: int, flipped: bool, c: int, x: int, pos: int)
    requires 0 <= c < h && 0 <= x <= w && 0 <= pos && pos + (w - x) <= |b|
    ensures Rows(b, w, h, flipped, c, x, pos)
         == Prepend(RowWrites(b, w, w * RowY(flipped, h, c), x, pos), Rows(b, w, h, flipped, c + 1, 0, pos + (w - x)))
    decreases w - x
  {
    if x < w {
      RowConsumesWidth(b, w, h, flipped, c, x + 1, pos + 1);
    }
  }

  /** The last entry stored at `index`, or -1. */
  function LastEntry(ws: seq<Write>, index: int): (e: int)
  {
    if |ws| == 0 then -1
    else if ws[|ws| - 1].index == index then ws[|ws| - 1].entry
    else LastEntry(ws[..|ws| - 1], index)
  }

  /** A value LastEntry reports is one the stores put at that index. */
  lemma {:induction false} LastEntryStored(ws: seq<Write>, index: int)
    ensures LastEntry(ws, index) == -1 || Write(index, LastEntry(ws, index)) in ws
    decreases |ws|
  {
    if |ws| > 0 && ws[|ws| - 1].index != index {
      LastEntryStored(ws[..|ws| - 1], index);
      assert forall v :: v in ws[..|ws| - 1] ==> v in ws;
    }
  }

  lemma {:induction false} LastEntryAppend(ws: seq<Write>, vs: seq<Write>, index: int)
    requires forall k :: 0 <= k < |vs| ==> vs[k].index != index
    ensures LastEntry(ws + vs, index) == LastEntry(ws, index)
    decreases |vs|
  {
    if |vs| > 0 {
      assert (ws + vs)[..|ws + vs| - 1] == ws + vs[..|vs| - 1];
      LastEntryAppend(ws, vs[..|vs| - 1], index);
    } else {
      assert ws + vs == ws;
    }
  }

  /**
   * Within a row, pixel `x` ends as the high nibble of byte `x` (not of byte
   * x/2): the low nibble stored there by byte x-1 is overwritten.
   */
  lemma {:induction false} RowPixelIsHighNibble(b: seq<Byte>, w: int, base: int, x0: int, pos: int, x: int)
    requires 0 <= x0 <= x < w && 0 <= pos && pos + (w - x0) <= |b|
    requires 0 <= base && base + w < TwoTo32
    ensures LastEntry(RowWrites(b, w, base, x0, pos), base + x) == b[pos + (x - x0)] / 16
    decreases w - x0
  {
    if x0 == x {
      RowFirstPixel(b, w, base, x0, pos);
    } else {
      var head := [Write(base + x0, b[pos] / 16), Write(base + x0 + 1, b[pos] % 16)];
      var tail := RowWrites(b, w, base, x0 + 1, pos + 1);
      RowWritesHead(b, w, base, x0, pos);
      RowPixelIsHighNibble(b, w, base, x0 + 1, pos + 1, x);
      LastEntryPrefix(head, tail, base + x);
    }
  }

  /** The first pixel of the stores from column `x` is the high nibble of the first byte read. */
  lemma RowFirstPixel(b: seq<Byte>, w: int, base: int, x: int, pos: int)
    requires 0 <= x < w && 0 <= pos && pos + (w - x) <= |b|
    requires 0 <= base && base + w < TwoTo32
    ensures LastEntry(RowWrites(b, w, base, x, pos), base + x) == b[pos] / 16
  {
    var head := [Write(base + x, b[pos] / 16), Write(base + x + 1, b[pos] % 16)];
    var tail := RowWrites(b, w, base, x + 1, pos + 1);
    RowWritesHead(b, w, base, x, pos);
    RowIndicesFrom(b, w, base, x + 1, pos + 1);
    LastEntryOfHead(head, tail, base + x, b[pos] / 16);
  }

  /** A store at `index` followed only by stores elsewhere is the last one at `index`. */
  lemma LastEntryOfHead(head: seq<Write>, tail: seq<Write>, index: int, e: int)
    requires |head| == 2 && head[0] == Write(index, e) && head[1].index != index
    requires forall k :: 0 <= k < |tail| ==> tail[k].index != index
    ensures LastEntry(head + tail, index) == e
  {
    LastEntryAppend(head, tail, index);
    assert head[..1] + [head[1]] == head;
    assert LastEntry(head, index) == LastEntry(head[..1], index);
  }

  /** The two stores of the byte at `pos`, ahead of the rest of the row. */
  lemma RowWritesHead(b: seq<Byte>, w: int, base: int, x: int, pos: int)
    requires 0 <= x < w && 0 <= pos && pos + (w - x) <= |b|
    requires 0 <= base && base + w < TwoTo32
    ensures RowWrites(b, w, base, x, pos)
         == [Write(base + x, b[pos] / 16), Write(base + x + 1, b[pos] % 16)] + RowWrites(b, w, base, x + 1, pos + 1)
  {
  }

  /** The stores of a row from column `x` land between `base + x` and `base + width`. */
  lemma {:induction false} RowIndicesFrom(b: seq<Byte>, w: int, base: int, x: int, pos: int)
    requires 0 <= x <= w && 0 <= pos && pos + (w - x) <= |b|
    requires 0 <= base && base + w < TwoTo32
    ensures IndicesWithin(RowWrites(b, w, base, x, pos), base + x, base + w)
    decreases w - x
  {
    if x < w {
      RowIndicesFrom(b, w, base, x + 1, pos + 1);
    }
  }

  lemma LastEntryPrefix(ws: seq<Write>, vs: seq<Write>, index: int)
    requires LastEntry(vs, index) != -1
    ensures LastEntry(ws + vs, index) == LastEntry(vs, index)
    decreases |vs|
  {
    assert (ws + vs)[..|ws + vs| - 1] == ws + vs[..|vs| - 1];
  }

  lemma {:induction false} RowLastWrite(b: seq<Byte>, w: int, base: int, x: int, pos: int)
    requires 0 <= x < w && 0 <= pos && pos + (w - x) <= |b|
    requires 0 <= base && base + w < TwoTo32
    ensures Write(base + w, b[pos + (w - 1 - x)] % 16) in RowWrites(b, w, base, x, pos)
    decreases w - x
  {
    RowWritesHead(b, w, base, x, pos);
    var head := [Write(base + x, b[pos] / 16), Write(base + x + 1, b[pos] % 16)];
    var tail := RowWrites(b, w, base, x + 1, pos + 1);
    var last := Write(base + w, b[pos + (w - 1 - x)] % 16);
    if x < w - 1 {
      RowLastWrite(b, w, base, x + 1, pos + 1);
      assert last in tail;
      assert (head + tail)[2..] == tail;
    } else {
      assert last == head[1];
    }
    assert last in head + tail;
  }

  lemma RowBytesFit(w: int, h: int, c: int)
    requires w > 0 && 0 <= c < h
    ensures 0 <= c * w && c * w + w <= h * w
  {
    MulMono(w, 0, c);
    MulMono(w, c + 1, h);
  }

  /** A store made by row `c0` is among the stores of the loop started at row `c <= c0`. */
  lemma {:induction false} RowsContain(b: seq<Byte>, w: int, h: int, flipped: bool, offset: int, c: int, c0: int, wr: Write)
    requires w > 0 && 0 <= c <= c0 < h && 0 <= offset && offset + h * w <= |b|
    requires offset + c0 * w + w <= |b| && wr in RowWrites(b, w, w * RowY(flipped, h, c0), 0, offset + c0 * w)
    ensures wr in Rows(b, w, h, flipped, c, 0, offset + c * w).writes
    decreases c0 - c
  {
    RowBytesFit(w, h, c);
    RowConsumesWidth(b, w, h, flipped, c, 0, offset + c * w);
    assert offset + c * w + w == offset + (c + 1) * w;
    if c < c0 {
      RowsContain(b, w, h, flipped, offset, c + 1, c0, wr);
    }
  }

  /**
   * The low nibble of the last byte of output row height-1 is stored at
   * width*height, one past the width*height pixels of the output.
   */
  lemma WritesPastOutput(b: seq<Byte>, w: int, h: int, flipped: bool, offset: nat)
    requires w > 0 && h > 0 && offset + h * w <= |b| && h * w < TwoTo32
    ensures exists e :: Write(w * h, e) in PalettedNoneTrace(b, offset, w, h, flipped).writes
  {
    var c0 := if flipped then 0 else h - 1;
    RowBytesFit(w, h, c0);
    assert w * (h - 1) + w == w * h;
    RowLastWrite(b, w, w * (h - 1), 0, offset + c0 * w);
    var e := b[offset + c0 * w + (w - 1)] % 16;
    RowsContain(b, w, h, flipped, offset, 0, c0, Write(w * h, e));
  }

  /** One pixel, one byte 0x12: the low nibble 2 is stored at index 1 of a one-pixel output. */
  lemma OnePixelOverrun()
    ensures PalettedNoneTrace([0x12], 0, 1, 1, true) == Trace(true, [Write(0, 1), Write(1, 2)])
  {
  }

  /**
   * A row of two pixels consumes two bytes, and pixel 1 ends as the high
   * nibble 0xC of the second byte instead of the low nibble 0xB of the first.
   */
  lemma OneNibblePerByte()
    ensures var t := PalettedNoneTrace([0xAB, 0xCD], 0, 2, 1, true);
            t.ok && LastEntry(t.writes, 1) == 0xC
  {
    assert PalettedNoneTrace([0xAB, 0xCD], 0, 2, 1, true)
        == Trace(true, [Write(0, 0xA), Write(1, 0xB), Write(1, 0xC), Write(2, 0xD)]);
  }

  /**
   * Bottom-up rows are visited from the top: the row y = 0, visited last,
   * overwrites pixel (0, 1) with the low nibble 4 of its own byte.
   */
  lemma FlippedOrderOverwrites()
    ensures var t := PalettedNoneTrace([0x12, 0x34], 0, 1, 2, true);
            t.ok && LastEntry(t.writes, 1) == 4
  {
    assert PalettedNoneTrace([0x12, 0x34], 0, 1, 2, true)
        == Trace(true, [Write(1, 1), Write(2, 2), Write(0, 3), Write(1, 4)]);
  }

  /** With num_colors = 1 the byte 0x10 reads entry 1 of a one-entry table. */
  lemma NibbleOverrunsTable()
    ensures var t := PalettedNoneTrace([0x10], 0, 1, 1, true);
            t.ok && Write(0, 1) in t.writes && PaletteCount(1, 4) == 1
  {
    assert PalettedNoneTrace([0x10], 0, 1, 1, true) == Trace(true, [Write(0, 1), Write(1, 0)]);
  }

  /** The output after the stores `ws`, applied in order; a store outside the buffer or the table is not applied. */
  function Apply(o: seq<int>, ws: seq<Write>, table: seq<int>): (r: seq<int>)
    ensures |r| == |o|
    decreases |ws|
  {
    if |ws| == 0 then o
    else
      var v := Apply(o, ws[..|ws| - 1], table);
      var wr := ws[|ws| - 1];
      if 0 <= wr.index < |v| && 0 <= wr.entry < |table| then v[wr.index := table[wr.entry]] else v
  }

  lemma ApplySnoc(o: seq<int>, ws: seq<Write>, wr: Write, table: seq<int>)
    ensures Apply(o, ws + [wr], table)
         == var v := Apply(o, ws, table);
            if 0 <= wr.index < |v| && 0 <= wr.entry < |table| then v[wr.index := table[wr.entry]] else v
  {
    assert (ws + [wr])[..|ws + [wr]| - 1] == ws;
  }

  /**
   * A cell whose last store names an entry of the table holds that entry's
   * colour; a cell no store reaches keeps its value.
   */
  lemma {:induction false} ApplyLastEntry(o: seq<int>, ws: seq<Write>, table: seq<int>, i: int)
    requires 0 <= i < |o|
    ensures 0 <= LastEntry(ws, i) < |table| ==> Apply(o, ws, table)[i] == table[LastEntry(ws, i)]
    ensures (forall k :: 0 <= k < |ws| ==> ws[k].index != i) ==> Apply(o, ws, table)[i] == o[i]
    decreases |ws|
  {
    if |ws| > 0 {
      ApplyLastEntry(o, ws[..|ws| - 1], table, i);
      if ws[|ws| - 1].index != i {
        assert forall k :: 0 <= k < |ws| - 1 ==> ws[..|ws| - 1][k] == ws[k];
      }
    }
  }

  /** One byte of the loop: its stores, ahead of the rest of the loop. */
  lemma RowsStep(b: seq<Byte>, w: int, h: int, flipped: bool, c: int, x: int, pos: int)
    requires 0 <= c < h && x != w && 0 <= pos < |b|
    ensures var index := U32(w * RowY(flipped, h, c) + x);
            Rows(b, w, h, flipped, c, x, pos) ==
              if x < w then Prepend([Write(index, b[pos] / 16), Write(index + 1, b[pos] % 16)],
                                    Rows(b, w, h, flipped, c, x + 1, pos + 1))
              else Prepend([Write(index, b[pos] / 16)], Rows(b, w, h, flipped, c, x, pos + 1))
  {
  }

  lemma PrependOne(ws: seq<Write>, v: Write, t: Trace)
    ensures Prepend(ws, Prepend([v], t)) == Prepend(ws + [v], t)
  {
    assert ws + ([v] + t.writes) == (ws + [v]) + t.writes;
  }

  lemma PrependTwo(ws: seq<Write>, v: Write, u: Write, t: Trace)
    ensures Prepend(ws, Prepend([v, u], t)) == Prepend(ws + [v] + [u], t)
  {
    assert ws + ([v, u] + t.writes) == (ws + [v] + [u]) + t.writes;
  }

  /** Reading the byte at `pos` moves the loop on by one byte, its stores joining those already made. */
  lemma RowsAdvance(b: seq<Byte>, w: int, h: int, flipped: bool, c: int, x: int, pos: int, y: int,
                    ws: seq<Write>, total: Trace)
    requires 0 <= c < h && x != w && 0 <= pos < |b| && y == RowY(flipped, h, c)
    requires Prepend(ws, Rows(b, w, h, flipped, c, x, pos)) == total
    ensures var index := U32(w * y + x);
            x < w ==> Prepend(ws + [Write(index, b[pos] / 16)] + [Write(index + 1, b[pos] % 16)],
                              Rows(b, w, h, flipped, c, x + 1, pos + 1)) == total
    ensures var index := U32(w * y + x);
            !(x < w) ==> Prepend(ws + [Write(index, b[pos] / 16)], Rows(b, w, h, flipped, c, x, pos + 1)) == total
  {
    RowsStep(b, w, h, flipped, c, x, pos);
    var index := U32(w * y + x);
    if x < w {
      PrependTwo(ws, Write(index, b[pos] / 16), Write(index + 1, b[pos] % 16), Rows(b, w, h, flipped, c, x + 1, pos + 1));
    } else {
      PrependOne(ws, Write(index, b[pos] / 16), Rows(b, w, h, flipped, c, x, pos + 1));
    }
  }

  /** out_pixels[index] = color_table[entry], made when both are in bounds. */
  method Store(out: array<int>, table: seq<int>, wr: Write, ghost o: seq<int>, ghost ws: seq<Write>)
    requires out[..] == Apply(o, ws, table)
    modifies out
    ensures out[..] == Apply(o, ws + [wr], table)
  {
    ApplySnoc(o, ws, wr, table);
    if 0 <= wr.index < out.Length && 0 <= wr.entry < |table| {
      out[wr.index] := table[wr.entry];
    }
  }

  /**
   * One byte of a row of extract_paletted_none as written: read it, store
   * colour[high nibble] at width*y + x and, while x is below the width,
   * colour[low nibble] one further and move x on.
   */
  method ByteAsWritten(s: Stream, table: seq<int>, w: int, h: int, flipped: bool, c: int, y: int, x: int,
                       out: array<int>, ghost o: seq<int>, done: seq<Write>, ghost total: Trace)
    returns (ok: bool, x': int, writes: seq<Write>)
    requires s.Valid() && 0 <= c < h && x != w && y == RowY(flipped, h, c)
    requires Prepend(done, Rows(s.bytes, w, h, flipped, c, x, s.pos)) == total
    requires out[..] == Apply(o, done, table)
    modifies s, out
    ensures s.Valid() && out[..] == Apply(o, writes, table)
    ensures ok ==> s.pos == old(s.pos) + 1 <= |s.bytes| && Prepend(writes, Rows(s.bytes, w, h, flipped, c, x', s.pos)) == total
    ensures !ok ==> s.pos == old(s.pos) && total == Trace(false, writes)
  {
    ghost var pos := s.pos;
    var read, code := s.Read(1);
    if !read {
      assert Rows(s.bytes, w, h, flipped, c, x, pos) == Trace(false, []) && done + [] == done;
      return false, x, done;
    }
    var byte := code[0];
    assert byte == s.bytes[pos];
    RowsAdvance(s.bytes, w, h, flipped, c, x, pos, y, done, total);
    var index := U32(w * y + x);
    var left := Write(index, byte / 16);
    Store(out, table, left, o, done);
    if x < w {
      var right := Write(index + 1, byte % 16);
      Store(out, table, right, o, done + [left]);
      return true, x + 1, done + [left] + [right];
    }
    return true, x, done + [left];
  }

  /**
   * One row of extract_paletted_none as written: from x = 0 read one byte
   * per column until x reaches the width; fail when a byte is missing.
   * `writes` extends the stores `done` made before the row.
   */
  method RowAsWritten(s: Stream, table: seq<int>, w: int, h: int, flipped: bool, c: int, out: array<int>,
                      ghost o: seq<int>, done: seq<Write>) returns (ok: bool, writes: seq<Write>)
    requires s.Valid() && 0 <= c < h && out[..] == Apply(o, done, table)
    modifies s, out
    ensures s.Valid() && out[..] == Apply(o, writes, table)
    ensures Prepend(done, Rows(s.bytes, w, h, flipped, c, 0, old(s.pos)))
         == if ok then Prepend(writes, Rows(s.bytes, w, h, flipped, c + 1, 0, s.pos)) else Trace(false, writes)
  {
    ghost var total := Prepend(done, Rows(s.bytes, w, h, flipped, c, 0, s.pos));
    writes := done;
    var y := if flipped then h - 1 - c else c;
    var x := 0;
    while x != w
      invariant s.Valid() && Prepend(writes, Rows(s.bytes, w, h, flipped, c, x, s.pos)) == total
      invariant out[..] == Apply(o, writes, table)
      decreases if s.pos <= |s.bytes| then |s.bytes| - s.pos else 0
    {
      var read;
      read, x, writes := ByteAsWritten(s, table, w, h, flipped, c, y, x, out, o, writes, total);
      if !read {
        return false, writes;
      }
    }
    return true, writes;
  }

  /**
   * extract_paletted_none as written: seek to the pixel data, then the rows
   * c = 0 .. height-1, output row height-1-c for a bottom-up image. The
   * stores are returned in order; those inside `out` and the table are made.
   */
  method ExtractPalettedNone(s: Stream, offset: int, table: seq<int>, w: int, h: int, flipped: bool,
                             out: array<int>) returns (r: int, writes: seq<Write>)
    requires s.Valid() && 0 <= offset
    modifies s, out
    ensures s.Valid()
    ensures r == 0 || r == 1
    ensures r == 1 <==> PalettedNoneTrace(s.bytes, offset, w, h, flipped).ok
    ensures writes == PalettedNoneTrace(s.bytes, offset, w, h, flipped).writes
    ensures out[..] == Apply(old(out[..]), writes, table)
  {
    var _ := s.Seek(offset, SeekSet);
    ghost var b := s.bytes;
    ghost var o := out[..];
    ghost var total := PalettedNoneTrace(b, offset, w, h, flipped);
    writes := [];
    var c := 0;
    while c < h
      invariant s.Valid() && Prepend(writes, Rows(b, w, h, flipped, c, 0, s.pos)) == total
      invariant out[..] == Apply(o, writes, table)
      decreases h - c
    {
      var ok;
      ok, writes := RowAsWritten(s, table, w, h, flipped, c, out, o, writes);
      if !ok {
        return 0, writes;
      }
      c := c + 1;
    }
    return 1, writes;
  }

  // ---------------------------------------------------------------------
  // The whole image as written
  // ---------------------------------------------------------------------

  /** A row with a byte missing makes the loop fail. */
  lemma {:induction false} RowFails(b: seq<Byte>, w: int, h: int, flipped: bool, c: int, x: int, pos: int)
    requires 0 <= c < h && 0 <= x <= w && 0 <= pos <= |b| && |b| < pos + (w - x)
    ensures !Rows(b, w, h, flipped, c, x, pos).ok
    decreases w - x
  {
    if pos < |b| {
      RowFails(b, w, h, flipped, c, x + 1, pos + 1);
    }
  }

  lemma MulSucc(w: int, a: int)
    ensures w * a + w == w * (a + 1)
  {
  }

  lemma MulSplit(w: int, a: int, h: int)
    ensures w * a + w * (h - a) == w * h
  {
  }

  /** Row `c` holds the pixels w*c .. w*c + w - 1 of the w*h. */
  lemma RowFits(w: int, h: int, c: int)
    requires w > 0 && 0 <= c < h
    ensures 0 <= w * c && w * c + w <= w * h
  {
    MulMono(w, 0, c);
    MulMono(w, c + 1, h);
  }

  /**
   * From row `c` on, read from `pos` with `left` = w*(h-c) bytes still to
   * come, the loop succeeds exactly when those bytes are in the file.
   */
  lemma {:induction false} RowsOk(b: seq<Byte>, w: int, h: int, flipped: bool, c: int, pos: int, left: int)
    requires w > 0 && 0 <= c <= h && 0 <= pos <= |b| && left == w * (h - c)
    ensures Rows(b, w, h, flipped, c, 0, pos).ok <==> pos + left <= |b|
    decreases h - c
  {
    if c < h {
      MulMono(w, 0, h - (c + 1));
      MulSplit(w, 1, h - c);
      if pos + w <= |b| {
        RowConsumesWidth(b, w, h, flipped, c, 0, pos);
        RowsOk(b, w, h, flipped, c + 1, pos + w, left - w);
      } else {
        RowFails(b, w, h, flipped, c, 0, pos);
      }
    }
  }

  /**
   * For a positive width and height the loop as written succeeds exactly
   * when width*height bytes follow the offset: one byte per pixel, whatever
   * the pitch.
   */
  lemma PalettedNoneOk(b: seq<Byte>, offset: nat, w: int, h: int, flipped: bool)
    requires w > 0 && h > 0
    ensures PalettedNoneTrace(b, offset, w, h, flipped).ok <==> offset + w * h <= |b|
  {
    MulMono(w, 1, h);
    if offset <= |b| {
      RowsOk(b, w, h, flipped, 0, offset, w * h);
    }
  }

  /** Every store of `ws` lands between `lo` and `hi`. */
  predicate IndicesWithin(ws: seq<Write>, lo: int, hi: int)
  {
    forall k :: 0 <= k < |ws| ==> lo <= ws[k].index <= hi
  }

  lemma IndicesConcat(ws: seq<Write>, vs: seq<Write>, lo: int, hi: int)
    requires IndicesWithin(ws, lo, hi) && IndicesWithin(vs, lo, hi)
    ensures IndicesWithin(ws + vs, lo, hi)
  {
  }

  /**
   * Top-down, the stores from row `c` on, read from `pos`, lie between
   * `first` = w*c, where row c starts, and `first + left`, the end of the
   * output (`left` = w*(h-c) pixels remain).
   */
  lemma {:induction false} TopDownIndices(b: seq<Byte>, w: int, h: int, c: int, pos: int, first: int, left: int)
    requires w > 0 && 0 <= c <= h && 0 <= pos && 0 <= first
    requires first == w * c && left == w * (h - c)
    requires pos + left <= |b| && first + left < TwoTo32
    ensures IndicesWithin(Rows(b, w, h, false, c, 0, pos).writes, first, first + left)
    decreases h - c
  {
    if c < h {
      MulMono(w, 0, h - (c + 1));
      MulSplit(w, 1, h - c);
      MulSucc(w, c);
      RowConsumesWidth(b, w, h, false, c, 0, pos);
      RowIndicesFrom(b, w, first, 0, pos);
      TopDownIndices(b, w, h, c + 1, pos + w, first + w, left - w);
      IndicesConcat(RowWrites(b, w, first, 0, pos),
                    Rows(b, w, h, false, c + 1, 0, pos + w).writes, first, first + left);
    }
  }

  /**
   * Bottom-up, the stores from row `c` on, read from `pos`, lie at or
   * before `left` = w*(h-c), the end of output row h-1-c.
   */
  lemma {:induction false} BottomUpIndices(b: seq<Byte>, w: int, h: int, c: int, pos: int, left: int)
    requires w > 0 && 0 <= c <= h && 0 <= pos
    requires left == w * (h - c)
    requires pos + left <= |b| && left < TwoTo32
    ensures IndicesWithin(Rows(b, w, h, true, c, 0, pos).writes, 0, left)
    decreases h - c
  {
    if c < h {
      var y := h - 1 - c;
      MulSucc(w, y);
      assert h - c == y + 1;
      RowFits(w, h, y);
      RowConsumesWidth(b, w, h, true, c, 0, pos);
      assert RowY(true, h, c) == y;
      RowIndicesFrom(b, w, w * y, 0, pos);
      assert h - (c + 1) == y;
      BottomUpIndices(b, w, h, c + 1, pos + w, w * y);
      IndicesConcat(RowWrites(b, w, w * y, 0, pos),
                    Rows(b, w, h, true, c + 1, 0, pos + w).writes, 0, left);
    }
  }

  /** The last store of a row is the low nibble of its last byte, at `base + width`. */
  lemma {:induction false} RowLastEntry(b: seq<Byte>, w: int, base: int, x: int, pos: int)
    requires 0 <= x < w && 0 <= pos && pos + (w - x) <= |b|
    requires 0 <= base && base + w < TwoTo32
    ensures LastEntry(RowWrites(b, w, base, x, pos), base + w) == b[pos + (w - 1 - x)] % 16
    decreases w - x
  {
    RowWritesHead(b, w, base, x, pos);
    var head := [Write(base + x, b[pos] / 16), Write(base + x + 1, b[pos] % 16)];
    var tail := RowWrites(b, w, base, x + 1, pos + 1);
    if x < w - 1 {
      RowLastEntry(b, w, base, x + 1, pos + 1);
      LastEntryPrefix(head, tail, base + w);
    } else {
      assert head + tail == head;
    }
  }

  /**
   * The entry pixel (x, y) ends with after the loop as written: the high
   * nibble of byte x of its file row, except that in a bottom-up image the
   * first pixel of every row but the top one is overwritten, by the row
   * visited after it, with the low nibble of that row's last byte.
   */
  function AsWrittenPixel(b: seq<Byte>, offset: nat, w: int, h: int, flipped: bool, y: int, x: int): (e: int)
    requires w > 0 && 0 <= y < h && 0 <= x < w && offset + w * h <= |b|
    ensures 0 <= e < 16
  {
    if flipped && x == 0 && 0 < y then
      RowFits(w, h, h - y);
      b[offset + w * (h - y) + w - 1] % 16
    else
      var c := FileRow(flipped, h, y);
      RowFits(w, h, c);
      b[offset + w * c + x] / 16
  }

  /** Top-down, pixel (x, y) is last stored by row y itself: later rows store past it. */
  lemma TopDownCell(b: seq<Byte>, w: int, h: int, offset: nat, y: int, pos: int, x: int)
    requires w > 0 && 0 <= y < h && 0 <= x < w && offset + w * h <= |b| && w * h < TwoTo32
    requires pos == offset + w * y
    ensures LastEntry(Rows(b, w, h, false, y, 0, pos).writes, w * y + x) == AsWrittenPixel(b, offset, w, h, false, y, x)
  {
    RowFits(w, h, y);
    MulSucc(w, y);
    MulSplit(w, y + 1, h);
    var first, left := w * y + w, w * (h - (y + 1));
    TopDownIndices(b, w, h, y + 1, pos + w, first, left);
    EarlierRowWins(b, w, h, false, y, pos, w * y + x, first, first + left);
    RowPixelIsHighNibble(b, w, w * y, 0, pos, x);
  }

  /**
   * Bottom-up, row c = h-1-y is followed by row y-1, whose last store lands
   * on pixel (0, y); the rows after that store before it.
   */
  lemma BottomUpCell(b: seq<Byte>, w: int, h: int, offset: nat, c: int, pos: int, y: int, x: int)
    requires w > 0 && 0 <= y < h && 0 <= x < w && offset + w * h <= |b| && w * h < TwoTo32
    requires c == h - 1 - y && pos == offset + w * c
    ensures LastEntry(Rows(b, w, h, true, c, 0, pos).writes, w * y + x) == AsWrittenPixel(b, offset, w, h, true, y, x)
  {
    MulSplit(w, c, h);
    assert h - c == y + 1;
    RowFits(w, h, c);
    if x == 0 && 0 < y {
      MulSucc(w, c);
      assert w * (c + 1) == w * (h - y);
      assert AsWrittenPixel(b, offset, w, h, true, y, x) == b[pos + w + w - 1] % 16;
      BottomUpOverwritten(b, w, h, c, pos, y);
    } else {
      assert FileRow(true, h, y) == c;
      assert AsWrittenPixel(b, offset, w, h, true, y, x) == b[pos + x] / 16;
      BottomUpKept(b, w, h, c, pos, y, x);
    }
  }

  /** Bottom-up, the rows after row c = h-1-y store before pixel (x, y) unless x = 0 < y. */
  lemma BottomUpKept(b: seq<Byte>, w: int, h: int, c: int, pos: int, y: int, x: int)
    requires w > 0 && 0 <= y < h && 0 <= x < w && w * h < TwoTo32
    requires c == h - 1 - y && 0 <= pos && pos + w * (y + 1) <= |b| && (x > 0 || y == 0)
    ensures LastEntry(Rows(b, w, h, true, c, 0, pos).writes, w * y + x) == b[pos + x] / 16
  {
    RowFits(w, h, y);
    MulSucc(w, y);
    assert RowY(true, h, c) == y;
    if y == 0 {
      assert Rows(b, w, h, true, c + 1, 0, pos + w) == Trace(true, []);
      EarlierRowWins(b, w, h, true, c, pos, w * y + x, 1, 0);
    } else {
      assert h - (c + 1) == y;
      BottomUpIndices(b, w, h, c + 1, pos + w, w * y);
      EarlierRowWins(b, w, h, true, c, pos, w * y + x, 0, w * y);
    }
    RowPixelIsHighNibble(b, w, w * y, 0, pos, x);
  }

  /** Bottom-up, pixel (0, y) of row c = h-1-y ends as the low nibble of the last byte of the next row. */
  lemma BottomUpOverwritten(b: seq<Byte>, w: int, h: int, c: int, pos: int, y: int)
    requires w > 0 && 0 < y < h && w * h < TwoTo32
    requires c == h - 1 - y && 0 <= pos && pos + w * (y + 1) <= |b|
    ensures LastEntry(Rows(b, w, h, true, c, 0, pos).writes, w * y) == b[pos + w + w - 1] % 16
  {
    RowFits(w, h, y);
    MulSucc(w, y);
    NextRowLast(b, w, h, c + 1, pos + w, y);
    LaterRowsWin(b, w, h, true, c, pos, w * y);
  }

  /** The stores from row c1 = h - y on leave at pixel (0, y) the low nibble of the last byte of row c1. */
  lemma NextRowLast(b: seq<Byte>, w: int, h: int, c1: int, pos1: int, y: int)
    requires w > 0 && 0 < y < h && w * h < TwoTo32
    requires c1 == h - y && 0 <= pos1 && pos1 + w * y <= |b|
    ensures LastEntry(Rows(b, w, h, true, c1, 0, pos1).writes, w * y) == b[pos1 + w - 1] % 16
  {
    var y1 := y - 1;
    RowFits(w, h, y1);
    MulSucc(w, y1);
    assert RowY(true, h, c1) == y1 && h - (c1 + 1) == y1;
    BottomUpIndices(b, w, h, c1 + 1, pos1 + w, w * y1);
    EarlierRowWins(b, w, h, true, c1, pos1, w * y, 0, w * y1);
    RowLastEntry(b, w, w * y1, 0, pos1);
  }

  /** When the rows after row c store nowhere near `index`, row c's stores decide it. */
  lemma EarlierRowWins(b: seq<Byte>, w: int, h: int, flipped: bool, c: int, pos: int, index: int, lo: int, hi: int)
    requires 0 <= c < h && 0 <= w && 0 <= pos && pos + w <= |b|
    requires IndicesWithin(Rows(b, w, h, flipped, c + 1, 0, pos + w).writes, lo, hi) && !(lo <= index <= hi)
    ensures LastEntry(Rows(b, w, h, flipped, c, 0, pos).writes, index)
         == LastEntry(RowWrites(b, w, w * RowY(flipped, h, c), 0, pos), index)
  {
    RowConsumesWidth(b, w, h, flipped, c, 0, pos);
    LastEntryAppend(RowWrites(b, w, w * RowY(flipped, h, c), 0, pos),
                    Rows(b, w, h, flipped, c + 1, 0, pos + w).writes, index);
  }

  /** A store that a later row makes at `index` outlives the stores of row c. */
  lemma LaterRowsWin(b: seq<Byte>, w: int, h: int, flipped: bool, c: int, pos: int, index: int)
    requires 0 <= c < h && 0 <= w && 0 <= pos && pos + w <= |b|
    requires LastEntry(Rows(b, w, h, flipped, c + 1, 0, pos + w).writes, index) != -1
    ensures LastEntry(Rows(b, w, h, flipped, c, 0, pos).writes, index)
         == LastEntry(Rows(b, w, h, flipped, c + 1, 0, pos + w).writes, index)
  {
    RowConsumesWidth(b, w, h, flipped, c, 0, pos);
    LastEntryPrefix(RowWrites(b, w, w * RowY(flipped, h, c), 0, pos),
                    Rows(b, w, h, flipped, c + 1, 0, pos + w).writes, index);
  }

  lemma {:induction false} RowsCell(b: seq<Byte>, w: int, h: int, flipped: bool, offset: nat, c: int, pos: int, y: int, x: int)
    requires w > 0 && 0 <= y < h && 0 <= x < w && offset + w * h <= |b| && w * h < TwoTo32
    requires 0 <= c <= FileRow(flipped, h, y) && pos == offset + w * c
    ensures LastEntry(Rows(b, w, h, flipped, c, 0, pos).writes, w * y + x)
         == AsWrittenPixel(b, offset, w, h, flipped, y, x)
    decreases h - c
  {
    if c < FileRow(flipped, h, y) {
      RowFits(w, h, c);
      MulSucc(w, c);
      RowsCell(b, w, h, flipped, offset, c + 1, pos + w, y, x);
      LaterRowsWin(b, w, h, flipped, c, pos, w * y + x);
    } else if flipped {
      BottomUpCell(b, w, h, offset, c, pos, y, x);
    } else {
      TopDownCell(b, w, h, offset, y, pos, x);
    }
  }

  /**
   * The image the loop as written leaves, when width*height bytes follow
   * the offset: pixel (x, y) ends with the entry AsWrittenPixel names.
   */
  lemma PalettedNonePixels(b: seq<Byte>, offset: nat, w: int, h: int, flipped: bool, y: int, x: int)
    requires w > 0 && 0 <= y < h && 0 <= x < w && offset + w * h <= |b| && w * h < TwoTo32
    ensures var t := PalettedNoneTrace(b, offset, w, h, flipped);
            t.ok && LastEntry(t.writes, w * y + x) == AsWrittenPixel(b, offset, w, h, flipped, y, x)
  {
    PalettedNoneOk(b, offset, w, h, flipped);
    RowsCell(b, w, h, flipped, offset, 0, offset, y, x);
  }

  // ---------------------------------------------------------------------
  // The decoding evidently intended
  // ---------------------------------------------------------------------

  /** The nibble of `code` that holds pixel `x`: the high one for even x. */
  function Nibble(code: int, x: int): (n: int)
    requires 0 <= code < 256
    ensures 0 <= n < 16
    ensures x % 2 == 0 ==> n == code / 16
    ensures x % 2 != 0 ==> n == code % 16
  {
    if x % 2 == 0 then code / 16 else code % 16
  }

  /** The stream byte that holds pixel `x` of file row `c`. */
  function RowStart(offset: int, pitch: int, c: int): int
  {
    offset + c * pitch
  }

  /** The byte holding pixel `x` of a row stored from `start` is in the file. */
  predicate PixelInFile(b: seq<Byte>, start: int, x: int)
  {
    0 <= start + x / 2 < |b|
  }

  /** Pixel `x` of a row stored from `start` is in the file and names an entry of the table. */
  predicate PixelOkAt(b: seq<Byte>, start: int, entries: int, x: int)
  {
    PixelInFile(b, start, x) && Nibble(b[start + x / 2], x) < entries
  }

  /** The colour of pixel `x` of a row stored from `start`. */
  function PixelAt(b: seq<Byte>, start: int, table: seq<int>, x: int): int
  {
    if PixelOkAt(b, start, |table|, x) then table[Nibble(b[start + x / 2], x)] else 0
  }

  predicate PixelOk(b: seq<Byte>, offset: int, pitch: int, entries: int, c: int, x: int)
  {
    PixelOkAt(b, RowStart(offset, pitch, c), entries, x)
  }

  /** The colour of pixel `x` of file row `c`. */
  function PixelValue(b: seq<Byte>, offset: int, pitch: int, table: seq<int>, c: int, x: int): int
  {
    PixelAt(b, RowStart(offset, pitch, c), table, x)
  }

  /** Every pixel of the image is in the file and names an entry of the table. */
  predicate Decodable(b: seq<Byte>, offset: int, pitch: int, entries: int, w: int, h: int)
  {
    forall c, x :: 0 <= c < h && 0 <= x < w ==> PixelOk(b, offset, pitch, entries, c, x)
  }

  /** Output row `y` of a bottom-up image is file row height-1-y; this is its own inverse. */
  function FileRow(flipped: bool, h: int, y: int): (c: int)
    ensures RowY(flipped, h, c) == y
  {
    RowY(flipped, h, y)
  }

  lemma MulAtLeast(d: int, k: int)
    requires d > 0 && k >= 1
    ensures d * k >= d
  {
    if k > 1 {
      MulAtLeast(d, k - 1);
      assert d * k == d * (k - 1) + d;
    }
  }

  lemma DivUnique(n: int, d: int, q: int, m: int)
    requires d > 0 && 0 <= m < d && n == d * q + m
    ensures n / d == q && n % d == m
  {
    var q', m' := n / d, n % d;
    assert n == d * q' + m';
    assert d * q - d * q' == d * (q - q');
    assert d * (q - q') == m' - m;
    if q > q' {
      MulAtLeast(d, q - q');
    } else if q < q' {
      MulAtLeast(d, q' - q);
    }
  }

  lemma RowIndex(w: int, h: int, y: int, x: int)
    requires 0 <= x < w && 0 <= y < h
    ensures 0 <= w * y + x < w * h
    ensures (w * y + x) / w == y && (w * y + x) % w == x
  {
    assert w * y + x < w * (y + 1);
    assert w * (y + 1) <= w * h;
    DivUnique(w * y + x, w, y, x);
  }

  /** Index `i` of the output lies in row `y` exactly when i / width == y. */
  lemma InRow(w: int, i: int, y: int)
    requires w > 0 && i >= 0
    ensures (w * y <= i < w * y + w) <==> i / w == y
  {
    if w * y <= i < w * y + w {
      DivUnique(i, w, y, i - w * y);
    }
  }

  /** Byte j of a row holds pixels 2j (high nibble) and 2j+1 (low nibble). */
  lemma PixelPair(b: seq<Byte>, start: int, table: seq<int>, j: int)
    requires 0 <= j
    ensures (2 * j) / 2 == j && (2 * j + 1) / 2 == j
    ensures !(0 <= start + j < |b|) ==> !PixelOkAt(b, start, |table|, 2 * j)
    ensures 0 <= start + j < |b| ==>
              (PixelOkAt(b, start, |table|, 2 * j) <==> b[start + j] / 16 < |table|) &&
              (PixelOkAt(b, start, |table|, 2 * j + 1) <==> b[start + j] % 16 < |table|) &&
              (PixelOkAt(b, start, |table|, 2 * j) ==> PixelAt(b, start, table, 2 * j) == table[b[start + j] / 16]) &&
              (PixelOkAt(b, start, |table|, 2 * j + 1) ==> PixelAt(b, start, table, 2 * j + 1) == table[b[start + j] % 16])
  {
  }

  /** Expands the row stored from `start` into out[base..base+width], reading from `start`. */
  method ExpandRowIntended(s: Stream, start: int, table: seq<int>, w: int, base: int, out: array<int>) returns (ok: bool)
    requires s.Valid() && 0 < w && 0 <= base && base + w <= out.Length && s.pos == start
    modifies s, out
    ensures s.Valid()
    ensures ok <==> forall x :: 0 <= x < w ==> PixelOkAt(s.bytes, start, |table|, x)
    ensures ok ==> forall x :: 0 <= x < w ==> out[base + x] == PixelAt(s.bytes, start, table, x)
    ensures forall i :: 0 <= i < out.Length && !(base <= i < base + w) ==> out[i] == old(out[i])
  {
    var j := 0;
    while 2 * j < w
      invariant 0 <= j && 2 * j <= w + 1 && s.Valid()
      invariant s.pos == start + j
      invariant forall x :: 0 <= x < w && x < 2 * j ==> PixelOkAt(s.bytes, start, |table|, x)
      invariant forall x :: 0 <= x < w && x < 2 * j ==> out[base + x] == PixelAt(s.bytes, start, table, x)
      invariant forall i :: 0 <= i < out.Length && !(base <= i < base + w) ==> out[i] == old(out[i])
    {
      PixelPair(s.bytes, start, table, j);
      var read, code := s.Read(1);
      if !read {
        assert !PixelOkAt(s.bytes, start, |table|, 2 * j);
        return false;
      }
      assert code[0] == s.bytes[start + j];
      var hi := code[0] / 16;
      if hi >= |table| {
        assert !PixelOkAt(s.bytes, start, |table|, 2 * j);
        return false;
      }
      out[base + 2 * j] := table[hi];
      assert PixelOkAt(s.bytes, start, |table|, 2 * j) && out[base + 2 * j] == PixelAt(s.bytes, start, table, 2 * j);
      if 2 * j + 1 < w {
        var lo := code[0] % 16;
        if lo >= |table| {
          assert !PixelOkAt(s.bytes, start, |table|, 2 * j + 1);
          return false;
        }
        out[base + 2 * j + 1] := table[lo];
        assert PixelOkAt(s.bytes, start, |table|, 2 * j + 1) && out[base + 2 * j + 1] == PixelAt(s.bytes, start, table, 2 * j + 1);
      }
      j := j + 1;
    }
    return true;
  }

  /** Pixel (x, y) of a row-major output of width `w` exists and is `v`. */
  predicate CellIs(o: seq<int>, w: int, y: int, x: int, v: int)
  {
    0 <= w * y + x < |o| && o[w * y + x] == v
  }

  /** The output rows of file rows 0..c-1 hold their pixels. */
  ghost predicate RowsDone(o: seq<int>, px: (int, int) -> int, w: int, h: int, flipped: bool, c: int)
  {
    forall y, x :: 0 <= y < h && 0 <= x < w && FileRow(flipped, h, y) < c ==>
      CellIs(o, w, y, x, px(FileRow(flipped, h, y), x))
  }

  lemma MulMono(w: int, a: int, b: int)
    requires w > 0 && a <= b
    ensures w * a <= w * b
  {
    assert w * b - w * a == w * (b - a);
  }

  /** Distinct rows occupy disjoint index ranges. */
  lemma OtherRow(w: int, y: int, y0: int, x: int)
    requires w > 0 && 0 <= x < w && y != y0
    ensures w * y + x < w * y0 || w * y0 + w <= w * y + x
  {
    if y < y0 {
      MulMono(w, y + 1, y0);
    } else {
      MulMono(w, y0 + 1, y);
    }
  }

  lemma RowsDoneStep(o: seq<int>, o': seq<int>, px: (int, int) -> int,
                     w: int, h: int, flipped: bool, c: int)
    requires w > 0 && 0 <= c < h && |o| == |o'| == w * h
    requires RowsDone(o, px, w, h, flipped, c)
    requires var base := w * RowY(flipped, h, c);
             (forall x :: 0 <= x < w ==> CellIs(o', w, RowY(flipped, h, c), x, px(c, x))) &&
             (forall i :: 0 <= i < |o| && !(base <= i < base + w) ==> o'[i] == o[i])
    ensures RowsDone(o', px, w, h, flipped, c + 1)
  {
    var y0 := RowY(flipped, h, c);
    forall y, x | 0 <= y < h && 0 <= x < w && FileRow(flipped, h, y) < c + 1
      ensures CellIs(o', w, y, x, px(FileRow(flipped, h, y), x))
    {
      if y != y0 {
        OtherRow(w, y, y0, x);
        assert FileRow(flipped, h, y) < c;
        assert CellIs(o, w, y, x, px(FileRow(flipped, h, y), x));
      }
    }
  }

  /**
   * The pixels of an uncompressed 4-bit image: file row `c` starts at
   * offset + c*pitch and holds two pixels per byte, high nibble first;
   * output row y of a bottom-up image is file row height-1-y. Returns 0 for
   * a missing byte, a nibble past the table or an output of the wrong size.
   */
  method ExtractPalettedNoneIntended(s: Stream, offset: int, pitch: int, table: seq<int>,
                             w: int, h: int, flipped: bool, out: array<int>) returns (r: int)
    requires s.Valid() && 0 <= offset && 0 <= pitch && 0 <= h
    modifies s, out
    ensures s.Valid()
    ensures r == 0 || r == 1
    ensures r == 1 <==> 0 <= w && out.Length == w * h && Decodable(s.bytes, offset, pitch, |table|, w, h)
    ensures r == 1 ==> forall y, x :: 0 <= y < h && 0 <= x < w ==>
              CellIs(out[..], w, y, x, PixelValue(s.bytes, offset, pitch, table, FileRow(flipped, h, y), x))
  {
    if w < 0 || out.Length != w * h {
      return 0;
    }
    if w == 0 {
      return 1;
    }
    ghost var b := s.bytes;
    ghost var px := (c, x) => PixelValue(b, offset, pitch, table, c, x);
    var c := 0;
    while c < h
      invariant 0 <= c <= h && s.Valid() && s.bytes == b
      invariant forall c', x :: 0 <= c' < c && 0 <= x < w ==> PixelOk(b, offset, pitch, |table|, c', x)
      invariant RowsDone(out[..], px, w, h, flipped, c)
    {
      var y := RowY(flipped, h, c);
      assert c * pitch >= 0;
      var _ := s.Seek(RowStart(offset, pitch, c), SeekSet);
      RowIndex(w, h, y, 0);
      RowIndex(w, h, y, w - 1);
      ghost var before := out[..];
      var ok := ExpandRowIntended(s, RowStart(offset, pitch, c), table, w, w * y, out);
      if !ok {
        ghost var x :| 0 <= x < w && !PixelOkAt(b, RowStart(offset, pitch, c), |table|, x);
        assert !PixelOk(b, offset, pitch, |table|, c, x);
        return 0;
      }
      forall x | 0 <= x < w
        ensures CellIs(out[..], w, y, x, px(c, x))
      {
        RowIndex(w, h, y, x);
      }
      RowsDoneStep(before, out[..], px, w, h, flipped, c);
      c := c + 1;
    }
    forall y, x | 0 <= y < h && 0 <= x < w
      ensures CellIs(out[..], w, y, x, PixelValue(b, offset, pitch, table, FileRow(flipped, h, y), x))
    {
      assert FileRow(flipped, h, y) < h;
      assert CellIs(out[..], w, y, x, px(FileRow(flipped, h, y), x));
    }
    return 1;
  }
}
