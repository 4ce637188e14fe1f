# SFL single-header libraries in Dafny

This project models the logic of three C single-header libraries and proves properties of it.

- **sfl_fs_watch.h, the file-system watcher.** Covered:
  - the ID counter with its wrap-around at `SFL_FS_WATCH_MAX_ID`;
  - the character-prefix "hierarchy" test;
  - the intrusive circular doubly-linked rings;
  - the stretchy buffer of the Linux backend;
  - the decision tree of the Windows `sfl_fs_watch_add`;
  - the walk over the `FILE_NOTIFY_INFORMATION` records, with its action-to-kind mapping;
  - the Linux `add` and `poll`.

  Every operating-system call becomes an input:
  - the `is_directory` probe;
  - the parent path `PathCchRemoveFileSpec` computes;
  - the descriptor `inotify_add_watch` returns;
  - the outcomes of successive `read` calls;
  - the bytes `ReadDirectoryChangesW` left in a buffer.
- **sfl_bmp.h, the BMP decoder.** Covered:
  - the `BM` signature;
  - the peek of the info-header size and the seek back;
  - the dispatch between `BITMAPINFOHEADER` (40 bytes) and `BITMAPV5HEADER` (124 bytes);
  - the row pitch, image size and flip rule;
  - the pixel format chosen by bit depth;
  - the colour-table size from `sfl_bmp_ipow`;
  - the raw and 4-bit paletted extraction into an `SflBmpDesc`, as the code is written, defects included.

  The defects are listed under Findings. Beside the decoder as written stands the decoding they evidently intend. Its members are named `…Intended` and are marked "corrected" in the table.

  The io callbacks are an in-memory file with a cursor (`BmpStream.Stream`), as the stdio adapter behaves.
- **sfl_uuid.h, version-4 UUIDs.** Covered:
  - the splitmix64 generator;
  - the seeding hash with its static multiplier;
  - the version and variant patching of RFC 4122, sections 4.1.1, 4.1.3 and 4.4;
  - the canonical 8-4-4-4-12 lowercase string of RFC 4122, section 3.

  A hexadecimal parser is defined as an independent reference. It is used to prove that the string form is injective and round-trips.

## Layout and state

- **Modules.** One per source area:
  - `FsWatchCommon`: kinds, result codes, IDs, the hierarchy test;
  - `FsWatchRing`: `SflFsWatchListNode` as a class with `next`/`prev` fields;
  - `FsWatchStretchy`: the `sfl_fs_watch_sb_*` macros as a class over an `array`;
  - `FsWatchWin32` and `FsWatchLinux`: the two backends, each with its own `WatchContext` class;
  - `BmpStream`, `BmpLayout`, `BmpPaletted` and `BmpDecode`;
  - `Uuid`.
- **State kept in place by the C code is a class with fields.** Examples:
  - `WatchContext.currentId` and `directories`;
  - `StretchyBuffer.data`, `capacity` and `count`;
  - `Stream.pos`;
  - the `Desc` fields;
  - `UuidContext.seed`;
  - `HashState.multiplier`.
- **Methods are proved against specification functions.** Each method that changes this state carries its own contract. The C loops are `while` loops with invariants:
  - the hierarchy scan;
  - the Windows add scan;
  - the notification walk;
  - the Linux poll loop;
  - `sfl_bmp_ipow`;
  - the paletted expansion;
  - the UUID string loop.

  Each method's contract ties its result to a specification function. The lemmas beside that function state its properties.
- **Fixed-width integers** are written out:
  - `SflBmpU32` arithmetic is taken modulo 2^32 (`BmpLayout.U32`);
  - `uint64_t` arithmetic is taken modulo 2^64;
  - the `uint32_t` seeding helpers use `bv32`.
- **Byte order.** The UUID's `bytes`/`qwords` union is read little-endian: qword k is bytes 8k..8k+7, least significant first.

## Where the code and its comments disagree

The model follows the code:

- The Windows `sfl_fs_watch_add` returns 1 on every path. The comment at sfl_fs_watch.h:164 promises the watched ID or a negative error. The Linux `add` returns 0 on failure, not a negative value.
- `sfl_fs_watch_compare_files_hierarchy` makes no separator check. `/a/bc` counts as a child of `/a/b`.
- `SflFsWatchFileNotification` has only a path and a kind. No ID is delivered with a notification, and notifications are not filtered against the child entries.
- The Linux `sfl_fs_watch_init` never initialises `ctx->entries`. The model starts with the null buffer that a zeroed context has.

## Model

| member | source | states |
|---|---|---|
| FsWatchCommon.KindName | sfl_fs_watch.h:189-197 | the name is non-empty exactly for the four declared kinds, and each kind gets its own name: "Invalid", "Created", "Deleted", "Modified" |
| FsWatchCommon.KindNameInjective | sfl_fs_watch.h:189-197 | two different declared kinds never share a name |
| FsWatchCommon.KindOfAction | sfl_fs_watch.h:454-469 | CREATED exactly for ADDED and RENAMED_NEW_NAME, DELETED exactly for REMOVED and RENAMED_OLD_NAME, MODIFIED exactly for MODIFIED, INVALID exactly for every other action code |
| FsWatchCommon.NextId | sfl_fs_watch.h:282-287 | a counter at MAX_ID gives ID 0; any other counter gives itself; the new counter is the ID plus one; the ID is always in [0, MAX_ID) |
| FsWatchCommon.IdsFromAt | sfl_fs_watch.h:282-287 | the k-th ID handed out from counter `current` is (current + k) mod MAX_ID |
| FsWatchCommon.IdsFromDistinct | sfl_fs_watch.h:282-287 | up to MAX_ID successive calls never hand out the same ID twice |
| FsWatchCommon.Hierarchy | sfl_fs_watch.h:529-546 | 0 exactly when the paths are equal, 1 exactly when `directory` is a proper prefix of `child`, -1 exactly when it is not a prefix at all |
| FsWatchCommon.HierarchyIgnoresSeparators | sfl_fs_watch.h:539-545 | "/a/bc" compares as a child of "/a/b": there is no separator check |
| FsWatchCommon.CompareFilesHierarchy | sfl_fs_watch.h:529-546 | the length check and the character loop compute exactly Hierarchy |
| FsWatchRing.ListNode.Init | sfl_fs_watch.h:240-243 | the node becomes a one-node ring: next and prev are the node itself |
| FsWatchRing.RingLinksAgree | sfl_fs_watch.h:240-277 | in every ring, next(prev(n)) == n and prev(next(n)) == n |
| FsWatchRing.Add | sfl_fs_watch.h:245-254 | `entry` ends up linked between `prev` and `next` in both directions; the outer links of `prev` and `next` are untouched |
| FsWatchRing.Append | sfl_fs_watch.h:256-261 | inserting before the head makes the new node the tail of a ring whose other members keep their order |
| FsWatchRing.Link | sfl_fs_watch.h:263-277 | two disjoint rings become one ring: the first ring's members, then the second's |
| FsWatchStretchy.GrowCapacity | sfl_fs_watch.h:226-228 | the new capacity covers count + increment and, for a live buffer, at least twice the old capacity; it is one of the two |
| FsWatchStretchy.StretchyBuffer.Count | sfl_fs_watch.h:215 | the count is never negative and is 0 for a null buffer |
| FsWatchStretchy.StretchyBuffer.Growf | sfl_fs_watch.h:224-238 | a fresh block with capacity max(2 * old capacity, count + increment) that keeps the count and every element; a null buffer starts at count 0 |
| FsWatchStretchy.StretchyBuffer.MaybeGrow | sfl_fs_watch.h:220-222 | grows exactly when the buffer is null or count + n reaches the capacity; afterwards count + n fits; the elements are kept |
| FsWatchStretchy.StretchyBuffer.Push | sfl_fs_watch.h:214 | the elements become the old elements followed by `v` |
| FsWatchStretchy.StretchyBuffer.AddN | sfl_fs_watch.h:212 | reserves n slots after the old count, returns the index of the first of them, and keeps the earlier elements |
| FsWatchStretchy.StretchyBuffer.Last | sfl_fs_watch.h:213 | the element at index count - 1 |
| FsWatchWin32.InitEntry | sfl_fs_watch.h:548-559 | a fresh entry has the given path, no ID (-1) and an empty child ring |
| FsWatchWin32.FirstMatch | sfl_fs_watch.h:598-630 | the scan stops at the first directory entry, in ring order, that is the path itself or a prefix of it; none before it matches |
| FsWatchWin32.AddChildOfWatched | sfl_fs_watch.h:609-623 | below a watched directory, add appends exactly one child with a fresh ID to that directory's ring. Every other entry and that directory's path and ID stay as they were, and no directory entry is created |
| FsWatchWin32.AddWatchedDirectory | sfl_fs_watch.h:624-628 | a path equal to a watched directory gets a fresh ID only if it had none; otherwise nothing changes, not even the counter |
| FsWatchWin32.AddWatchedDirectoryIdempotent | sfl_fs_watch.h:624-628 | adding an already-watched directory a second time leaves the watch list and the counter unchanged |
| FsWatchWin32.AddUnwatched | sfl_fs_watch.h:632-679 | with no match, exactly one directory entry is appended and the old ones stay. For a file (probe 0) it is the parent with ID -1 holding the file with a fresh ID; otherwise, a failed probe included, it is the path with a fresh ID and no children |
| FsWatchWin32.FirstMatchSameFiles | sfl_fs_watch.h:603-607 | only the paths of directory entries decide the match; IDs and children never take part |
| FsWatchWin32.AddFileTwice | sfl_fs_watch.h:603-623 | adding the same file twice under a watched directory gives it two children with two different IDs |
| FsWatchWin32.AddKeepsIdsValid | sfl_fs_watch.h:570-680 | the counter stays in [0, MAX_ID] and every ID stays -1 or in [0, MAX_ID); children always carry a real ID |
| FsWatchWin32.WatchContext.constructor | sfl_fs_watch.h:561-567 | an empty directory ring and a counter at 0 |
| FsWatchWin32.WatchContext.GetNextId | sfl_fs_watch.h:282-287 | steps `current_id` exactly as NextId and changes nothing else |
| FsWatchWin32.WatchContext.Add | sfl_fs_watch.h:570-680 | the new watch list and counter are AddOutcome of the old ones, the context stays valid, and the result is 1 on every path |
| FsWatchWin32.Notifications | sfl_fs_watch.h:446-479 | there is one notification per record of the NextEntryOffset chain |
| FsWatchWin32.ChainShape | sfl_fs_watch.h:474-478 | the chain visits each record within the buffer, moves on by NextEntryOffset, and ends exactly at the record whose offset is 0; notification k is built from record k |
| FsWatchWin32.GetNotifications | sfl_fs_watch.h:440-480 | the notification procedure is called once per record, in chain order, the last record included, with that record's name and mapped kind |
| FsWatchLinux.FirstStop | sfl_fs_watch.h:764-780 | the loop runs up to the first read that returns 0 or fails, and every read before it delivered data |
| FsWatchLinux.PollTimeoutIff | sfl_fs_watch.h:769-771 | TIMEOUT exactly when the very first read fails with EAGAIN |
| FsWatchLinux.PollErrorIff | sfl_fs_watch.h:772-774 | ERROR exactly when the stopping read fails with an errno other than EAGAIN |
| FsWatchLinux.PollResultKnown | sfl_fs_watch.h:758-783 | the result is always NONE, TIMEOUT or ERROR |
| FsWatchLinux.WatchContext.constructor | sfl_fs_watch.h:736-741 | the context keeps the inotify descriptor and watches nothing |
| FsWatchLinux.WatchContext.Add | sfl_fs_watch.h:743-756 | descriptor -1: result 0 and the entries unchanged; otherwise one {path, fd} entry is pushed and the result is 1 |
| FsWatchLinux.WatchContext.Poll | sfl_fs_watch.h:758-783 | the result is PollResult of the read outcomes and the loop consumes reads up to the first stopping one; the notification procedure is never called |
| BmpStream.Stream.Read | sfl_bmp.h:536-539 | succeeds exactly when n > 0 and n bytes remain; then it yields those bytes and moves past them; on failure the cursor stays |
| BmpStream.Stream.Seek | sfl_bmp.h:541-554 | returns 0 and moves to the new position when the whence is SET, CUR or END and the position is not before the start; otherwise it returns -1 and the cursor stays |
| BmpLayout.I32At | sfl_bmp.h:187-214 | a signed header field is the two's-complement reading of its four bytes: negative exactly when the top bit is set |
| BmpLayout.SettingsOf | sfl_bmp.h:348-355 | the settings are in their C ranges, `offset` comes from the file header, and the table offset is 14 + 124 = 138 |
| BmpLayout.RowPitch | sfl_bmp.h:375-376 | the pitch is a multiple of 4 and the least one whose 8 * pitch bits cover bpp * width (taken mod 2^32) |
| BmpLayout.ImageSize | sfl_bmp.h:375-379 | the size extract stores is pitch times the header height as given, signed, taken mod 2^32: the product itself when it fits, and 2^32 - pitch * \|height\| for a top-down image |
| BmpLayout.TopDownSizeWraps | sfl_bmp.h:375-386 | a top-down image of one 32-bit pixel has pitch 4 but gets size 2^32 - 4, because the height is still -1 when the size is taken; the corrected size is 4 |
| BmpLayout.ImageSizeIntended | sfl_bmp.h:378 | corrected (Findings row 5): pitch * \|height\| when that fits in 32 bits, and the same as ImageSize for bottom-up images |
| BmpLayout.FlipAttributes | sfl_bmp.h:382-386 | FLIPPED exactly when the header height is positive, no attribute otherwise |
| BmpLayout.DescHeight | sfl_bmp.h:382-386 | the descriptor height is \|height\|, and it is the header height itself when that is positive |
| BmpLayout.RawFormat | sfl_bmp.h:388-411 | bit depths 32, 24 and 16 select B8G8R8A8, B8G8R8 and B5G6R5 respectively, and no other depth is copied raw |
| BmpLayout.Ipow | sfl_bmp.h:284-295 | base^exponent mod 2^32, which is 1 for exponent 0 |
| BmpLayout.PaletteCount | sfl_bmp.h:432-437 | 2^bpp mod 2^32 when num_colors is 0, num_colors otherwise |
| BmpLayout.FourBitPalette | sfl_bmp.h:432-438 | a 4-bit image without num_colors has 16 entries and a 64-byte table |
| BmpLayout.TableSize | sfl_bmp.h:438 | the table byte size is 4 * count (mod 2^32), always a multiple of 4 |
| BmpLayout.Table | sfl_bmp.h:463-466 | the table holds size / 4 entries, entry i being the little-endian word at byte 4i |
| BmpPaletted.RowY | sfl_bmp.h:496-499 | iteration c fills output row height-1-c for a positive header height and row c otherwise |
| BmpPaletted.RowWrites | sfl_bmp.h:504-526 | from column x to the end of a row the loop makes exactly two stores per remaining column |
| BmpPaletted.RowConsumesWidth | sfl_bmp.h:496-527 | each row reads exactly `width` bytes from the stream, whatever the pitch, and the next row continues right after them |
| BmpPaletted.RowPixelIsHighNibble | sfl_bmp.h:515-523 | pixel x of a row ends as the high nibble of byte x of that row: the low nibble stored there by byte x-1 is overwritten |
| BmpPaletted.RowLastWrite | sfl_bmp.h:518-523 | the last byte of a row stores its low nibble at index base + width, the first pixel of the following row |
| BmpPaletted.RowsContain | sfl_bmp.h:496-527 | every store of a later row is among the stores of the whole loop |
| BmpPaletted.WritesPastOutput | sfl_bmp.h:518-523 | for any image whose bytes are all there, the loop stores at index width*height, one past the output |
| BmpPaletted.OnePixelOverrun | sfl_bmp.h:518-523 | one pixel from byte 0x12: entry 1 goes to index 0 and entry 2 to index 1 of a one-pixel output |
| BmpPaletted.OneNibblePerByte | sfl_bmp.h:504-526 | a two-pixel row reads two bytes, and pixel 1 ends as the high nibble 0xC of the second byte, not 0xB |
| BmpPaletted.FlippedOrderOverwrites | sfl_bmp.h:496-526 | in a bottom-up 1x2 image the second row processed overwrites output pixel (0, 1) with the low nibble of its own byte |
| BmpPaletted.NibbleOverrunsTable | sfl_bmp.h:520-523 | with num_colors 1 the byte 0x10 indexes entry 1 of a one-entry table |
| BmpPaletted.PalettedNoneOk | sfl_bmp.h:496-527 | for a non-empty image the loop returns 1 exactly when width*height bytes follow the pixel offset: one byte per pixel, the pitch unused |
| BmpPaletted.PalettedNonePixels | sfl_bmp.h:496-527 | when those bytes are there, the last entry stored at pixel (x, y) is the high nibble of byte x of its file row. The exception is a bottom-up image, where the first pixel of every output row but row 0 gets the low nibble of the last byte of the row read after it |
| BmpPaletted.ApplyLastEntry | sfl_bmp.h:518-523 | after the stores, a cell holds the colour of the last entry stored at it when the table has that entry, and keeps its old value when no store reaches it |
| BmpPaletted.Store | sfl_bmp.h:519-523 | one store, out_pixels[index] = color_table[entry]: the output becomes Apply of the stores so far followed by this one |
| BmpPaletted.ByteAsWritten | sfl_bmp.h:510-525 | a missing byte fails and leaves the cursor; otherwise the byte's one or two stores are made and recorded, and the rest of the loop is what Rows says remains |
| BmpPaletted.RowAsWritten | sfl_bmp.h:496-527 | one row of the loop: on success the stores so far and the loop from the next row make up the same trace as before; on failure the trace is a failure ending with the stores made |
| BmpPaletted.ExtractPalettedNone | sfl_bmp.h:484-530 | the result is 1 exactly when the loop as written (PalettedNoneTrace) finds every byte it reads; the stores are that loop's, in order, and the output holds them applied in order |
| BmpPaletted.Nibble | sfl_bmp.h:515-516 | corrected (Findings row 2): pixel x takes nibble x % 2 of byte x / 2, the high one for even x |
| BmpPaletted.FileRow | sfl_bmp.h:496-499 | the file row of an output row is mapped back by RowY to that output row |
| BmpPaletted.ExpandRowIntended | sfl_bmp.h:504-526 | corrected (Findings rows 2 and 3): succeeds exactly when every pixel of the row is in the file and names a table entry; then out[base+x] is the colour of pixel x, and nothing outside the row changes |
| BmpPaletted.ExtractPalettedNoneIntended | sfl_bmp.h:484-530 | corrected (Findings rows 1-3): succeeds exactly when the output has width*height cells and every pixel is in the file and in the table. Output (x, y) is then the colour of nibble x of file row FileRow(y), each row starting one pitch after the last |
| BmpDecode.ExtractFields | sfl_bmp.h:371-411 | the width, \|height\| and the size ImageSize of the signed height; pitch, FLIPPED and format by depth, except on the paletted path, which is B8G8R8A8 with pitch width*4 and no attributes; an unknown depth leaves the format alone |
| BmpDecode.IntendedFields | sfl_bmp.h:378 | corrected (Findings row 5): the fields of ExtractFields with the size taken over \|height\| rows; all the same for a non-negative height |
| BmpDecode.RawResult | sfl_bmp.h:419-423 | extract_raw succeeds exactly when `size` is positive and that many bytes follow the cursor |
| BmpDecode.PalettedResult | sfl_bmp.h:427-482 | success needs the colour table in the file and compression NONE, and then holds exactly when the loop as written finds every byte it reads |
| BmpDecode.PalettedNeedsBytes | sfl_bmp.h:463-476 | once the table is read and compression is NONE, a non-empty image decodes exactly when width*height bytes follow the pixel offset |
| BmpDecode.IntendedPalettedResult | sfl_bmp.h:427-482 | corrected (Findings rows 1-3): success needs the colour table, compression NONE, an output buffer whose 32-bit size does not wrap, and every pixel decodable |
| BmpDecode.ExtractResult | sfl_bmp.h:388-424 | success only for depths 32, 24, 16 and 4. On the raw depths it holds exactly when ImageSize of the signed height can be read; on depth 4 it is PalettedResult |
| BmpDecode.IntendedResult | sfl_bmp.h:388-424 | corrected (Findings row 5): the raw depths read pitch * \|height\| bytes; ExtractResult and this agree for a non-negative height |
| BmpDecode.DecodeResult | sfl_bmp.h:297-364 | success needs the header and the "BM" signature. A 40-byte info header always succeeds, a complete 124-byte one succeeds exactly when extract does, and any other size fails |
| BmpDecode.ExtractRaw | sfl_bmp.h:414-424 | the result follows the read of `size` bytes, and the descriptor's data is never set |
| BmpDecode.ExtractRawIntended | sfl_bmp.h:414-424 | corrected (Findings row 4): on success the descriptor holds exactly the `size` bytes read; its fields are unchanged |
| BmpDecode.ExtractPaletted | sfl_bmp.h:427-482 | the descriptor becomes B8G8R8A8 with pitch width*4 and no attributes, and receives a fresh buffer of U32(height*width*4)/4 cells before the table is read. The result is PalettedResult, and on success every cell holds the colour of the last table entry the loop stored there |
| BmpDecode.ExtractPalettedIntended | sfl_bmp.h:427-482 | corrected (Findings rows 1-3): the same descriptor fields; the result is IntendedPalettedResult, and on success every pixel holds its colour |
| BmpDecode.Extract | sfl_bmp.h:366-412 | the descriptor's fields are ExtractFields and the result is ExtractResult. The raw depths leave the data field as it was; depth 4 gives a fresh buffer filled by the loop as written |
| BmpDecode.ExtractIntended | sfl_bmp.h:366-412 | corrected (Findings rows 1-5): the fields are IntendedFields, the result IntendedResult, and on success the data is the raw bytes or the expanded palette image |
| BmpDecode.Decode124 | sfl_bmp.h:338-364 | a missing info header fails and leaves the descriptor alone; otherwise extract runs on the settings of the two headers with the cursor after the info header |
| BmpDecode.Decode | sfl_bmp.h:297-336 | the result is DecodeResult; unless a V5 header is reached the descriptor is untouched; after a 40-byte header the cursor is back at the info header; after a V5 header the descriptor is what Extract leaves |
| BmpDecode.V5File | sfl_bmp.h:297-355 | a "BM" file header followed by a 124-byte info header reaches extract with the settings of those two headers |
| BmpDecode.OneBitFails | sfl_bmp.h:408-410 | any V5 file of 1 bit per pixel reaches extract and fails |
| BmpDecode.GeneratedOneBitFileFails | sfl_bmp.h:408-410 | the 2x2, 1-bit V5 file that misc/bmp_generate.c writes reaches extract (offset 146, depth 1) and is rejected |
| BmpDecode.TopDownPixelFails | sfl_bmp.h:375-423 | any V5 file of one top-down 32-bit pixel whose 4 bytes follow the headers fails to decode, where the corrected extract succeeds |
| BmpDecode.TopDownPixelFileFails | sfl_bmp.h:375-423 | one such file, 142 bytes long: its size is 2^32 - 4 and decoding returns 0 (Findings row 5) |
| BmpDecode.StoredPixelAt | sfl_bmp.h:427-530 | in a decoded 4-bit image without num_colors whose buffer size does not wrap, pixel (x, y) holds the colour of the entry PalettedNonePixels names for it |
| BmpDecode.FullPaletteNeedsOnlyBytes | sfl_bmp.h:433-438 | corrected (Findings rows 2 and 3): with the full 16-entry table, the corrected decoder accepts a 4-bit image exactly when all its row bytes are in the file |
| BmpDecode.RowOrder | sfl_bmp.h:489-499 | bottom-up images have their rows reversed, top-down images keep them, and every row maps into the image |
| Uuid.HexDigit | sfl_uuid.h:137-153 | the digit of a nibble is a lowercase hexadecimal digit |
| Uuid.HashState.constructor | sfl_uuid.h:81 | the static multiplier starts at 0x43b0d7e5 |
| Uuid.HashState.Hash | sfl_uuid.h:79-87 | the value is mixed with the multiplier the call found, and the multiplier advances by a factor of 0x931e8875 mod 2^32 |
| Uuid.HashDependsOnCallHistory | sfl_uuid.h:79-87 | the same argument hashes differently on the first and the second call |
| Uuid.LeRoundTrip | sfl_uuid.h:22-34 | reading the eight bytes of a qword back gives the qword |
| Uuid.UuidContext.SplitMix64 | sfl_uuid.h:62-68 | the seed advances by 0x9E3779B97F4A7C15 mod 2^64 and the output is the splitmix64 mix of the new seed |
| Uuid.UuidContext.Randomize | sfl_uuid.h:96-100 | the seed advances by twice the increment and the 16 bytes are those of two consecutive outputs |
| Uuid.RandomBytesWords | sfl_uuid.h:96-100 | qwords 0 and 1 of the random bytes are the first and the second splitmix64 output |
| Uuid.PatchVersion | sfl_uuid.h:131 | the high nibble becomes 4 and the low nibble is kept |
| Uuid.PatchVariant | sfl_uuid.h:132 | the top two bits become 10 and the low six bits are kept |
| Uuid.ApplyV4 | sfl_uuid.h:128-133 | the result is a version-4, RFC 4122 variant UUID; the low nibble of byte 6, the low six bits of byte 8 and the other 14 bytes are the random ones |
| Uuid.ApplyV4FixesExactlyV4 | sfl_uuid.h:131-132 | the patching leaves a UUID unchanged exactly when it already is version 4 of the RFC 4122 variant |
| Uuid.UuidContext.GenV4 | sfl_uuid.h:128-133 | the UUID is the patched random bytes of the old seed, which advances by two steps |
| Uuid.HexOfAt | sfl_uuid.h:159-162 | byte k is rendered at characters 2k and 2k+1 as the digits of its high and low nibbles |
| Uuid.HexOfDigits | sfl_uuid.h:137-153 | every character of a rendered byte string is a lowercase hexadecimal digit |
| Uuid.CanonicalLayout | sfl_uuid.h:154-166 | of the 36 characters exactly positions 8, 13, 18 and 23 are hyphens; all others are lowercase hexadecimal digits |
| Uuid.CanonicalByteAt | sfl_uuid.h:157-163 | in index order, byte i appears at its group position as its high then its low nibble digit |
| Uuid.ParseHexOf | sfl_uuid.h:157-163 | parsing the hexadecimal rendering of any bytes gives back those bytes |
| Uuid.ParseCanonicalRoundTrip | sfl_uuid.h:154-167 | parsing the canonical string of a UUID gives back the UUID |
| Uuid.CanonicalInjective | sfl_uuid.h:154-167 | distinct UUIDs have distinct strings |
| Uuid.WriteHex | sfl_uuid.h:158-163 | the inner loop writes the hexadecimal rendering of the group's bytes and nothing else |
| Uuid.UuidContext.constructor | sfl_uuid.h:37-39 | the context holds the given seed |
| Uuid.ToString | sfl_uuid.h:135-168 | the first 37 characters of the buffer are the canonical string and a NUL, matching SFL_UUID_BUFFER_SIZE; nothing after them changes |

## Left out

- **Windows I/O.** These are not modelled:
  - `CreateFileW`, the completion port and overlapped reads;
  - `ReadDirectoryChangesW`, `GetQueuedCompletionStatus`, `sfl__fs_watch_poll` with its retry on an aborted operation, and `sfl_fs_watch_wait`;
  - `GetFullPathNameW` and `PathIsRelativeW`.

  They are operating-system calls. The path reaches `Add` already absolute. The probe result and the parent path are parameters.
- **Text conversion.** `WideCharToMultiByte`/`MultiByteToWideChar` are foreign library calls. Paths are opaque strings, and notification names are their UTF-16 code units.
- FsWatchWin32.WatchContext.Add: keeps the directory ring and each child ring as sequences read from the head. The link rewiring that `sfl_fs_watch_list_node_append` does is proved separately in `FsWatchRing`, not on the entries themselves.
- FsWatchWin32.FileName: takes FileNameLength / 2 code units. The length-0 case, where the conversion falls back to `wcslen`, is not modelled, because it reads beyond the record.
- **Teardown.** `sfl_fs_watch_deinit`, the Linux `sfl_fs_watch_wait` stub, `sfl_fs_watch_sb_free` and every `free` release memory or do nothing, so they have nothing to model.
- **Linux syscalls.** `inotify_init1`, `inotify_add_watch` and `read` are inputs. The bytes `read` returns are not modelled, because `poll` never looks at them.
- FsWatchLinux.WatchContext.Poll: requires that some read eventually returns 0 or fails. An endless stream of data would keep the C loop running forever.
- FsWatchStretchy.StretchyBuffer.Growf: assumes `realloc` succeeds. The failure path, which returns a bogus address, and the `int` overflow of `itemsize * m` are not modelled.
- BmpLayout.RowPitch: is the exact integer ceiling. The C code computes it in `float`, which agrees only while bpp * width is at most 2^24.
- BmpLayout.DescHeight: negates the header height as an unbounded integer. For INT32_MIN the C negation is undefined behaviour.
- **Allocation.** Allocation in `extract_raw` and `extract_paletted` always succeeds. Its failure paths and the custom io/memory implementations are not modelled; the stream is the stdio adapter's behaviour over an in-memory file.
- BmpStream.Stream.Read: does not move the cursor on a failed read. A short `fread` in stdio may leave the cursor after the bytes it did read.
- **Unused entry points.** `sfl_bmp_read_context_init` only stores its arguments, and the `tell` callback is never called by the decoder.
- **Paletted decoding as written.** The loop is modelled as the list of stores it makes (`BmpPaletted.Rows`). `ExtractPalettedNone` runs it on the output array.
- BmpPaletted.Store: skips a store whose index is outside the output buffer or whose nibble is past the colour table. In C such a store writes or reads outside an allocation, which is undefined behaviour.
- BmpDecode.ExtractPaletted: says nothing about a cell that no store reaches, or whose last store names no table entry. The C buffer starts with unspecified contents, and such a cell is read from past the table.
- **Corrected decoder.** `Decode` and `Decode124` call the extract as written. The corrected chain ends at `ExtractIntended`; a corrected `Decode` would repeat `Decode` with one call changed, so it is not written out.
- **sfl_uuid_init** seeds from the performance counter, process and thread IDs and code addresses. It is platform-only, so `UuidContext` takes its seed as a parameter.
- Uuid.Mix: carries no contract. `sfl_uuid__mix` promises only that its result depends on nothing but its arguments, which a Dafny function guarantees.
- **Host byte order.** The UUID union is read little-endian; the big-endian layout is not modelled.

## Findings

| source | as written | input that shows it | evidently intended | confidence | as-written member | corrected member |
|---|---|---|---|---|---|---|
| sfl_bmp.h:518-523 | The low nibble of each byte is stored at width*y + x + 1, and `x < width` always holds there. The last byte of the last output row therefore stores at width*height. | A 1x1 image with pixel byte 0x12: the 2 goes to index 1 of a one-pixel output. | Every store lands inside the width*height output. | not executed | BmpPaletted.WritesPastOutput, BmpPaletted.OnePixelOverrun | BmpPaletted.ExtractPalettedNoneIntended |
| sfl_bmp.h:496-526 | `x` moves on by one per byte read, so a row consumes `width` bytes and pixel x becomes the high nibble of byte x. The pitch is never used. | A 2x1 image with bytes 0xAB 0xCD: pixel 1 becomes 0xC instead of 0xB. | Pixel x is nibble x % 2 of byte x / 2, and each file row starts one pitch after the previous one. | not executed | BmpPaletted.OneNibblePerByte, BmpPaletted.PalettedNonePixels | BmpPaletted.ExpandRowIntended, BmpPaletted.ExtractPalettedNoneIntended |
| sfl_bmp.h:520-523 | The nibbles index the colour table without being checked against num_colors. | num_colors 1 and byte 0x10: entry 1 of a one-entry table is read. | Decoding fails when a nibble names no table entry. | not executed | BmpPaletted.NibbleOverrunsTable | BmpPaletted.ExtractPalettedNoneIntended |
| sfl_bmp.h:419-423 | `extract_raw` reads the pixel bytes into `memory` but never stores it in `desc->data`. | Any 32-bit file: decoding succeeds and `desc->data` is unchanged. | `desc->data` holds the `size` bytes read. | not executed | BmpDecode.ExtractRaw | BmpDecode.ExtractRawIntended |
| sfl_bmp.h:378 | The size is taken before the height of a top-down image is made positive. | A 32-bit image of width 1 and height -1 with its 4 pixel bytes: the size becomes 2^32 - 4 and decoding fails. | The size is pitch * \|height\|. | not executed | BmpLayout.ImageSize, BmpLayout.TopDownSizeWraps, BmpDecode.TopDownPixelFileFails | BmpLayout.ImageSizeIntended, BmpDecode.ExtractIntended |
