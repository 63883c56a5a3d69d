# PyIcoMaker ICO writer, modelled in Dafny

PyIcoMaker turns one image into a Windows icon (`.ico`) file holding the
image at seven square sizes. The part of the program with real logic is the
save handler `IcoMakerFrame.on_savefile_click`. It writes the ICO container
byte by byte into a seekable file:

- the 6-byte ICONDIR header: reserved `00 00`, type `01 00` (icon), image count `07 00`;
- for each size in order, a 16-byte ICONDIRENTRY: width byte, height byte,
  four zero bytes, bit count 32 (u16), image-data length (u32) and image-data
  offset (u32), all little-endian;
- after each entry: remember the cursor (`tell`), seek to the running
  offset, write the frame's PNG bytes, advance the offset by their length,
  and seek back.

This project models that writer and proves the file it leaves behind has a
fixed layout. The file is exactly `header ++ entries ++ frames`, with no
gaps and no overlap. Entry *i* records the length and offset of frame *i*,
and reading that range gives frame *i* back.

Modules:

- `Options` (options.dfy): `Option`, where `None` stands for a call that raised.
- `LittleEndian` (little_endian.dfy): the `struct.pack` formats `"B"`, `"<H"`
  and `"<I"` as `Pack(x, n)`, their decoder `FromLE`, and round-trip lemmas.
- `BinaryFiles` (binary_file.dfy): the file opened with `'wb'`. It is a class
  with a byte sequence and a cursor, plus `Tell`, `Seek` and `Write`. The
  function `WriteAt` gives the contents after a write. Writing overwrites at
  the cursor and extends the file past its end. A gap left by seeking
  beyond the end reads as zero bytes. An empty write changes nothing.
- `IcoFormat` (ico_format.dfy): the container the writer must produce
  (`Container`), and lemmas about it: header and entry fields, frame
  placement, contiguous offsets, disjoint ranges, when packing succeeds,
  and facts about the program's fixed size list.
- `IcoWriter` (ico_writer.dfy): the save loop as imperative code on a
  `BinaryFile`. `WriteIcon` is proved to leave exactly `Container(sizes, frames)`
  in the file, or to fail exactly when a `struct.pack` call would raise.
  The loop invariant (`RoundsWritten`) gives the file after *i* rounds:
  - the header;
  - the first *i* entries;
  - once any frame data has been written, zero filler where the remaining
    entries will go, followed by frames 0..*i*-1.

The frames are inputs. `frames[i]` stands for the PNG bytes of the image
resized to `sizes[i]`.

## Model

| member | source | states |
|---|---|---|
| `LittleEndian.Pack` | PyIcoMaker.py:179-198 | `struct.pack` into an n-byte little-endian field succeeds exactly when 0 <= x < 256^n, and then yields n bytes that decode back to x |
| `LittleEndian.FromLE` | PyIcoMaker.py:184-198 | the value read from a little-endian field of k bytes is below 256^k |
| `LittleEndian.FromToLE` | PyIcoMaker.py:184-198 | decoding the n-byte encoding of a value that fits returns the value |
| `LittleEndian.ToFromLE` | PyIcoMaker.py:184-198 | re-encoding a decoded field at its own width returns the same bytes |
| `LittleEndian.EncodingUnique` | PyIcoMaker.py:184-198 | a field that decodes to x is the encoding of x, so every packed field is the canonical one |
| `BinaryFiles.WriteAt` | PyIcoMaker.py:200-203 | a write of nothing changes nothing; otherwise the file grows to the end of the write when it goes past the old end |
| `BinaryFiles.WriteAtBytes` | PyIcoMaker.py:200-203 | after a write the data sits at [at, at+len), every old byte outside that range is kept, and a gap past the old end reads as zero |
| `BinaryFiles.WriteOver` | PyIcoMaker.py:179-198 | writing at the end of a prefix replaces the bytes after it and keeps the rest |
| `BinaryFiles.WriteBeyondEnd` | PyIcoMaker.py:201-203 | writing at or past the end appends the data after zero filler up to the offset |
| `BinaryFiles.WriteSequential` | PyIcoMaker.py:179-198 | two writes, the second where the first left the cursor, have the effect of one write of both |
| `BinaryFiles.BinaryFile.constructor` | PyIcoMaker.py:142 | opening with `'wb'` gives an empty file with the cursor at 0 |
| `BinaryFiles.BinaryFile.Tell` | PyIcoMaker.py:173 | returns the cursor position |
| `BinaryFiles.BinaryFile.Seek` | PyIcoMaker.py:201-206 | moves only the cursor, to any position |
| `BinaryFiles.BinaryFile.Write` | PyIcoMaker.py:144-146 | the contents become `WriteAt` of the old contents at the cursor, and the cursor moves past the data |
| `IcoFormat.Concat` | PyIcoMaker.py:203-205 | the frames laid back to back are as long as the frame lengths summed |
| `IcoFormat.Entry` | PyIcoMaker.py:151-198 | an ICONDIRENTRY is 16 bytes |
| `IcoFormat.Directory` | PyIcoMaker.py:175-198 | k entries take 16k bytes |
| `IcoFormat.ConcatAt` | PyIcoMaker.py:203-205 | frame i occupies [sum of earlier lengths, + its length) of the concatenation |
| `IcoFormat.DirectoryAt` | PyIcoMaker.py:175-184 | entry i occupies [16i, 16i+16) of the directory |
| `IcoFormat.ContainerLength` | PyIcoMaker.py:173-206 | the file is 6 + 16N + the total frame length long, with no padding |
| `IcoFormat.HeaderFields` | PyIcoMaker.py:144-146 | bytes 0-3 are `00 00 01 00` and bytes 4-5 decode to the number of entries |
| `IcoFormat.EntryDecodes` | PyIcoMaker.py:177-198 | an entry's bytes decode to its width, its height, four zero bytes, bit count 32, its length and its offset |
| `IcoFormat.EntryAt` | PyIcoMaker.py:175-184 | entry i sits at [6+16i, 6+16i+16), which ends before the first frame's offset |
| `IcoFormat.EntryFields` | PyIcoMaker.py:177-198 | the entry at 6+16i holds frame i's width and height, zeros, 32, the length of frame i and the offset of frame i |
| `IcoFormat.PayloadAt` | PyIcoMaker.py:198-203 | reading [offset_i, offset_i + length_i) from the file returns frame i unchanged |
| `IcoFormat.OffsetsContiguous` | PyIcoMaker.py:173-205 | the first offset is 6 + 16N, and offset_{i+1} = offset_i + length_i |
| `IcoFormat.PayloadsDisjoint` | PyIcoMaker.py:173-205 | every frame, the last one included, starts after the directory; for i < j frame i ends no later than frame j starts, and frame i starts strictly before frame j when frame i is non-empty |
| `IcoFormat.PackableIff` | PyIcoMaker.py:179-198 | no pack raises if and only if N < 65536, every width and height is in [0, 255], and the last frame's length and offset fit a u32 |
| `IcoFormat.DefaultSizesFacts` | PyIcoMaker.py:146-149 | the program's list has 7 square sizes in [1, 255], so the packed count is `07 00`, the literal the program writes |
| `IcoFormat.DefaultDimensionBytesNonzero` | PyIcoMaker.py:148-158 | with the program's sizes, no width or height byte is 0, the value that means 256 |
| `IcoWriter.EntryStep` | PyIcoMaker.py:175-184 | the header and first i entries, followed by entry i, are the header and first i+1 entries |
| `IcoWriter.PayloadStep` | PyIcoMaker.py:200-206 | writing frame i at its offset over the file after entry i gives the file after round i+1 |
| `IcoWriter.EmptyPayload` | PyIcoMaker.py:200-206 | an empty frame leaves the file after round i as the file after round i+1 |
| `IcoWriter.FirstPayload` | PyIcoMaker.py:200-206 | the first non-empty frame lands after zero filler that reaches the end of the directory |
| `IcoWriter.LaterPayload` | PyIcoMaker.py:200-206 | a later non-empty frame lands right after the earlier frames' data |
| `IcoWriter.RoundStep` | PyIcoMaker.py:175-206 | one round (entry at the cursor, then frame at the offset) takes the file after i rounds to the file after i+1 rounds |
| `IcoWriter.RoundsComplete` | PyIcoMaker.py:175-206 | after all N rounds the file is the whole container |
| `IcoWriter.WriteHeader` | PyIcoMaker.py:142-146 | the new file holds `00 00 01 00` plus the u16 count, with the cursor at 6, or fails when the count does not fit |
| `IcoWriter.WriteEntry` | PyIcoMaker.py:177-198 | packs entry i field by field and writes it at the cursor; fails exactly when that entry has a field that does not fit |
| `IcoWriter.WritePayload` | PyIcoMaker.py:200-206 | tell, seek to the offset, write the frame, seek back: the frame is written at the offset and the cursor is where it was |
| `IcoWriter.WriteRound` | PyIcoMaker.py:175-206 | one pass of the loop fails exactly when entry i has a field that does not fit; otherwise the file gains entry i and frame i, the cursor moves 16 bytes, and the offset grows by the frame's length |
| `IcoWriter.WriteRounds` | PyIcoMaker.py:172-206 | the loop over the sizes succeeds exactly when every entry packs, and then leaves the header, all entries and all frames in the file |
| `IcoWriter.WriteIcon` | PyIcoMaker.py:141-206 | succeeds exactly when every field packs; the file is then byte for byte `Container(sizes, frames)`, i.e. header ++ entries ++ frames |

## Left out

- The wxPython shell is not modelled: frame construction, menus, status bar, about box, exit and the file dialogs (PyIcoMaker.py:45-116, 137-141, 224-238). It is user-interface wiring with no layout logic.
- The `show_ico_frames` preview (PyIcoMaker.py:117-131) is not modelled: it is on-screen drawing.
- `pil_image_to_wx_image` (PyIcoMaker.py:18-42) is not modelled: it converts between two image libraries whose behaviour is not visible.
- Resizing and PNG encoding (PyIcoMaker.py:187-194) are foreign library calls with floating-point resampling. Their results are the `frames` parameter. Any byte sequence is accepted, including an empty one. A failure of those calls is not modelled: `tmp.save` (PyIcoMaker.py:190) can raise after the first 8 bytes of the entry are already written.
- The flip, rotate and grayscale handlers (PyIcoMaker.py:208-222) are not modelled: each is a single image-library call.
- Real file I/O is replaced by the in-memory `BinaryFile`. I/O errors (disk full, permission) and closing the file are not modelled. Zero-filling a gap left by seeking past the end is the POSIX and `BytesIO` behaviour, assumed here.
- IcoWriter.WriteIcon: when a pack fails, it says nothing about the bytes already written. The program raises `struct.error` mid-write and leaves a truncated file. Only the failure itself is stated.
- IcoWriter.WriteIcon: takes the size list as a parameter and packs its length as the count. The program writes the literal `07 00` next to a fixed 7-element list. `IcoFormat.DefaultSizesFacts` shows the two agree for that list.

Behaviour of the code that the model keeps:

- The code checks nothing up front. A size of 0 packs to the byte 0, which readers take as 256. Only values outside [0, 255] make `struct.pack` raise.
- An empty size list is not rejected. The model then writes a 6-byte header with count 0.
- The code writes in place with seeks; `WriteIcon` is proved to produce the same bytes as the linear layout `Container`.
