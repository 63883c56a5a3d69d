/**
 * The ICO save routine: it writes the header, then for each size its
 * directory entry; after each entry it remembers the cursor, seeks to the
 * running payload offset, writes the frame's PNG bytes there, advances the
 * offset and seeks back.  The frames (the PNG encodings of the resized
 * image) are given.
 */
module IcoWriter {
  import opened Options
  import opened LittleEndian
  import opened BinaryFiles
  import opened IcoFormat

  /**
   * What follows the first i entries while the loop runs: nothing until
   * some frame data has been written; after that, zero filler where the
   * remaining n - i entries go, then the data of frames 0..i-1.
   */
  ghost function Filler(n: nat, frames: seq<seq<byte>>, i: nat): seq<byte>
    requires i <= n && i <= |frames|
  {
    if TotalLength(frames[..i]) == 0 then []
    else Zeros(16 * (n - i)) + Concat(frames[..i])
  }

  /** The file after the header and the first i entries and frames. */
  ghost function Partial(sizes: seq<FrameSize>, frames: seq<seq<byte>>, i: nat): seq<byte>
    requires i <= |sizes| == |frames| && |sizes| < 0x1_0000
    requires forall j :: 0 <= j < i ==> EntryPackable(sizes, frames, j)
  {
    Header(|sizes|) + Directory(sizes, frames, i) + Filler(|sizes|, frames, i)
  }

  /** Overwriting the first k bytes of a + b, where k <= |a|, leaves the rest of a, then b. */
  lemma DropConcat(a: seq<byte>, b: seq<byte>, k: nat)
    requires k <= |a|
    ensures Drop(a + b, k) == Drop(a, k) + b
  {
    assert (a + b)[k..] == a[k..] + b;
  }

  /** Filler after entry i is written over: the filler for round i + 1, before frame i is added. */
  lemma FillerAfterEntry(n: nat, frames: seq<seq<byte>>, i: nat)
    requires i < n && i < |frames|
    ensures TotalLength(frames[..i]) == 0 ==> Drop(Filler(n, frames, i), EntrySize) == []
    ensures TotalLength(frames[..i]) != 0 ==>
      Drop(Filler(n, frames, i), EntrySize) == Zeros(16 * (n - i - 1)) + Concat(frames[..i])
  {
    if TotalLength(frames[..i]) != 0 {
      DropConcat(Zeros(16 * (n - i)), Concat(frames[..i]), EntrySize);
      assert Drop(Zeros(16 * (n - i)), EntrySize) == Zeros(16 * (n - i - 1));
    }
  }

  /** The header and first i entries, followed by entry i, are the header and first i + 1 entries. */
  lemma EntryStep(sizes: seq<FrameSize>, frames: seq<seq<byte>>, i: nat)
    requires i < |sizes| == |frames| && |sizes| < 0x1_0000
    requires forall j :: 0 <= j <= i ==> EntryPackable(sizes, frames, j)
    ensures Header(|sizes|) + Directory(sizes, frames, i) + DirEntry(sizes, frames, i) ==
            Header(|sizes|) + Directory(sizes, frames, i + 1)
  {
  }

  /** Appending d to a file that ends exactly where b + c ends. */
  lemma AppendAtEnd(a: seq<byte>, b: seq<byte>, c: seq<byte>, at: nat, d: seq<byte>)
    requires |a| + |b| + |c| == at && |d| > 0
    ensures WriteAt(a + (b + c), at, d) == a + (b + (c + d))
  {
    WriteBeyondEnd(a + (b + c), at, d);
    assert Zeros(0) == [];
  }

  /**
   * Once entry i is in place (pre is the header and the first i + 1
   * entries), writing frame i at its offset gives the file after i + 1
   * rounds: the data lands right after earlier frame data or, for the
   * first non-empty frame, after zero filler up to the end of the directory.
   */
  lemma PayloadStep(n: nat, frames: seq<seq<byte>>, i: nat, pre: seq<byte>)
    requires i < n && i < |frames| && |pre| == EntryStart(i + 1)
    ensures WriteAt(pre + Drop(Filler(n, frames, i), EntrySize), PayloadOffset(n, frames, i), frames[i]) ==
            pre + Filler(n, frames, i + 1)
  {
    if |frames[i]| == 0 {
      EmptyPayload(n, frames, i, pre);
    } else if TotalLength(frames[..i]) == 0 {
      FirstPayload(n, frames, i, pre);
    } else {
      LaterPayload(n, frames, i, pre);
    }
  }

  /** An empty frame writes nothing and leaves the state of round i + 1 as it was. */
  lemma EmptyPayload(n: nat, frames: seq<seq<byte>>, i: nat, pre: seq<byte>)
    requires i < n && i < |frames| && |frames[i]| == 0
    ensures WriteAt(pre + Drop(Filler(n, frames, i), EntrySize), PayloadOffset(n, frames, i), frames[i]) ==
            pre + Filler(n, frames, i + 1)
  {
    PrefixStep(frames, i);
    FillerAfterEntry(n, frames, i);
    assert Concat(frames[..i + 1]) == Concat(frames[..i]);
  }

  /** The first non-empty frame goes after zero filler that reaches the end of the directory. */
  lemma FirstPayload(n: nat, frames: seq<seq<byte>>, i: nat, pre: seq<byte>)
    requires i < n && i < |frames| && |pre| == EntryStart(i + 1)
    requires TotalLength(frames[..i]) == 0 && |frames[i]| > 0
    ensures WriteAt(pre + Drop(Filler(n, frames, i), EntrySize), PayloadOffset(n, frames, i), frames[i]) ==
            pre + Filler(n, frames, i + 1)
  {
    PrefixStep(frames, i);
    FillerAfterEntry(n, frames, i);
    assert pre + Drop(Filler(n, frames, i), EntrySize) == pre;
    assert Concat(frames[..i]) == [];
    assert Concat(frames[..i + 1]) == frames[i];
    WriteBeyondEnd(pre, PayloadOffset(n, frames, i), frames[i]);
  }

  /** A later non-empty frame goes right after the previous frames' data. */
  lemma LaterPayload(n: nat, frames: seq<seq<byte>>, i: nat, pre: seq<byte>)
    requires i < n && i < |frames| && |pre| == EntryStart(i + 1)
    requires TotalLength(frames[..i]) != 0 && |frames[i]| > 0
    ensures WriteAt(pre + Drop(Filler(n, frames, i), EntrySize), PayloadOffset(n, frames, i), frames[i]) ==
            pre + Filler(n, frames, i + 1)
  {
    PrefixStep(frames, i);
    FillerAfterEntry(n, frames, i);
    AppendAtEnd(pre, Zeros(16 * (n - i - 1)), Concat(frames[..i]), PayloadOffset(n, frames, i), frames[i]);
  }

  /**
   * One round of the loop: entry i written over the cursor's place, then
   * frame i at its offset, turn the file after i rounds into the file after
   * i + 1 rounds.
   */
  lemma RoundStep(sizes: seq<FrameSize>, frames: seq<seq<byte>>, i: nat)
    requires i < |sizes| == |frames| && |sizes| < 0x1_0000
    requires forall j :: 0 <= j <= i ==> EntryPackable(sizes, frames, j)
    ensures WriteAt(WriteAt(Partial(sizes, frames, i), EntryStart(i), DirEntry(sizes, frames, i)),
                    PayloadOffset(|sizes|, frames, i), frames[i]) ==
            Partial(sizes, frames, i + 1)
  {
    var n := |sizes|;
    WriteOver(Header(n) + Directory(sizes, frames, i), DirEntry(sizes, frames, i), Filler(n, frames, i));
    EntryStep(sizes, frames, i);
    PayloadStep(n, frames, i, Header(n) + Directory(sizes, frames, i + 1));
  }

  /**
   * Packs and writes the directory entry of frame i at the cursor: width
   * and height ("B"), four zero bytes, the bit count ("<H"), the frame's
   * length and its offset ("<I").  ok is false when a field does not fit
   * its format, which makes `struct.pack` raise.
   */
  method WriteEntry(file: BinaryFile, sizes: seq<FrameSize>, frames: seq<seq<byte>>, i: nat, offset: nat)
    returns (ok: bool)
    requires i < |sizes| == |frames|
    requires offset == PayloadOffset(|sizes|, frames, i)
    modifies file
    ensures ok <==> EntryPackable(sizes, frames, i)
    ensures ok ==> file.contents == WriteAt(old(file.contents), old(file.position), DirEntry(sizes, frames, i))
    ensures ok ==> file.position == old(file.position) + EntrySize
  {
    var width := Pack(sizes[i].width, U8);
    if width.None? {
      return false;
    }
    var height := Pack(sizes[i].height, U8);
    if height.None? {
      return false;
    }
    var bitCount := Pack(BitCount, U16);
    var length := Pack(|frames[i]|, U32);
    if length.None? {
      return false;
    }
    var offsetField := Pack(offset, U32);
    if offsetField.None? {
      return false;
    }
    EncodingUnique(sizes[i].width, width.value);
    EncodingUnique(sizes[i].height, height.value);
    EncodingUnique(BitCount, bitCount.value);
    EncodingUnique(|frames[i]|, length.value);
    EncodingUnique(offset, offsetField.value);

    ghost var s, at := file.contents, file.position;
    file.Write(width.value);
    file.Write(height.value);
    WriteSequential(s, at, width.value, height.value);
    ghost var written := width.value + height.value;
    file.Write(EntryZeros);
    WriteSequential(s, at, written, EntryZeros);
    written := written + EntryZeros;
    file.Write(bitCount.value);
    WriteSequential(s, at, written, bitCount.value);
    written := written + bitCount.value;
    file.Write(length.value);
    WriteSequential(s, at, written, length.value);
    written := written + length.value;
    file.Write(offsetField.value);
    WriteSequential(s, at, written, offsetField.value);
    written := written + offsetField.value;
    assert written == DirEntry(sizes, frames, i);
    return true;
  }

  /**
   * Writes a frame's data at the given offset and puts the cursor back
   * where it was: tell, seek, write, seek back.
   */
  method WritePayload(file: BinaryFile, offset: nat, data: seq<byte>)
    modifies file
    ensures file.contents == WriteAt(old(file.contents), offset, data)
    ensures file.position == old(file.position)
  {
    var current := file.Tell();
    file.Seek(offset);
    file.Write(data);
    file.Seek(current);
  }

  /** After all n rounds the file is the whole container. */
  lemma RoundsComplete(sizes: seq<FrameSize>, frames: seq<seq<byte>>)
    requires |sizes| == |frames| && Packable(sizes, frames)
    ensures Container(sizes, frames) == Some(Partial(sizes, frames, |sizes|))
  {
    assert frames[..|frames|] == frames;
    assert Zeros(0) == [];
    assert Filler(|sizes|, frames, |sizes|) == Concat(frames);
  }

  /**
   * The state of the loop after i rounds: the file holds the header, the
   * first i entries and the first i frames, the cursor is after entry i - 1,
   * and offset is where frame i goes.
   */
  ghost predicate RoundsWritten(sizes: seq<FrameSize>, frames: seq<seq<byte>>, i: nat,
                                contents: seq<byte>, position: nat, offset: nat)
  {
    i <= |sizes| == |frames| && |sizes| < 0x1_0000 &&
    (forall j :: 0 <= j < i ==> EntryPackable(sizes, frames, j)) &&
    position == EntryStart(i) && offset == PayloadOffset(|sizes|, frames, i) &&
    contents == Partial(sizes, frames, i)
  }

  /**
   * One pass of the loop over the sizes: entry i at the cursor, then frame i
   * at its offset, leaving the cursor after the entry.
   */
  method WriteRound(file: BinaryFile, sizes: seq<FrameSize>, frames: seq<seq<byte>>, i: nat, offset: nat)
    returns (ok: bool, next: nat)
    requires i < |sizes|
    requires RoundsWritten(sizes, frames, i, file.contents, file.position, offset)
    modifies file
    ensures ok <==> EntryPackable(sizes, frames, i)
    ensures ok ==> next == offset + |frames[i]|
    ensures ok ==> RoundsWritten(sizes, frames, i + 1, file.contents, file.position, next)
  {
    ok := WriteEntry(file, sizes, frames, i, offset);
    if !ok {
      return ok, offset;
    }
    WritePayload(file, offset, frames[i]);
    RoundStep(sizes, frames, i);
    next := offset + |frames[i]|;
    PrefixStep(frames, i);
  }

  /**
   * Writes the ICONDIR header into the freshly opened file: reserved 0 and
   * type 1, then the image count.  ok is false when the count does not fit
   * a u16.
   */
  method WriteHeader(file: BinaryFile, n: nat) returns (ok: bool)
    requires file.contents == [] && file.position == 0
    modifies file
    ensures ok <==> n < 0x1_0000
    ensures ok ==> file.contents == Header(n) && file.position == HeaderSize
  {
    file.Write(IconDirPrefix);
    var count := Pack(n, U16);
    if count.None? {
      return false;
    }
    EncodingUnique(n, count.value);
    file.Write(count.value);
    return true;
  }

  /**
   * The loop over the sizes, run on a file that holds the header: each
   * round writes one entry and its frame.  It stops at the first entry
   * whose fields do not fit their formats.
   */
  method WriteRounds(file: BinaryFile, sizes: seq<FrameSize>, frames: seq<seq<byte>>) returns (ok: bool)
    requires |sizes| == |frames| && |sizes| < 0x1_0000
    requires file.contents == Header(|sizes|) && file.position == HeaderSize
    modifies file
    ensures ok <==> forall j :: 0 <= j < |sizes| ==> EntryPackable(sizes, frames, j)
    ensures ok ==> file.contents == Partial(sizes, frames, |sizes|)
  {
    var n := |sizes|;
    var start := file.Tell();
    var offset: nat := start + n * 16;
    var i := 0;
    assert frames[..0] == [];
    while i < n
      invariant RoundsWritten(sizes, frames, i, file.contents, file.position, offset)
    {
      ok, offset := WriteRound(file, sizes, frames, i, offset);
      if !ok {
        return;
      }
      i := i + 1;
    }
    return true;
  }

  /**
   * Writes the icon file for the given sizes and frames (frames[i] is the
   * image data for sizes[i]).  ok is false when some `struct.pack` call
   * would raise; the file then holds whatever was written before it.
   */
  method WriteIcon(sizes: seq<FrameSize>, frames: seq<seq<byte>>) returns (file: BinaryFile, ok: bool)
    requires |sizes| == |frames|
    ensures fresh(file)
    ensures ok <==> Packable(sizes, frames)
    ensures ok ==> Container(sizes, frames) == Some(file.contents)
  {
    file := new BinaryFile();
    ok := WriteHeader(file, |sizes|);
    if !ok {
      return;
    }
    ok := WriteRounds(file, sizes, frames);
    if ok {
      RoundsComplete(sizes, frames);
    }
  }
}
