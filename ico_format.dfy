/**
 * The ICO container as laid out by the writer: a 6-byte ICONDIR header,
 * one 16-byte ICONDIRENTRY per frame, then the frames' image data back to
 * back in directory order.  This module says what the file must hold; the
 * writer in IcoWriter is proved to produce exactly this.
 */
module IcoFormat {
  import opened Options
  import opened LittleEndian

  /** A requested frame size; the save handler packs each dimension into one byte. */
  datatype FrameSize = FrameSize(width: int, height: int)

  const HeaderSize: nat := 6
  const EntrySize: nat := 16
  /** wBitCount: every frame is stored as a 32-bit PNG. */
  const BitCount: nat := 32
  /** Reserved 0 and type 1 (icon), both as little-endian u16. */
  const IconDirPrefix: seq<byte> := [0, 0, 1, 0]
  /** bColorCount, bReserved and the two bytes of wPlanes, all zero. */
  const EntryZeros: seq<byte> := [0, 0, 0, 0]

  /** The sizes the save handler writes, in order. */
  const DefaultSizes: seq<FrameSize> :=
    [FrameSize(16, 16), FrameSize(24, 24), FrameSize(32, 32), FrameSize(48, 48),
     FrameSize(64, 64), FrameSize(128, 128), FrameSize(255, 255)]

  /** Sum of the frame lengths. */
  function TotalLength(frames: seq<seq<byte>>): nat
  {
    if frames == [] then 0 else TotalLength(frames[..|frames| - 1]) + |frames[|frames| - 1]|
  }

  /** The frames' bytes back to back, in order. */
  function Concat(frames: seq<seq<byte>>): (r: seq<byte>)
    ensures |r| == TotalLength(frames)
  {
    if frames == [] then [] else Concat(frames[..|frames| - 1]) + frames[|frames| - 1]
  }

  /** Where frame i's data starts: after the header, the n entries and frames 0..i-1. */
  function PayloadOffset(n: nat, frames: seq<seq<byte>>, i: nat): nat
    requires i <= |frames|
  {
    HeaderSize + 16 * n + TotalLength(frames[..i])
  }

  /** Entry i's fields fit the formats "B", "B", "<I", "<I" the save handler packs them with. */
  predicate EntryPackable(sizes: seq<FrameSize>, frames: seq<seq<byte>>, i: nat)
    requires i < |sizes| == |frames|
  {
    0 <= sizes[i].width < 0x100 && 0 <= sizes[i].height < 0x100 &&
    |frames[i]| < 0x1_0000_0000 && PayloadOffset(|sizes|, frames, i) < 0x1_0000_0000
  }

  /** Every field of the file fits its format, so no `struct.pack` call raises. */
  predicate Packable(sizes: seq<FrameSize>, frames: seq<seq<byte>>)
    requires |sizes| == |frames|
  {
    |sizes| < 0x1_0000 &&
    forall i :: 0 <= i < |sizes| ==> EntryPackable(sizes, frames, i)
  }

  /** The 6-byte ICONDIR: reserved 0, type 1, image count, all little-endian u16. */
  function Header(n: nat): seq<byte>
    requires n < 0x1_0000
  {
    IconDirPrefix + ToLE(n, U16)
  }

  /**
   * A 16-byte ICONDIRENTRY: width and height bytes, colour count, reserved
   * and planes all zero, the bit count, then the data's length and offset.
   */
  function Entry(width: byte, height: byte, length: nat, offset: nat): (r: seq<byte>)
    ensures |r| == EntrySize
  {
    ToLE(width, U8) + ToLE(height, U8) + EntryZeros +
    ToLE(BitCount, U16) + ToLE(length, U32) + ToLE(offset, U32)
  }

  /** The entry of frame i. */
  function DirEntry(sizes: seq<FrameSize>, frames: seq<seq<byte>>, i: nat): seq<byte>
    requires i < |sizes| == |frames|
    requires EntryPackable(sizes, frames, i)
  {
    Entry(sizes[i].width, sizes[i].height, |frames[i]|, PayloadOffset(|sizes|, frames, i))
  }

  /** The entries of frames 0..k-1, back to back. */
  function Directory(sizes: seq<FrameSize>, frames: seq<seq<byte>>, k: nat): (r: seq<byte>)
    requires k <= |sizes| == |frames|
    requires forall i :: 0 <= i < k ==> EntryPackable(sizes, frames, i)
    ensures |r| == 16 * k
  {
    if k == 0 then [] else Directory(sizes, frames, k - 1) + DirEntry(sizes, frames, k - 1)
  }

  /** The whole file: header, then the directory, then the frames; None when a field does not fit. */
  function Container(sizes: seq<FrameSize>, frames: seq<seq<byte>>): Option<seq<byte>>
    requires |sizes| == |frames|
  {
    if Packable(sizes, frames) then
      Some(Header(|sizes|) + Directory(sizes, frames, |sizes|) + Concat(frames))
    else
      None
  }

  // ---------------------------------------------------------------------------
  // Facts about prefixes of the frame list

  /** Extending the prefix by one frame adds that frame at the end. */
  lemma PrefixStep(frames: seq<seq<byte>>, i: nat)
    requires i < |frames|
    ensures TotalLength(frames[..i + 1]) == TotalLength(frames[..i]) + |frames[i]|
    ensures Concat(frames[..i + 1]) == Concat(frames[..i]) + frames[i]
  {
    assert frames[..i + 1][..i] == frames[..i];
  }

  /** Frame j starts no earlier than frame i ends, for i < j. */
  lemma {:induction false} PrefixLengthMonotone(frames: seq<seq<byte>>, i: nat, j: nat)
    requires i < j <= |frames|
    ensures TotalLength(frames[..i]) + |frames[i]| <= TotalLength(frames[..j])
    decreases j - i
  {
    PrefixStep(frames, i);
    if i + 1 < j {
      PrefixLengthMonotone(frames, i + 1, j);
      PrefixStep(frames, i + 1);
    }
  }

  /** Frame i lies at [TotalLength(frames[..i]), +|frames[i]|) of the concatenation. */
  lemma {:induction false} ConcatAt(frames: seq<seq<byte>>, i: nat)
    requires i < |frames|
    ensures TotalLength(frames[..i]) + |frames[i]| <= TotalLength(frames)
    ensures Concat(frames)[TotalLength(frames[..i])..TotalLength(frames[..i]) + |frames[i]|] == frames[i]
  {
    var init := frames[..|frames| - 1];
    assert Concat(frames) == Concat(init) + frames[|frames| - 1];
    if i == |frames| - 1 {
      assert frames[..i] == init;
    } else {
      ConcatAt(init, i);
      assert init[..i] == frames[..i];
      assert Concat(frames)[..|Concat(init)|] == Concat(init);
    }
  }

  /** Entry i lies at [16i, 16i+16) of the directory. */
  lemma {:induction false} DirectoryAt(sizes: seq<FrameSize>, frames: seq<seq<byte>>, k: nat, i: nat)
    requires i < k <= |sizes| == |frames|
    requires forall j :: 0 <= j < k ==> EntryPackable(sizes, frames, j)
    ensures Directory(sizes, frames, k)[16 * i..16 * i + 16] == DirEntry(sizes, frames, i)
  {
    if i < k - 1 {
      DirectoryAt(sizes, frames, k - 1, i);
      var prev := Directory(sizes, frames, k - 1);
      assert Directory(sizes, frames, k)[..|prev|] == prev;
    }
  }

  // ---------------------------------------------------------------------------
  // Properties of the container

  /** Byte position of entry i. */
  function EntryStart(i: nat): nat
  {
    HeaderSize + 16 * i
  }

  /** Every requested width and height fits the one-byte format "B". */
  predicate DimensionsFit(sizes: seq<FrameSize>)
  {
    forall i :: 0 <= i < |sizes| ==> 0 <= sizes[i].width < 0x100 && 0 <= sizes[i].height < 0x100
  }

  /** The file is header ++ entries ++ frames, with no padding: 6 + 16N + the frame lengths. */
  lemma ContainerLength(sizes: seq<FrameSize>, frames: seq<seq<byte>>, c: seq<byte>)
    requires |sizes| == |frames| && Container(sizes, frames) == Some(c)
    ensures |c| == HeaderSize + 16 * |sizes| + TotalLength(frames)
  {
  }

  /** Bytes 0-3 are 00 00 01 00 and bytes 4-5 decode to the number of entries. */
  lemma HeaderFields(sizes: seq<FrameSize>, frames: seq<seq<byte>>, c: seq<byte>)
    requires |sizes| == |frames| && Container(sizes, frames) == Some(c)
    ensures c[..4] == [0, 0, 1, 0]
    ensures FromLE(c[4..6]) == |sizes|
  {
    assert c[..6] == Header(|sizes|);
    assert c[4..6] == ToLE(|sizes|, U16);
    FromToLE(|sizes|, U16);
  }

  /** The fields of an entry decode to its width, height, bit count, length and offset. */
  lemma EntryDecodes(width: byte, height: byte, length: nat, offset: nat)
    requires length < 0x1_0000_0000 && offset < 0x1_0000_0000
    ensures var e := Entry(width, height, length, offset);
      e[0] == width && e[1] == height &&
      e[2..6] == [0, 0, 0, 0] &&
      FromLE(e[6..8]) == BitCount &&
      FromLE(e[8..12]) == length &&
      FromLE(e[12..16]) == offset
  {
    var front := ToLE(width, U8) + ToLE(height, U8) + EntryZeros + ToLE(BitCount, U16) + ToLE(length, U32);
    var e := front + ToLE(offset, U32);
    assert |front| == 12;
    assert e[6..8] == ToLE(BitCount, U16);
    assert e[8..12] == ToLE(length, U32);
    assert e[12..16] == ToLE(offset, U32);
    Pow256Values();
    FromToLE(BitCount, U16);
    FromToLE(length, U32);
    FromToLE(offset, U32);
  }

  /** Entry i sits at [6+16i, 6+16i+16) of the file, before the first frame. */
  lemma EntryAt(sizes: seq<FrameSize>, frames: seq<seq<byte>>, c: seq<byte>, i: nat)
    requires |sizes| == |frames| && Container(sizes, frames) == Some(c)
    requires i < |sizes|
    ensures EntryStart(i) + EntrySize <= PayloadOffset(|sizes|, frames, 0) <= |c|
    ensures c[EntryStart(i)..EntryStart(i) + EntrySize] == DirEntry(sizes, frames, i)
  {
    var n := |sizes|;
    var dir := Directory(sizes, frames, n);
    assert c == Header(n) + dir + Concat(frames);
    assert frames[..0] == [];
    DirectoryAt(sizes, frames, n, i);
    SliceOfMiddle(Header(n), dir, Concat(frames), 16 * i, 16 * i + 16);
  }

  /** The entry at [6+16i, 6+16i+16) holds frame i's size, bit count, length and offset. */
  lemma EntryFields(sizes: seq<FrameSize>, frames: seq<seq<byte>>, c: seq<byte>, i: nat)
    requires |sizes| == |frames| && Container(sizes, frames) == Some(c)
    requires i < |sizes|
    ensures EntryStart(i) + EntrySize <= |c|
    ensures c[EntryStart(i)] == sizes[i].width && c[EntryStart(i) + 1] == sizes[i].height
    ensures c[EntryStart(i) + 2..EntryStart(i) + 6] == [0, 0, 0, 0]
    ensures FromLE(c[EntryStart(i) + 6..EntryStart(i) + 8]) == BitCount
    ensures FromLE(c[EntryStart(i) + 8..EntryStart(i) + 12]) == |frames[i]|
    ensures FromLE(c[EntryStart(i) + 12..EntryStart(i) + 16]) == PayloadOffset(|sizes|, frames, i)
  {
    EntryAt(sizes, frames, c, i);
    assert EntryPackable(sizes, frames, i);
    EntryFieldsAt(c, EntryStart(i), sizes[i].width, sizes[i].height, |frames[i]|, PayloadOffset(|sizes|, frames, i));
  }

  /** Reading the fields of an entry stored at position e of a byte string. */
  lemma EntryFieldsAt(c: seq<byte>, e: nat, width: byte, height: byte, length: nat, offset: nat)
    requires length < 0x1_0000_0000 && offset < 0x1_0000_0000
    requires e + EntrySize <= |c| && c[e..e + EntrySize] == Entry(width, height, length, offset)
    ensures c[e] == width && c[e + 1] == height
    ensures c[e + 2..e + 6] == [0, 0, 0, 0]
    ensures FromLE(c[e + 6..e + 8]) == BitCount
    ensures FromLE(c[e + 8..e + 12]) == length
    ensures FromLE(c[e + 12..e + 16]) == offset
  {
    var d := Entry(width, height, length, offset);
    EntryDecodes(width, height, length, offset);
    assert c[e] == c[e..e + EntrySize][0] && c[e + 1] == c[e..e + EntrySize][1];
    SubSlice(c, e, d, 2, 6);
    SubSlice(c, e, d, 6, 8);
    SubSlice(c, e, d, 8, 12);
    SubSlice(c, e, d, 12, 16);
  }

  /** A slice of the middle part of a + m + z is the same slice of m, shifted by |a|. */
  lemma SliceOfMiddle(a: seq<byte>, m: seq<byte>, z: seq<byte>, lo: nat, hi: nat)
    requires lo <= hi <= |m|
    ensures (a + m + z)[|a| + lo..|a| + hi] == m[lo..hi]
  {
    assert (a + m + z)[|a|..|a| + |m|] == m;
  }

  /** A slice of a slice. */
  lemma SubSlice(c: seq<byte>, e: nat, d: seq<byte>, lo: nat, hi: nat)
    requires e + |d| <= |c| && c[e..e + |d|] == d
    requires lo <= hi <= |d|
    ensures c[e + lo..e + hi] == d[lo..hi]
  {
    forall k | 0 <= k < hi - lo ensures c[e + lo..e + hi][k] == d[lo..hi][k] {
      assert c[e + lo + k] == c[e..e + |d|][lo + k];
    }
  }

  /** Reading [offset_i, offset_i + length_i) from the file gives frame i unchanged. */
  lemma PayloadAt(sizes: seq<FrameSize>, frames: seq<seq<byte>>, c: seq<byte>, i: nat)
    requires |sizes| == |frames| && Container(sizes, frames) == Some(c)
    requires i < |sizes|
    ensures PayloadOffset(|sizes|, frames, i) + |frames[i]| <= |c|
    ensures c[PayloadOffset(|sizes|, frames, i)..PayloadOffset(|sizes|, frames, i) + |frames[i]|] == frames[i]
  {
    var n := |sizes|;
    var off := PayloadOffset(n, frames, i);
    var base := HeaderSize + 16 * n;
    ConcatAt(frames, i);
    assert c[base..] == Concat(frames);
    assert c[off..off + |frames[i]|] == c[base..][off - base..off - base + |frames[i]|];
  }

  /** The first frame starts right after the directory and each next one where the previous ends. */
  lemma OffsetsContiguous(sizes: seq<FrameSize>, frames: seq<seq<byte>>, i: nat)
    requires |sizes| == |frames| && i < |sizes|
    ensures PayloadOffset(|sizes|, frames, 0) == HeaderSize + 16 * |sizes|
    ensures PayloadOffset(|sizes|, frames, i + 1) == PayloadOffset(|sizes|, frames, i) + |frames[i]|
  {
    assert frames[..0] == [];
    PrefixStep(frames, i);
  }

  /**
   * Every frame's data lies after the directory, and for frames i < j the
   * range of frame i ends no later than frame j starts.
   */
  lemma PayloadsDisjoint(sizes: seq<FrameSize>, frames: seq<seq<byte>>, i: nat, j: nat)
    requires |sizes| == |frames| && i < |sizes| && j < |sizes|
    ensures EntryStart(|sizes|) <= PayloadOffset(|sizes|, frames, i)
    ensures i < j ==> PayloadOffset(|sizes|, frames, i) + |frames[i]| <= PayloadOffset(|sizes|, frames, j)
    ensures i < j && |frames[i]| > 0 ==> PayloadOffset(|sizes|, frames, i) < PayloadOffset(|sizes|, frames, j)
  {
    if i < j {
      PrefixLengthMonotone(frames, i, j);
    }
  }

  /**
   * No `struct.pack` call raises exactly when there are fewer than 65536
   * frames, every dimension fits a byte, and the last frame's length and
   * offset fit a u32 (earlier lengths and offsets are then smaller).
   */
  lemma PackableIff(sizes: seq<FrameSize>, frames: seq<seq<byte>>)
    requires |sizes| == |frames| && |sizes| > 0
    ensures Packable(sizes, frames) <==>
      |sizes| < 0x1_0000 && DimensionsFit(sizes) &&
      |frames[|sizes| - 1]| < 0x1_0000_0000 &&
      PayloadOffset(|sizes|, frames, |sizes| - 1) < 0x1_0000_0000
  {
    var n := |sizes|;
    if Packable(sizes, frames) {
      forall i | 0 <= i < n ensures 0 <= sizes[i].width < 0x100 && 0 <= sizes[i].height < 0x100 {
        assert EntryPackable(sizes, frames, i);
      }
      assert EntryPackable(sizes, frames, n - 1);
    }
    if |sizes| < 0x1_0000 && DimensionsFit(sizes) &&
      |frames[n - 1]| < 0x1_0000_0000 && PayloadOffset(n, frames, n - 1) < 0x1_0000_0000
    {
      forall i | 0 <= i < n ensures EntryPackable(sizes, frames, i) {
        if i < n - 1 {
          PrefixLengthMonotone(frames, i, n - 1);
        }
      }
    }
  }

  /** The program's size list has 7 square sizes in [1, 255], so its count field is 07 00. */
  lemma DefaultSizesFacts()
    ensures |DefaultSizes| == 7
    ensures forall i :: 0 <= i < |DefaultSizes| ==>
      DefaultSizes[i].width == DefaultSizes[i].height && 1 <= DefaultSizes[i].width <= 255
    ensures DimensionsFit(DefaultSizes)
    ensures Header(|DefaultSizes|) == [0, 0, 1, 0, 7, 0]
  {
  }

  /** With the program's sizes, no width or height byte is 0 (the "256 pixels" sentinel). */
  lemma DefaultDimensionBytesNonzero(frames: seq<seq<byte>>, c: seq<byte>, i: nat)
    requires |frames| == |DefaultSizes| && Container(DefaultSizes, frames) == Some(c)
    requires i < |DefaultSizes|
    ensures 1 <= c[EntryStart(i)] <= 255 && 1 <= c[EntryStart(i) + 1] <= 255
  {
    DefaultSizesFacts();
    EntryFields(DefaultSizes, frames, c, i);
  }
}
