/**
 * A file opened for binary writing ("wb"), held in memory: its bytes and a
 * cursor.  Writing overwrites the bytes under the cursor and extends the
 * file when it runs past the end; seeking beyond the end and then writing
 * fills the gap with zero bytes; writing nothing changes nothing.
 */
module BinaryFiles {
  import opened LittleEndian

  /** n zero bytes. */
  function Zeros(n: nat): (r: seq<byte>)
    ensures |r| == n
    ensures forall k :: 0 <= k < n ==> r[k] == 0
  {
    seq(n, k => 0)
  }

  /** The contents of a file holding s after d is written at position at. */
  function WriteAt(s: seq<byte>, at: nat, d: seq<byte>): (r: seq<byte>)
    ensures |d| == 0 ==> r == s
    ensures |d| > 0 ==> |r| == if at + |d| > |s| then at + |d| else |s|
  {
    if |d| == 0 then s
    else
      var padded := if at <= |s| then s else s + Zeros(at - |s|);
      padded[..at] + d + (if at + |d| < |padded| then padded[at + |d|..] else [])
  }

  /**
   * Byte by byte: d sits at [at, at + |d|), the old bytes outside it are
   * kept, and a gap between the old end and at reads as zeros.
   */
  lemma WriteAtBytes(s: seq<byte>, at: nat, d: seq<byte>)
    requires |d| > 0
    ensures WriteAt(s, at, d)[at..at + |d|] == d
    ensures forall k :: 0 <= k < |s| && (k < at || at + |d| <= k) ==> WriteAt(s, at, d)[k] == s[k]
    ensures forall k :: |s| <= k < at ==> WriteAt(s, at, d)[k] == 0
  {
  }

  /** What is left of rest after its first k bytes are overwritten. */
  function Drop(rest: seq<byte>, k: nat): (r: seq<byte>)
    ensures k <= |rest| ==> |r| == |rest| - k
    ensures k > |rest| ==> r == []
  {
    if k <= |rest| then rest[k..] else []
  }

  /** Writing at the end of the bytes before the cursor replaces what follows it. */
  lemma WriteOver(pre: seq<byte>, d: seq<byte>, rest: seq<byte>)
    requires |d| > 0
    ensures WriteAt(pre + rest, |pre|, d) == pre + d + Drop(rest, |d|)
  {
    var r := WriteAt(pre + rest, |pre|, d);
    var e := pre + d + Drop(rest, |d|);
    WriteAtBytes(pre + rest, |pre|, d);
    assert |r| == |e|;
    forall k | 0 <= k < |r| ensures r[k] == e[k] {
      if k < |pre| {
      } else if k < |pre| + |d| {
        assert r[k] == r[|pre|..|pre| + |d|][k - |pre|];
      } else {
        assert r[k] == (pre + rest)[k];
      }
    }
  }

  /** Writing at or beyond the end appends, after zero bytes filling any gap. */
  lemma WriteBeyondEnd(s: seq<byte>, at: nat, d: seq<byte>)
    requires |s| <= at && |d| > 0
    ensures WriteAt(s, at, d) == s + Zeros(at - |s|) + d
  {
    var r := WriteAt(s, at, d);
    var e := s + Zeros(at - |s|) + d;
    WriteAtBytes(s, at, d);
    assert |r| == |e|;
    forall k | 0 <= k < |r| ensures r[k] == e[k] {
      if k < |s| {
      } else if k < at {
      } else {
        assert r[k] == r[at..at + |d|][k - at];
      }
    }
  }

  /** Two writes, the second where the first one left the cursor, are one write of both. */
  lemma WriteSequential(s: seq<byte>, at: nat, d1: seq<byte>, d2: seq<byte>)
    ensures WriteAt(WriteAt(s, at, d1), at + |d1|, d2) == WriteAt(s, at, d1 + d2)
  {
    if |d1| == 0 {
      assert d1 + d2 == d2;
    } else if |d2| == 0 {
      assert d1 + d2 == d1;
    } else if at <= |s| {
      WriteSequentialWithin(s[..at], s[at..], d1, d2);
      assert s == s[..at] + s[at..];
    } else {
      WriteSequentialBeyond(s, at, d1, d2);
    }
  }

  lemma WriteSequentialWithin(pre: seq<byte>, rest: seq<byte>, d1: seq<byte>, d2: seq<byte>)
    requires |d1| > 0 && |d2| > 0
    ensures WriteAt(WriteAt(pre + rest, |pre|, d1), |pre| + |d1|, d2) == WriteAt(pre + rest, |pre|, d1 + d2)
  {
    WriteOver(pre, d1, rest);
    WriteOver(pre + d1, d2, Drop(rest, |d1|));
    WriteOver(pre, d1 + d2, rest);
    DropDrop(rest, |d1|, |d2|);
    assert pre + d1 + d2 == pre + (d1 + d2);
  }

  lemma DropDrop(rest: seq<byte>, a: nat, b: nat)
    ensures Drop(Drop(rest, a), b) == Drop(rest, a + b)
  {
    if a + b <= |rest| {
      assert rest[a..][b..] == rest[a + b..];
    }
  }

  lemma WriteSequentialBeyond(s: seq<byte>, at: nat, d1: seq<byte>, d2: seq<byte>)
    requires |s| < at && |d1| > 0 && |d2| > 0
    ensures WriteAt(WriteAt(s, at, d1), at + |d1|, d2) == WriteAt(s, at, d1 + d2)
  {
    var s1 := WriteAt(s, at, d1);
    WriteBeyondEnd(s, at, d1);
    WriteBeyondEnd(s1, at + |d1|, d2);
    WriteBeyondEnd(s, at, d1 + d2);
    assert Zeros(0) == [];
  }

  class BinaryFile {
    var contents: seq<byte>
    var position: nat

    /** `open(path, 'wb')`: the file is truncated and the cursor at its start. */
    constructor ()
      ensures contents == [] && position == 0
    {
      contents := [];
      position := 0;
    }

    /** `f.tell()` */
    method Tell() returns (p: nat)
      ensures p == position
    {
      p := position;
    }

    /** `f.seek(p)`: moves the cursor only, even past the end. */
    method Seek(p: nat)
      modifies this`position
      ensures position == p
    {
      position := p;
    }

    /** `f.write(d)`: overwrites from the cursor and moves it past d. */
    method Write(d: seq<byte>)
      modifies this
      ensures contents == WriteAt(old(contents), old(position), d)
      ensures position == old(position) + |d|
    {
      contents := WriteAt(contents, position, d);
      position := position + |d|;
    }
  }
}
