/**
  The two .NET stream views the codec works through: a BinaryReader over a
  seekable input stream (bytes plus a cursor that may be set past the end), and
  a BinaryWriter over a seekable output file stream (a buffer that grows with
  zero bytes when a write starts past its end, and is overwritten in place when
  a write starts inside it).  Exceptions of the .NET API are `None` results.
 */
module Streams {
  import opened Bytes
  import opened Wrappers

  function Min(a: int, b: int): int { if a <= b then a else b }
  function Max(a: int, b: int): int { if a >= b then a else b }

  /** The bytes a read of `count` bytes at `p` obtains: fewer at the end, none past it. */
  function Window(data: seq<byte>, p: nat, count: nat): (w: seq<byte>)
    ensures |w| <= count
    ensures p + count <= |data| ==> w == data[p..p + count]
    ensures p < |data| ==> p + |w| <= |data|
    ensures p < |data| ==> w == data[p..p + |w|] && (|w| == count || p + |w| == |data|)
    ensures p >= |data| ==> w == []
  {
    if p >= |data| then [] else data[p..Min(p + count, |data|)]
  }

  /** An input stream under a BinaryReader. */
  class Reader {
    const data: seq<byte>
    var pos: nat

    constructor (input: seq<byte>)
      ensures data == input && pos == 0
    {
      data := input;
      pos := 0;
    }

    /** BinaryReader.ReadByte: fails at or past the end. */
    method ReadByte() returns (b: Option<byte>)
      modifies this
      ensures old(pos) < |data| ==> b == Some(data[old(pos)]) && pos == old(pos) + 1
      ensures old(pos) >= |data| ==> b == None && pos == old(pos)
    {
      if pos < |data| {
        b := Some(data[pos]);
        pos := pos + 1;
      } else {
        b := None;
      }
    }

    /** BinaryReader.ReadUInt32: four little-endian bytes; fails when fewer remain. */
    method ReadUInt32() returns (n: Option<uint32>)
      modifies this
      ensures old(pos) + 4 <= |data| ==> n == Some(LE32(data[old(pos)..old(pos) + 4])) && pos == old(pos) + 4
      ensures old(pos) + 4 > |data| ==> n == None && pos == old(pos)
    {
      if pos + 4 <= |data| {
        n := Some(LE32(data[pos..pos + 4]));
        pos := pos + 4;
      } else {
        n := None;
      }
    }

    /** BinaryReader.ReadInt32: four little-endian bytes read as a signed value. */
    method ReadInt32() returns (n: Option<int32>)
      modifies this
      ensures old(pos) + 4 <= |data| ==> n == Some(Int32Of(LE32(data[old(pos)..old(pos) + 4]))) && pos == old(pos) + 4
      ensures old(pos) + 4 > |data| ==> n == None && pos == old(pos)
    {
      if pos + 4 <= |data| {
        n := Some(Int32Of(LE32(data[pos..pos + 4])));
        pos := pos + 4;
      } else {
        n := None;
      }
    }

    /** BinaryReader.ReadUInt64: eight little-endian bytes; fails when fewer remain. */
    method ReadUInt64() returns (n: Option<uint64>)
      modifies this
      ensures old(pos) + 8 <= |data| ==> n == Some(LE64(data[old(pos)..old(pos) + 8])) && pos == old(pos) + 8
      ensures old(pos) + 8 > |data| ==> n == None && pos == old(pos)
    {
      if pos + 8 <= |data| {
        n := Some(LE64(data[pos..pos + 8]));
        pos := pos + 8;
      } else {
        n := None;
      }
    }

    /** BinaryReader.ReadBytes: at most `count` bytes; a negative count fails. */
    method ReadBytes(count: int) returns (b: Option<seq<byte>>)
      modifies this
      ensures count < 0 ==> b == None && pos == old(pos)
      ensures count >= 0 ==> b == Some(Window(data, old(pos), count)) && pos == old(pos) + |b.value|
    {
      if count < 0 {
        b := None;
      } else {
        var w := Window(data, pos, count);
        b := Some(w);
        pos := pos + |w|;
      }
    }
  }

  /**
    The content of a file stream after writing `b` at offset `at`: the file
    is first extended with zeros up to `at` when it is shorter; a write of no
    bytes leaves it as it is.
   */
  function Place(buf: seq<byte>, at: nat, b: seq<byte>): (r: seq<byte>)
    ensures |r| == if b == [] then |buf| else Max(|buf|, at + |b|)
  {
    if b == [] then buf else
    if at + |b| <= |buf| then buf[..at] + b + buf[at + |b|..]
    else if at <= |buf| then buf[..at] + b
    else buf + seq(at - |buf|, _ => 0) + b
  }

  /** Each byte after a write: the written byte inside the write, the old byte or a zero outside it. */
  lemma {:induction false} PlaceAt(buf: seq<byte>, at: nat, b: seq<byte>)
    ensures forall i :: 0 <= i < |Place(buf, at, b)| ==>
      Place(buf, at, b)[i] == if at <= i < at + |b| then b[i - at] else if i < |buf| then buf[i] else 0
  {
  }

  /** Two writes one after the other are one write of both. */
  lemma {:induction false} PlaceAdjacent(buf: seq<byte>, at: nat, b1: seq<byte>, b2: seq<byte>)
    ensures Place(Place(buf, at, b1), at + |b1|, b2) == Place(buf, at, b1 + b2)
  {
    var l := Place(Place(buf, at, b1), at + |b1|, b2);
    var r := Place(buf, at, b1 + b2);
    PlaceAt(buf, at, b1);
    PlaceAt(Place(buf, at, b1), at + |b1|, b2);
    PlaceAt(buf, at, b1 + b2);
    assert |l| == |r|;
    forall i | 0 <= i < |l| ensures l[i] == r[i] {
      if at <= i < at + |b1| {
        assert (b1 + b2)[i - at] == b1[i - at];
      } else if at + |b1| <= i < at + |b1| + |b2| {
        assert (b1 + b2)[i - at] == b2[i - at - |b1|];
      }
    }
  }

  /**
    An output file stream under a BinaryWriter.  The ghost fields remember the
    content at the last seek (`before`), where the cursor was put (`runStart`)
    and the bytes written since (`run`), so that a sequence of writes reads as
    one write of their concatenation.
   */
  class Writer {
    var buf: seq<byte>
    var pos: nat
    ghost var before: seq<byte>
    ghost var runStart: nat
    ghost var run: seq<byte>

    ghost predicate Valid()
      reads this
    {
      buf == Place(before, runStart, run) && pos == runStart + |run|
    }

    /** A new, empty file. */
    constructor ()
      ensures Valid() && buf == [] && pos == 0
    {
      buf := [];
      pos := 0;
      before := [];
      runStart := 0;
      run := [];
    }

    /** Setting Position: later writes start at `p`. */
    method Seek(p: nat)
      requires Valid()
      modifies this
      ensures Valid() && buf == old(buf) && before == buf && runStart == p && run == []
    {
      pos := p;
      before := buf;
      runStart := p;
      run := [];
    }

    /** BinaryWriter.Write(byte[]): overwrites or extends at the cursor and moves it past the bytes. */
    method Write(b: seq<byte>)
      requires Valid()
      modifies this
      ensures Valid() && before == old(before) && runStart == old(runStart) && run == old(run) + b
    {
      PlaceAdjacent(before, runStart, run, b);
      buf := Place(buf, pos, b);
      pos := pos + |b|;
      run := run + b;
    }

    /** BinaryWriter.Write(uint). */
    method WriteUInt32(n: uint32)
      requires Valid()
      modifies this
      ensures Valid() && before == old(before) && runStart == old(runStart) && run == old(run) + U32Bytes(n)
    {
      Write(U32Bytes(n));
    }

    /** BinaryWriter.Write(int): the 32-bit pattern of a signed value. */
    method WriteInt32(i: int32)
      requires Valid()
      modifies this
      ensures Valid() && before == old(before) && runStart == old(runStart) && run == old(run) + U32Bytes(UInt32Of(i))
    {
      Write(U32Bytes(UInt32Of(i)));
    }

    /** BinaryWriter.Write(ulong). */
    method WriteUInt64(n: uint64)
      requires Valid()
      modifies this
      ensures Valid() && before == old(before) && runStart == old(runStart) && run == old(run) + U64Bytes(n)
    {
      Write(U64Bytes(n));
    }

    /** BinaryWriter.Write(byte). */
    method WriteByte(x: byte)
      requires Valid()
      modifies this
      ensures Valid() && before == old(before) && runStart == old(runStart) && run == old(run) + [x]
    {
      Write([x]);
    }
  }
}
