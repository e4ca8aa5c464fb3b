/** The contents of a file: a small one is kept with its metadata, a larger one in
    extents of fixed size. */
module FileData {
  import opened Keys

  const EMBEDDED_SIZE := 1024
  const EXTENT_SIZE := 0x1_0000
  const BUFFER_SIZE := EXTENT_SIZE + 100
  const MAXIMUM_OFFSET := 0x4000_0000_0000_0000
  const WORD := 0x1_0000_0000_0000_0000   // 2 to the 64

  function Min(a: int, b: int): int {
    if a < b then a else b
  }

  function Max(a: int, b: int): int {
    if a > b then a else b
  }

  function ByteOf(b: Bytes, i: int): Byte {
    if 0 <= i < |b| then b[i] else 0
  }

  ghost function ChunkByte(f: Bytes, buf: Bytes, w: nat, offset: nat, i: int): Byte {
    if offset <= i < offset + w then ByteOf(buf, i - offset) else ByteOf(f, i)
  }

  /** A flat file once `w` bytes of `buf` have been written at `offset`: it is long
      enough for all of `buf`, and zero where nothing was. */
  ghost function Chunk(f: Bytes, buf: Bytes, w: nat, offset: nat): Bytes {
    seq(Max(|f|, offset + |buf|), i => ChunkByte(f, buf, w, offset, i))
  }

  /** The flat file after a write. */
  ghost function Written(f: Bytes, buf: Bytes, offset: nat): Bytes {
    if buf == [] then f else Chunk(f, buf, |buf|, offset)
  }

  function Zeros(n: nat): Bytes {
    seq(n, i => 0)
  }

  /** What is stored of a file. */
  datatype File = File(size: nat, data: Option<Bytes>, extents: map<nat, Bytes>) {

    ghost predicate Valid() {
      && size < MAXIMUM_OFFSET
      && (size <= EMBEDDED_SIZE ==> extents == map[] && (if data.Some? then |data.value| == size else size == 0))
      && (size > EMBEDDED_SIZE ==> data.None?)
      && forall e :: e in extents ==> |extents[e]| <= EXTENT_SIZE && e * EXTENT_SIZE + |extents[e]| <= size
    }

    ghost function ByteAt(i: int): Byte {
      if size <= EMBEDDED_SIZE then if data.Some? then ByteOf(data.value, i) else 0
      else if i / EXTENT_SIZE in extents then ByteOf(extents[i / EXTENT_SIZE], i % EXTENT_SIZE) else 0
    }

    /** The file as one array of bytes. */
    ghost function Flat(): Bytes {
      seq(size, i => ByteAt(i))
    }

    /** Whether the extent of an offset starts within the file. */
    predicate Reachable(offset: nat) {
      size <= EMBEDDED_SIZE || offset / EXTENT_SIZE * EXTENT_SIZE <= size
    }

    /** How many bytes one extent has for a read of `n` bytes. */
    function Available(n: nat, offset: nat): nat {
      if size <= EMBEDDED_SIZE then Max(0, Min(n, size - offset))
      else Max(0, Min(Min(n, size - offset), EXTENT_SIZE - offset % EXTENT_SIZE))
    }
  }

  lemma NothingBeyond(f: File, i: nat)
    requires f.Valid() && i >= f.size
    ensures f.ByteAt(i) == 0
  {
  }

  lemma InExtent(x: int, e: int)
    requires e * EXTENT_SIZE <= x < (e + 1) * EXTENT_SIZE
    ensures x / EXTENT_SIZE == e && x % EXTENT_SIZE == x - e * EXTENT_SIZE
  {
  }

  class FileHandle {
    var f: File

    constructor ()
      ensures f.Valid() && f.Flat() == []
    {
      f := File(0, None, map[]);
    }

    /** The stored bytes that an offset is in, and where in them the read starts and
        ends. */
    method Find(n: nat, offset: nat) returns (b: Bytes, ofs: nat, end: int)
      requires f.Valid() && offset + n < MAXIMUM_OFFSET && f.Reachable(offset)
      ensures f.Available(n, offset) == Max(0, end - ofs) <= n && Min(n, |b| - ofs) <= Max(0, end - ofs)
      ensures forall x :: offset <= x < offset + Max(0, end - ofs) ==> f.ByteAt(x) == ByteOf(b, ofs + (x - offset))
    {
      end := Min(offset + n, f.size);
      b, ofs := [], offset;
      if f.size <= EMBEDDED_SIZE {
        b := if f.data.Some? then f.data.value else [];
      } else {
        var e := offset / EXTENT_SIZE;
        ofs := offset - e * EXTENT_SIZE;
        end := (end - e * EXTENT_SIZE) % WORD;
        if end > EXTENT_SIZE {
          end := EXTENT_SIZE;
        }
        if e in f.extents {
          b := f.extents[e];
        }
        forall x | offset <= x < offset + Max(0, end - ofs) ensures f.ByteAt(x) == ByteOf(b, ofs + (x - offset)) {
          InExtent(x, e);
        }
      }
    }

    /** Reads what one extent has of `n` bytes at `offset` into `buf[lo..]`. */
    method ReadInTransaction(buf: array<Byte>, lo: nat, n: nat, offset: nat) returns (r: nat)
      requires f.Valid() && lo + n <= buf.Length && offset + n < MAXIMUM_OFFSET && f.Reachable(offset)
      modifies buf
      ensures r == f.Available(n, offset) <= n
      ensures forall j :: 0 <= j < buf.Length ==>
                buf[j] == if lo <= j < lo + r then f.ByteAt(offset + (j - lo)) else old(buf[j])
    {
      hide File.Valid, File.Available, File.ByteAt, File.Reachable;
      var b, ofs, end := Find(n, offset);
      r := CopyAndPad(buf, lo, n, b, ofs, end);
    }

    /** Copies the rest of `b` and fills up with zeros. */
    method CopyAndPad(buf: array<Byte>, lo: nat, n: nat, b: Bytes, ofs: nat, end: int) returns (r: nat)
      requires lo + n <= buf.Length && Min(n, |b| - ofs) <= Max(0, end - ofs) <= n
      modifies buf
      ensures r == Max(0, end - ofs)
      ensures forall j :: 0 <= j < buf.Length ==>
                buf[j] == if lo <= j < lo + r then ByteOf(b, ofs + (j - lo)) else old(buf[j])
    {
      var read := 0;
      if |b| >= ofs {
        forall i | 0 <= i < Min(n, |b| - ofs) {
          buf[lo + i] := b[ofs + i];
        }
        read := |b| - ofs;
      }
      var zeros := end - read - ofs;
      if zeros > 0 {
        forall i | 0 <= i < zeros {
          buf[lo + read + i] := 0;
        }
      }
      r := if end <= ofs then 0 else read + zeros;
    }

    /** Reads up to `buf.Length` bytes, extent by extent, and says how many. */
    method Read(buf: array<Byte>, start: nat) returns (ofs: nat)
      requires f.Valid() && start + buf.Length < MAXIMUM_OFFSET && f.Reachable(start)
      modifies buf
      ensures ofs == Max(0, Min(buf.Length, f.size - start))
      ensures start <= f.size ==> buf[..ofs] == f.Flat()[start..start + ofs]
    {
      hide File.ByteAt, File.Flat;
      ofs := 0;
      var offset := start;
      while ofs < buf.Length
        invariant ofs <= buf.Length && offset == start + ofs
        invariant ofs > 0 ==> offset <= f.size && offset % EXTENT_SIZE == 0 && f.size > EMBEDDED_SIZE
        invariant forall j :: 0 <= j < ofs ==> buf[j] == f.ByteAt(start + j)
      {
        var e := offset / EXTENT_SIZE;
        var r := ReadInTransaction(buf, ofs, buf.Length - ofs, offset);
        if r == 0 {
          break;
        }
        offset := offset + r;
        ofs := ofs + r;
        if e == offset / EXTENT_SIZE {
          break;
        }
      }
      if start <= f.size {
        FlatSlice(f, start, ofs);
        assert buf[..ofs] == f.Flat()[start..start + ofs];
      }
    }

    /** Fills in what the extent, or the small file, has before and behind the `w`
        bytes that are already at `bofs` in the buffer, and says how long that is
        altogether. */
    method Gather(obuf: array<Byte>, odata: Option<Bytes>, size: nat, w: nat, bofs: nat, offset: nat, end: nat)
      returns (n: nat)
      requires f.Valid() && obuf.Length == BUFFER_SIZE && size < MAXIMUM_OFFSET && end < MAXIMUM_OFFSET
      requires offset % EXTENT_SIZE == 0 && bofs + w <= EXTENT_SIZE && offset + bofs + w <= end
      requires end > offset + bofs + w ==> bofs + w == EXTENT_SIZE
      requires f.Reachable(offset) && (end < f.size ==> f.Reachable(end)) && size == Max(f.size, end)
      modifies obuf
      ensures n == Max(bofs + w, Min(EXTENT_SIZE, size - offset)) <= EXTENT_SIZE
      ensures forall j :: 1 <= j < 1 + n ==>
                obuf[j] == if bofs <= j - 1 < bofs + w then old(obuf[j]) else Around(f, odata, bofs, offset, j - 1)
    {
      hide File.ByteAt;
      if bofs > 0 {
        forall i | 0 <= i < bofs {
          obuf[1 + i] := 0;
        }
        if odata.Some? {
          forall i | 0 <= i < Min(bofs, |odata.value|) {
            obuf[1 + i] := odata.value[i];
          }
        } else {
          var r := ReadInTransaction(obuf, 1, bofs, offset);
          ZerosBeyond(f, bofs, offset, r);
        }
      }
      n := bofs + w;
      var blockend := Min(offset + EXTENT_SIZE, size);
      if blockend > end {
        var r := ReadInTransaction(obuf, 1 + n, blockend - end, end);
        n := n + r;
      }
    }

    /** Writes as much of `buf` as goes into one extent. */
    method WriteExtent(buf: Bytes, start: nat) returns (w: nat)
      requires f.Valid() && buf != [] && start + |buf| < MAXIMUM_OFFSET
      modifies this
      ensures f.Valid() && w == Min(|buf|, EXTENT_SIZE - start % EXTENT_SIZE)
      ensures f.Flat() == Chunk(Kept(old(f), start), buf, w, start)
    {
      hide File.ByteAt, File.Flat, Chunk, Around;
      var e := start / EXTENT_SIZE;
      var end := start + |buf|;
      var bofs := start % EXTENT_SIZE;
      var offset := start - bofs;
      var size, data := f.size, f.data;
      var odata := if size <= EMBEDDED_SIZE && e == 0 then data else None;
      var obuf := new Byte[BUFFER_SIZE];
      w := Min(|buf|, EXTENT_SIZE - bofs);
      forall i | 0 <= i < w {
        obuf[1 + bofs + i] := buf[i];
      }
      if end > size {
        size := end;
        if size > EMBEDDED_SIZE {
          data := None;
        }
      }
      if size <= EMBEDDED_SIZE && end <= EMBEDDED_SIZE {
        var n := Gather(obuf, odata, size, w, bofs, offset, end);
        StoredEmbedded(f, buf, w, start, obuf[1..1 + n]);
        f := File(size, Some(obuf[1..1 + n]), f.extents);
      } else {
        f := File(size, data, f.extents);
        var n := Gather(obuf, odata, size, w, bofs, offset, end);
        StoredExtent(old(f), f, buf, w, start, obuf[1..1 + n]);
        f := f.(extents := f.extents[e := obuf[1..1 + n]]);
      }
    }

    /** Writes all of `buf`, extent by extent. */
    method Write(buf: Bytes, offset: nat)
      requires f.Valid() && offset + |buf| < MAXIMUM_OFFSET
      modifies this
      ensures f.Valid() && f.Flat() == Written(if buf == [] then old(f).Flat() else Kept(old(f), offset), buf, offset)
    {
      var written := 0;
      while written < |buf|
        invariant written <= |buf| && f.Valid()
        invariant written == 0 ==> f == old(f)
        invariant written > 0 ==> f.Flat() == Chunk(Kept(old(f), offset), buf, written, offset)
                                  && (f.size > EMBEDDED_SIZE || written == |buf|)
      {
        var w := WriteExtent(buf[written..], offset + written);
        written := written + w;
      }
    }
  }

  /** A small file that is not empty is forgotten by a write that starts behind the
      first extent. */
  ghost predicate Forgets(f: File, start: nat) {
    0 < f.size <= EMBEDDED_SIZE && start >= EXTENT_SIZE
  }

  ghost function Kept(f: File, start: nat): Bytes {
    if Forgets(f, start) then Zeros(f.size) else f.Flat()
  }

  ghost predicate Gathered(f: File, odata: Option<Bytes>, buf: Bytes, w: nat, start: nat, x: Bytes) {
    var bofs := start % EXTENT_SIZE;
    && w <= |buf|
    && forall i :: 0 <= i < |x| ==>
         x[i] == if bofs <= i < bofs + w then buf[i - bofs] else Around(f, odata, bofs, start - bofs, i)
  }

  lemma StoredExtent(f0: File, f1: File, buf: Bytes, w: nat, start: nat, x: Bytes)
    requires f0.Valid() && f1.Valid() && f1.extents == f0.extents && f1.size == Max(f0.size, start + |buf|) > EMBEDDED_SIZE
    requires buf != [] && start + |buf| < MAXIMUM_OFFSET && w == Min(|buf|, EXTENT_SIZE - start % EXTENT_SIZE)
    requires var bofs := start % EXTENT_SIZE;
             |x| == Max(bofs + w, Min(EXTENT_SIZE, f1.size - (start - bofs)))
    requires Gathered(f1, if f0.size <= EMBEDDED_SIZE && start < EXTENT_SIZE then f0.data else None, buf, w, start, x)
    ensures var f2 := f1.(extents := f1.extents[start / EXTENT_SIZE := x]);
            f2.Valid() && f2.Flat() == Chunk(Kept(f0, start), buf, w, start)
  {
    var e, bofs := start / EXTENT_SIZE, start % EXTENT_SIZE;
    var f2 := f1.(extents := f1.extents[e := x]);
    forall i | 0 <= i < f2.size ensures f2.ByteAt(i) == ChunkByte(Kept(f0, start), buf, w, start, i) {
      ExtentByte(f0, f1, buf, w, start, x, i);
    }
  }

  lemma ExtentByte(f0: File, f1: File, buf: Bytes, w: nat, start: nat, x: Bytes, i: nat)
    requires f0.Valid() && f1.Valid() && f1.extents == f0.extents && f1.size == Max(f0.size, start + |buf|) > EMBEDDED_SIZE
    requires buf != [] && start + |buf| < MAXIMUM_OFFSET && w == Min(|buf|, EXTENT_SIZE - start % EXTENT_SIZE)
    requires var bofs := start % EXTENT_SIZE;
             |x| == Max(bofs + w, Min(EXTENT_SIZE, f1.size - (start - bofs)))
    requires Gathered(f1, if f0.size <= EMBEDDED_SIZE && start < EXTENT_SIZE then f0.data else None, buf, w, start, x)
    requires i < f1.size
    ensures f1.(extents := f1.extents[start / EXTENT_SIZE := x]).ByteAt(i) == ChunkByte(Kept(f0, start), buf, w, start, i)
  {
    var e := start / EXTENT_SIZE;
    if e * EXTENT_SIZE <= i < (e + 1) * EXTENT_SIZE {
      InExtent(i, e);
    }
  }

  lemma StoredEmbedded(f: File, buf: Bytes, w: nat, start: nat, x: Bytes)
    requires f.Valid() && f.size <= EMBEDDED_SIZE && start + |buf| <= EMBEDDED_SIZE && w == |buf| > 0
    requires |x| == Max(f.size, start + |buf|) && Gathered(f, f.data, buf, w, start, x)
    ensures var f' := File(|x|, Some(x), f.extents);
            f'.Valid() && f'.Flat() == Chunk(f.Flat(), buf, w, start)
  {
    var f' := File(|x|, Some(x), f.extents);
    forall i | 0 <= i < |x| ensures f'.ByteAt(i) == ChunkByte(f.Flat(), buf, w, start, i) {
    }
  }

  /** What an extent has before and behind the bytes that are written. */
  ghost function Around(f: File, odata: Option<Bytes>, bofs: nat, offset: nat, i: int): Byte {
    if i < bofs && odata.Some? then ByteOf(odata.value, i) else f.ByteAt(offset + i)
  }

  lemma FlatSlice(f: File, start: nat, n: nat)
    requires start + n <= f.size
    ensures |f.Flat()| == f.size
    ensures var s := f.Flat()[start..start + n];
            forall j :: 0 <= j < n ==> s[j] == f.ByteAt(start + j)
  {
    hide File.ByteAt;
  }

  lemma ZerosBeyond(f: File, n: nat, offset: nat, r: nat)
    requires f.Valid() && offset % EXTENT_SIZE == 0 && n <= EXTENT_SIZE && r == f.Available(n, offset)
    ensures forall x :: offset + r <= x < offset + n ==> f.ByteAt(x) == 0
  {
    forall x | offset + r <= x < offset + n ensures f.ByteAt(x) == 0 {
      NothingBeyond(f, x);
    }
  }

  /** A write does what it does to a flat file exactly when it does not forget a
      byte that is not zero. */
  lemma WritesFlat(f: File, buf: Bytes, start: nat)
    requires f.Valid() && buf != []
    ensures Written(Kept(f, start), buf, start) == Written(f.Flat(), buf, start)
       <==> !(Forgets(f, start) && exists i :: 0 <= i < f.size && f.data.Some? && ByteOf(f.data.value, i) != 0)
  {
    var a, b := Written(Kept(f, start), buf, start), Written(f.Flat(), buf, start);
    assert |a| == |b|;
    assert forall i :: 0 <= i < |a| ==> a[i] == ChunkByte(Kept(f, start), buf, |buf|, start, i);
    assert forall i :: 0 <= i < |b| ==> b[i] == ChunkByte(f.Flat(), buf, |buf|, start, i);
    if Forgets(f, start) {
      if i :| 0 <= i < f.size && f.data.Some? && ByteOf(f.data.value, i) != 0 {
        assert a[i] == 0 && b[i] == ByteOf(f.data.value, i);
      } else {
        assert a == b;
      }
    }
  }

  /** A file of one byte, written to in its second extent, reads as zero where that
      byte was. */
  lemma ForgottenByte()
    ensures var f := File(1, Some([7]), map[]);
            f.Valid() && Written(Kept(f, EXTENT_SIZE), [1], EXTENT_SIZE) != Written(f.Flat(), [1], EXTENT_SIZE)
  {
    var f := File(1, Some([7]), map[]);
    WritesFlat(f, [1], EXTENT_SIZE);
    assert ByteOf(f.data.value, 0) != 0;
  }
}
