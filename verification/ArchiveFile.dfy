/** The buffered archive file (archive/arfile.c). The stream underneath is a sequence of bytes with a read position. */
module ArchiveFile {
  type Byte = bv8

  const BUF_LEN: nat := 65536

  /** memcpy into a buffer */
  method CopyIn(to: array<Byte>, at: nat, from: seq<Byte>)
    requires at + |from| <= to.Length
    modifies to
    ensures to[..at + |from|] == old(to[..at]) + from
  {
    for i := 0 to |from|
      invariant to[..at + i] == old(to[..at]) + from[..i]
    {
      to[at + i] := from[i];
      assert to[..at + i + 1] == to[..at + i] + [from[i]];
      assert from[..i + 1] == from[..i] + [from[i]];
    }
    assert from[..|from|] == from;
  }

  /** internal_ar_file_t opened for writing; file is what has reached the stream. */
  class Writer {
    const buffer: array<Byte>
    var offset: nat
    var file: seq<Byte>

    ghost predicate Valid()
      reads this, buffer
    {
      buffer.Length == BUF_LEN && offset <= BUF_LEN
    }

    /** Everything written so far. */
    ghost function Written(): seq<Byte>
      requires Valid()
      reads this, buffer
    {
      file + buffer[..offset]
    }

    constructor ()
      ensures Valid() && fresh(buffer) && Written() == []
    {
      buffer := new Byte[BUF_LEN](_ => 0);
      offset := 0;
      file := [];
    }

    /** _flushArBuffer */
    method Flush()
      requires Valid()
      modifies this
      ensures Valid() && offset == 0 && Written() == old(Written()) && file == old(Written())
    {
      file := file + buffer[..offset];
      offset := 0;
    }

    /** writeArFile */
    method Write(data: seq<Byte>)
      requires Valid() && data != []
      modifies this, buffer
      ensures Valid() && Written() == old(Written()) + data
    {
      var start: nat, all: nat := 0, |data|;
      while all > 0
        invariant Valid() && 0 <= start && start + all == |data| && Written() == old(Written()) + data[..start]
        decreases all, offset
      {
        var copy := BUF_LEN - offset;
        if copy < all {
          if copy != 0 {
            Put(data[start..start + copy]);
            assert data[..start + copy] == data[..start] + data[start..start + copy];
            start, all := start + copy, all - copy;
          }
          Flush();
        } else {
          Put(data[start..start + all]);
          assert data[..start + all] == data[..start] + data[start..start + all];
          start, all := start + all, 0;
        }
      }
      assert data[..start] == data;
    }

    /** A piece that fits goes into the buffer. */
    method Put(piece: seq<Byte>)
      requires Valid() && offset + |piece| <= BUF_LEN
      modifies this`offset, buffer
      ensures Valid() && offset == old(offset) + |piece| && Written() == old(Written()) + piece
    {
      CopyIn(buffer, offset, piece);
      offset := offset + |piece|;
    }

    /** destroyArFile: the contents of the file that is left. */
    method Close() returns (contents: seq<Byte>)
      requires Valid()
      modifies this
      ensures contents == old(Written())
    {
      if offset != 0 { Flush(); }
      contents := file;
      assert buffer[..0] == [];
    }
  }

  /** internal_ar_file_t opened for reading. */
  class Reader {
    const file: seq<Byte>
    const buffer: array<Byte>
    var pos: nat
    var offset: nat
    var total: nat

    /** A fill that finds the end of the file leaves the offset behind, which this excludes. */
    ghost predicate Usable()
      reads this, buffer
    {
      && buffer.Length == BUF_LEN && offset <= total <= BUF_LEN && pos <= |file| && (total == 0 <==> pos == 0)
    }

    /** What has not been read yet. */
    ghost function Remaining(): seq<Byte>
      requires Usable()
      reads this, buffer
    {
      buffer[offset..total] + file[pos..]
    }

    constructor (file: seq<Byte>)
      ensures Usable() && fresh(buffer) && this.file == file && Remaining() == file
    {
      this.file := file;
      buffer := new Byte[BUF_LEN](_ => 0);
      pos, offset, total := 0, 0, 0;
    }

    /** _fillArBuffer: whether there was anything to read */
    method Fill() returns (ok: bool)
      requires Usable() && offset == total
      modifies this`pos, this`offset, this`total, buffer
      ensures ok == (old(pos) < |file|)
      ensures ok ==> Usable() && Remaining() == old(Remaining()) && offset == 0 && total > 0
      ensures !ok ==> total == 0 && offset == old(offset) && pos == old(pos)
    {
      var n := if |file| - pos < BUF_LEN then |file| - pos else BUF_LEN;
      total := n;
      CopyIn(buffer, 0, file[pos..pos + n]);
      ok := n != 0;
      if ok {
        offset := 0;
        assert file[pos..] == file[pos..pos + n] + file[pos + n..];
        pos := pos + n;
      }
    }

    /** readArFile: the bytes read, and false at the end of the file */
    method Read(size: nat) returns (data: seq<Byte>, ok: bool)
      requires Usable() && size > 0
      modifies this`pos, this`offset, this`total, buffer
      ensures ok <==> size <= |old(Remaining())|
      ensures ok ==> Usable() && data + Remaining() == old(Remaining()) && |data| == size
      ensures !ok ==> data == old(Remaining()) && (Usable() <==> file == [])
    {
      data, ok := [], true;
      var len := size;
      while len > 0 && ok
        invariant 0 <= len <= size && |data| + len == size
        invariant ok ==> Usable() && data + Remaining() == old(Remaining())
        invariant !ok ==> len > 0 && data == old(Remaining()) && (Usable() <==> file == [])
        decreases len, if ok then 1 else 0, if offset < total then 0 else if pos < |file| then 1 else 0
      {
        var copy := total - offset;
        if copy < len {
          if copy != 0 { data, len := Take(data, len, copy); }
          ok := Fill();
        } else {
          data, len := Take(data, len, len);
        }
      }
    }

    /** The next bytes of the buffer are handed out. */
    method Take(data: seq<Byte>, len: nat, n: nat) returns (data': seq<Byte>, len': nat)
      requires Usable() && n <= len && offset + n <= total
      modifies this`offset
      ensures Usable() && offset == old(offset) + n && len' == len - n && |data'| == |data| + n && data' + Remaining() == data + old(Remaining())
    {
      assert buffer[offset..total] == buffer[offset..offset + n] + buffer[offset + n..total];
      data', len' := data + buffer[offset..offset + n], len - n;
      offset := offset + n;
    }
  }

  // ----- any writes, then any reads

  function Flat(parts: seq<seq<Byte>>, n: nat): seq<Byte>
    requires n <= |parts|
  {
    if n == 0 then [] else Flat(parts, n - 1) + parts[n - 1]
  }

  function Sum(sizes: seq<nat>, n: nat): nat
    requires n <= |sizes|
  {
    if n == 0 then 0 else Sum(sizes, n - 1) + sizes[n - 1]
  }

  lemma {:induction false} SumMono(sizes: seq<nat>, n: nat, m: nat)
    requires n <= m <= |sizes|
    ensures Sum(sizes, n) <= Sum(sizes, m)
    decreases m
  {
    if n < m { SumMono(sizes, n, m - 1); }
  }

  /** The file after any writes is their concatenation. */
  method WriteAll(parts: seq<seq<Byte>>) returns (contents: seq<Byte>)
    requires forall i :: 0 <= i < |parts| ==> parts[i] != []
    ensures contents == Flat(parts, |parts|)
  {
    var w := new Writer();
    for i := 0 to |parts|
      invariant fresh(w) && fresh(w.buffer) && w.Valid() && w.Written() == Flat(parts, i)
    {
      w.Write(parts[i]);
    }
    contents := w.Close();
  }

  /** Any reads that stay within the file return its bytes in order, however they line up with the buffer. */
  method ReadAll(contents: seq<Byte>, sizes: seq<nat>) returns (parts: seq<seq<Byte>>)
    requires (forall i :: 0 <= i < |sizes| ==> sizes[i] > 0) && Sum(sizes, |sizes|) <= |contents|
    ensures |parts| == |sizes| && (forall i :: 0 <= i < |sizes| ==> |parts[i]| == sizes[i])
    ensures Flat(parts, |parts|) == contents[..Sum(sizes, |sizes|)]
  {
    hide Flat, Sum, Reader.Remaining, Reader.Usable;
    var r := new Reader(contents);
    parts := [];
    EmptySums(sizes);
    ghost var done: seq<Byte>, left := [], r.Remaining();
    for i := 0 to |sizes|
      invariant fresh(r) && fresh(r.buffer) && r.Usable() && |parts| == i && forall j :: 0 <= j < i ==> |parts[j]| == sizes[j]
      invariant done == Flat(parts, i) && left == r.Remaining() && done + left == contents && |done| == Sum(sizes, i)
    {
      SumMono(sizes, i + 1, |sizes|);
      OneMoreSize(sizes, i);
      var data, ok := r.Read(sizes[i]);
      OneMorePart(parts, data);
      Advance(done, data, left, r.Remaining());
      parts, done, left := parts + [data], done + data, r.Remaining();
    }
    assert done == contents[..|done|];
  }

  lemma Advance(done: seq<Byte>, data: seq<Byte>, left: seq<Byte>, left': seq<Byte>)
    requires data + left' == left
    ensures done + data + left' == done + left
  {
  }

  lemma OneMoreSize(sizes: seq<nat>, i: nat)
    requires i < |sizes|
    ensures Sum(sizes, i + 1) == Sum(sizes, i) + sizes[i]
  {
  }

  lemma EmptySums(sizes: seq<nat>)
    ensures Flat([], 0) == [] && Sum(sizes, 0) == 0
  {
  }

  lemma OneMorePart(parts: seq<seq<Byte>>, data: seq<Byte>)
    ensures Flat(parts + [data], |parts| + 1) == Flat(parts, |parts|) + data
  {
    SamePrefix(parts, parts + [data], |parts|);
  }

  lemma {:induction false} SamePrefix(a: seq<seq<Byte>>, b: seq<seq<Byte>>, n: nat)
    requires n <= |a| && a <= b
    ensures Flat(a, n) == Flat(b, n)
  {
    if n > 0 { SamePrefix(a, b, n - 1); }
  }
}
