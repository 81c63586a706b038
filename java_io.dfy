/** The Java I/O objects the deletion-vector code drives step by step: a little-endian
    java.nio.ByteBuffer over a fixed array, java.io.DataOutputStream and DataInputStream
    (big-endian ints), and a file system holding each file's bytes under its path. */
module JavaIo {
  import opened Results
  import opened ByteOrder

  /** A ByteBuffer in LITTLE_ENDIAN order; its limit is its capacity. */
  class ByteBuffer {
    const data: array<bv8>
    var position: nat

    predicate Valid()
      reads this
    {
      position <= data.Length
    }

    function Remaining(): nat
      reads this
      requires Valid()
    {
      data.Length - position
    }

    /** ByteBuffer.allocate: a zero-filled buffer. */
    constructor Allocate(capacity: nat)
      ensures Valid() && fresh(data) && position == 0
      ensures data.Length == capacity && forall k :: 0 <= k < capacity ==> data[k] == 0
    {
      data := new bv8[capacity](_ => 0);
      position := 0;
    }

    /** ByteBuffer.wrap: a buffer whose content is the given bytes. */
    constructor Wrap(bytes: seq<bv8>)
      ensures Valid() && fresh(data) && position == 0 && data[..] == bytes
    {
      data := new bv8[|bytes|](i requires 0 <= i < |bytes| => bytes[i]);
      position := 0;
      new;
      assert data[..] == bytes;
    }

    /** ByteBuffer.put(byte[]): all bytes at the position, or BufferOverflowException and
        nothing written. */
    method Put(bytes: seq<bv8>) returns (r: Result<()>)
      requires Valid()
      modifies this, data
      ensures Valid()
      ensures r.Success? <==> |bytes| <= old(Remaining())
      ensures r.Failure? ==> r.error == BufferOverflow && unchanged(this, data)
      ensures r.Success? ==> position == old(position) + |bytes|
      ensures r.Success? ==> data[..] == old(data[..position]) + bytes + old(data[position + |bytes|..])
    {
      if |bytes| > data.Length - position {
        return Failure(BufferOverflow);
      }
      var p := position;
      var i := 0;
      while i < |bytes|
        invariant 0 <= i <= |bytes| && position == p
        invariant forall k :: 0 <= k < data.Length ==>
          data[k] == if p <= k < p + i then bytes[k - p] else old(data[k])
      {
        data[p + i] := bytes[i];
        i := i + 1;
      }
      position := p + |bytes|;
      assert data[..] == old(data[..p]) + bytes + old(data[p + |bytes|..]);

      return Success(());
    }

    /** ByteBuffer.putInt in little-endian order. */
    method PutInt(v: int) returns (r: Result<()>)
      requires Valid() && IsInt32(v)
      modifies this, data
      ensures Valid()
      ensures r.Success? <==> 4 <= old(Remaining())
      ensures r.Failure? ==> r.error == BufferOverflow && unchanged(this, data)
      ensures r.Success? ==> position == old(position) + 4
      ensures r.Success? ==> data[..] == old(data[..position]) + Le32(v) + old(data[position + 4..])
    {
      r := Put(Le32(v));
    }

    /** ByteBuffer.putLong in little-endian order. */
    method PutLong(v: int) returns (r: Result<()>)
      requires Valid() && IsInt64(v)
      modifies this, data
      ensures Valid()
      ensures r.Success? <==> 8 <= old(Remaining())
      ensures r.Failure? ==> r.error == BufferOverflow && unchanged(this, data)
      ensures r.Success? ==> position == old(position) + 8
      ensures r.Success? ==> data[..] == old(data[..position]) + Le64(v) + old(data[position + 8..])
    {
      r := Put(Le64(v));
    }

    /** ByteBuffer.getInt in little-endian order, or BufferUnderflowException. */
    method GetInt() returns (r: Result<int>)
      requires Valid()
      modifies this
      ensures Valid()
      ensures r.Success? <==> 4 <= old(Remaining())
      ensures r.Failure? ==> r.error == Truncated && position == old(position)
      ensures r.Success? ==> r.value == GetLe32(data[..], old(position)) && position == old(position) + 4
    {
      if data.Length - position < 4 {
        return Failure(Truncated);
      }
      r := Success(GetLe32(data[..], position));
      position := position + 4;
    }

    /** ByteBuffer.getLong in little-endian order, or BufferUnderflowException. */
    method GetLong() returns (r: Result<int>)
      requires Valid()
      modifies this
      ensures Valid()
      ensures r.Success? <==> 8 <= old(Remaining())
      ensures r.Failure? ==> r.error == Truncated && position == old(position)
      ensures r.Success? ==> r.value == GetLe64(data[..], old(position)) && position == old(position) + 8
    {
      if data.Length - position < 8 {
        return Failure(Truncated);
      }
      r := Success(GetLe64(data[..], position));
      position := position + 8;
    }

    /** ByteBuffer.position(int) with a position within the limit. */
    method SetPosition(p: nat)
      requires Valid() && p <= data.Length
      modifies this
      ensures Valid() && position == p
    {
      position := p;
    }
  }

  /** The number of bytes InputStream.skip(n) skips with `available` bytes left. */
  function SkipCount(available: nat, n: int): (k: nat)
    ensures k <= available
    ensures k == n <==> 0 <= n <= available
  {
    if n <= 0 then 0 else if n < available then n else available
  }

  /** A DataOutputStream: what has been written so far, in order. */
  class DataOutputStream {
    var written: seq<bv8>

    constructor ()
      ensures written == []
    {
      written := [];
    }

    /** DataOutputStream.size: the number of bytes written so far. */
    function Size(): nat
      reads this
    {
      |written|
    }

    /** DataOutputStream.writeByte: the low eight bits of v. */
    method WriteByte(v: int)
      modifies this
      ensures written == old(written) + [(v % 256) as bv8]
    {
      written := written + [(v % 256) as bv8];
    }

    /** DataOutputStream.writeInt: four bytes, high byte first. */
    method WriteInt(v: int)
      requires IsInt32(v)
      modifies this
      ensures written == old(written) + Be32(v)
    {
      written := written + Be32(v);
    }

    /** DataOutputStream.write(byte[]). */
    method Write(bytes: seq<bv8>)
      modifies this
      ensures written == old(written) + bytes
    {
      written := written + bytes;
    }
  }

  /** A DataInputStream over the bytes of one file, with its read cursor. */
  class DataInputStream {
    const source: seq<bv8>
    var pos: nat

    predicate Valid()
      reads this
    {
      pos <= |source|
    }

    constructor (bytes: seq<bv8>)
      ensures Valid() && source == bytes && pos == 0
    {
      source := bytes;
      pos := 0;
    }

    /** DataInputStream.skip: moves forward by n bytes, or to the end when fewer remain. */
    method Skip(n: int) returns (skipped: nat)
      requires Valid()
      modifies this
      ensures Valid()
      ensures skipped == SkipCount(|source| - old(pos), n) && pos == old(pos) + skipped
    {
      skipped := SkipCount(|source| - pos, n);
      pos := pos + skipped;
    }

    /** DataInputStream.readInt: four bytes, high byte first, or EOFException. */
    method ReadInt() returns (r: Result<int>)
      requires Valid()
      modifies this
      ensures Valid()
      ensures r.Success? <==> old(pos) + 4 <= |source|
      ensures r.Failure? ==> r.error == Truncated
      ensures r.Success? ==> r.value == ReadBe32(source[old(pos)..old(pos) + 4]) && pos == old(pos) + 4
    {
      if |source| - pos < 4 {
        pos := |source|;
        return Failure(Truncated);
      }
      r := Success(ReadBe32(source[pos..pos + 4]));
      pos := pos + 4;
    }

    /** DataInputStream.readFully: fills the whole array, or EOFException. */
    method ReadFully(b: array<bv8>) returns (r: Result<()>)
      requires Valid()
      modifies this, b
      ensures Valid()
      ensures r.Success? <==> old(pos) + b.Length <= |source|
      ensures r.Failure? ==> r.error == Truncated
      ensures r.Success? ==> b[..] == source[old(pos)..old(pos) + b.Length] && pos == old(pos) + b.Length
    {
      if |source| - pos < b.Length {
        pos := |source|;
        return Failure(Truncated);
      }
      var p := pos;
      var i := 0;
      while i < b.Length
        invariant 0 <= i <= b.Length && pos == p && p + b.Length <= |source|
        invariant b[..i] == source[p..p + i]
      {
        b[i] := source[p + i];
        i := i + 1;
        assert b[..i] == b[..i - 1] + [b[i - 1]];
      }
      assert b[..] == b[..b.Length];
      pos := p + b.Length;
      return Success(());
    }
  }

  /** Location.appendPath: the child path under a directory location. The path starts with
      the location, ends with the element, and adds at most one separator between them. */
  function AppendPath(location: string, element: string): (path: string)
    ensures |location| + |element| <= |path| <= |location| + |element| + 1
    ensures path[..|location|] == location && path[|path| - |element|..] == element
  {
    if |location| > 0 && location[|location| - 1] == '/' then location + element
    else location + "/" + element
  }

  /** The bytes stored under a path, or None when no file is there. */
  function FileAt(files: map<string, seq<bv8>>, path: string): Option<seq<bv8>>
  {
    if path in files then Some(files[path]) else None
  }

  /** Two children of the same location are the same path only when their names are equal, so
      a file stored under one name is never read back under another. */
  lemma AppendPathInjective(location: string, a: string, b: string)
    requires AppendPath(location, a) == AppendPath(location, b)
    ensures a == b
  {
    var pa, pb := AppendPath(location, a), AppendPath(location, b);
    assert |a| == |b| by {
      if |location| > 0 && location[|location| - 1] == '/' {
        assert |pa| == |location| + |a| && |pb| == |location| + |b|;
      } else {
        assert |pa| == |location| + 1 + |a| && |pb| == |location| + 1 + |b|;
      }
    }
    assert a == pa[|pa| - |a|..] == pb[|pb| - |b|..] == b;
  }

  /** A file system: the bytes of each file under its path. */
  class FileSystem {
    var files: map<string, seq<bv8>>

    constructor (initial: map<string, seq<bv8>>)
      ensures files == initial
    {
      files := initial;
    }

    /** TrinoInputFile.newStream's view: the file's bytes, or None when it does not exist. */
    function Open(path: string): Option<seq<bv8>>
      reads this
    {
      FileAt(files, path)
    }

    /** TrinoOutputFile.create followed by closing the stream: the file holds what was written. */
    method Create(path: string, contents: seq<bv8>)
      modifies this
      ensures files == old(files)[path := contents]
      ensures Open(path) == Some(contents)
      ensures forall other :: other != path ==> Open(other) == old(Open(other))
    {
      files := files[path := contents];
    }
  }
}
