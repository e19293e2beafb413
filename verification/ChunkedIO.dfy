/**
 remoteFile.ReadAt and remoteFile.WriteAt of exportfs/client.go, and the copy
 loop of copyFileToRemote in main.go, against a server that holds a flat file
 and may read and write short or fail at any request.
 */
module ChunkedIO {

  type Contents = seq<bv8>

  const MAX_IO_CHUNK: nat := 8000

  /** What the server fills a hole with. */
  function Hole(n: nat): Contents { seq(n, _ => 0) }

  /** The file with data written at off; a gap before it is filled with zeros, and writing nothing changes nothing. */
  function Overwrite(file: Contents, off: nat, data: Contents): Contents {
    if data == [] then file
    else
      var base := if |file| < off then file + Hole(off - |file|) else file;
      base[..off] + data + if off + |data| < |base| then base[off + |data|..] else []
  }

  /** What is at each place: the data where it was written, the old byte elsewhere, zero in a gap. */
  ghost predicate Written(file: Contents, off: nat, data: Contents, after: Contents) {
    |after| == (if off + |data| > |file| then off + |data| else |file|) &&
    forall i: nat :: i < |after| ==>
      after[i] == if off <= i < off + |data| then data[i - off] else if i < |file| then file[i] else 0
  }

  lemma OverwriteAt(file: Contents, off: nat, data: Contents)
    requires data != []
    ensures Written(file, off, data, Overwrite(file, off, data))
  {
  }

  /** Two adjacent writes are one. */
  lemma OverwriteTwice(file: Contents, off: nat, a: Contents, b: Contents)
    ensures Overwrite(Overwrite(file, off, a), off + |a|, b) == Overwrite(file, off, a + b)
  {
    if a == [] {
      assert a + b == b;
    } else if b == [] {
      assert a + b == a;
    } else {
      var first := Overwrite(file, off, a);
      OverwriteAt(file, off, a);
      OverwriteAt(first, off + |a|, b);
      OverwriteAt(file, off, a + b);
      WrittenTwice(file, off, a, b, first, Overwrite(first, off + |a|, b), Overwrite(file, off, a + b));
    }
  }

  lemma WrittenTwice(file: Contents, off: nat, a: Contents, b: Contents, first: Contents, twice: Contents, once: Contents)
    requires Written(file, off, a, first) && Written(first, off + |a|, b, twice) && Written(file, off, a + b, once)
    ensures twice == once
  {
    assert |twice| == |once|;
    forall i: nat | i < |once| ensures twice[i] == once[i] {
    }
  }

  /** The bytes of a file from off on, at most n of them. */
  function Window(file: Contents, off: nat, n: nat): Contents {
    if off >= |file| then [] else if off + n <= |file| then file[off..off + n] else file[off..]
  }

  class Server {
    var file: Contents
    /** The server reads short at the end of the file only. */
    const fullReads: bool
    /** Requests do not fail, and writes are complete. */
    const reliable: bool
    /** A write that is answered by an error has written nothing. */
    const atomic: bool

    constructor (file: Contents, fullReads: bool, reliable: bool, atomic: bool)
      ensures this.file == file && this.fullReads == fullReads && this.reliable == reliable && this.atomic == atomic
    {
      this.file, this.fullReads, this.reliable, this.atomic := file, fullReads, reliable, atomic;
    }

    method Read(off: nat, count: nat) returns (ok: bool, data: Contents)
      ensures ok ==> data <= Window(file, off, count)
      ensures ok && fullReads ==> data == Window(file, off, count)
      ensures reliable ==> ok
    {
      ok := *;
      ok := ok || reliable;
      data := Window(file, off, count);
      var short: int := *;
      if !fullReads && 0 <= short < |data| {
        data := data[..short];
      }
    }

    /** n is the count that a good reply carries, wrote is what was written, perhaps in spite of an error reply. */
    method Write(off: nat, data: Contents) returns (ok: bool, n: nat, ghost wrote: nat)
      modifies this
      ensures wrote <= |data| && file == Overwrite(old(file), off, data[..wrote])
      ensures n == if ok then wrote else 0
      ensures !ok && atomic ==> wrote == 0
      ensures reliable ==> ok && n == |data|
    {
      ok := *;
      var k: int := *;
      var written := if 0 <= k <= |data| then k else 0;
      if reliable {
        ok, written := true, |data|;
      } else if !ok && atomic {
        written := 0;
      }
      n, wrote := if ok then written else 0, written;
      file := Overwrite(file, off, data[..written]);
    }
  }

  datatype Error = NoError | EOF | ShortWrite | ServerError

  /**
   WriteAt: on short writes and after an error the file holds exactly the first total bytes of p at off. Only a
   request that wrote something before the server answered it with an error can make that more, up to upto.
   */
  method WriteAt(s: Server, p: Contents, off: nat) returns (total: nat, err: Error, ghost upto: nat)
    modifies s
    ensures total <= upto <= |p| && s.file == Overwrite(old(s.file), off, p[..upto])
    ensures err != ServerError || s.atomic ==> upto == total
    ensures upto <= total + MAX_IO_CHUNK
    ensures err == NoError <==> total == |p|
    ensures s.reliable ==> err == NoError
  {
    total, upto := 0, 0;
    while total < |p|
      invariant total == upto <= |p| && s.file == Overwrite(old(s.file), off, p[..upto])
    {
      var chunk := if |p| - total > MAX_IO_CHUNK then MAX_IO_CHUNK else |p| - total;
      var ok, n;
      ok, n, upto := WriteChunk(s, p, off, total, chunk, old(s.file));
      total := total + n;
      if !ok {
        return total, ServerError, upto;
      }
      if n != chunk {
        return total, ShortWrite, upto;
      }
    }
    err := NoError;
  }

  /** What a failed request wrote shows, unless the file held those bytes already. */
  lemma ExtraShows(file: Contents, off: nat, p: Contents, total: nat, upto: nat)
    requires total <= upto <= |p|
    ensures Overwrite(file, off, p[..upto]) == Overwrite(file, off, p[..total]) <==>
            upto == total || (off + upto <= |file| && forall i :: total <= i < upto ==> file[off + i] == p[i])
  {
    var (a, b) := (Overwrite(file, off, p[..upto]), Overwrite(file, off, p[..total]));
    if total < upto && a == b {
      LastBytes(file, off, p, total, upto);
    }
    if off + upto <= |file| && forall i :: total <= i < upto ==> file[off + i] == p[i] {
      SameBytes(file, off, p, total, upto);
    }
  }

  /**
   The outcome that reports too little: a server that writes the one byte to an empty file before it answers with an
   error. WriteAt then returns 0, and the file has the byte.
   */
  lemma UncountedByte(x: bv8)
    ensures Overwrite([], 0, [x][..1]) == [x] && Overwrite([], 0, [x][..0]) == []
  {
    assert [x][..1] == [x];
  }

  lemma OverwriteLength(file: Contents, off: nat, data: Contents)
    ensures data == [] ==> Overwrite(file, off, data) == file
    ensures data != [] ==> |Overwrite(file, off, data)| == if off + |data| > |file| then off + |data| else |file|
  {
    if data != [] { OverwriteAt(file, off, data); }
  }

  lemma LastBytes(file: Contents, off: nat, p: Contents, total: nat, upto: nat)
    requires total < upto <= |p| && Overwrite(file, off, p[..upto]) == Overwrite(file, off, p[..total])
    ensures off + upto <= |file| && forall i :: total <= i < upto ==> file[off + i] == p[i]
  {
    var (d, e, a) := (p[..upto], p[..total], Overwrite(file, off, p[..upto]));
    OverwriteAt(file, off, d);
    if total > 0 { OverwriteAt(file, off, e); }
    forall i | total <= i < upto ensures off + upto <= |file| && file[off + i] == p[i] {
      assert a[off + i] == d[i];
    }
  }

  lemma SameBytes(file: Contents, off: nat, p: Contents, total: nat, upto: nat)
    requires total <= upto <= |p| && off + upto <= |file| && forall i :: total <= i < upto ==> file[off + i] == p[i]
    ensures Overwrite(file, off, p[..upto]) == Overwrite(file, off, p[..total])
  {
    var (a, b) := (Overwrite(file, off, p[..upto]), Overwrite(file, off, p[..total]));
    OverwriteLength(file, off, p[..upto]);
    OverwriteLength(file, off, p[..total]);
    if upto > 0 { OverwriteAt(file, off, p[..upto]); }
    if total > 0 { OverwriteAt(file, off, p[..total]); }
    forall k: nat | k < |a| ensures a[k] == b[k] {
    }
  }

  /** One request of WriteAt, after total bytes have been written to a file that was orig. */
  method WriteChunk(s: Server, p: Contents, off: nat, total: nat, chunk: nat, ghost orig: Contents)
    returns (ok: bool, n: nat, ghost upto: nat)
    requires total + chunk <= |p| && s.file == Overwrite(orig, off, p[..total])
    modifies s
    ensures total + n <= upto <= total + chunk && s.file == Overwrite(orig, off, p[..upto])
    ensures (ok ==> upto == total + n) && (!ok ==> n == 0 && (s.atomic ==> upto == total))
    ensures s.reliable ==> ok && n == chunk
  {
    ghost var wrote;
    var data := p[total..total + chunk];
    ok, n, wrote := WriteData(s, data, off + total, orig, off, p[..total]);
    upto := total + wrote;
    Joined(p, total, data, wrote);
  }

  /** Data that follows what has been written at off to a file that was orig. */
  method WriteData(s: Server, data: Contents, at: nat, ghost orig: Contents, ghost off: nat, ghost done: Contents)
    returns (ok: bool, n: nat, ghost wrote: nat)
    requires at == off + |done| && s.file == Overwrite(orig, off, done)
    modifies s
    ensures n <= wrote <= |data| && s.file == Overwrite(orig, off, done + data[..wrote])
    ensures (ok ==> wrote == n) && (!ok ==> n == 0 && (s.atomic ==> wrote == 0))
    ensures s.reliable ==> ok && n == |data|
  {
    ok, n, wrote := s.Write(at, data);
    OverwriteTwice(orig, off, done, data[..wrote]);
  }

  lemma Joined<T>(p: seq<T>, total: nat, data: seq<T>, n: nat)
    requires n <= |data| && total + |data| <= |p| && data == p[total..total + |data|]
    ensures p[..total] + data[..n] == p[..total + n]
  {
  }

  /** The buffer was with got at its start. */
  function Filled(was: Contents, got: Contents): Contents
    requires |got| <= |was|
  {
    got + was[|got|..]
  }

  /** ReadAt: the buffer starts with bytes of the file at off, all of them when reads are full and none failed. */
  method ReadAt(s: Server, p: array<bv8>, off: nat) returns (total: nat, err: Error, ghost got: Contents, ghost failed: bool)
    modifies p
    ensures total == |got| <= p.Length && p[..] == Filled(old(p[..]), got)
    ensures got <= Window(s.file, off, p.Length)
    ensures s.fullReads && !failed ==> got == Window(s.file, off, p.Length)
    ensures err == if total > 0 then NoError else if failed then ServerError else EOF
    ensures s.reliable ==> !failed
  {
    total, failed, got := 0, false, [];
    while total < p.Length
      invariant total == |got| <= p.Length && p[..] == Filled(old(p[..]), got)
      invariant got <= Window(s.file, off, p.Length)
    {
      var chunk := if p.Length - total > MAX_IO_CHUNK then MAX_IO_CHUNK else p.Length - total;
      var ok, data := s.Read(off + total, chunk);
      if !ok {
        failed := true;
        err := if total > 0 then NoError else ServerError;
        return;
      }
      ReadMore(s.file, off, p.Length, got, chunk, data);
      CopyAt(p, total, data, old(p[..]), got);
      total, got := total + |data|, got + data;
      if |data| == 0 || |data| < chunk {
        break;
      }
    }
    err := if total == 0 then EOF else NoError;
  }

  /** copy(p[at:], data). */
  method CopyAt(p: array<bv8>, at: nat, data: Contents, ghost was: Contents, ghost got: Contents)
    requires at == |got| && at + |data| <= p.Length == |was| && p[..] == Filled(was, got)
    modifies p
    ensures p[..] == Filled(was, got + data)
  {
    ghost var before := p[..];
    for k := 0 to |data|
      invariant p[..] == before[..at] + data[..k] + before[at + k..]
    {
      p[at + k] := data[k];
    }
    FillMore(was, got, data);
  }

  lemma FillMore(was: Contents, got: Contents, data: Contents)
    requires |got| + |data| <= |was|
    ensures var p := Filled(was, got); p[..|got|] + data + p[|got| + |data|..] == Filled(was, got + data)
  {
    var p := Filled(was, got);
    assert p[..|got|] == got;
    assert p[|got| + |data|..] == was[|got| + |data|..];
  }

  lemma ReadMore(file: Contents, off: nat, n: nat, got: Contents, chunk: nat, data: Contents)
    requires |got| + chunk <= n && got <= Window(file, off, n) && data <= Window(file, off + |got|, chunk)
    ensures |got| + |data| <= n && got + data <= Window(file, off, n)
    ensures data == Window(file, off + |got|, chunk) && |data| < chunk ==> got + data == Window(file, off, n)
    ensures |got| + |data| == n ==> got + data == Window(file, off, n)
  {
  }

  /** The loop of copyFileToRemote, for any way in which the local file is read: a nil return means equal contents. */
  method CopyContents(s: Server, local: Contents, readable: bool) returns (ok: bool)
    requires s.file == []
    modifies s
    ensures ok ==> s.file == local
    ensures s.file <= local
    ensures s.reliable && readable ==> ok
  {
    var off: nat, rest := 0, local;
    assert local[0..] == local;
    while rest != []
      invariant off <= |local| && rest == local[off..] && s.file == local[..off]
      decreases |rest|
    {
      var broken: bool := *;
      if broken && !readable {
        return false;
      }
      var k: int := *;
      var max := if |rest| > 128 * 1024 then 128 * 1024 else |rest|;
      var n := if 1 <= k <= max then k else max;
      var written, err, upto := WriteAt(s, rest[..n], off);
      AppendAt(local, off, n, upto);
      if err != NoError {
        return false;
      }
      off := off + written;
      rest := rest[n..];
    }
    ok := true;
  }

  lemma AppendAt(local: Contents, off: nat, n: nat, written: nat)
    requires off + n <= |local| && written <= n
    ensures Overwrite(local[..off], off, local[off..][..n][..written]) == local[..off + written]
    ensures n <= |local[off..]| && local[off..][n..] == local[off + n..]
  {
    var data := local[off..][..n][..written];
    assert local[..off] + data == local[..off + written];
    assert local[..off][..off] == local[..off];
  }
}
