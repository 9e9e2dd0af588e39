/**
 The content hasher `get_file_hash` (src/main.rs:124-136): open the file, read it
 through a fixed 4096-byte buffer, feed every non-empty read to an incremental
 SHA-256 hasher, stop at the first read that returns 0 bytes, and render the
 digest with `Hex.HexDigest`. SHA-256 itself is a parameter: a function from
 the bytes fed to a 32-byte digest, about which nothing else is assumed.
 */
module ContentHash {
  import opened Io
  import opened Hex

  /** The length of the read buffer (src/main.rs:125). */
  const BufferSize: nat := 4096

  /** A SHA-256 digest. */
  type Digest = d: seq<byte> | |d| == 32 witness seq(32, _ => 0)

  /** Puts `pre` in front of the bytes of a successful stream; an error stays an error. */
  function Prepend(pre: seq<byte>, r: Result<seq<byte>>): Result<seq<byte>>
  {
    match r
    case Ok(rest) => Ok(pre + rest)
    case Err(e) => Err(e)
  }

  /**
   The bytes a reader that keeps reading until a read returns 0 obtains from
   the successive results `steps`, or the error of the first failing read.
   An exhausted script reads as end of file.
   */
  function Stream(steps: seq<ReadStep>): Result<seq<byte>>
  {
    if steps == [] then Ok([])
    else match steps[0]
      case ReadFails => Err(ReadFailed)
      case Bytes(b) => if b == [] then Ok([]) else Prepend(b, Stream(steps[1..]))
  }

  /** A bound on the number of reads left: one per step plus one per byte. */
  function StreamSize(steps: seq<ReadStep>): nat
  {
    if steps == [] then 0
    else (match steps[0] case ReadFails => 1 case Bytes(b) => 1 + |b|) + StreamSize(steps[1..])
  }

  /** The number of bytes one `read` into a buffer of `capacity` bytes returns. */
  function ReadCount(pending: seq<ReadStep>, capacity: nat): nat
  {
    if pending == [] || pending[0].ReadFails? then 0
    else if |pending[0].data| < capacity then |pending[0].data| else capacity
  }

  /** What remains to be read after one successful `read`: the unread tail of the chunk stays first. */
  function AfterRead(pending: seq<ReadStep>, capacity: nat): seq<ReadStep>
  {
    if pending == [] || pending[0].ReadFails? then pending
    else
      var b := pending[0].data;
      var n := ReadCount(pending, capacity);
      (if n < |b| then [Bytes(b[n..])] else []) + pending[1..]
  }

  /**
   One successful read does not change what the whole stream yields: the bytes
   returned, then the stream of what remains. A read returning 0 marks the end.
   */
  lemma {:induction false} ReadPreservesStream(pending: seq<ReadStep>, capacity: nat)
    requires capacity > 0
    requires pending == [] || pending[0].Bytes?
    ensures var n := ReadCount(pending, capacity);
      0 < n ==> Stream(pending) == Prepend(pending[0].data[..n], Stream(AfterRead(pending, capacity)))
    ensures ReadCount(pending, capacity) == 0 ==> Stream(pending) == Ok([])
    ensures ReadCount(pending, capacity) > 0 ==> StreamSize(AfterRead(pending, capacity)) < StreamSize(pending)
    ensures ReadCount(pending, capacity) <= capacity
  {
    var n := ReadCount(pending, capacity);
    if n > 0 {
      var b := pending[0].data;
      if n < |b| {
        PartialRead(pending, n);
      } else {
        assert b[..n] == b;
        assert AfterRead(pending, capacity) == pending[1..];
      }
    }
  }

  /** A read that takes only the first `n` bytes of the next chunk leaves the rest of that chunk first. */
  lemma PartialRead(pending: seq<ReadStep>, n: nat)
    requires pending != [] && pending[0].Bytes? && 0 < n < |pending[0].data|
    ensures var b, rest := pending[0].data, pending[1..];
      Stream(pending) == Prepend(b[..n], Stream([Bytes(b[n..])] + rest)) &&
      StreamSize([Bytes(b[n..])] + rest) < StreamSize(pending)
  {
    var b, rest := pending[0].data, pending[1..];
    var next := [Bytes(b[n..])] + rest;
    assert next[0] == Bytes(b[n..]) && next[1..] == rest;
    assert Stream(next) == Prepend(b[n..], Stream(rest));
    assert StreamSize(next) == 1 + |b[n..]| + StreamSize(rest);
    PrependTwice(b[..n], b[n..], Stream(rest));
    assert b[..n] + b[n..] == b;
  }

  /** Feeding `a` and then `b` is feeding `a + b`. */
  lemma PrependTwice(a: seq<byte>, b: seq<byte>, r: Result<seq<byte>>)
    ensures Prepend(a, Prepend(b, r)) == Prepend(a + b, r)
  {
    match r {
      case Ok(rest) => assert a + (b + rest) == (a + b) + rest;
      case Err(_) =>
    }
  }

  /**
   Reading stops at the first read that returns 0 bytes: nothing after it is
   ever looked at.
   */
  lemma {:induction false} StreamStopsAtEndOfFile(before: seq<ReadStep>, after: seq<ReadStep>)
    ensures Stream(before + [Bytes([])] + after) == Stream(before + [Bytes([])])
  {
    if before == [] {
      assert (before + [Bytes([])] + after)[0] == Bytes([]);
    } else {
      assert (before + [Bytes([])] + after)[1..] == before[1..] + [Bytes([])] + after;
      assert (before + [Bytes([])])[1..] == before[1..] + [Bytes([])];
      StreamStopsAtEndOfFile(before[1..], after);
    }
  }

  /**
   How the file's bytes are split among reads does not change what is hashed:
   one read of `x + y` and two reads of `x` and `y` yield the same stream.
   */
  lemma {:induction false} StreamIgnoresChunking(x: seq<byte>, y: seq<byte>, rest: seq<ReadStep>)
    requires x != [] && y != []
    ensures Stream([Bytes(x + y)] + rest) == Stream([Bytes(x), Bytes(y)] + rest)
  {
    var one := [Bytes(x + y)] + rest;
    var two := [Bytes(x), Bytes(y)] + rest;
    assert one[1..] == rest;
    assert two[1..] == [Bytes(y)] + rest;
    assert two[1..][1..] == rest;
    match Stream(rest)
    case Ok(r) => assert (x + y) + r == x + (y + r);
    case Err(_) =>
  }

  /** The first `i` reads all returned some bytes. */
  predicate Progressing(steps: seq<ReadStep>, i: nat)
    requires i <= |steps|
  {
    forall j :: 0 <= j < i ==> steps[j].Bytes? && steps[j].data != []
  }

  /**
   A stream fails exactly when some read fails before any read has returned 0
   bytes; the error kind is then a read failure.
   */
  lemma {:induction false} StreamFailsIff(steps: seq<ReadStep>)
    ensures Stream(steps).Err? <==>
      exists i :: 0 <= i < |steps| && steps[i].ReadFails? && Progressing(steps, i)
    ensures Stream(steps).Err? ==> Stream(steps).error == ReadFailed
  {
    if steps != [] && steps[0].Bytes? && steps[0].data != [] {
      var tail := steps[1..];
      StreamFailsIff(tail);
      if Stream(tail).Err? {
        var i :| 0 <= i < |tail| && tail[i].ReadFails? && Progressing(tail, i);
        assert steps[i + 1].ReadFails?;
        forall j | 0 <= j < i + 1 ensures steps[j].Bytes? && steps[j].data != [] {
          if j > 0 { assert steps[j] == tail[j - 1]; }
        }
        assert Progressing(steps, i + 1);
      } else {
        forall i | 0 <= i < |steps| && steps[i].ReadFails?
          ensures !Progressing(steps, i)
        {
          assert i > 0;
          assert tail[i - 1].ReadFails?;
          assert !Progressing(tail, i - 1);
          var j :| 0 <= j < i - 1 && !(tail[j].Bytes? && tail[j].data != []);
          assert steps[j + 1] == tail[j];
        }
      }
    } else if steps != [] && steps[0].ReadFails? {
      assert Progressing(steps, 0);
    } else if steps != [] {
      forall i | 0 <= i < |steps| && steps[i].ReadFails?
        ensures !Progressing(steps, i)
      {
        assert !(steps[0].Bytes? && steps[0].data != []);
      }
    }
  }

  /**
   The fingerprint `get_file_hash` computes for the file at `p`: an open
   failure, a read failure, or the hex rendering of the digest of its bytes.
   */
  function FileHash(fs: FileSystem, sha: seq<byte> -> Digest, p: Path): Result<string>
  {
    if p !in fs.files then Err(OpenFailed)
    else match Stream(fs.files[p])
      case Ok(bytes) => Ok(HexDigest(sha(bytes)))
      case Err(e) => Err(e)
  }

  /** Files whose reads yield the same bytes get the same fingerprint, however the reads were split. */
  lemma SameBytesSameFingerprint(fs: FileSystem, sha: seq<byte> -> Digest, p: Path, q: Path)
    requires p in fs.files && q in fs.files
    requires Stream(fs.files[p]).Ok? && Stream(fs.files[p]) == Stream(fs.files[q])
    ensures FileHash(fs, sha, p).Ok? && FileHash(fs, sha, p) == FileHash(fs, sha, q)
  {
  }

  /** The concatenation of a sequence of chunks. */
  function Flatten(chunks: seq<seq<byte>>): seq<byte>
  {
    if chunks == [] then [] else Flatten(chunks[..|chunks| - 1]) + chunks[|chunks| - 1]
  }

  /** An incremental SHA-256 hasher: `Update` feeds bytes, `Finalize` returns the digest of all of them. */
  class Sha256 {
    const sha: seq<byte> -> Digest
    var fed: seq<byte>

    constructor (sha: seq<byte> -> Digest)
      ensures this.sha == sha && fed == []
    {
      this.sha := sha;
      fed := [];
    }

    method Update(chunk: seq<byte>)
      modifies this
      ensures fed == old(fed) + chunk
    {
      fed := fed + chunk;
    }

    method Finalize() returns (d: Digest)
      ensures d == sha(fed)
    {
      d := sha(fed);
    }
  }

  /** An open file: the results its remaining `read` calls will produce. */
  class OpenFile {
    var pending: seq<ReadStep>

    constructor (script: seq<ReadStep>)
      ensures pending == script
    {
      pending := script;
    }

    /** `read` into `buf`: up to `buf.Length` bytes of the next chunk, 0 at end of file, or an error. */
    method Read(buf: array<byte>) returns (r: Result<nat>)
      modifies this, buf
      ensures old(pending) != [] && old(pending)[0].ReadFails? ==>
        r == Err(ReadFailed) && pending == old(pending)
      ensures old(pending) == [] ==> r == Ok(0) && pending == []
      ensures old(pending) != [] && old(pending)[0].Bytes? ==>
        r == Ok(ReadCount(old(pending), buf.Length)) &&
        r.value <= buf.Length &&
        buf[..r.value] == old(pending)[0].data[..r.value] &&
        pending == AfterRead(old(pending), buf.Length)
    {
      if pending == [] {
        return Ok(0);
      }
      match pending[0]
      case ReadFails =>
        r := Err(ReadFailed);
      case Bytes(b) =>
        var n := ReadCount(pending, buf.Length);
        forall i | 0 <= i < n {
          buf[i] := b[i];
        }
        pending := AfterRead(pending, buf.Length);
        r := Ok(n);
    }
  }

  /**
   `get_file_hash`. The chunks handed to the hasher are returned as a ghost
   trace: each is non-empty and at most one buffer long, and together they are
   exactly the bytes the file's reads yield.
   */
  method GetFileHash(fs: FileSystem, sha: seq<byte> -> Digest, path: Path)
    returns (r: Result<string>, ghost chunks: seq<seq<byte>>)
    ensures r == FileHash(fs, sha, path)
    ensures forall c <- chunks :: 0 < |c| <= BufferSize
    ensures r.Ok? ==> path in fs.files && Stream(fs.files[path]) == Ok(Flatten(chunks))
  {
    var buffer := new byte[BufferSize];
    chunks := [];
    if path !in fs.files {
      return Err(OpenFailed), chunks;
    }
    var file := new OpenFile(fs.files[path]);
    var hasher := new Sha256(sha);
    match Stream(file.pending) {
      case Ok(all) => assert hasher.fed + all == all;
      case Err(_) =>
    }
    while true
      invariant hasher.sha == sha && buffer.Length == BufferSize
      invariant hasher.fed == Flatten(chunks)
      invariant forall c <- chunks :: 0 < |c| <= BufferSize
      invariant Stream(fs.files[path]) == Prepend(hasher.fed, Stream(file.pending))
      decreases StreamSize(file.pending)
    {
      ghost var before := file.pending;
      var n := file.Read(buffer);
      if n.Err? {
        assert Stream(before) == Err(ReadFailed);
        return Err(n.error), chunks;
      }
      ReadPreservesStream(before, BufferSize);
      if n.value == 0 {
        assert hasher.fed + [] == hasher.fed;
        break;
      }
      var chunk := buffer[..n.value];
      assert chunk == before[0].data[..n.value];
      ghost var fedBefore, chunksBefore := hasher.fed, chunks;
      hasher.Update(chunk);
      chunks := chunks + [chunk];
      assert chunks[..|chunks| - 1] == chunksBefore;
      PrependTwice(fedBefore, chunk, Stream(file.pending));
    }
    assert Stream(fs.files[path]) == Ok(hasher.fed);
    var digest := hasher.Finalize();
    r := Ok(HexDigest(digest));
  }
}
