/**
 The abstract world the duplicate finder runs against: bytes, I/O results and
 a filesystem that is a value. Every operation of the real filesystem that
 src/main.rs calls (`read_dir`, `metadata`, `is_dir`, `File::open`, `read`) is
 given here as data, including the ways it can fail.
 */
module Io {

  type byte = b: int | 0 <= b < 256

  /** A path as the program sees it (`PathBuf`); no normalisation is modelled. */
  type Path = string

  /** The error kinds the core can raise; all are `std::io::Error` in the source. */
  datatype IoError =
    | ReadDirFailed   // `std::fs::read_dir` could not open the directory
    | OpenFailed      // `File::open` could not open a file for hashing
    | ReadFailed      // a `read` on an open file failed mid-stream

  /** `std::io::Result<T>`. */
  datatype Result<+T> = Ok(value: T) | Err(error: IoError)

  /** What `metadata()` returns for an entry: the Windows attribute word and the kind. */
  datatype Meta = Meta(attributes: bv32, isDir: bool)

  /** One item of a `read_dir` iterator: either an entry or an item that failed to read. */
  datatype DirItem = Unreadable | Item(path: Path)

  /** One call of `read` on an open file: some bytes (none means end of file) or an error. */
  datatype ReadStep = Bytes(data: seq<byte>) | ReadFails

  /**
   The filesystem seen by one run.
   - `listings`: the items `read_dir` yields for a directory, in iteration order;
     a path that is absent makes `read_dir` fail.
   - `metadata`: what `metadata()` yields; an absent path makes it fail.
   - `files`: for each file that `File::open` can open, the results its
     successive `read` calls produce; an absent path makes `File::open` fail.
   */
  datatype FileSystem = FileSystem(
    listings: map<Path, seq<DirItem>>,
    metadata: map<Path, Meta>,
    files: map<Path, seq<ReadStep>>)

  /** No element occurs twice. */
  ghost predicate Distinct<T>(s: seq<T>)
  {
    forall i, j :: 0 <= i < j < |s| ==> s[i] != s[j]
  }

  /** Two sequences without repeats concatenate without repeats exactly when they share no element. */
  lemma DistinctAppend<T>(a: seq<T>, b: seq<T>)
    ensures Distinct(a + b) <==> Distinct(a) && Distinct(b) && forall x <- a :: x !in b
  {
    if Distinct(a + b) {
      forall i, j | 0 <= i < j < |a| ensures a[i] != a[j] {
        assert a[i] == (a + b)[i] && a[j] == (a + b)[j];
      }
      forall i, j | 0 <= i < j < |b| ensures b[i] != b[j] {
        assert b[i] == (a + b)[|a| + i] && b[j] == (a + b)[|a| + j];
      }
      forall i, j | 0 <= i < |a| && 0 <= j < |b| ensures a[i] != b[j] {
        assert a[i] == (a + b)[i] && b[j] == (a + b)[|a| + j];
      }
    }
    if Distinct(a) && Distinct(b) && forall x <- a :: x !in b {
      forall i, j | 0 <= i < j < |a + b| ensures (a + b)[i] != (a + b)[j] {
        if j < |a| {
          assert (a + b)[i] == a[i] && (a + b)[j] == a[j];
        } else if |a| <= i {
          assert (a + b)[i] == b[i - |a|] && (a + b)[j] == b[j - |a|];
        } else {
          assert (a + b)[i] == a[i] && (a + b)[j] == b[j - |a|];
          assert a[i] in a && b[j - |a|] in b;
        }
      }
    }
  }

  /** The paths of the entries among `items`, in iteration order. */
  function ItemPaths(items: seq<DirItem>): seq<Path>
  {
    if items == [] then []
    else (if items[0].Item? then [items[0].path] else []) + ItemPaths(items[1..])
  }

  lemma {:induction false} ItemPathsAppend(a: seq<DirItem>, b: seq<DirItem>)
    ensures ItemPaths(a + b) == ItemPaths(a) + ItemPaths(b)
  {
    if a == [] {
      assert a + b == b;
    } else {
      assert (a + b)[1..] == a[1..] + b;
      ItemPathsAppend(a[1..], b);
    }
  }

  /**
   What `read_dir` guarantees of a real directory tree: each entry is
   `parent.join(name)` for a name that occurs once in its parent, so a path is
   listed by at most one directory, at most once, and the root of the walk by
   none.
   */
  ghost predicate ListedOnce(fs: FileSystem, root: Path)
  {
    (forall p <- fs.listings :: Distinct(ItemPaths(fs.listings[p]))) &&
    (forall p, q, c ::
       p in fs.listings && q in fs.listings && c in ItemPaths(fs.listings[p]) && c in ItemPaths(fs.listings[q])
       ==> p == q) &&
    (forall p <- fs.listings :: root !in ItemPaths(fs.listings[p]))
  }

  /** `Path::is_dir`: follows the metadata query and is false when that query fails. */
  predicate IsDir(fs: FileSystem, p: Path)
  {
    p in fs.metadata && fs.metadata[p].isDir
  }
}
