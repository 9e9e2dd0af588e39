/**
 The directory walker `walk_directory` (src/main.rs:93-121). It lists one
 directory; for each entry that the listing yields, it applies the hidden
 filter, appends a subdirectory to the back of the work queue, and otherwise
 hashes the file and appends its path to the index under that fingerprint. A
 failing `read_dir` and a failing hash both end the call with an error; items
 the listing cannot read are dropped.
 */
module Walker {
  import opened Io
  import opened HiddenFilter
  import opened ContentHash
  import opened DuplicateIndex

  /** What the walker reads from: the filesystem and the SHA-256 function. */
  datatype World = World(fs: FileSystem, sha: seq<byte> -> Digest)

  /** The outcome of a walk together with the queue and the index it leaves behind. */
  datatype WalkState = WalkState(status: Result<()>, queue: seq<Path>, index: Index)

  /**
   The rest of the listing loop, from `items` on, starting from `queue` and
   `index`. The queue only grows at its end, every list of the index only
   grows at its end, and no list is ever empty.
   */
  function WalkItems(world: World, includeHidden: bool, items: seq<DirItem>, queue: seq<Path>, index: Index)
    : (r: WalkState)
    ensures queue <= r.queue
    ensures Grows(index, r.index)
    ensures NoEmptyList(index) ==> NoEmptyList(r.index)
    decreases |items|
  {
    if items == [] then WalkState(Ok(()), queue, index)
    else
      match items[0]
      case Unreadable => WalkItems(world, includeHidden, items[1..], queue, index)
      case Item(p) =>
        if Skipped(world.fs, includeHidden, p) then WalkItems(world, includeHidden, items[1..], queue, index)
        else if IsDir(world.fs, p) then WalkItems(world, includeHidden, items[1..], queue + [p], index)
        else match FileHash(world.fs, world.sha, p)
          case Err(e) => WalkState(Err(e), queue, index)
          case Ok(h) =>
            var next := Insert(index, h, p);
            InsertKeepsShape(index, h, p);
            var r := WalkItems(world, includeHidden, items[1..], queue, next);
            GrowsTransitive(index, next, r.index);
            r
  }

  /** `walk_directory` on `path`: a directory `read_dir` cannot open changes nothing. */
  function Walk(world: World, includeHidden: bool, path: Path, queue: seq<Path>, index: Index): WalkState
  {
    if path !in world.fs.listings then WalkState(Err(ReadDirFailed), queue, index)
    else WalkItems(world, includeHidden, world.fs.listings[path], queue, index)
  }

  /** `walk_directory`, with the queue and the index passed in and handed back. */
  method WalkDirectory(world: World, includeHidden: bool, path: Path, queue: seq<Path>, index: Index)
    returns (status: Result<()>, newQueue: seq<Path>, newIndex: Index)
    ensures WalkState(status, newQueue, newIndex) == Walk(world, includeHidden, path, queue, index)
  {
    if path !in world.fs.listings {
      return Err(ReadDirFailed), queue, index;
    }
    var items := world.fs.listings[path];
    newQueue, newIndex := queue, index;
    var i := 0;
    while i < |items|
      invariant 0 <= i <= |items|
      invariant WalkItems(world, includeHidden, items[i..], newQueue, newIndex)
        == Walk(world, includeHidden, path, queue, index)
    {
      assert items[i..][1..] == items[i + 1..];
      match items[i] {
        case Unreadable =>
        case Item(p) =>
          var hidden := false;
          if p in world.fs.metadata {
            var meta := world.fs.metadata[p];
            hidden := HasHiddenAttribute(meta.attributes) && !includeHidden;
          }
          if !hidden {
            if IsDir(world.fs, p) {
              newQueue := newQueue + [p];
            } else {
              var hash, _ := GetFileHash(world.fs, world.sha, p);
              if hash.Err? {
                return Err(hash.error), newQueue, newIndex;
              }
              newIndex := Insert(newIndex, hash.value, p);
            }
          }
      }
      i := i + 1;
    }
    status := Ok(());
  }

  /** The item is a visible file whose hashing fails: the walk stops there. */
  predicate HashFails(world: World, includeHidden: bool, item: DirItem)
  {
    item.Item? && !Skipped(world.fs, includeHidden, item.path) && !IsDir(world.fs, item.path)
    && FileHash(world.fs, world.sha, item.path).Err?
  }

  /** The position of the first item whose hashing fails, or the length when there is none. */
  function FirstFailure(world: World, includeHidden: bool, items: seq<DirItem>): (k: nat)
    ensures k <= |items|
    ensures k < |items| ==> HashFails(world, includeHidden, items[k])
  {
    if items == [] then 0
    else if HashFails(world, includeHidden, items[0]) then 0
    else 1 + FirstFailure(world, includeHidden, items[1..])
  }

  /** No item before `FirstFailure` fails. */
  lemma {:induction false} FirstFailureIsFirst(world: World, includeHidden: bool, items: seq<DirItem>)
    ensures forall j :: 0 <= j < FirstFailure(world, includeHidden, items) ==>
      !HashFails(world, includeHidden, items[j])
  {
    if items != [] && !HashFails(world, includeHidden, items[0]) {
      FirstFailureIsFirst(world, includeHidden, items[1..]);
      forall j | 0 < j < FirstFailure(world, includeHidden, items)
        ensures !HashFails(world, includeHidden, items[j])
      {
        assert items[j] == items[1..][j - 1];
      }
    }
  }

  /** The visible subdirectories among `items`, in listing order. */
  function VisibleDirs(fs: FileSystem, includeHidden: bool, items: seq<DirItem>): seq<Path>
  {
    if items == [] then []
    else
      (if items[0].Item? && !Skipped(fs, includeHidden, items[0].path) && IsDir(fs, items[0].path)
       then [items[0].path] else [])
      + VisibleDirs(fs, includeHidden, items[1..])
  }

  /** The visible files among `items` whose hashing succeeds, with their fingerprints, in listing order. */
  function FileRecords(world: World, includeHidden: bool, items: seq<DirItem>): seq<Record>
  {
    if items == [] then []
    else
      (if items[0].Item? && !Skipped(world.fs, includeHidden, items[0].path) && !IsDir(world.fs, items[0].path)
          && FileHash(world.fs, world.sha, items[0].path).Ok?
       then [Record(FileHash(world.fs, world.sha, items[0].path).value, items[0].path)] else [])
      + FileRecords(world, includeHidden, items[1..])
  }

  /**
   Directories and files are told apart: every enqueued path is a visible
   directory, every recorded path is a visible non-directory carrying its own
   fingerprint, so a directory is never hashed or put in the index.
   */
  lemma {:induction false} DirsAndFilesApart(world: World, includeHidden: bool, items: seq<DirItem>)
    ensures forall p <- VisibleDirs(world.fs, includeHidden, items) ::
      IsDir(world.fs, p) && !Skipped(world.fs, includeHidden, p)
    ensures forall r <- FileRecords(world, includeHidden, items) ::
      !IsDir(world.fs, r.path) && !Skipped(world.fs, includeHidden, r.path) &&
      FileHash(world.fs, world.sha, r.path) == Ok(r.hash)
  {
    if items != [] {
      DirsAndFilesApart(world, includeHidden, items[1..]);
    }
  }

  /** The listing loop after processing the first item, when that item does not fail. */
  lemma WalkItemsStep(world: World, includeHidden: bool, items: seq<DirItem>, queue: seq<Path>, index: Index)
    requires items != [] && !HashFails(world, includeHidden, items[0])
    ensures var x := items[0];
      WalkItems(world, includeHidden, items, queue, index) ==
        WalkItems(world, includeHidden, items[1..],
          queue + VisibleDirs(world.fs, includeHidden, [x]),
          InsertAll(index, FileRecords(world, includeHidden, [x])))
  {
    var x := items[0];
    assert [x][1..] == [];
    if x.Item? && !Skipped(world.fs, includeHidden, x.path) && !IsDir(world.fs, x.path) {
      var r := Record(FileHash(world.fs, world.sha, x.path).value, x.path);
      assert FileRecords(world, includeHidden, [x]) == [r];
      assert VisibleDirs(world.fs, includeHidden, [x]) == [];
      assert queue + [] == queue;
      assert InsertAll(index, [r]) == InsertAll(Insert(index, r.hash, r.path), []);
    } else {
      assert FileRecords(world, includeHidden, [x]) == [];
      if x.Item? && !Skipped(world.fs, includeHidden, x.path) {
        assert VisibleDirs(world.fs, includeHidden, [x]) == [x.path];
      } else {
        assert VisibleDirs(world.fs, includeHidden, [x]) == [];
        assert queue + [] == queue;
      }
    }
  }

  /** `VisibleDirs` and `FileRecords` split at the first item. */
  lemma SplitFirst(world: World, includeHidden: bool, items: seq<DirItem>)
    requires items != []
    ensures VisibleDirs(world.fs, includeHidden, items)
      == VisibleDirs(world.fs, includeHidden, [items[0]]) + VisibleDirs(world.fs, includeHidden, items[1..])
    ensures FileRecords(world, includeHidden, items)
      == FileRecords(world, includeHidden, [items[0]]) + FileRecords(world, includeHidden, items[1..])
  {
    assert [items[0]][1..] == [];
  }

  /** Past a first item that does not fail, the prefix before the first failure starts with that item. */
  lemma FirstFailureCons(world: World, includeHidden: bool, items: seq<DirItem>)
    requires items != [] && !HashFails(world, includeHidden, items[0])
    ensures var k := FirstFailure(world, includeHidden, items);
      k == 1 + FirstFailure(world, includeHidden, items[1..]) &&
      items[..k] == [items[0]] + items[1..][..k - 1]
  {
    var k := FirstFailure(world, includeHidden, items);
    assert items[..k] == [items[0]] + items[1..][..k - 1];
  }

  /** The queue the listing loop leaves: the old queue and the visible subdirectories before the first failure. */
  lemma {:induction false} WalkItemsQueue(
    world: World, includeHidden: bool, items: seq<DirItem>, queue: seq<Path>, index: Index)
    ensures WalkItems(world, includeHidden, items, queue, index).queue ==
      queue + VisibleDirs(world.fs, includeHidden, items[..FirstFailure(world, includeHidden, items)])
    decreases |items|
  {
    var k := FirstFailure(world, includeHidden, items);
    if items == [] || HashFails(world, includeHidden, items[0]) {
      assert items[..k] == [];
      assert queue + [] == queue;
    } else {
      var tail, done, x := items[1..], items[..k], items[0];
      var a := VisibleDirs(world.fs, includeHidden, [x]);
      var b := VisibleDirs(world.fs, includeHidden, tail[..k - 1]);
      var m := InsertAll(index, FileRecords(world, includeHidden, [x]));
      assert done[0] == x && done[1..] == tail[..k - 1];
      calc {
        WalkItems(world, includeHidden, items, queue, index).queue;
        { WalkItemsStep(world, includeHidden, items, queue, index); }
        WalkItems(world, includeHidden, tail, queue + a, m).queue;
        { WalkItemsQueue(world, includeHidden, tail, queue + a, m); }
        (queue + a) + b;
        queue + (a + b);
        { SplitFirst(world, includeHidden, done); }
        queue + VisibleDirs(world.fs, includeHidden, done);
      }
    }
  }

  /** The index the listing loop leaves: the old index and the visible files before the first failure. */
  lemma {:induction false} WalkItemsIndex(
    world: World, includeHidden: bool, items: seq<DirItem>, queue: seq<Path>, index: Index)
    ensures WalkItems(world, includeHidden, items, queue, index).index ==
      InsertAll(index, FileRecords(world, includeHidden, items[..FirstFailure(world, includeHidden, items)]))
    decreases |items|
  {
    var k := FirstFailure(world, includeHidden, items);
    if items == [] || HashFails(world, includeHidden, items[0]) {
      assert items[..k] == [];
    } else {
      var tail, done, x := items[1..], items[..k], items[0];
      var a := FileRecords(world, includeHidden, [x]);
      var b := FileRecords(world, includeHidden, tail[..k - 1]);
      var q := queue + VisibleDirs(world.fs, includeHidden, [x]);
      FirstFailureCons(world, includeHidden, items);
      assert done[0] == x && done[1..] == tail[..k - 1];
      calc {
        WalkItems(world, includeHidden, items, queue, index).index;
        { WalkItemsStep(world, includeHidden, items, queue, index); }
        WalkItems(world, includeHidden, tail, q, InsertAll(index, a)).index;
        { WalkItemsIndex(world, includeHidden, tail, q, InsertAll(index, a)); }
        InsertAll(InsertAll(index, a), b);
        { InsertAllAppend(index, a, b); }
        InsertAll(index, a + b);
        { SplitFirst(world, includeHidden, done); }
        InsertAll(index, FileRecords(world, includeHidden, done));
      }
    }
  }

  /** The result of the listing loop: the error of the first failing item, or success. */
  lemma {:induction false} WalkItemsStatus(
    world: World, includeHidden: bool, items: seq<DirItem>, queue: seq<Path>, index: Index)
    ensures var k := FirstFailure(world, includeHidden, items);
      WalkItems(world, includeHidden, items, queue, index).status ==
        if k < |items| then Err(FileHash(world.fs, world.sha, items[k].path).error) else Ok(())
    decreases |items|
  {
    if items != [] && !HashFails(world, includeHidden, items[0]) {
      var x := items[0];
      var q := queue + VisibleDirs(world.fs, includeHidden, [x]);
      var m := InsertAll(index, FileRecords(world, includeHidden, [x]));
      WalkItemsStep(world, includeHidden, items, queue, index);
      WalkItemsStatus(world, includeHidden, items[1..], q, m);
    }
  }

  /** The subdirectories `walk_directory` appends to the queue for `path`. */
  function Pushed(world: World, includeHidden: bool, path: Path): seq<Path>
  {
    if path !in world.fs.listings then []
    else
      var items := world.fs.listings[path];
      VisibleDirs(world.fs, includeHidden, items[..FirstFailure(world, includeHidden, items)])
  }

  /** The files `walk_directory` records for `path`, in listing order. */
  function Recorded(world: World, includeHidden: bool, path: Path): seq<Record>
  {
    if path !in world.fs.listings then []
    else
      var items := world.fs.listings[path];
      FileRecords(world, includeHidden, items[..FirstFailure(world, includeHidden, items)])
  }

  /** What `walk_directory` returns for `path`. */
  function Status(world: World, includeHidden: bool, path: Path): Result<()>
  {
    if path !in world.fs.listings then Err(ReadDirFailed)
    else
      var items := world.fs.listings[path];
      var k := FirstFailure(world, includeHidden, items);
      if k < |items| then Err(FileHash(world.fs, world.sha, items[k].path).error) else Ok(())
  }

  /** What one walk of a directory does: its outcome, the subdirectories it enqueues, the files it records. */
  datatype Visit = Visit(status: Result<()>, pushed: seq<Path>, recorded: seq<Record>)

  /** The walk of `path`, summarised. */
  function VisitOf(world: World, includeHidden: bool, path: Path): Visit
  {
    Visit(Status(world, includeHidden, path), Pushed(world, includeHidden, path), Recorded(world, includeHidden, path))
  }

  /** Every path one walk enqueues or records, subdirectories first. */
  function Seen(v: Visit): seq<Path>
  {
    v.pushed + PathsOf(v.recorded)
  }

  /**
   The subdirectories and files a listing contributes are among its entries;
   when the entries have no repeats, neither do the subdirectories, nor the
   files, and no file is a directory.
   */
  lemma {:induction false} SelectionsWithin(world: World, includeHidden: bool, items: seq<DirItem>)
    ensures forall c <- VisibleDirs(world.fs, includeHidden, items) :: c in ItemPaths(items) && IsDir(world.fs, c)
    ensures forall c <- PathsOf(FileRecords(world, includeHidden, items)) :: c in ItemPaths(items) && !IsDir(world.fs, c)
    ensures Distinct(ItemPaths(items)) ==>
      Distinct(VisibleDirs(world.fs, includeHidden, items)) && Distinct(PathsOf(FileRecords(world, includeHidden, items)))
  {
    if items != [] {
      var x, rest := items[0], items[1..];
      var dirs, files := VisibleDirs(world.fs, includeHidden, rest), FileRecords(world, includeHidden, rest);
      var stepI := if x.Item? then [x.path] else [];
      var stepD := if x.Item? && !Skipped(world.fs, includeHidden, x.path) && IsDir(world.fs, x.path) then [x.path] else [];
      var stepF := if x.Item? && !Skipped(world.fs, includeHidden, x.path) && !IsDir(world.fs, x.path)
          && FileHash(world.fs, world.sha, x.path).Ok?
        then [Record(FileHash(world.fs, world.sha, x.path).value, x.path)] else [];
      SelectionsWithin(world, includeHidden, rest);
      PathsOfAppend(stepF, files);
      assert PathsOf(FileRecords(world, includeHidden, items)) == PathsOf(stepF) + PathsOf(files);
      DistinctAppend(stepI, ItemPaths(rest));
      DistinctAppend(stepD, dirs);
      DistinctAppend(PathsOf(stepF), PathsOf(files));
    }
  }

  /**
   What the walk of a listed directory enqueues or records are entries of its
   listing, and when the listing has no repeated entry, no path is enqueued or
   recorded twice.
   */
  lemma SeenInListing(world: World, includeHidden: bool, d: Path)
    ensures d !in world.fs.listings ==> Seen(VisitOf(world, includeHidden, d)) == []
    ensures d in world.fs.listings ==>
      (forall c <- Seen(VisitOf(world, includeHidden, d)) :: c in ItemPaths(world.fs.listings[d])) &&
      (Distinct(ItemPaths(world.fs.listings[d])) ==> Distinct(Seen(VisitOf(world, includeHidden, d))))
  {
    if d in world.fs.listings {
      var items := world.fs.listings[d];
      var k := FirstFailure(world, includeHidden, items);
      var pre := items[..k];
      assert items == pre + items[k..];
      ItemPathsAppend(pre, items[k..]);
      DistinctAppend(ItemPaths(pre), ItemPaths(items[k..]));
      SelectionsWithin(world, includeHidden, pre);
      DistinctAppend(VisibleDirs(world.fs, includeHidden, pre), PathsOf(FileRecords(world, includeHidden, pre)));
    }
  }

  /**
   A walk depends on the queue and the index only by appending to them: what
   it appends and what it returns are a function of the directory alone.
   */
  lemma WalkExplicit(world: World, includeHidden: bool, path: Path, queue: seq<Path>, index: Index)
    ensures Walk(world, includeHidden, path, queue, index) ==
      WalkState(Status(world, includeHidden, path),
                queue + Pushed(world, includeHidden, path),
                InsertAll(index, Recorded(world, includeHidden, path)))
  {
    if path in world.fs.listings {
      var items := world.fs.listings[path];
      WalkItemsQueue(world, includeHidden, items, queue, index);
      WalkItemsIndex(world, includeHidden, items, queue, index);
      WalkItemsStatus(world, includeHidden, items, queue, index);
    } else {
      assert queue + [] == queue;
    }
  }

  /**
   The hidden filter as the walker applies it: an entry leaves the queue and
   the index untouched and the walk successful exactly when it is skipped.
   */
  lemma SkippedIff(world: World, includeHidden: bool, p: Path, queue: seq<Path>, index: Index)
    ensures WalkItems(world, includeHidden, [Item(p)], queue, index) == WalkState(Ok(()), queue, index)
      <==> Skipped(world.fs, includeHidden, p)
  {
    var items := [Item(p)];
    assert items[1..] == [];
    if !Skipped(world.fs, includeHidden, p) && !IsDir(world.fs, p) && FileHash(world.fs, world.sha, p).Ok? {
      var h := FileHash(world.fs, world.sha, p).value;
      var m := Insert(index, h, p);
      assert |m[h]| == |ListFor(index, h)| + 1;
      assert m != index;
    }
  }

  /** A failing `read_dir` returns the error and leaves the queue and the index as they were. */
  lemma ReadDirFailureChangesNothing(world: World, includeHidden: bool, path: Path, queue: seq<Path>, index: Index)
    requires path !in world.fs.listings
    ensures Walk(world, includeHidden, path, queue, index) == WalkState(Err(ReadDirFailed), queue, index)
  {
  }

  /**
   A walk fails after `read_dir` succeeded exactly at a visible file whose
   hash fails; everything before that file was processed, nothing after it.
   */
  lemma WalkFailsAtFirstFailedHash(world: World, includeHidden: bool, path: Path)
    requires path in world.fs.listings
    ensures var items := world.fs.listings[path];
      var k := FirstFailure(world, includeHidden, items);
      (Status(world, includeHidden, path).Err? <==> k < |items|) &&
      (k < |items| ==> HashFails(world, includeHidden, items[k])) &&
      (forall j :: 0 <= j < k ==> !HashFails(world, includeHidden, items[j])) &&
      Pushed(world, includeHidden, path) == VisibleDirs(world.fs, includeHidden, items[..k]) &&
      Recorded(world, includeHidden, path) == FileRecords(world, includeHidden, items[..k])
  {
    FirstFailureIsFirst(world, includeHidden, world.fs.listings[path]);
  }
}
