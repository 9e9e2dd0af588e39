/**
 The orchestrator `check_duplicates` (src/main.rs:23-50): walk the root once;
 if that walk failed, report it and stop; otherwise, when `recurse` is set,
 pop directories from the front of the queue and walk each until the queue is
 empty, reporting the failing ones and carrying on. The index is the result.

 The drain loop is stated over `walk`, what one walk of a directory does
 (`Walker.VisitOf`), so that its properties do not depend on how the walker
 computes it. It terminates only on a filesystem without directory cycles;
 `Acyclic` states that with a rank that strictly decreases from a directory to
 every subdirectory in its listing. The measure is the total weight of the
 queue, where a directory weighs one more than all its subdirectories.
 */
module Orchestrator {
  import opened Io
  import opened HiddenFilter
  import opened DuplicateIndex
  import opened Walker

  /** The command-line options the core reads: `path`, `recurse` and `include-hidden`. */
  datatype Args = Args(path: Path, recurse: bool, includeHidden: bool)

  /** One "Error walking directory" line: the directory and the error. */
  datatype Diagnostic = Diagnostic(path: Path, error: IoError)

  /** The index a run returns and the diagnostics it emitted, in order. */
  datatype Outcome = Outcome(index: Index, log: seq<Diagnostic>)

  /** Every subdirectory listed in a directory has a smaller rank than the directory. */
  ghost predicate Acyclic(fs: FileSystem, rank: Path -> nat)
  {
    forall p, c :: p in fs.listings && c in VisibleDirs(fs, true, fs.listings[p]) ==> rank(c) < rank(p)
  }

  /** One for the directory itself and the weights of all the subdirectories it lists. */
  ghost function Weight(fs: FileSystem, rank: Path -> nat, p: Path): nat
    requires Acyclic(fs, rank)
    decreases rank(p), 1
  {
    1 + if p in fs.listings then WeightBelow(fs, rank, VisibleDirs(fs, true, fs.listings[p]), rank(p)) else 0
  }

  /** The weights of `cs`, all of rank below `bound`. */
  ghost function WeightBelow(fs: FileSystem, rank: Path -> nat, cs: seq<Path>, bound: nat): nat
    requires Acyclic(fs, rank)
    requires forall c <- cs :: rank(c) < bound
    decreases bound, 0, |cs|
  {
    if cs == [] then 0 else Weight(fs, rank, cs[0]) + WeightBelow(fs, rank, cs[1..], bound)
  }

  /** `Weight` as a function of the path alone. */
  ghost function Weigher(fs: FileSystem, rank: Path -> nat): Path -> nat
    requires Acyclic(fs, rank)
  {
    p => Weight(fs, rank, p)
  }

  /** The total of `weight` over a queue. */
  function Load(weight: Path -> nat, queue: seq<Path>): nat
  {
    if queue == [] then 0 else weight(queue[0]) + Load(weight, queue[1..])
  }

  lemma {:induction false} LoadAppend(weight: Path -> nat, a: seq<Path>, b: seq<Path>)
    ensures Load(weight, a + b) == Load(weight, a) + Load(weight, b)
  {
    if a == [] {
      assert a + b == b;
    } else {
      assert (a + b)[1..] == a[1..] + b;
      LoadAppend(weight, a[1..], b);
    }
  }

  lemma {:induction false} WeightBelowIsLoad(fs: FileSystem, rank: Path -> nat, cs: seq<Path>, bound: nat)
    requires Acyclic(fs, rank)
    requires forall c <- cs :: rank(c) < bound
    ensures WeightBelow(fs, rank, cs, bound) == Load(Weigher(fs, rank), cs)
  {
    if cs != [] {
      WeightBelowIsLoad(fs, rank, cs[1..], bound);
    }
  }

  /** Splitting a listing splits its subdirectories. */
  lemma {:induction false} VisibleDirsAppend(fs: FileSystem, includeHidden: bool, a: seq<DirItem>, b: seq<DirItem>)
    ensures VisibleDirs(fs, includeHidden, a + b) == VisibleDirs(fs, includeHidden, a) + VisibleDirs(fs, includeHidden, b)
  {
    if a == [] {
      assert a + b == b;
    } else {
      assert (a + b)[1..] == a[1..] + b;
      VisibleDirsAppend(fs, includeHidden, a[1..], b);
    }
  }

  /** The visible subdirectories weigh no more than all subdirectories. */
  lemma {:induction false} VisibleDirsLighter(fs: FileSystem, rank: Path -> nat, includeHidden: bool, items: seq<DirItem>)
    requires Acyclic(fs, rank)
    ensures Load(Weigher(fs, rank), VisibleDirs(fs, includeHidden, items)) <= Load(Weigher(fs, rank), VisibleDirs(fs, true, items))
  {
    var w := Weigher(fs, rank);
    if items != [] {
      VisibleDirsLighter(fs, rank, includeHidden, items[1..]);
      var x := items[0];
      var some := VisibleDirs(fs, includeHidden, items[1..]);
      var all := VisibleDirs(fs, true, items[1..]);
      if x.Item? && !Skipped(fs, includeHidden, x.path) && IsDir(fs, x.path) {
        LoadAppend(w, [x.path], some);
        LoadAppend(w, [x.path], all);
      } else if x.Item? && IsDir(fs, x.path) {
        assert VisibleDirs(fs, includeHidden, items) == [] + some;
        assert [] + some == some;
        assert VisibleDirs(fs, true, items) == [x.path] + all;
        LoadAppend(w, [x.path], all);
      } else {
        assert VisibleDirs(fs, includeHidden, items) == [] + some;
        assert VisibleDirs(fs, true, items) == [] + all;
        assert [] + some == some && [] + all == all;
      }
    }
  }

  /** What one walk appends to the queue weighs less than the directory walked. */
  lemma PushedLighter(world: World, includeHidden: bool, rank: Path -> nat, p: Path)
    requires Acyclic(world.fs, rank)
    ensures Load(Weigher(world.fs, rank), Pushed(world, includeHidden, p)) < Weight(world.fs, rank, p)
  {
    var fs := world.fs;
    if p in fs.listings {
      var items := fs.listings[p];
      var k := FirstFailure(world, includeHidden, items);
      assert items == items[..k] + items[k..];
      VisibleDirsLighter(fs, rank, includeHidden, items[..k]);
      VisibleDirsAppend(fs, true, items[..k], items[k..]);
      LoadAppend(Weigher(fs, rank), VisibleDirs(fs, true, items[..k]), VisibleDirs(fs, true, items[k..]));
      WeightBelowIsLoad(fs, rank, VisibleDirs(fs, true, items), rank(p));
    }
  }

  /** The walker of one run, as a function of the directory. */
  function WalkOf(world: World, includeHidden: bool): Path -> Visit
  {
    p => VisitOf(world, includeHidden, p)
  }

  /** Every walk enqueues less weight than the directory it walks. */
  ghost predicate Shrinks(walk: Path -> Visit, weight: Path -> nat)
  {
    forall p :: Load(weight, walk(p).pushed) < weight(p)
  }

  /** On an acyclic filesystem the walker shrinks the tree weight. */
  lemma WalkShrinks(world: World, includeHidden: bool, rank: Path -> nat)
    requires Acyclic(world.fs, rank)
    ensures Shrinks(WalkOf(world, includeHidden), Weigher(world.fs, rank))
  {
    forall p ensures Load(Weigher(world.fs, rank), WalkOf(world, includeHidden)(p).pushed) < Weigher(world.fs, rank)(p) {
      PushedLighter(world, includeHidden, rank, p);
    }
  }

  /** Popping the front directory and appending what its walk enqueues leaves a lighter queue. */
  lemma Shrinking(walk: Path -> Visit, weight: Path -> nat, queue: seq<Path>)
    requires Shrinks(walk, weight) && queue != []
    ensures Load(weight, queue[1..] + walk(queue[0]).pushed) < Load(weight, queue)
  {
    LoadAppend(weight, queue[1..], walk(queue[0]).pushed);
  }

  /** The diagnostic a failing walk adds to the log. */
  function Report(log: seq<Diagnostic>, path: Path, status: Result<()>): seq<Diagnostic>
  {
    if status.Err? then log + [Diagnostic(path, status.error)] else log
  }

  /** The drain loop (src/main.rs:34-46) from `queue`, `index` and `log`. */
  ghost function Drain(walk: Path -> Visit, weight: Path -> nat, queue: seq<Path>, index: Index, log: seq<Diagnostic>)
    : Outcome
    requires Shrinks(walk, weight)
    decreases Load(weight, queue)
  {
    if queue == [] then Outcome(index, log)
    else
      var d := queue[0];
      Shrinking(walk, weight, queue);
      Drain(walk, weight, queue[1..] + walk(d).pushed, InsertAll(index, walk(d).recorded), Report(log, d, walk(d).status))
  }

  /** The directories the drain loop walks from `queue`, in the order it walks them. */
  ghost function Visits(walk: Path -> Visit, weight: Path -> nat, queue: seq<Path>): seq<Path>
    requires Shrinks(walk, weight)
    decreases Load(weight, queue)
  {
    if queue == [] then []
    else
      Shrinking(walk, weight, queue);
      [queue[0]] + Visits(walk, weight, queue[1..] + walk(queue[0]).pushed)
  }

  /** Everything the walks of `dirs` append to the queue, in order. */
  function PushedAll(walk: Path -> Visit, dirs: seq<Path>): seq<Path>
  {
    if dirs == [] then [] else walk(dirs[0]).pushed + PushedAll(walk, dirs[1..])
  }

  /** Everything the walks of `dirs` record, in order. */
  function RecordedAll(walk: Path -> Visit, dirs: seq<Path>): seq<Record>
  {
    if dirs == [] then [] else walk(dirs[0]).recorded + RecordedAll(walk, dirs[1..])
  }

  /** The diagnostics the walks of `dirs` cause, in order. */
  function FailuresAll(walk: Path -> Visit, dirs: seq<Path>): seq<Diagnostic>
  {
    if dirs == [] then [] else Report([], dirs[0], walk(dirs[0]).status) + FailuresAll(walk, dirs[1..])
  }

  /** The walks of `[d] + dirs` are the walk of `d` followed by those of `dirs`. */
  lemma ConsAll(walk: Path -> Visit, d: Path, dirs: seq<Path>)
    ensures PushedAll(walk, [d] + dirs) == walk(d).pushed + PushedAll(walk, dirs)
    ensures RecordedAll(walk, [d] + dirs) == walk(d).recorded + RecordedAll(walk, dirs)
    ensures FailuresAll(walk, [d] + dirs) == Report([], d, walk(d).status) + FailuresAll(walk, dirs)
  {
    assert ([d] + dirs)[0] == d && ([d] + dirs)[1..] == dirs;
  }

  /** No path is enqueued or recorded by two walks, or twice by one, and the root by none. */
  ghost predicate Separate(walk: Path -> Visit, root: Path)
  {
    (forall d :: Distinct(Seen(walk(d)))) &&
    (forall d, e, c :: c in Seen(walk(d)) && c in Seen(walk(e)) ==> d == e) &&
    (forall d :: root !in Seen(walk(d)))
  }

  /** When every path is listed once, the walks of one run keep their paths apart. */
  lemma WalkSeparate(world: World, includeHidden: bool, root: Path)
    requires ListedOnce(world.fs, root)
    ensures Separate(WalkOf(world, includeHidden), root)
  {
    var walk := WalkOf(world, includeHidden);
    forall d ensures Distinct(Seen(walk(d))) && root !in Seen(walk(d)) {
      SeenInListing(world, includeHidden, d);
    }
    forall d, e, c | c in Seen(walk(d)) && c in Seen(walk(e)) ensures d == e {
      SeenInListing(world, includeHidden, d);
      SeenInListing(world, includeHidden, e);
    }
  }

  lemma {:induction false} PushedAllAppend(walk: Path -> Visit, a: seq<Path>, b: seq<Path>)
    ensures PushedAll(walk, a + b) == PushedAll(walk, a) + PushedAll(walk, b)
  {
    if a == [] {
      assert a + b == b;
    } else {
      assert (a + b)[1..] == a[1..] + b;
      PushedAllAppend(walk, a[1..], b);
    }
  }

  /** A path that the walk of `d` enqueues or records is enqueued by walks of `dirs` only if `d` is among them. */
  lemma {:induction false} PushedFrom(walk: Path -> Visit, root: Path, dirs: seq<Path>, d: Path, x: Path)
    requires Separate(walk, root) && x in Seen(walk(d))
    ensures x in PushedAll(walk, dirs) ==> d in dirs
  {
    if dirs != [] {
      PushedFrom(walk, root, dirs[1..], d, x);
      assert x in walk(dirs[0]).pushed ==> x in Seen(walk(dirs[0]));
    }
  }

  /** A path that the walk of `d` enqueues or records is recorded by walks of `dirs` only if `d` is among them. */
  lemma {:induction false} RecordedFrom(walk: Path -> Visit, root: Path, dirs: seq<Path>, d: Path, x: Path)
    requires Separate(walk, root) && x in Seen(walk(d))
    ensures x in PathsOf(RecordedAll(walk, dirs)) ==> d in dirs
  {
    if dirs != [] {
      var y := dirs[0];
      RecordedFrom(walk, root, dirs[1..], d, x);
      PathsOfAppend(walk(y).recorded, RecordedAll(walk, dirs[1..]));
      assert x in PathsOf(walk(y).recorded) ==> x in Seen(walk(y));
    }
  }

  /** The drain loop walks the front directory and then drains the queue one round leaves. */
  lemma VisitsFront(walk: Path -> Visit, weight: Path -> nat, queue: seq<Path>)
    requires Shrinks(walk, weight) && queue != []
    ensures var next := queue[1..] + walk(queue[0]).pushed;
      Load(weight, next) < Load(weight, queue) &&
      Visits(walk, weight, queue) == [queue[0]] + Visits(walk, weight, next)
  {
    Shrinking(walk, weight, queue);
  }

  /**
   With the walks kept apart, the drain loop never walks a directory twice:
   starting from walked directories `visited` and a queue that repeat nothing,
   where everything but the root was enqueued by a walked directory, the
   directories walked from then on repeat nothing either.
   */
  lemma {:induction false} VisitsDistinct(
    walk: Path -> Visit, weight: Path -> nat, root: Path, visited: seq<Path>, queue: seq<Path>)
    requires Shrinks(walk, weight) && Separate(walk, root)
    requires Distinct(visited + queue)
    requires forall x <- visited + queue :: x == root || x in PushedAll(walk, visited)
    ensures Distinct(visited + Visits(walk, weight, queue))
    decreases Load(weight, queue)
  {
    if queue == [] {
      assert visited + queue == visited;
    } else {
      var d := queue[0];
      var next := queue[1..] + walk(d).pushed;
      VisitsFront(walk, weight, queue);
      RoundKeepsApart(walk, root, visited, queue);
      VisitsDistinct(walk, weight, root, visited + [d], next);
      DistinctShift(visited, d, Visits(walk, weight, next), Visits(walk, weight, queue));
    }
  }

  /** Moving the front of a sequence onto the end of a prefix changes nothing about repeats. */
  lemma DistinctShift(visited: seq<Path>, d: Path, rest: seq<Path>, all: seq<Path>)
    requires all == [d] + rest && Distinct((visited + [d]) + rest)
    ensures Distinct(visited + all)
  {
    assert (visited + [d]) + rest == visited + all;
  }

  /** One round of the drain loop keeps the hypotheses of `VisitsDistinct`. */
  lemma RoundKeepsApart(walk: Path -> Visit, root: Path, visited: seq<Path>, queue: seq<Path>)
    requires Separate(walk, root) && queue != []
    requires Distinct(visited + queue)
    requires forall x <- visited + queue :: x == root || x in PushedAll(walk, visited)
    ensures var now, next := visited + [queue[0]], queue[1..] + walk(queue[0]).pushed;
      Distinct(now + next) && forall x <- now + next :: x == root || x in PushedAll(walk, now)
  {
    var d, rest := queue[0], queue[1..];
    var pushed := walk(d).pushed;
    var now, next := visited + [d], rest + pushed;
    DistinctAppend(visited, queue);
    DistinctAppend(pushed, PathsOf(walk(d).recorded));
    forall x | x in pushed ensures x !in visited + queue {
      assert x in Seen(walk(d));
      PushedFrom(walk, root, visited, d, x);
    }
    DistinctAppend(visited + queue, pushed);
    assert now + next == (visited + queue) + pushed;
    PushedAllAppend(walk, visited, [d]);
    ConsAll(walk, d, []);
    assert PushedAll(walk, now) == PushedAll(walk, visited) + pushed;
  }

  /** Walks of directories that repeat nothing record paths that repeat nothing. */
  lemma {:induction false} RecordedDistinct(walk: Path -> Visit, root: Path, dirs: seq<Path>)
    requires Separate(walk, root) && Distinct(dirs)
    ensures Distinct(PathsOf(RecordedAll(walk, dirs)))
  {
    if dirs != [] {
      var y, rest := dirs[0], dirs[1..];
      var mine := PathsOf(walk(y).recorded);
      assert dirs == [y] + rest;
      DistinctAppend([y], rest);
      RecordedDistinct(walk, root, rest);
      DistinctAppend(walk(y).pushed, mine);
      forall x | x in mine ensures x !in PathsOf(RecordedAll(walk, rest)) {
        assert x in Seen(walk(y));
        RecordedFrom(walk, root, rest, y, x);
      }
      ConsAll(walk, y, rest);
      PathsOfAppend(walk(y).recorded, RecordedAll(walk, rest));
      DistinctAppend(mine, PathsOf(RecordedAll(walk, rest)));
    }
  }

  /** One unfolding of the drain loop on a non-empty queue. */
  lemma DrainCons(walk: Path -> Visit, weight: Path -> nat, queue: seq<Path>, index: Index, log: seq<Diagnostic>)
    requires Shrinks(walk, weight) && queue != []
    ensures var d := queue[0];
      var next := queue[1..] + walk(d).pushed;
      Load(weight, next) < Load(weight, queue) &&
      Visits(walk, weight, queue) == [d] + Visits(walk, weight, next) &&
      Drain(walk, weight, queue, index, log) ==
        Drain(walk, weight, next, InsertAll(index, walk(d).recorded), log + Report([], d, walk(d).status))
  {
    var d := queue[0];
    Shrinking(walk, weight, queue);
    ReportAppends(log, d, walk(d).status);
    assert Drain(walk, weight, queue, index, log) ==
      Drain(walk, weight, queue[1..] + walk(d).pushed, InsertAll(index, walk(d).recorded), Report(log, d, walk(d).status));
  }

  /** Reporting appends to the log. */
  lemma ReportAppends(log: seq<Diagnostic>, path: Path, status: Result<()>)
    ensures Report(log, path, status) == log + Report([], path, status)
  {
    assert log + [] == log;
  }

  /** Regrouping after one walk: the front directory's effects come before those of the rest. */
  lemma ConsOutcome(walk: Path -> Visit, d: Path, v: seq<Path>, index: Index, log: seq<Diagnostic>)
    ensures InsertAll(InsertAll(index, walk(d).recorded), RecordedAll(walk, v)) == InsertAll(index, RecordedAll(walk, [d] + v))
    ensures (log + Report([], d, walk(d).status)) + FailuresAll(walk, v) == log + FailuresAll(walk, [d] + v)
  {
    ConsIndex(walk, d, v, index);
    ConsLog(walk, d, v, log);
  }

  /** The records of one walk come before those of the walks after it. */
  lemma ConsIndex(walk: Path -> Visit, d: Path, v: seq<Path>, index: Index)
    ensures InsertAll(InsertAll(index, walk(d).recorded), RecordedAll(walk, v)) == InsertAll(index, RecordedAll(walk, [d] + v))
  {
    ConsAll(walk, d, v);
    InsertAllAppend(index, walk(d).recorded, RecordedAll(walk, v));
  }

  /** The diagnostic of one walk comes before those of the walks after it. */
  lemma ConsLog(walk: Path -> Visit, d: Path, v: seq<Path>, log: seq<Diagnostic>)
    ensures (log + Report([], d, walk(d).status)) + FailuresAll(walk, v) == log + FailuresAll(walk, [d] + v)
  {
    ConsAll(walk, d, v);
  }

  /** Regrouping the queue after one walk. */
  lemma ConsQueue(walk: Path -> Visit, queue: seq<Path>, v: seq<Path>)
    requires queue != []
    ensures [queue[0]] + ((queue[1..] + walk(queue[0]).pushed) + PushedAll(walk, v)) ==
      queue + PushedAll(walk, [queue[0]] + v)
  {
    ConsAll(walk, queue[0], v);
    assert [queue[0]] + queue[1..] == queue;
  }

  /**
   The queue is first in, first out: the directories walked are the initial
   queue followed by every subdirectory the walks enqueue, in the order they
   were enqueued.
   */
  lemma {:induction false} VisitsAreFifo(walk: Path -> Visit, weight: Path -> nat, queue: seq<Path>)
    requires Shrinks(walk, weight)
    ensures Visits(walk, weight, queue) == queue + PushedAll(walk, Visits(walk, weight, queue))
    decreases Load(weight, queue)
  {
    if queue != [] {
      var next := queue[1..] + walk(queue[0]).pushed;
      DrainCons(walk, weight, queue, map[], []);
      VisitsAreFifo(walk, weight, next);
      ConsQueue(walk, queue, Visits(walk, weight, next));
    }
  }

  /**
   What the drain loop leaves: every directory it walks, failing or not, adds
   its records to the index and its diagnostic, if any, to the log, in walk
   order. An error in one directory does not stop the others.
   */
  lemma {:induction false} DrainExplicit(
    walk: Path -> Visit, weight: Path -> nat, queue: seq<Path>, index: Index, log: seq<Diagnostic>)
    requires Shrinks(walk, weight)
    ensures var v := Visits(walk, weight, queue);
      Drain(walk, weight, queue, index, log) == Outcome(InsertAll(index, RecordedAll(walk, v)), log + FailuresAll(walk, v))
    decreases Load(weight, queue)
  {
    if queue == [] {
      assert log + [] == log;
    } else {
      var d := queue[0];
      var next := queue[1..] + walk(d).pushed;
      var m, l := InsertAll(index, walk(d).recorded), log + Report([], d, walk(d).status);
      DrainCons(walk, weight, queue, index, log);
      DrainExplicit(walk, weight, next, m, l);
      ConsOutcome(walk, d, Visits(walk, weight, next), index, log);
    }
  }

  /**
   One round of the drain loop (src/main.rs:35-44) as the walker performs it:
   pop the front directory, walk it onto the rest of the queue and the index,
   and report it if it failed.
   */
  lemma DrainRound(
    world: World, includeHidden: bool, walk: Path -> Visit, weight: Path -> nat,
    queue: seq<Path>, index: Index, log: seq<Diagnostic>)
    requires walk == WalkOf(world, includeHidden) && Shrinks(walk, weight) && queue != []
    ensures var w := Walk(world, includeHidden, queue[0], queue[1..], index);
      Load(weight, w.queue) < Load(weight, queue) &&
      Drain(walk, weight, queue, index, log) == Drain(walk, weight, w.queue, w.index, Report(log, queue[0], w.status)) &&
      Visits(walk, weight, queue) == [queue[0]] + Visits(walk, weight, w.queue)
  {
    Shrinking(walk, weight, queue);
    WalkExplicit(world, includeHidden, queue[0], queue[1..], index);
    assert walk(queue[0]) == VisitOf(world, includeHidden, queue[0]);
  }

  /** `check_duplicates` as a function of its inputs. */
  ghost function Run(world: World, args: Args, rank: Path -> nat): Outcome
    requires args.recurse ==> Acyclic(world.fs, rank)
  {
    var root := Walk(world, args.includeHidden, args.path, [], map[]);
    if root.status.Err? then Outcome(root.index, [Diagnostic(args.path, root.status.error)])
    else if !args.recurse then Outcome(root.index, [])
    else
      WalkShrinks(world, args.includeHidden, rank);
      Drain(WalkOf(world, args.includeHidden), Weigher(world.fs, rank), root.queue, root.index, [])
  }

  /** The directories `check_duplicates` walks, in order. */
  ghost function Trace(world: World, args: Args, rank: Path -> nat): seq<Path>
    requires args.recurse ==> Acyclic(world.fs, rank)
  {
    var root := Walk(world, args.includeHidden, args.path, [], map[]);
    [args.path] +
      if root.status.Ok? && args.recurse then
        WalkShrinks(world, args.includeHidden, rank);
        Visits(WalkOf(world, args.includeHidden), Weigher(world.fs, rank), root.queue)
      else []
  }

  /**
   The drain loop of `check_duplicates` (src/main.rs:34-46): pop the front
   directory, walk it, report it if it failed, until the queue is empty. The
   ghost `walked` lists the directories walked, in order.
   */
  method DrainQueue(
    world: World, includeHidden: bool, ghost walk: Path -> Visit, ghost weight: Path -> nat,
    queue: seq<Path>, index: Index, log: seq<Diagnostic>)
    returns (finalIndex: Index, finalLog: seq<Diagnostic>, ghost walked: seq<Path>)
    requires walk == WalkOf(world, includeHidden) && Shrinks(walk, weight)
    ensures Outcome(finalIndex, finalLog) == Drain(walk, weight, queue, index, log)
    ensures walked == Visits(walk, weight, queue)
  {
    var pending := queue;
    finalIndex, finalLog, walked := index, log, [];
    while pending != []
      invariant Drain(walk, weight, pending, finalIndex, finalLog) == Drain(walk, weight, queue, index, log)
      invariant walked + Visits(walk, weight, pending) == Visits(walk, weight, queue)
      decreases Load(weight, pending)
    {
      DrainRound(world, includeHidden, walk, weight, pending, finalIndex, finalLog);
      ghost var walkedBefore := walked;
      var directory := pending[0];
      pending := pending[1..];
      var walkStatus;
      walkStatus, pending, finalIndex := WalkDirectory(world, includeHidden, directory, pending, finalIndex);
      walked := walked + [directory];
      finalLog := Report(finalLog, directory, walkStatus);
      assert walked + Visits(walk, weight, pending) == walkedBefore + ([directory] + Visits(walk, weight, pending));
    }
    assert walked + [] == walked;
  }

  /**
   `check_duplicates`. The ghost `walked` lists the directories walked; the
   log holds the diagnostics that go to standard error.
   */
  method CheckDuplicates(world: World, args: Args, ghost rank: Path -> nat)
    returns (index: Index, log: seq<Diagnostic>, ghost walked: seq<Path>)
    requires args.recurse ==> Acyclic(world.fs, rank)
    ensures Outcome(index, log) == Run(world, args, rank)
    ensures walked == Trace(world, args, rank)
  {
    var queue, status;
    status, queue, index := WalkDirectory(world, args.includeHidden, args.path, [], map[]);
    log, walked := [], [args.path];
    if status.Err? {
      log := [Diagnostic(args.path, status.error)];
    } else if args.recurse {
      WalkShrinks(world, args.includeHidden, rank);
      ghost var rest;
      index, log, rest := DrainQueue(world, args.includeHidden, WalkOf(world, args.includeHidden), Weigher(world.fs, rank), queue, index, []);
      walked := walked + rest;
    } else {
      assert walked == [args.path] + [];
    }
  }

  /**
   The whole run: the index holds the records of every walked directory and
   the log one diagnostic per failing walk, both in walk order; no list in the
   index is empty and the index holds exactly one path per record.
   */
  lemma RunExplicit(world: World, args: Args, rank: Path -> nat)
    requires args.recurse ==> Acyclic(world.fs, rank)
    ensures var walk, t := WalkOf(world, args.includeHidden), Trace(world, args, rank);
      Run(world, args, rank) == Outcome(InsertAll(map[], RecordedAll(walk, t)), FailuresAll(walk, t))
    ensures NoEmptyList(Run(world, args, rank).index)
    ensures Total(Run(world, args, rank).index) == |RecordedAll(WalkOf(world, args.includeHidden), Trace(world, args, rank))|
  {
    var walk, t := WalkOf(world, args.includeHidden), Trace(world, args, rank);
    if Status(world, args.includeHidden, args.path).Ok? && args.recurse {
      RecursiveRun(world, args, rank);
    } else {
      RootOnlyRun(world, args, rank);
    }
    InsertAllKeepsShape(map[], RecordedAll(walk, t));
    InsertAllTotal(map[], RecordedAll(walk, t));
    assert Total(map[]) == 0;
  }

  /** `RunExplicit` when only the root is walked. */
  lemma RootOnlyRun(world: World, args: Args, rank: Path -> nat)
    requires args.recurse ==> Acyclic(world.fs, rank)
    requires !(Status(world, args.includeHidden, args.path).Ok? && args.recurse)
    ensures var walk, t := WalkOf(world, args.includeHidden), Trace(world, args, rank);
      Run(world, args, rank) == Outcome(InsertAll(map[], RecordedAll(walk, t)), FailuresAll(walk, t))
  {
    var inc, root := args.includeHidden, args.path;
    var walk := WalkOf(world, inc);
    WalkExplicit(world, inc, root, [], map[]);
    var recs := Recorded(world, inc, root);
    assert walk(root) == VisitOf(world, inc, root);
    ConsAll(walk, root, []);
    assert Trace(world, args, rank) == [root] + [];
    assert recs + [] == recs;
  }

  /** `RunExplicit` when the drain loop runs after a successful root walk. */
  lemma RecursiveRun(world: World, args: Args, rank: Path -> nat)
    requires args.recurse ==> Acyclic(world.fs, rank)
    requires Status(world, args.includeHidden, args.path).Ok? && args.recurse
    ensures var walk, t := WalkOf(world, args.includeHidden), Trace(world, args, rank);
      Run(world, args, rank) == Outcome(InsertAll(map[], RecordedAll(walk, t)), FailuresAll(walk, t))
  {
    var inc, root := args.includeHidden, args.path;
    var walk, weight := WalkOf(world, inc), Weigher(world.fs, rank);
    WalkShrinks(world, inc, rank);
    WalkExplicit(world, inc, root, [], map[]);
    var recs := Recorded(world, inc, root);
    assert walk(root) == VisitOf(world, inc, root);
    var q := [] + Pushed(world, inc, root);
    assert q == Pushed(world, inc, root);
    var v := Visits(walk, weight, q);
    DrainExplicit(walk, weight, q, InsertAll(map[], recs), []);
    assert Trace(world, args, rank) == [root] + v;
    ConsAll(walk, root, v);
    InsertAllAppend(map[], recs, RecordedAll(walk, v));
    assert [] + FailuresAll(walk, v) == FailuresAll(walk, v);
  }

  /**
   Without `recurse`, or when the root walk fails, the root is the only
   directory walked: the index holds only files of the root's own listing.
   */
  lemma RootOnly(world: World, args: Args, rank: Path -> nat)
    requires args.recurse ==> Acyclic(world.fs, rank)
    requires !args.recurse || Status(world, args.includeHidden, args.path).Err?
    ensures Trace(world, args, rank) == [args.path]
    ensures Run(world, args, rank).index == InsertAll(map[], Recorded(world, args.includeHidden, args.path))
  {
    WalkExplicit(world, args.includeHidden, args.path, [], map[]);
  }

  /** Every walk enqueues only directories of lower rank than the one it walks. */
  ghost predicate Lowers(walk: Path -> Visit, rank: Path -> nat)
  {
    forall p, c :: c in walk(p).pushed ==> rank(c) < rank(p)
  }

  /** The visible subdirectories are among all the subdirectories. */
  lemma {:induction false} VisibleDirsAmongAll(fs: FileSystem, includeHidden: bool, items: seq<DirItem>)
    ensures forall c <- VisibleDirs(fs, includeHidden, items) :: c in VisibleDirs(fs, true, items)
  {
    if items != [] {
      VisibleDirsAmongAll(fs, includeHidden, items[1..]);
    }
  }

  /** On an acyclic filesystem every walk enqueues only directories of lower rank. */
  lemma WalkLowers(world: World, includeHidden: bool, rank: Path -> nat)
    requires Acyclic(world.fs, rank)
    ensures Lowers(WalkOf(world, includeHidden), rank)
  {
    var fs := world.fs;
    forall p, c | c in WalkOf(world, includeHidden)(p).pushed ensures rank(c) < rank(p) {
      var items := fs.listings[p];
      var k := FirstFailure(world, includeHidden, items);
      assert items == items[..k] + items[k..];
      VisibleDirsAmongAll(fs, includeHidden, items[..k]);
      VisibleDirsAppend(fs, true, items[..k], items[k..]);
    }
  }

  /** The drain loop walks the front directory, then continues from a lighter queue. */
  lemma VisitsCons(walk: Path -> Visit, weight: Path -> nat, queue: seq<Path>)
    requires Shrinks(walk, weight) && queue != []
    ensures var next := queue[1..] + walk(queue[0]).pushed;
      Load(weight, next) < Load(weight, queue) &&
      (forall v <- Visits(walk, weight, queue) :: v == queue[0] || v in Visits(walk, weight, next))
  {
    Shrinking(walk, weight, queue);
  }

  /** Popping the front and appending what its walk enqueues keeps the queue below `bound`. */
  lemma NextBelow(walk: Path -> Visit, rank: Path -> nat, queue: seq<Path>, bound: nat)
    requires Lowers(walk, rank) && queue != []
    requires forall q <- queue :: rank(q) < bound
    ensures forall q <- queue[1..] + walk(queue[0]).pushed :: rank(q) < bound
  {
    forall q | q in queue[1..] + walk(queue[0]).pushed ensures rank(q) < bound {
      if q !in queue[1..] {
        assert q in walk(queue[0]).pushed;
      }
    }
  }

  /** When the queue holds only directories below `bound`, so does everything the drain loop walks. */
  lemma {:induction false} VisitsBelow(
    walk: Path -> Visit, weight: Path -> nat, rank: Path -> nat, queue: seq<Path>, bound: nat)
    requires Shrinks(walk, weight) && Lowers(walk, rank)
    requires forall q <- queue :: rank(q) < bound
    ensures forall v <- Visits(walk, weight, queue) :: rank(v) < bound
    decreases Load(weight, queue)
  {
    if queue != [] {
      var d := queue[0];
      var next := queue[1..] + walk(d).pushed;
      VisitsCons(walk, weight, queue);
      NextBelow(walk, rank, queue, bound);
      VisitsBelow(walk, weight, rank, next, bound);
    }
  }

  /**
   The root is walked exactly once: it heads the trace and, since every
   directory walked after it lies strictly below it, it never comes back.
   */
  lemma RootWalkedOnce(world: World, args: Args, rank: Path -> nat)
    requires args.recurse ==> Acyclic(world.fs, rank)
    ensures var t := Trace(world, args, rank);
      t[0] == args.path && args.path !in t[1..]
  {
    var inc := args.includeHidden;
    if args.recurse && Status(world, inc, args.path).Ok? {
      WalkShrinks(world, inc, rank);
      WalkLowers(world, inc, rank);
      WalkExplicit(world, inc, args.path, [], map[]);
      var q := [] + Pushed(world, inc, args.path);
      assert q == WalkOf(world, inc)(args.path).pushed;
      VisitsBelow(WalkOf(world, inc), Weigher(world.fs, rank), rank, q, rank(args.path));
    } else {
      RootOnly(world, args, rank);
    }
  }

  /**
   On a filesystem that lists every path once, `check_duplicates` walks no
   directory twice and records every file once: each recorded path is in
   exactly one list of the index, and only once in it.
   */
  lemma PathsRecordedOnce(world: World, args: Args, rank: Path -> nat)
    requires (args.recurse ==> Acyclic(world.fs, rank)) && ListedOnce(world.fs, args.path)
    ensures Distinct(Trace(world, args, rank))
    ensures var index := Run(world, args, rank).index;
      (forall h <- index :: Distinct(index[h])) &&
      (forall h, k, p :: h in index && k in index && h != k && p in index[h] ==> p !in index[k])
  {
    var walk, t := WalkOf(world, args.includeHidden), Trace(world, args, rank);
    WalkSeparate(world, args.includeHidden, args.path);
    TraceDistinct(world, args, rank);
    RecordedDistinct(walk, args.path, t);
    RunExplicit(world, args, rank);
    IndexPathsOnce(RecordedAll(walk, t));
  }

  /** Draining what the walk of the root enqueues never walks a directory twice, nor the root again. */
  lemma RootStart(walk: Path -> Visit, weight: Path -> nat, root: Path)
    requires Shrinks(walk, weight) && Separate(walk, root)
    ensures Distinct([root] + Visits(walk, weight, walk(root).pushed))
  {
    var q := walk(root).pushed;
    DistinctAppend(q, PathsOf(walk(root).recorded));
    assert root !in Seen(walk(root));
    DistinctAppend([root], q);
    ConsAll(walk, root, []);
    assert PushedAll(walk, [root]) == q;
    VisitsDistinct(walk, weight, root, [root], q);
  }

  /** On a filesystem that lists every path once, no directory is walked twice. */
  lemma TraceDistinct(world: World, args: Args, rank: Path -> nat)
    requires (args.recurse ==> Acyclic(world.fs, rank)) && ListedOnce(world.fs, args.path)
    ensures Distinct(Trace(world, args, rank))
  {
    var inc, root := args.includeHidden, args.path;
    if args.recurse && Status(world, inc, root).Ok? {
      var walk, weight := WalkOf(world, inc), Weigher(world.fs, rank);
      WalkShrinks(world, inc, rank);
      WalkSeparate(world, inc, root);
      WalkExplicit(world, inc, root, [], map[]);
      var q := [] + Pushed(world, inc, root);
      assert q == walk(root).pushed;
      assert Trace(world, args, rank) == [root] + Visits(walk, weight, q);
      RootStart(walk, weight, root);
    } else {
      RootOnly(world, args, rank);
    }
  }

  /**
   With `recurse` and a successful root walk, the walks after the root are
   exactly the queue's first-in first-out order, starting from the root's
   subdirectories.
   */
  lemma RecursiveOrder(world: World, args: Args, rank: Path -> nat)
    requires args.recurse ==> Acyclic(world.fs, rank)
    requires args.recurse && Status(world, args.includeHidden, args.path).Ok?
    ensures var t := Trace(world, args, rank);
      t[0] == args.path &&
      t[1..] == Pushed(world, args.includeHidden, args.path) + PushedAll(WalkOf(world, args.includeHidden), t[1..])
  {
    var inc := args.includeHidden;
    WalkShrinks(world, inc, rank);
    WalkExplicit(world, inc, args.path, [], map[]);
    var q := [] + Pushed(world, inc, args.path);
    assert q == Pushed(world, inc, args.path);
    VisitsAreFifo(WalkOf(world, inc), Weigher(world.fs, rank), q);
  }
}
