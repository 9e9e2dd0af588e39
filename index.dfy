/**
 The duplicate index `HashMap<String, Vec<PathBuf>>` of src/main.rs: every
 fingerprint maps to the paths of the files that produced it, in the order
 they were recorded (src/main.rs:115-116).
 */
module DuplicateIndex {
  import opened Io

  type Fingerprint = string

  type Index = map<Fingerprint, seq<Path>>

  /** One recorded file: its fingerprint and its path. */
  datatype Record = Record(hash: Fingerprint, path: Path)

  /** The list kept for `h`, empty when `h` has no entry yet (the `or_insert(Vec::new())`). */
  function ListFor(index: Index, h: Fingerprint): seq<Path>
  {
    if h in index then index[h] else []
  }

  /**
   Recording one file: its path goes to the end of the list for its
   fingerprint, which is created when absent. No other key changes.
   */
  function Insert(index: Index, h: Fingerprint, p: Path): (r: Index)
    ensures r.Keys == index.Keys + {h}
    ensures forall k :: k in index && k != h ==> r[k] == index[k]
    ensures |r[h]| == |ListFor(index, h)| + 1 && r[h][..|r[h]| - 1] == ListFor(index, h)
    ensures r[h][|r[h]| - 1] == p
  {
    var list := ListFor(index, h) + [p];
    assert list[..|list| - 1] == ListFor(index, h);
    index[h := list]
  }

  /** One recording keeps every list as a prefix of the new one and creates no empty list. */
  lemma InsertKeepsShape(index: Index, h: Fingerprint, p: Path)
    ensures Grows(index, Insert(index, h, p))
    ensures NoEmptyList(index) ==> NoEmptyList(Insert(index, h, p))
  {
  }

  /** A prefix of a prefix is a prefix. */
  lemma GrowsTransitive(a: Index, b: Index, c: Index)
    requires Grows(a, b) && Grows(b, c)
    ensures Grows(a, c)
  {
  }

  /** Recording a sequence of files in order. */
  function InsertAll(index: Index, records: seq<Record>): Index
    decreases |records|
  {
    if records == [] then index
    else InsertAll(Insert(index, records[0].hash, records[0].path), records[1..])
  }

  /** The paths among `records` whose fingerprint is `h`, in order. */
  function PathsFor(records: seq<Record>, h: Fingerprint): seq<Path>
  {
    if records == [] then []
    else (if records[0].hash == h then [records[0].path] else []) + PathsFor(records[1..], h)
  }

  /** The paths of `records`, in order. */
  function PathsOf(records: seq<Record>): seq<Path>
  {
    if records == [] then [] else [records[0].path] + PathsOf(records[1..])
  }

  lemma {:induction false} PathsOfAppend(a: seq<Record>, b: seq<Record>)
    ensures PathsOf(a + b) == PathsOf(a) + PathsOf(b)
  {
    if a == [] {
      assert a + b == b;
    } else {
      assert (a + b)[1..] == a[1..] + b;
      PathsOfAppend(a[1..], b);
    }
  }

  /** The fingerprints occurring among `records`. */
  function HashesOf(records: seq<Record>): set<Fingerprint>
  {
    set r | r in records :: r.hash
  }

  /** No fingerprint is kept with an empty list. */
  predicate NoEmptyList(index: Index)
  {
    forall h :: h in index ==> index[h] != []
  }

  /** Every list of `before` is a prefix of the list of `after` for the same key. */
  predicate Grows(before: Index, after: Index)
  {
    forall h :: h in before ==> h in after && before[h] <= after[h]
  }

  /** After one recording, the list of any key is its old list, followed by the path when the key matches. */
  lemma ListForInsert(index: Index, h: Fingerprint, p: Path, k: Fingerprint)
    ensures ListFor(Insert(index, h, p), k) == ListFor(index, k) + (if k == h then [p] else [])
  {
    var r := Insert(index, h, p);
    if k == h {
      assert r[h] == r[h][..|r[h]| - 1] + [r[h][|r[h]| - 1]];
    } else {
      assert ListFor(index, k) + [] == ListFor(index, k);
    }
  }

  /** The keys after recording `records` are the old keys plus the new fingerprints. */
  lemma {:induction false} InsertAllKeys(index: Index, records: seq<Record>)
    ensures InsertAll(index, records).Keys == index.Keys + HashesOf(records)
    decreases |records|
  {
    if records == [] {
      assert HashesOf(records) == {};
    } else {
      var r := records[0];
      InsertAllKeys(Insert(index, r.hash, r.path), records[1..]);
      assert HashesOf(records) == {r.hash} + HashesOf(records[1..]) by {
        assert forall x :: x in records <==> x == r || x in records[1..];
      }
    }
  }

  /**
   The list of every key after recording `records` is its old list followed by
   the new paths with that fingerprint, in recording order.
   */
  lemma {:induction false} InsertAllLists(index: Index, records: seq<Record>, h: Fingerprint)
    ensures ListFor(InsertAll(index, records), h) == ListFor(index, h) + PathsFor(records, h)
    decreases |records|
  {
    if records == [] {
      assert ListFor(index, h) + [] == ListFor(index, h);
    } else {
      var r := records[0];
      var next := Insert(index, r.hash, r.path);
      var step := if r.hash == h then [r.path] else [];
      calc {
        ListFor(InsertAll(index, records), h);
        ListFor(InsertAll(next, records[1..]), h);
        { InsertAllLists(next, records[1..], h); }
        ListFor(next, h) + PathsFor(records[1..], h);
        { ListForInsert(index, r.hash, r.path, h); }
        (ListFor(index, h) + step) + PathsFor(records[1..], h);
        ListFor(index, h) + (step + PathsFor(records[1..], h));
        ListFor(index, h) + PathsFor(records, h);
      }
    }
  }

  /** Recording never empties a list and no list is ever empty. */
  lemma InsertAllKeepsShape(index: Index, records: seq<Record>)
    requires NoEmptyList(index)
    ensures NoEmptyList(InsertAll(index, records))
    ensures Grows(index, InsertAll(index, records))
  {
    InsertAllKeys(index, records);
    var r := InsertAll(index, records);
    forall h | h in r ensures r[h] != [] {
      InsertAllLists(index, records, h);
      assert ListFor(r, h) == ListFor(index, h) + PathsFor(records, h);
      if h !in index {
        assert h in HashesOf(records);
        PathsForNonEmpty(records, h);
      }
    }
    forall h | h in index ensures h in r && index[h] <= r[h] {
      InsertAllLists(index, records, h);
      assert ListFor(r, h) == index[h] + PathsFor(records, h);
    }
  }

  /** A fingerprint that occurs among the records has at least one path. */
  lemma {:induction false} PathsForNonEmpty(records: seq<Record>, h: Fingerprint)
    requires h in HashesOf(records)
    ensures PathsFor(records, h) != []
  {
    if records[0].hash != h {
      assert h in HashesOf(records[1..]) by {
        var x :| x in records && x.hash == h;
        assert x in records[1..];
      }
      PathsForNonEmpty(records[1..], h);
    }
  }

  /** Recording in two rounds is recording the concatenation. */
  lemma {:induction false} InsertAllAppend(index: Index, a: seq<Record>, b: seq<Record>)
    ensures InsertAll(InsertAll(index, a), b) == InsertAll(index, a + b)
    decreases |a|
  {
    if a == [] {
      assert a + b == b;
    } else {
      assert (a + b)[1..] == a[1..] + b;
      InsertAllAppend(Insert(index, a[0].hash, a[0].path), a[1..], b);
    }
  }

  /** The paths with one fingerprint are among all the paths. */
  lemma {:induction false} PathsForWithin(records: seq<Record>, h: Fingerprint)
    ensures forall p <- PathsFor(records, h) :: p in PathsOf(records)
  {
    if records != [] {
      PathsForWithin(records[1..], h);
    }
  }

  /**
   When no path is recorded twice, the paths with one fingerprint have no
   repeats and share none with the paths of another fingerprint.
   */
  lemma {:induction false} PathsForOnce(records: seq<Record>, h: Fingerprint, k: Fingerprint)
    requires Distinct(PathsOf(records))
    ensures Distinct(PathsFor(records, h))
    ensures h != k ==> forall p <- PathsFor(records, h) :: p !in PathsFor(records, k)
  {
    if records != [] {
      var r, rest := records[0], records[1..];
      var stepH := if r.hash == h then [r.path] else [];
      var stepK := if r.hash == k then [r.path] else [];
      DistinctAppend([r.path], PathsOf(rest));
      PathsForOnce(rest, h, k);
      PathsForWithin(rest, h);
      PathsForWithin(rest, k);
      DistinctAppend(stepH, PathsFor(rest, h));
      if h != k {
        forall p | p in PathsFor(records, h) ensures p !in PathsFor(records, k) {
          assert p in stepH || p in PathsFor(rest, h);
        }
      }
    }
  }

  /**
   Recording files whose paths are all different from the empty index keeps
   every path in exactly one list, and only once there.
   */
  lemma IndexPathsOnce(records: seq<Record>)
    requires Distinct(PathsOf(records))
    ensures var index := InsertAll(map[], records);
      (forall h <- index :: Distinct(index[h])) &&
      (forall h, k, p :: h in index && k in index && h != k && p in index[h] ==> p !in index[k])
  {
    var index := InsertAll(map[], records);
    forall h, k | h in index && k in index
      ensures Distinct(index[h]) && (h != k ==> forall p <- index[h] :: p !in index[k])
    {
      InsertAllLists(map[], records, h);
      InsertAllLists(map[], records, k);
      assert index[h] == PathsFor(records, h) && index[k] == PathsFor(records, k);
      PathsForOnce(records, h, k);
    }
  }

  /** Some key of a non-empty index, chosen once and for all. */
  ghost function Pick(keys: set<Fingerprint>): Fingerprint
    requires keys != {}
  {
    var k :| k in keys; k
  }

  /** The number of paths kept, over all fingerprints. */
  ghost function Total(index: Index): nat
    decreases |index|
  {
    if index == map[] then 0
    else
      var k := Pick(index.Keys);
      assert (index - {k}).Keys == index.Keys - {k};
      |index[k]| + Total(index - {k})
  }

  /** `Total` can be taken apart at any key, not only the one it picks. */
  lemma {:induction false} TotalAt(index: Index, k: Fingerprint)
    requires k in index
    ensures Total(index) == |index[k]| + Total(index - {k})
    decreases |index|
  {
    var j := Pick(index.Keys);
    if j != k {
      assert (index - {j}).Keys == index.Keys - {j};
      assert (index - {k}).Keys == index.Keys - {k};
      TotalAt(index - {j}, k);
      TotalAt(index - {k}, j);
      assert index - {j} - {k} == index - {k} - {j};
    }
  }

  /** Recording one file adds exactly one path to the total. */
  lemma InsertTotal(index: Index, h: Fingerprint, p: Path)
    ensures Total(Insert(index, h, p)) == Total(index) + 1
  {
    var r := Insert(index, h, p);
    TotalAt(r, h);
    if h in index {
      TotalAt(index, h);
      assert r - {h} == index - {h};
    } else {
      assert r - {h} == index;
    }
  }

  /** Recording `records` adds exactly one path per record to the total. */
  lemma {:induction false} InsertAllTotal(index: Index, records: seq<Record>)
    ensures Total(InsertAll(index, records)) == Total(index) + |records|
    decreases |records|
  {
    if records != [] {
      InsertTotal(index, records[0].hash, records[0].path);
      InsertAllTotal(Insert(index, records[0].hash, records[0].path), records[1..]);
    }
  }
}
