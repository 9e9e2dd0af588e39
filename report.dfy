/**
 What `print_results` (src/main.rs:53-71) decides: the count on the
 "Went through" line, which file lists are printed as groups of
 duplicates, and whether the "No duplicates found" line follows. The map is
 visited in whatever order its keys come; the model lets that order be any
 enumeration of the keys and returns it as a ghost.
 */
module Reporting {
  import opened Io
  import opened DuplicateIndex

  /** `order` lists every key of `index` exactly once. */
  predicate Enumerates(order: seq<Fingerprint>, index: Index)
  {
    (forall i, j :: 0 <= i < j < |order| ==> order[i] != order[j]) &&
    (forall h <- order :: h in index) && (forall h <- index.Keys :: h in order)
  }

  /** The lists printed as groups when the keys come in `order`: those with more than one path. */
  function Selected(index: Index, order: seq<Fingerprint>): seq<seq<Path>>
    requires forall h <- order :: h in index
  {
    if order == [] then []
    else
      var last := order[|order| - 1];
      Selected(index, order[..|order| - 1]) + (if |index[last]| > 1 then [index[last]] else [])
  }

  /** Visiting one more key prints its list after the others when it has more than one path. */
  lemma SelectedSnoc(index: Index, order: seq<Fingerprint>, h: Fingerprint)
    requires forall k <- order :: k in index
    requires h in index
    ensures forall k <- order + [h] :: k in index
    ensures Selected(index, order + [h]) == Selected(index, order) + (if |index[h]| > 1 then [index[h]] else [])
  {
    assert (order + [h])[..|order|] == order;
  }

  /** The fingerprints shared by more than one file. */
  function DuplicateKeys(index: Index): set<Fingerprint>
  {
    set h | h in index && |index[h]| > 1
  }

  /** Every printed group is the list of some visited key and holds at least two paths. */
  lemma {:induction false} SelectedAreGroups(index: Index, order: seq<Fingerprint>)
    requires forall h <- order :: h in index
    ensures forall g <- Selected(index, order) :: |g| > 1 && exists h <- order :: g == index[h]
  {
    if order != [] {
      var init := order[..|order| - 1];
      assert forall h <- init :: h in order;
      SelectedAreGroups(index, init);
    }
  }

  /** Nothing is printed as a group exactly when no visited key has more than one path. */
  lemma {:induction false} SelectedEmptyIff(index: Index, order: seq<Fingerprint>)
    requires forall h <- order :: h in index
    ensures Selected(index, order) == [] <==> forall h <- order :: |index[h]| <= 1
  {
    if order != [] {
      var init := order[..|order| - 1];
      var last := order[|order| - 1];
      assert forall h <- order :: h in init || h == last;
      assert forall h <- init :: h in order;
      SelectedEmptyIff(index, init);
    }
  }

  /** As many groups are printed as there are distinct visited keys with more than one path. */
  lemma {:induction false} SelectedCount(index: Index, order: seq<Fingerprint>)
    requires forall h <- order :: h in index
    requires forall i, j :: 0 <= i < j < |order| ==> order[i] != order[j]
    ensures |Selected(index, order)| == |set h | h in order && |index[h]| > 1|
  {
    if order != [] {
      var init := order[..|order| - 1];
      var last := order[|order| - 1];
      assert forall h <- init :: h in order;
      SelectedCount(index, init);
      var before := set h | h in init && |index[h]| > 1;
      var after := set h | h in order && |index[h]| > 1;
      assert last !in init by {
        forall i | 0 <= i < |init| ensures init[i] != last {
          assert init[i] == order[i];
        }
      }
      assert forall h :: h in order <==> h in init || h == last;
      if |index[last]| > 1 {
        assert after == before + {last};
      } else {
        assert after == before;
      }
    }
  }

  /** Over a full enumeration, one group is printed per fingerprint shared by several files. */
  lemma SelectedCountsDuplicates(index: Index, order: seq<Fingerprint>)
    requires Enumerates(order, index)
    ensures |Selected(index, order)| == |DuplicateKeys(index)|
    ensures Selected(index, order) == [] <==> DuplicateKeys(index) == {}
  {
    SelectedCount(index, order);
    assert (set h | h in order && |index[h]| > 1) == DuplicateKeys(index);
  }

  /**
   `print_results`: `uniqueFiles` is the number on the "Went through" line,
   `groups` the lists printed between the dashed lines, in printing order, and
   `duplicatesFound` false exactly when the "No duplicates found" line is
   printed.
   */
  method PrintResults(index: Index) returns (uniqueFiles: nat, groups: seq<seq<Path>>, duplicatesFound: bool, ghost order: seq<Fingerprint>)
    ensures uniqueFiles == |index|
    ensures Enumerates(order, index) && groups == Selected(index, order)
    ensures duplicatesFound <==> groups != []
    ensures duplicatesFound <==> exists h :: h in index && |index[h]| > 1
  {
    duplicatesFound := false;
    uniqueFiles := |index|;
    groups, order := [], [];
    var remaining := index.Keys;
    while remaining != {}
      invariant forall h :: h in order || h in remaining <==> h in index
      invariant forall h <- order :: h !in remaining
      invariant forall i, j :: 0 <= i < j < |order| ==> order[i] != order[j]
      invariant groups == Selected(index, order)
      invariant duplicatesFound <==> groups != []
      decreases |remaining|
    {
      var h :| h in remaining;
      var fileList := index[h];
      SelectedSnoc(index, order, h);
      if |fileList| > 1 {
        duplicatesFound := true;
        groups := groups + [fileList];
      }
      order := order + [h];
      remaining := remaining - {h};
    }
    SelectedEmptyIff(index, order);
  }

  /**
   The "unique files" count is the number of distinct fingerprints, which is
   at most the number of files recorded and equals it exactly when no
   fingerprint is shared.
   */
  lemma {:induction false} UniqueCountAtMostFiles(index: Index)
    requires NoEmptyList(index)
    ensures |index| <= Total(index)
    ensures |index| == Total(index) <==> DuplicateKeys(index) == {}
    decreases |index|
  {
    if index != map[] {
      var k :| k in index;
      var rest := index - {k};
      TotalAt(index, k);
      assert rest.Keys == index.Keys - {k};
      assert |rest| == |index| - 1;
      UniqueCountAtMostFiles(rest);
      assert DuplicateKeys(index) == DuplicateKeys(rest) + (if |index[k]| > 1 then {k} else {});
    }
  }
}
