/**
 * The two loops of `updateStats` (txspy/objectbrowser.py:340-363) written
 * as functions on sample rows, in the order the source runs them, and the
 * proof that together they compute the rows of `Sampler.Tick`.
 */
module UpdateLoops {
  import opened RingBuffers
  import opened Census
  import opened Sampler

  /** One group of the loop over the groups: its count appended to the row
      of its name, a name seen for the first time starting from
      `numSamples` zeros. */
  function MergeOne(maxSize: int, rows: map<string, seq<int>>, numSamples: nat, g: Group): map<string, seq<int>>
  {
    rows[g.key := RingAppend(maxSize, if g.key in rows then rows[g.key] else Zeros(numSamples), |g.members|)]
  }

  /** The loop over the groups, one group after the other. */
  function MergeAll(maxSize: int, rows: map<string, seq<int>>, numSamples: nat, groups: seq<Group>): map<string, seq<int>>
    decreases |groups|
  {
    if groups == [] then rows
    else MergeAll(maxSize, MergeOne(maxSize, rows, numSamples, groups[0]), numSamples, groups[1..])
  }

  /** The names the groups stand for. */
  function KeysOf(groups: seq<Group>): set<string>
  {
    set g | g in groups :: g.key
  }

  /** The loop over `history.items()` before its pruning: every tracked
      name outside `names` gets a 0. */
  function ZeroFill(maxSize: int, rows: map<string, seq<int>>, names: set<string>): map<string, seq<int>>
  {
    map name | name in rows :: if name in names then rows[name] else RingAppend(maxSize, rows[name], 0)
  }

  /** That loop part way: the names still in `todo` keep their row. */
  function PartialZeroFill(maxSize: int, rows: map<string, seq<int>>, names: set<string>, todo: set<string>): map<string, seq<int>>
  {
    map name | name in rows ::
      if name in todo || name in names then rows[name] else RingAppend(maxSize, rows[name], 0)
  }

  /** The names the pruning keeps part way: those not yet visited and
      those whose row is not all zeros. */
  function KeptKeys(rows: map<string, seq<int>>, todo: set<string>): set<string>
  {
    set name | name in rows && (name in todo || !AllZero(rows[name]))
  }

  /** The keys of a nonempty sequence of groups: the first one's and the
      others'; with distinct keys, the first is not among the others. */
  lemma KeysOfCons(groups: seq<Group>)
    requires groups != []
    requires forall j, k :: 0 <= j < k < |groups| ==> groups[j].key != groups[k].key
    ensures KeysOf(groups) == {groups[0].key} + KeysOf(groups[1..])
    ensures groups[0].key !in KeysOf(groups[1..])
    ensures forall j, k :: 0 <= j < k < |groups[1..]| ==> groups[1..][j].key != groups[1..][k].key
  {
    var rest := groups[1..];
    assert groups == [groups[0]] + rest;
    forall g | g in rest ensures g.key != groups[0].key {
      var k :| 0 <= k < |rest| && rest[k] == g;
      assert groups[k + 1] == g;
    }
    forall j, k | 0 <= j < k < |rest| ensures rest[j].key != rest[k].key {
      assert rest[j] == groups[j + 1] && rest[k] == groups[k + 1];
    }
  }

  /** After the loop over the groups, a name that has a group holds its
      next row, and every other name its old one. */
  lemma {:induction false} MergeAllAt(maxSize: int, rows: map<string, seq<int>>, numSamples: nat, groups: seq<Group>)
    requires forall j, k :: 0 <= j < k < |groups| ==> groups[j].key != groups[k].key
    ensures MergeAll(maxSize, rows, numSamples, groups).Keys == rows.Keys + KeysOf(groups)
    ensures forall g | g in groups ::
              MergeAll(maxSize, rows, numSamples, groups)[g.key] ==
              RingAppend(maxSize, if g.key in rows then rows[g.key] else Zeros(numSamples), |g.members|)
    ensures forall name | name in rows && name !in KeysOf(groups) ::
              MergeAll(maxSize, rows, numSamples, groups)[name] == rows[name]
    decreases |groups|
  {
    if groups != [] {
      var first := groups[0];
      var rest := groups[1..];
      KeysOfCons(groups);
      MergeAllAt(maxSize, MergeOne(maxSize, rows, numSamples, first), numSamples, rest);
      forall g | g in groups ensures g == first || g in rest {
        assert groups == [first] + rest;
      }
    }
  }

  /** Sorting keeps the names of the census. */
  lemma SortedNames(census: seq<string>)
    ensures Names(census) == set x | x in SortNames(census)
  {
    var sortedTypes := SortNames(census);
    forall x ensures x in sortedTypes <==> x in census {
      assert x in sortedTypes <==> x in multiset(sortedTypes);
    }
  }

  /** The group keys of a sequence are its names. */
  lemma GroupKeysAreNames(s: seq<string>)
    ensures KeysOf(GroupBy(s)) == set x | x in s
  {
    var groups := GroupBy(s);
    GroupByKeys(s);
    forall x | x in s ensures x in KeysOf(groups) {
      var j :| 0 <= j < |groups| && groups[j].key == x;
      assert groups[j] in groups;
    }
    forall x | x in KeysOf(groups) ensures x in s {
      var g :| g in groups && g.key == x;
      var j :| 0 <= j < |groups| && groups[j] == g;
    }
  }

  /** The groups of the sorted census have distinct keys, are exactly the
      names of the census, and each counts its name's occurrences. */
  lemma GroupsOfCensus(census: seq<string>, sortedTypes: seq<string>, groups: seq<Group>)
    requires sortedTypes == SortNames(census) && groups == GroupBy(sortedTypes)
    ensures forall j, k :: 0 <= j < k < |groups| ==> groups[j].key != groups[k].key
    ensures forall g | g in groups :: |g.members| == multiset(census)[g.key]
    ensures KeysOf(groups) == Names(census)
    ensures Names(census) == set x | x in sortedTypes
  {
    GroupByDistinct(sortedTypes);
    GroupByCounts(sortedTypes);
    forall g | g in groups ensures |g.members| == multiset(census)[g.key] {
      var j :| 0 <= j < |groups| && groups[j] == g;
    }
    SortedNames(census);
    GroupKeysAreNames(sortedTypes);
  }

  /** The two loops, run on the pre-tick rows and the groups of the sorted
      census, compute the rows `Sampler.Tick` prunes: the loop structure of
      the source agrees with the per-name definition of a tick. */
  lemma LoopsComputeNextRows(st: Store, census: seq<string>, maxSize: int)
    ensures ZeroFill(maxSize, MergeAll(maxSize, st.history, |st.timestamps|, GroupBy(SortNames(census))), Names(census))
            == NextRows(st, census, maxSize)
  {
    var groups := GroupBy(SortNames(census));
    var merged := MergeAll(maxSize, st.history, |st.timestamps|, groups);
    GroupsOfCensus(census, SortNames(census), groups);
    MergeAllAt(maxSize, st.history, |st.timestamps|, groups);
    NextRowsAt(st, census, maxSize);
    var filled := ZeroFill(maxSize, merged, Names(census));
    var next := NextRows(st, census, maxSize);
    forall name | name in next ensures name in filled && filled[name] == next[name] {
      if name in Names(census) {
        var g :| g in groups && g.key == name;
      }
    }
  }

  /** Visiting one more name of the zero-filling loop. */
  lemma PartialZeroFillStep(maxSize: int, rows: map<string, seq<int>>, names: set<string>, todo: set<string>, name: string)
    requires name in todo && name in rows
    ensures PartialZeroFill(maxSize, rows, names, todo - {name}) ==
            PartialZeroFill(maxSize, rows, names, todo)[name := if name in names then rows[name] else RingAppend(maxSize, rows[name], 0)]
  {
  }

  /** Before the loop nothing is visited; after it, it is `ZeroFill`. */
  lemma PartialZeroFillEnds(maxSize: int, rows: map<string, seq<int>>, names: set<string>)
    ensures PartialZeroFill(maxSize, rows, names, rows.Keys) == rows
    ensures PartialZeroFill(maxSize, rows, names, {}) == ZeroFill(maxSize, rows, names)
  {
  }

  /** Visiting one more name of the pruning loop: it stays exactly when its
      new row is not all zeros. */
  lemma KeptKeysStep(rows: map<string, seq<int>>, todo: set<string>, name: string, row: seq<int>)
    requires name in todo && name in rows
    ensures KeptKeys(rows[name := row], todo - {name}) ==
            if AllZero(row) then KeptKeys(rows, todo) - {name} else KeptKeys(rows, todo)
  {
  }
}
