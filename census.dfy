/**
 * How one tick turns the census (the type name of every live object) into
 * per-type counts: `sorted`, then `itertools.groupby`, then `count` on
 * each group (txspy/objectbrowser.py:331-350 and 151-168).
 */
module Census {

  /** Python 2 `str` ordering: lexicographic by character code, a proper
      prefix first. */
  predicate LexLe(a: string, b: string)
    decreases |a|
  {
    |a| == 0 || (|b| > 0 && (a[0] < b[0] || (a[0] == b[0] && LexLe(a[1..], b[1..]))))
  }

  lemma {:induction false} LexLeTotal(a: string, b: string)
    ensures LexLe(a, b) || LexLe(b, a)
    decreases |a|
  {
    if |a| > 0 && |b| > 0 && a[0] == b[0] {
      LexLeTotal(a[1..], b[1..]);
    }
  }

  lemma {:induction false} LexLeAntisymmetric(a: string, b: string)
    requires LexLe(a, b) && LexLe(b, a)
    ensures a == b
    decreases |a|
  {
    if |a| > 0 {
      LexLeAntisymmetric(a[1..], b[1..]);
      assert a == [a[0]] + a[1..] && b == [b[0]] + b[1..];
    }
  }

  lemma {:induction false} LexLeTransitive(a: string, b: string, c: string)
    requires LexLe(a, b) && LexLe(b, c)
    ensures LexLe(a, c)
    decreases |a|
  {
    if |a| > 0 && a[0] == b[0] && b[0] == c[0] {
      LexLeTransitive(a[1..], b[1..], c[1..]);
    }
  }

  ghost predicate Sorted(s: seq<string>)
  {
    forall i, j :: 0 <= i < j < |s| ==> LexLe(s[i], s[j])
  }

  /** One step of insertion: `x` goes in front of the first element it does
      not exceed. */
  function Insert(x: string, s: seq<string>): (r: seq<string>)
    ensures multiset(r) == multiset(s) + multiset{x}
  {
    if s == [] then [x]
    else if LexLe(x, s[0]) then [x] + s
    else
      assert s == [s[0]] + s[1..];
      [s[0]] + Insert(x, s[1..])
  }

  /** A name no greater than every element of a sorted sequence can head it. */
  lemma ConsSorted(a: string, r: seq<string>)
    requires Sorted(r) && forall j :: 0 <= j < |r| ==> LexLe(a, r[j])
    ensures Sorted([a] + r)
  {
    var t := [a] + r;
    forall i, j | 0 <= i < j < |t| ensures LexLe(t[i], t[j]) {
      assert t[j] == r[j - 1];
      if i > 0 {
        assert t[i] == r[i - 1];
      }
    }
  }

  /** A lower bound of `x` and of every element of `s` bounds `Insert(x, s)`. */
  lemma InsertLowerBound(x: string, s: seq<string>, y: string)
    requires LexLe(y, x) && forall j :: 0 <= j < |s| ==> LexLe(y, s[j])
    ensures forall j :: 0 <= j < |Insert(x, s)| ==> LexLe(y, Insert(x, s)[j])
  {
    var r := Insert(x, s);
    forall j | 0 <= j < |r| ensures LexLe(y, r[j]) {
      assert r[j] in multiset(r);
      if r[j] != x {
        assert r[j] in multiset(s);
        var k :| 0 <= k < |s| && s[k] == r[j];
      }
    }
  }

  lemma {:induction false} InsertSorted(x: string, s: seq<string>)
    requires Sorted(s)
    ensures Sorted(Insert(x, s))
  {
    if s == [] {
    } else if LexLe(x, s[0]) {
      forall j | 0 <= j < |s| ensures LexLe(x, s[j]) {
        if j > 0 {
          LexLeTransitive(x, s[0], s[j]);
        }
      }
      ConsSorted(x, s);
    } else {
      var tail := s[1..];
      assert Sorted(tail) by {
        forall i, j | 0 <= i < j < |tail| ensures LexLe(tail[i], tail[j]) {
          assert tail[i] == s[i + 1] && tail[j] == s[j + 1];
        }
      }
      InsertSorted(x, tail);
      LexLeTotal(x, s[0]);
      assert forall j :: 0 <= j < |tail| ==> LexLe(s[0], tail[j]) by {
        forall j | 0 <= j < |tail| ensures LexLe(s[0], tail[j]) {
          assert tail[j] == s[j + 1];
        }
      }
      InsertLowerBound(x, tail, s[0]);
      ConsSorted(s[0], Insert(x, tail));
    }
  }

  /** Python's `sorted` on type names: an ordered permutation of its input. */
  function SortNames(s: seq<string>): (r: seq<string>)
    ensures multiset(r) == multiset(s)
    ensures Sorted(r)
  {
    if s == [] then []
    else
      assert s == [s[0]] + s[1..];
      InsertSorted(s[0], SortNames(s[1..]));
      Insert(s[0], SortNames(s[1..]))
  }

  /** One group of `itertools.groupby`: a key and the run of equal names. */
  datatype Group = Group(key: string, members: seq<string>)

  /** The length of the run of `x` at the front of `s`. */
  function RunLength(s: seq<string>, x: string): (n: nat)
    ensures n <= |s|
    ensures forall j :: 0 <= j < n ==> s[j] == x
    ensures n < |s| ==> s[n] != x
  {
    if s == [] || s[0] != x then 0 else 1 + RunLength(s[1..], x)
  }

  /** `itertools.groupby` with the identity key: maximal runs of equal
      adjacent names, in order. */
  function GroupBy(s: seq<string>): (gs: seq<Group>)
    ensures forall i :: 0 <= i < |gs| ==> |gs[i].members| > 0
    ensures forall i, j :: 0 <= i < |gs| && 0 <= j < |gs[i].members| ==> gs[i].members[j] == gs[i].key
    decreases |s|
  {
    if s == [] then []
    else
      var n := RunLength(s, s[0]);
      var rest := GroupBy(s[n..]);
      [Group(s[0], s[..n])] + rest
  }

  /** The groups that follow the first are the groups of what follows its run. */
  lemma GroupByTail(s: seq<string>)
    requires s != []
    ensures GroupBy(s)[0] == Group(s[0], s[..RunLength(s, s[0])])
    ensures GroupBy(s)[1..] == GroupBy(s[RunLength(s, s[0])..])
  {
  }

  /** The name of the first run and the keys of the groups after it are
      the names of the whole sequence. */
  lemma KeysStep(gs: seq<Group>, s: seq<string>, n: nat)
    requires gs != [] && 0 < n <= |s| && gs[0].key == s[0]
    requires forall j :: 0 <= j < n ==> s[j] == s[0]
    requires forall x :: x in s[n..] <==> exists i :: 0 <= i < |gs[1..]| && gs[1..][i].key == x
    ensures forall x :: x in s <==> exists i :: 0 <= i < |gs| && gs[i].key == x
  {
    forall x ensures x in s <==> exists i :: 0 <= i < |gs| && gs[i].key == x {
      if x in s {
        var k :| 0 <= k < |s| && s[k] == x;
        if k < n {
          assert gs[0].key == x;
        } else {
          assert s[n..][k - n] == x;
          assert x in s[n..];
          var i :| 0 <= i < |gs[1..]| && gs[1..][i].key == x;
          assert gs[i + 1] == gs[1..][i];
        }
      }
      if exists i :: 0 <= i < |gs| && gs[i].key == x {
        var i :| 0 <= i < |gs| && gs[i].key == x;
        if i > 0 {
          assert gs[1..][i - 1] == gs[i];
          assert x in s[n..];
          var k :| 0 <= k < |s[n..]| && s[n..][k] == x;
          assert s[n + k] == x;
        }
      }
    }
  }

  /** The group keys are exactly the names that occur. */
  lemma {:induction false} GroupByKeys(s: seq<string>)
    ensures forall x :: x in s <==> exists i :: 0 <= i < |GroupBy(s)| && GroupBy(s)[i].key == x
    decreases |s|
  {
    if s != [] {
      var n := RunLength(s, s[0]);
      GroupByTail(s);
      GroupByKeys(s[n..]);
      KeysStep(GroupBy(s), s, n);
    }
  }

  /** The members of all groups, concatenated. */
  function Flatten(gs: seq<Group>): seq<string>
  {
    if gs == [] then [] else gs[0].members + Flatten(gs[1..])
  }

  lemma FlattenStep(gs: seq<Group>, s: seq<string>, n: nat)
    requires gs != [] && n <= |s|
    requires gs[0].members == s[..n] && Flatten(gs[1..]) == s[n..]
    ensures Flatten(gs) == s
  {
    assert s == s[..n] + s[n..];
  }

  /** `groupby` partitions its input: nothing is lost, reordered or added. */
  lemma {:induction false} GroupByPartitions(s: seq<string>)
    ensures Flatten(GroupBy(s)) == s
    decreases |s|
  {
    if s != [] {
      var n := RunLength(s, s[0]);
      GroupByTail(s);
      GroupByPartitions(s[n..]);
      FlattenStep(GroupBy(s), s, n);
    }
  }

  lemma {:induction false} UniformMultiset(t: seq<string>, x: string, y: string)
    requires forall j :: 0 <= j < |t| ==> t[j] == x
    ensures multiset(t)[y] == if y == x then |t| else 0
  {
    if t != [] {
      UniformMultiset(t[1..], x, y);
      assert t == [t[0]] + t[1..];
    }
  }

  /** In sorted input, the first name does not occur after its run. */
  lemma HeadNotAfterRun(s: seq<string>)
    requires Sorted(s) && s != []
    ensures s[0] !in s[RunLength(s, s[0])..]
  {
    var n := RunLength(s, s[0]);
    if s[0] in s[n..] {
      var j :| 0 <= j < |s| - n && s[n..][j] == s[0];
      assert LexLe(s[0], s[n]) && LexLe(s[n], s[n + j]);
      LexLeAntisymmetric(s[0], s[n]);
    }
  }

  /** A name missing from what follows the first run is no later key. */
  lemma LaterStep(gs: seq<Group>, s: seq<string>, n: nat, x: string)
    requires gs != [] && n <= |s| && x !in s[n..]
    requires forall y :: y in s[n..] <==> exists i :: 0 <= i < |gs[1..]| && gs[1..][i].key == y
    ensures forall i :: 1 <= i < |gs| ==> gs[i].key != x
  {
    forall i | 1 <= i < |gs| ensures gs[i].key != x {
      assert gs[1..][i - 1] == gs[i];
    }
  }

  /** On sorted input every group's key follows the first name's run. */
  lemma LaterKeysDiffer(s: seq<string>)
    requires Sorted(s) && s != []
    ensures forall i :: 1 <= i < |GroupBy(s)| ==> GroupBy(s)[i].key != s[0]
  {
    var n := RunLength(s, s[0]);
    HeadNotAfterRun(s);
    GroupByTail(s);
    GroupByKeys(s[n..]);
    LaterStep(GroupBy(s), s, n, s[0]);
  }

  /** What follows a prefix of a sorted sequence is sorted. */
  lemma SortedDrop(s: seq<string>, n: nat)
    requires Sorted(s) && n <= |s|
    ensures Sorted(s[n..])
  {
    var t := s[n..];
    forall i, j | 0 <= i < j < |t| ensures LexLe(t[i], t[j]) {
      assert t[i] == s[n + i] && t[j] == s[n + j];
    }
  }

  lemma DistinctStep(gs: seq<Group>)
    requires gs != []
    requires forall i :: 1 <= i < |gs| ==> gs[i].key != gs[0].key
    requires forall i, j :: 0 <= i < j < |gs[1..]| ==> gs[1..][i].key != gs[1..][j].key
    ensures forall i, j :: 0 <= i < j < |gs| ==> gs[i].key != gs[j].key
  {
    forall i, j | 0 <= i < j < |gs| ensures gs[i].key != gs[j].key {
      if i > 0 {
        assert gs[i] == gs[1..][i - 1] && gs[j] == gs[1..][j - 1];
      }
    }
  }

  /** On sorted input the groups have distinct keys. */
  lemma {:induction false} GroupByDistinct(s: seq<string>)
    requires Sorted(s)
    ensures forall i, j :: 0 <= i < j < |GroupBy(s)| ==> GroupBy(s)[i].key != GroupBy(s)[j].key
    decreases |s|
  {
    if s != [] {
      var n := RunLength(s, s[0]);
      SortedDrop(s, n);
      GroupByDistinct(s[n..]);
      GroupByTail(s);
      LaterKeysDiffer(s);
      DistinctStep(GroupBy(s));
    }
  }

  lemma CountsStep(gs: seq<Group>, s: seq<string>, n: nat)
    requires gs != [] && 0 < n <= |s|
    requires gs[0] == Group(s[0], s[..n]) && s[0] !in s[n..]
    requires forall j :: 0 <= j < n ==> s[j] == s[0]
    requires forall i :: 1 <= i < |gs| ==> gs[i].key != s[0]
    requires forall i :: 0 <= i < |gs[1..]| ==> |gs[1..][i].members| == multiset(s[n..])[gs[1..][i].key]
    ensures forall i :: 0 <= i < |gs| ==> |gs[i].members| == multiset(s)[gs[i].key]
  {
    assert s == s[..n] + s[n..];
    forall i | 0 <= i < |gs| ensures |gs[i].members| == multiset(s)[gs[i].key] {
      UniformMultiset(s[..n], s[0], gs[i].key);
      if i > 0 {
        assert gs[i] == gs[1..][i - 1];
      }
    }
  }

  /** On sorted input each group holds every occurrence of its key: the count
      of a group is the multiplicity of its name in the census. */
  lemma {:induction false} GroupByCounts(s: seq<string>)
    requires Sorted(s)
    ensures forall i :: 0 <= i < |GroupBy(s)| ==> |GroupBy(s)[i].members| == multiset(s)[GroupBy(s)[i].key]
    decreases |s|
  {
    if s != [] {
      var n := RunLength(s, s[0]);
      SortedDrop(s, n);
      GroupByCounts(s[n..]);
      GroupByTail(s);
      LaterKeysDiffer(s);
      HeadNotAfterRun(s);
      CountsStep(GroupBy(s), s, n);
    }
  }

  /** `count`: the number of items its loop consumes. */
  method Count<T>(xs: seq<T>) returns (result: nat)
    ensures result == |xs|
  {
    result := 0;
    for i := 0 to |xs|
      invariant result == i
    {
      result := result + 1;
    }
  }
}
