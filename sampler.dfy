/**
 * The sampling tick of `ObjectBrowser.updateStats`
 * (txspy/objectbrowser.py:322-374) stated on values: the per-type sample
 * rows and the shared timestamp row before and after one tick, and the
 * invariants a tick keeps.
 */
module Sampler {
  import opened RingBuffers

  /** A reading of `time.time()`: only stored, never computed on. */
  type Timestamp = real

  /** The sampling state while the service runs: one row of counts per
      tracked type name, and the shared row of tick timestamps. */
  datatype Store = Store(history: map<string, seq<int>>, timestamps: seq<Timestamp>)

  /** `_history` and `_timestamps` are both `None` while stopped. */
  datatype Service = Stopped | Running(store: Store)

  /** `itertools.repeat(0, n)`. */
  function Zeros(n: nat): (z: seq<int>)
    ensures |z| == n && forall i :: 0 <= i < n ==> z[i] == 0
  {
    seq(n, _ => 0)
  }

  /** `all(s == 0 for s in samples)`. */
  predicate AllZero(s: seq<int>)
  {
    forall i :: 0 <= i < |s| ==> s[i] == 0
  }

  /** `set(sortedObjectTypes)`: the type names present in this census. */
  function Names(census: seq<string>): set<string>
  {
    set x | x in census
  }

  /** The row of `name` once this tick has appended to it: a name in the
      census gets its number of occurrences, appended to its row or, the
      first time it is seen, to a row of zeros as long as the timestamp
      row was before the tick; a tracked name absent from the census gets
      a 0. */
  function NextSamples(st: Store, census: seq<string>, maxSize: int, name: string): seq<int>
    requires name in st.history || name in census
  {
    if name in census then
      RingAppend(maxSize, if name in st.history then st.history[name] else Zeros(|st.timestamps|),
                 multiset(census)[name])
    else
      RingAppend(maxSize, st.history[name], 0)
  }

  /** Every name tracked or present, with its row after this tick's append. */
  function NextRows(st: Store, census: seq<string>, maxSize: int): map<string, seq<int>>
  {
    map name | name in st.history.Keys + Names(census) :: NextSamples(st, census, maxSize, name)
  }

  /** The next rows, name by name: names of the census get their count
      appended (to a zero baseline when they are new), the other tracked
      names a 0. */
  lemma NextRowsAt(st: Store, census: seq<string>, maxSize: int)
    ensures NextRows(st, census, maxSize).Keys == st.history.Keys + Names(census)
    ensures forall name | name in Names(census) ::
              NextRows(st, census, maxSize)[name] ==
              RingAppend(maxSize, if name in st.history then st.history[name] else Zeros(|st.timestamps|),
                         multiset(census)[name])
    ensures forall name | name in st.history && name !in Names(census) ::
              NextRows(st, census, maxSize)[name] == RingAppend(maxSize, st.history[name], 0)
  {
  }

  /** The rows that keep a non-zero sample. */
  function Prune(rows: map<string, seq<int>>): map<string, seq<int>>
  {
    map name | name in rows && !AllZero(rows[name]) :: rows[name]
  }

  /** The store after one tick: every name tracked or present gets its next
      row, the rows that are all zeros are dropped, and the timestamp row
      gets `now`. */
  function Tick(st: Store, census: seq<string>, now: Timestamp, maxSize: int): Store
  {
    Store(Prune(NextRows(st, census, maxSize)), RingAppend(maxSize, st.timestamps, now))
  }

  /** The check at the end of `updateStats`: every row is exactly as long as
      the timestamp row, which itself stays within the capacity. */
  ghost predicate Aligned(st: Store, maxSize: int)
  {
    |st.timestamps| <= maxSize &&
    forall name | name in st.history :: |st.history[name]| == |st.timestamps|
  }

  /** No tracked row consists of zeros only (those are pruned). */
  ghost predicate NoQuietRows(st: Store)
  {
    forall name | name in st.history :: !AllZero(st.history[name])
  }

  ghost predicate Invariant(st: Store, maxSize: int)
  {
    Aligned(st, maxSize) && NoQuietRows(st)
  }

  /** A tick keeps every row aligned with the timestamp row, which grows by
      exactly one entry up to the capacity, and leaves no all-zero row. */
  lemma TickPreservesInvariant(st: Store, census: seq<string>, now: Timestamp, maxSize: int)
    requires 0 < maxSize && Aligned(st, maxSize)
    ensures Invariant(Tick(st, census, now, maxSize), maxSize)
    ensures Tick(st, census, now, maxSize).timestamps == Window(maxSize, st.timestamps + [now])
    ensures |Tick(st, census, now, maxSize).timestamps| ==
            if |st.timestamps| < maxSize then |st.timestamps| + 1 else maxSize
  {
    var r := Tick(st, census, now, maxSize);
    AppendWindow(maxSize, st.timestamps, now);
    forall name | name in r.history ensures |r.history[name]| == |r.timestamps| {
      var base := if name in st.history then st.history[name] else Zeros(|st.timestamps|);
      AppendWindow(maxSize, base, if name in census then multiset(census)[name] else 0);
    }
  }

  /** A name present in the census is tracked after the tick, and its newest
      sample is its number of occurrences, at least 1. */
  lemma TickRecordsCounts(st: Store, census: seq<string>, now: Timestamp, maxSize: int, name: string)
    requires 0 < maxSize && name in census
    ensures name in Tick(st, census, now, maxSize).history
    ensures var row := Tick(st, census, now, maxSize).history[name];
            |row| > 0 && row[|row| - 1] == multiset(census)[name] >= 1
  {
    var base := if name in st.history then st.history[name] else Zeros(|st.timestamps|);
    AppendLast(maxSize, base, multiset(census)[name]);
    var row := NextSamples(st, census, maxSize, name);
    assert row[|row| - 1] != 0;
  }

  /** A name seen for the first time gets a zero baseline for every earlier
      tick, then its count: `[0] * len(timestamps) + [count]`, already as long
      as the timestamp row will be. */
  lemma TickZeroFillsNewNames(st: Store, census: seq<string>, now: Timestamp, maxSize: int, name: string)
    requires 0 < maxSize && Aligned(st, maxSize)
    requires name in census && name !in st.history
    ensures name in Tick(st, census, now, maxSize).history
    ensures Tick(st, census, now, maxSize).history[name] ==
            Window(maxSize, Zeros(|st.timestamps|) + [multiset(census)[name]])
    ensures |st.timestamps| < maxSize ==>
            Tick(st, census, now, maxSize).history[name] == Zeros(|st.timestamps|) + [multiset(census)[name]]
    ensures |Tick(st, census, now, maxSize).history[name]| == |Tick(st, census, now, maxSize).timestamps|
  {
    TickRecordsCounts(st, census, now, maxSize, name);
    TickPreservesInvariant(st, census, now, maxSize);
    AppendWindow(maxSize, Zeros(|st.timestamps|), multiset(census)[name]);
  }

  /** A tracked name present again gets its count appended to its own row. */
  lemma TickAppendsToTrackedNames(st: Store, census: seq<string>, now: Timestamp, maxSize: int, name: string)
    requires 0 < maxSize && Aligned(st, maxSize)
    requires name in census && name in st.history
    ensures name in Tick(st, census, now, maxSize).history
    ensures Tick(st, census, now, maxSize).history[name] ==
            Window(maxSize, st.history[name] + [multiset(census)[name]])
  {
    TickRecordsCounts(st, census, now, maxSize, name);
    AppendWindow(maxSize, st.history[name], multiset(census)[name]);
  }

  /** A tracked name missing from the census is not an error and is not
      dropped at once: it gets one 0, and it stays tracked exactly when its
      row still holds a non-zero sample. */
  lemma TickAbsenceIsZero(st: Store, census: seq<string>, now: Timestamp, maxSize: int, name: string)
    requires 0 < maxSize && Aligned(st, maxSize)
    requires name in st.history && name !in census
    ensures var next := Window(maxSize, st.history[name] + [0]);
            && (name in Tick(st, census, now, maxSize).history <==> !AllZero(next))
            && (name in Tick(st, census, now, maxSize).history ==> Tick(st, census, now, maxSize).history[name] == next)
  {
    AppendWindow(maxSize, st.history[name], 0);
  }

  /** The prune condition: after a tick a name is tracked if and only if it
      was tracked or present, and its new row holds a non-zero sample; no
      other name is added or removed. */
  lemma TickPrunesQuietNames(st: Store, census: seq<string>, now: Timestamp, maxSize: int, name: string)
    requires 0 < maxSize
    ensures name in Tick(st, census, now, maxSize).history <==>
            (name in st.history || name in census) && !AllZero(NextSamples(st, census, maxSize, name))
    ensures name in census ==> name in Tick(st, census, now, maxSize).history
  {
    if name in census {
      TickRecordsCounts(st, census, now, maxSize, name);
    }
  }

  /** A sequence of ticks, one per census and timestamp. */
  function Run(st: Store, censuses: seq<seq<string>>, nows: seq<Timestamp>, maxSize: int): Store
    requires |censuses| == |nows|
    decreases |censuses|
  {
    if censuses == [] then st
    else Run(Tick(st, censuses[0], nows[0], maxSize), censuses[1..], nows[1..], maxSize)
  }

  lemma {:induction false} RunPreservesInvariant(st: Store, censuses: seq<seq<string>>, nows: seq<Timestamp>, maxSize: int)
    requires 0 < maxSize && Aligned(st, maxSize) && |censuses| == |nows|
    ensures Aligned(Run(st, censuses, nows, maxSize), maxSize)
    ensures censuses != [] ==> NoQuietRows(Run(st, censuses, nows, maxSize))
    decreases |censuses|
  {
    if censuses != [] {
      TickPreservesInvariant(st, censuses[0], nows[0], maxSize);
      RunPreservesInvariant(Tick(st, censuses[0], nows[0], maxSize), censuses[1..], nows[1..], maxSize);
    }
  }

  /** The newest `k` samples of `s` (all of them when fewer) are zero. */
  ghost predicate TrailingZeros(s: seq<int>, k: nat)
  {
    forall j :: 0 <= j < |s| && |s| - k <= j ==> s[j] == 0
  }

  lemma {:induction false} AbsentRowsAge(st: Store, censuses: seq<seq<string>>, nows: seq<Timestamp>,
                                         maxSize: int, name: string, k: nat)
    requires 0 < maxSize && Aligned(st, maxSize) && |censuses| == |nows|
    requires forall i :: 0 <= i < |censuses| ==> name !in censuses[i]
    requires name in st.history ==> TrailingZeros(st.history[name], k)
    ensures name in Run(st, censuses, nows, maxSize).history ==>
            TrailingZeros(Run(st, censuses, nows, maxSize).history[name], k + |censuses|)
    decreases |censuses|
  {
    if censuses != [] {
      var next := Tick(st, censuses[0], nows[0], maxSize);
      TickPreservesInvariant(st, censuses[0], nows[0], maxSize);
      if name in next.history {
        assert name in st.history;
        var s := st.history[name];
        var r := RingAppend(maxSize, s, 0);
        assert next.history[name] == r;
        forall j | 0 <= j < |r| && |r| - (k + 1) <= j ensures r[j] == 0 {
          if |s| + 1 > maxSize {
            assert r[j] == (s + [0])[j + 1];
          } else {
            assert r[j] == (s + [0])[j];
          }
        }
      }
      assert forall i :: 0 <= i < |censuses[1..]| ==> censuses[1..][i] == censuses[i + 1];
      AbsentRowsAge(next, censuses[1..], nows[1..], maxSize, name, k + 1);
    }
  }

  /** The deletion lag: a name absent from `maxSize` consecutive censuses is
      no longer tracked, whatever its row held before. */
  lemma AbsentNameIsPruned(st: Store, censuses: seq<seq<string>>, nows: seq<Timestamp>,
                           maxSize: int, name: string)
    requires 0 < maxSize && Aligned(st, maxSize)
    requires |censuses| == |nows| && |censuses| >= maxSize
    requires forall i :: 0 <= i < |censuses| ==> name !in censuses[i]
    ensures name !in Run(st, censuses, nows, maxSize).history
  {
    var fin := Run(st, censuses, nows, maxSize);
    AbsentRowsAge(st, censuses, nows, maxSize, name, 0);
    RunPreservesInvariant(st, censuses, nows, maxSize);
  }
}
