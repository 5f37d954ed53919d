/**
 * The `ObjectBrowser` service state of txspy/objectbrowser.py: the history
 * dictionary of ring buffers and the shared timestamp ring buffer, the
 * start/stop lifecycle that installs and discards them, and the sampling
 * tick `updateStats`, proved to do what `Sampler.Tick` says.
 */
module ObjectBrowsers {
  import opened Wrappers
  import opened RingBuffers
  import opened Census
  import opened Sampler
  import opened UpdateLoops

  /** The sample rows held by the buffers of `h`. */
  ghost function Contents(h: map<string, RingBuffer<int>>): map<string, seq<int>>
    reads h.Values
  {
    map name | name in h :: h[name].contents
  }

  /** No two names share a buffer. */
  ghost predicate Injective(h: map<string, RingBuffer<int>>)
  {
    forall a, b | a in h && b in h && a != b :: h[a] != h[b]
  }

  /** `append` on the buffer of one name of `h`. */
  method AppendSample(h: map<string, RingBuffer<int>>, name: string, x: int)
    requires name in h && Injective(h)
    modifies h[name]
    ensures Contents(h) == old(Contents(h))[name := RingAppend(h[name].maxSize, old(h[name].contents), x)]
  {
    ghost var before := Contents(h);
    h[name].Append(x);
    forall k | k in h && k != name ensures h[k].contents == before[k] {
      assert h[k] != h[name];
    }
    assert Contents(h) == before[name := h[name].contents];
  }

  /** Registering a buffer under a new name adds one row. */
  lemma ContentsAfterInsert(h: map<string, RingBuffer<int>>, name: string, b: RingBuffer<int>)
    ensures Contents(h[name := b]) == Contents(h)[name := b.contents]
  {
  }

  /** A sub-dictionary of `items` whose names are those `KeptKeys` keeps
      once every name is visited holds the pruned rows of `items`. */
  lemma PrunedContents(h: map<string, RingBuffer<int>>, items: map<string, RingBuffer<int>>)
    requires forall name | name in h :: name in items && h[name] == items[name]
    requires h.Keys == KeptKeys(Contents(items), {})
    ensures Contents(h) == Prune(Contents(items))
  {
  }

  /** The zero-filling half of one step of the loop over `history.items()`. */
  method ZeroFillName(items: map<string, RingBuffer<int>>, objectTypeSet: set<string>, typeName: string,
                      maxSize: int, ghost rows: map<string, seq<int>>, ghost todo: set<string>)
    requires typeName in todo && todo <= items.Keys && Injective(items) && items[typeName].maxSize == maxSize
    requires Contents(items) == PartialZeroFill(maxSize, rows, objectTypeSet, todo)
    modifies items[typeName]
    ensures Contents(items) == PartialZeroFill(maxSize, rows, objectTypeSet, todo - {typeName})
    ensures Contents(items) == old(Contents(items))[typeName := items[typeName].contents]
  {
    assert typeName in Contents(items);
    PartialZeroFillStep(maxSize, rows, objectTypeSet, todo, typeName);
    if typeName !in objectTypeSet {
      AppendSample(items, typeName, 0);
    }
  }

  class ObjectBrowser {
    /** Seconds between ticks; only the scheduler uses it. */
    const sampleInterval: real
    /** The capacity of every ring buffer. */
    const sampleHistorySize: int
    /** `_history`: type name to its ring buffer of counts, `None` while stopped. */
    var history: Option<map<string, RingBuffer<int>>>
    /** `_timestamps`: the shared ring buffer of tick times, `null` while stopped. */
    var timestamps: RingBuffer?<Timestamp>
    ghost var Repr: set<object>

    /** The buffers in `h` belong to this service, have its capacity, are
        pairwise distinct objects and are not the timestamp buffer. */
    ghost predicate Owns(h: map<string, RingBuffer<int>>, ts: RingBuffer<Timestamp>)
      reads this`Repr
    {
      ts in Repr && Injective(h) &&
      forall name | name in h :: h[name] in Repr && h[name].maxSize == sampleHistorySize &&
                                 h[name] as object != ts as object
    }

    ghost predicate Valid()
      reads this, Repr
    {
      this in Repr &&
      (history.Some? <==> timestamps != null) &&
      (timestamps != null ==>
         && Owns(history.value, timestamps)
         && timestamps.Valid() && timestamps.maxSize == sampleHistorySize
         && Invariant(Store(Contents(history.value), timestamps.contents), sampleHistorySize))
    }

    /** What a reader of `history` and `timestamps` sees. */
    ghost function State(): Service
      reads this, Repr
      requires Valid()
    {
      if timestamps == null then Stopped
      else Running(Store(Contents(history.value), timestamps.contents))
    }

    constructor (sampleInterval: real, sampleHistorySize: int)
      ensures Valid() && fresh(Repr)
      ensures this.sampleInterval == sampleInterval && this.sampleHistorySize == sampleHistorySize
      ensures State() == Stopped
    {
      this.sampleInterval := sampleInterval;
      this.sampleHistorySize := sampleHistorySize;
      history := None;
      timestamps := null;
      Repr := {this};
    }

    /** `startService`: a fresh empty dictionary and timestamp buffer, so a
        restart never keeps earlier samples. The capacity must be positive
        (the `RingBuffer` constructor asserts it). */
    method StartService()
      requires Valid()
      requires sampleHistorySize > 0
      modifies this
      ensures Valid() && fresh(Repr - old(Repr))
      ensures State() == Running(Store(map[], []))
    {
      history := Some(map[]);
      timestamps := new RingBuffer(sampleHistorySize);
      Repr := {this, timestamps};
    }

    /** `stopService`: both fields back to `None`. */
    method StopService()
      requires Valid()
      modifies this
      ensures Valid() && fresh(Repr - old(Repr))
      ensures State() == Stopped
    {
      history := None;
      timestamps := null;
      Repr := {this};
    }

    /** `updateStats` on one census (the type name of every live object).
        While stopped the first access to `_history` raises, before anything
        changes, and `ok` is false; while running the new state is one
        `Sampler.Tick`, and the source's closing `assert` holds. */
    method UpdateStats(census: seq<string>, now: Timestamp) returns (ok: bool)
      requires Valid()
      modifies Repr
      ensures Valid() && fresh(Repr - old(Repr))
      ensures ok <==> old(State()).Running?
      ensures ok ==> State() == Running(Tick(old(State()).store, census, now, sampleHistorySize))
      ensures !ok ==> State() == old(State())
    {
      if history.None? {
        return false;
      }
      ghost var pre := State().store;
      var ts := timestamps;
      var sortedTypes := SortNames(census);
      var groups := GroupBy(sortedTypes);
      var h := MergeGroups(groups);
      var objectTypeSet := set x | x in sortedTypes;
      h := AppendZerosAndPrune(h, objectTypeSet);
      SortedNames(census);
      LoopsComputeNextRows(pre, census, sampleHistorySize);
      ghost var rows := Contents(h);
      ts.Append(now);
      assert Contents(h) == rows;
      TickPreservesInvariant(pre, census, now, sampleHistorySize);
      // The source's closing sanity check on the lengths.
      assert forall name | name in h :: h[name].Length() == ts.Length() by {
        assert forall name | name in h :: h[name].contents == Contents(h)[name];
      }
      ok := true;
    }

    /** The loop over the groups (txspy/objectbrowser.py:340-350), proved to
        compute `MergeAll` on the rows it starts from. */
    method MergeGroups(groups: seq<Group>) returns (h: map<string, RingBuffer<int>>)
      requires history.Some? && timestamps != null && this in Repr && sampleHistorySize > 0
      requires Owns(history.value, timestamps)
      modifies Repr
      ensures history == Some(h) && timestamps == old(timestamps)
      ensures this in Repr && old(Repr) <= Repr && fresh(Repr - old(Repr))
      ensures Owns(h, timestamps) && timestamps.contents == old(timestamps.contents)
      ensures Contents(h) == MergeAll(sampleHistorySize, old(Contents(history.value)), old(|timestamps.contents|), groups)
    {
      h := history.value;
      var ts := timestamps;
      var numSamples := ts.Length();
      ghost var goal := MergeAll(sampleHistorySize, Contents(h), numSamples, groups);
      var i := 0;
      while i < |groups|
        invariant 0 <= i <= |groups|
        invariant history == Some(h) && timestamps == ts && ts.contents == old(ts.contents)
        invariant this in Repr && old(Repr) <= Repr && fresh(Repr - old(Repr))
        invariant Owns(h, ts)
        invariant MergeAll(sampleHistorySize, Contents(h), numSamples, groups[i..]) == goal
      {
        assert groups[i..][1..] == groups[i + 1..];
        h := MergeGroup(h, groups[i], numSamples);
        i := i + 1;
      }
      assert groups[i..] == [];
    }

    /** One group of that loop: look the name up, create its buffer filled
        with `numSamples` zeros when it is new, and append the group's
        count. */
    method MergeGroup(h: map<string, RingBuffer<int>>, g: Group, numSamples: nat)
      returns (h': map<string, RingBuffer<int>>)
      requires history == Some(h) && timestamps != null && this in Repr && sampleHistorySize > 0
      requires Owns(h, timestamps)
      modifies Repr
      ensures history == Some(h') && timestamps == old(timestamps)
      ensures this in Repr && old(Repr) <= Repr && fresh(Repr - old(Repr))
      ensures Owns(h', timestamps) && timestamps.contents == old(timestamps.contents)
      ensures Contents(h') == MergeOne(sampleHistorySize, old(Contents(h)), numSamples, g)
    {
      h' := h;
      if g.key !in h {
        h' := AddBuffer(h, g.key, numSamples);
      }
      var n := Count(g.members);
      AppendSample(h', g.key, n);
    }

    /** A new type name: a buffer of the service's capacity, prefilled with
        `numSamples` zeros, registered under the name. */
    method AddBuffer(h: map<string, RingBuffer<int>>, name: string, numSamples: nat)
      returns (h': map<string, RingBuffer<int>>)
      requires history == Some(h) && timestamps != null && this in Repr && sampleHistorySize > 0
      requires Owns(h, timestamps) && name !in h
      modifies this
      ensures history == Some(h') && timestamps == old(timestamps)
      ensures this in Repr && old(Repr) <= Repr && fresh(Repr - old(Repr))
      ensures Owns(h', timestamps) && name in h'
      ensures Contents(h') == old(Contents(h))[name := Zeros(numSamples)]
    {
      ghost var before := Contents(h);
      var buffer := new RingBuffer(sampleHistorySize);
      buffer.Extend(Zeros(numSamples));
      assert Contents(h) == before;
      assert buffer.contents == Zeros(numSamples);
      ContentsAfterInsert(h, name, buffer);
      h' := h[name := buffer];
      history := Some(h');
      Repr := Repr + {buffer};
    }

    /** The loop over `history.items()` (txspy/objectbrowser.py:353-363),
        proved to compute `ZeroFill` and then `Prune` on the rows it starts
        from. */
    method AppendZerosAndPrune(items: map<string, RingBuffer<int>>, objectTypeSet: set<string>)
      returns (h: map<string, RingBuffer<int>>)
      requires history == Some(items) && timestamps != null && this in Repr
      requires Owns(items, timestamps)
      modifies Repr
      ensures history == Some(h) && timestamps == old(timestamps) && Repr == old(Repr)
      ensures Owns(h, timestamps) && timestamps.contents == old(timestamps.contents)
      ensures Contents(h) == Prune(ZeroFill(sampleHistorySize, old(Contents(items)), objectTypeSet))
    {
      h := items;
      ghost var rows := Contents(items);
      var todo := items.Keys;
      assert Contents(items) == PartialZeroFill(sampleHistorySize, rows, objectTypeSet, todo) by {
        PartialZeroFillEnds(sampleHistorySize, rows, objectTypeSet);
      }
      while todo != {}
        invariant todo <= items.Keys
        invariant history == Some(h) && timestamps == old(timestamps) && Repr == old(Repr)
        invariant Owns(items, timestamps) && timestamps.contents == old(timestamps.contents)
        invariant forall name | name in h :: name in items && h[name] == items[name]
        invariant Contents(items) == PartialZeroFill(sampleHistorySize, rows, objectTypeSet, todo)
        invariant h.Keys == KeptKeys(Contents(items), todo)
        decreases todo
      {
        var typeName :| typeName in todo;
        h := VisitName(items, objectTypeSet, typeName, h, rows, todo);
        todo := todo - {typeName};
      }
      assert Contents(items) == ZeroFill(sampleHistorySize, rows, objectTypeSet) by {
        PartialZeroFillEnds(sampleHistorySize, rows, objectTypeSet);
      }
      PrunedContents(h, items);
      OwnsSubmap(h, items, timestamps);
    }

    /** One name of that loop: a name absent from the census gets its 0,
        and the name is dropped when its row is then all zeros. */
    method VisitName(items: map<string, RingBuffer<int>>, objectTypeSet: set<string>, typeName: string,
                     h: map<string, RingBuffer<int>>, ghost rows: map<string, seq<int>>, ghost todo: set<string>)
      returns (h': map<string, RingBuffer<int>>)
      requires history == Some(h) && timestamps != null && typeName in todo && todo <= items.Keys
      requires Owns(items, timestamps)
      requires forall name | name in h :: name in items && h[name] == items[name]
      requires Contents(items) == PartialZeroFill(sampleHistorySize, rows, objectTypeSet, todo)
      requires h.Keys == KeptKeys(Contents(items), todo)
      modifies this, items[typeName]
      ensures history == Some(h') && timestamps == old(timestamps) && Repr == old(Repr)
      ensures forall name | name in h' :: name in items && h'[name] == items[name]
      ensures Contents(items) == PartialZeroFill(sampleHistorySize, rows, objectTypeSet, todo - {typeName})
      ensures h'.Keys == KeptKeys(Contents(items), todo - {typeName})
    {
      var samples := items[typeName];
      ghost var before := Contents(items);
      ZeroFillName(items, objectTypeSet, typeName, sampleHistorySize, rows, todo);
      KeptKeysStep(before, todo, typeName, samples.contents);
      h' := h;
      if AllZero(samples.contents) {
        h' := h' - {typeName};
        history := Some(h');
      }
    }

    /** A sub-dictionary of owned buffers is owned. */
    lemma OwnsSubmap(h: map<string, RingBuffer<int>>, items: map<string, RingBuffer<int>>, ts: RingBuffer<Timestamp>)
      requires Owns(items, ts)
      requires forall name | name in h :: name in items && h[name] == items[name]
      ensures Owns(h, ts)
    {
    }
  }
}
