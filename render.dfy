/**
 * The small pure helpers the page renderer of txspy/objectbrowser.py uses:
 * `renderTemplate` and the `str.replace` it folds, the `hr` name
 * shortener, and the upper bound of a chart's y-range.
 */
module Render {
  import opened Wrappers
  import opened RingBuffers
  import opened Sampler

  /** `p` occurs in `s` at index `i`. */
  predicate OccursAt(s: string, p: string, i: int)
  {
    0 <= i && i + |p| <= |s| && s[i..i + |p|] == p
  }

  /** Python's `s.replace(p, v)` for a nonempty `p`: every occurrence,
      scanning left to right without overlap, becomes `v`. */
  function Replace(s: string, p: string, v: string): string
    requires |p| > 0
    decreases |s|
  {
    if |s| < |p| then s
    else if s[..|p|] == p then v + Replace(s[|p|..], p, v)
    else [s[0]] + Replace(s[1..], p, v)
  }

  /** `s.split(p)`: the pieces between the occurrences `Replace` finds.
      The first piece is where `s` starts, and no piece holds `p`, so the
      cuts fall on every occurrence of a left-to-right scan. */
  function Split(s: string, p: string): (pieces: seq<string>)
    requires |p| > 0
    ensures |pieces| > 0
    ensures pieces[0] <= s
    ensures forall k, i :: 0 <= k < |pieces| ==> !OccursAt(pieces[k], p, i)
    decreases |s|
  {
    if |s| < |p| then [s]
    else if s[..|p|] == p then [[]] + Split(s[|p|..], p)
    else
      var rest := Split(s[1..], p);
      ExtendPieceFree(s, p, rest[0]);
      [[s[0]] + rest[0]] + rest[1..]
  }

  /** A piece free of `p` stays free of it when the character before it is
      put in front, provided `s` does not start with `p`. */
  lemma ExtendPieceFree(s: string, p: string, piece: string)
    requires 0 < |p| <= |s| && s[..|p|] != p
    requires piece <= s[1..]
    requires forall i :: !OccursAt(piece, p, i)
    ensures [s[0]] + piece <= s
    ensures forall i :: !OccursAt([s[0]] + piece, p, i)
  {
    assert s == [s[0]] + s[1..];
    var t := [s[0]] + piece;
    forall i | 0 < i ensures OccursAt(t, p, i) <==> OccursAt(piece, p, i - 1) {
      if i + |p| <= |t| {
        assert t[i..i + |p|] == piece[i - 1..i - 1 + |p|];
      }
    }
  }

  /** `v.join(pieces)`. */
  function Join(pieces: seq<string>, v: string): string
    requires |pieces| > 0
    decreases |pieces|
  {
    if |pieces| == 1 then pieces[0] else pieces[0] + v + Join(pieces[1..], v)
  }

  lemma JoinConsHead(c: char, pieces: seq<string>, v: string)
    requires |pieces| > 0
    ensures Join([[c] + pieces[0]] + pieces[1..], v) == [c] + Join(pieces, v)
  {
    var ps := [[c] + pieces[0]] + pieces[1..];
    if |pieces| > 1 {
      assert ps[1..] == pieces[1..];
    }
  }

  lemma JoinConsEmpty(pieces: seq<string>, v: string)
    requires |pieces| > 0
    ensures Join([[]] + pieces, v) == v + Join(pieces, v)
  {
    assert ([[]] + pieces)[1..] == pieces;
  }

  /** `replace` is `join` after `split`, Python's own reading of it. */
  lemma {:induction false} ReplaceIsJoinSplit(s: string, p: string, v: string)
    requires |p| > 0
    ensures Replace(s, p, v) == Join(Split(s, p), v)
    decreases |s|
  {
    if |s| < |p| {
    } else if s[..|p|] == p {
      ReplaceIsJoinSplit(s[|p|..], p, v);
      JoinConsEmpty(Split(s[|p|..], p), v);
    } else {
      ReplaceIsJoinSplit(s[1..], p, v);
      JoinConsHead(s[0], Split(s[1..], p), v);
    }
  }

  /** Replacing a pattern by itself changes nothing. */
  lemma {:induction false} ReplaceBySelf(s: string, p: string)
    requires |p| > 0
    ensures Replace(s, p, p) == s
    decreases |s|
  {
    if |s| < |p| {
    } else if s[..|p|] == p {
      ReplaceBySelf(s[|p|..], p);
      assert s == s[..|p|] + s[|p|..];
    } else {
      ReplaceBySelf(s[1..], p);
      assert s == [s[0]] + s[1..];
    }
  }

  /** Joining the pieces with the pattern itself gives back the string. */
  lemma JoinSplit(s: string, p: string)
    requires |p| > 0
    ensures Join(Split(s, p), p) == s
  {
    ReplaceIsJoinSplit(s, p, p);
    ReplaceBySelf(s, p);
  }

  /** A string in which the pattern does not occur is left as it is. */
  lemma {:induction false} ReplaceAbsent(s: string, p: string, v: string)
    requires |p| > 0
    requires forall i :: !OccursAt(s, p, i)
    ensures Replace(s, p, v) == s
    decreases |s|
  {
    if |s| >= |p| {
      assert !OccursAt(s, p, 0);
      forall i ensures !OccursAt(s[1..], p, i) {
        if OccursAt(s[1..], p, i) {
          assert s[1..][i..i + |p|] == s[i + 1..i + 1 + |p|];
          assert OccursAt(s, p, i + 1);
        }
      }
      ReplaceAbsent(s[1..], p, v);
      assert s == [s[0]] + s[1..];
    }
  }

  /** A string that is exactly the pattern becomes the value. */
  lemma ReplaceWhole(p: string, v: string)
    requires |p| > 0
    ensures Replace(p, p, v) == v
  {
    assert p[..|p|] == p;
    assert p[|p|..] == [];
  }

  /** The placeholder `renderTemplate` replaces for `key`. */
  function Placeholder(key: string): string
  {
    "{ " + key + " }"
  }

  /** The template after the replacements of `pairs`, in that order (the
      iteration order of the values dictionary). */
  function RenderAll(template: string, pairs: seq<(string, string)>): string
    decreases |pairs|
  {
    if pairs == [] then template
    else RenderAll(Replace(template, Placeholder(pairs[0].0), pairs[0].1), pairs[1..])
  }

  /** `renderTemplate` (txspy/objectbrowser.py:171-186): one `replace` per
      key/value pair, each on the result of the previous one. */
  method RenderTemplate(template: string, pairs: seq<(string, string)>) returns (result: string)
    ensures result == RenderAll(template, pairs)
  {
    result := template;
    var i := 0;
    while i < |pairs|
      invariant 0 <= i <= |pairs|
      invariant RenderAll(result, pairs[i..]) == RenderAll(template, pairs)
    {
      assert pairs[i..][1..] == pairs[i + 1..];
      result := Replace(result, Placeholder(pairs[i].0), pairs[i].1);
      i := i + 1;
    }
    assert pairs[i..] == [];
  }

  /** Rendering in two batches is rendering all pairs, in order. */
  lemma {:induction false} RenderAllAppend(template: string, first: seq<(string, string)>, second: seq<(string, string)>)
    ensures RenderAll(template, first + second) == RenderAll(RenderAll(template, first), second)
    decreases |first|
  {
    if first != [] {
      assert (first + second)[0] == first[0];
      assert (first + second)[1..] == first[1..] + second;
      RenderAllAppend(Replace(template, Placeholder(first[0].0), first[0].1), first[1..], second);
    } else {
      assert first + second == second;
    }
  }

  /** A template holding none of the placeholders of the keys comes back
      unchanged. */
  lemma {:induction false} RenderAllAbsent(template: string, pairs: seq<(string, string)>)
    requires forall k, i | 0 <= k < |pairs| :: !OccursAt(template, Placeholder(pairs[k].0), i)
    ensures RenderAll(template, pairs) == template
    decreases |pairs|
  {
    if pairs != [] {
      ReplaceAbsent(template, Placeholder(pairs[0].0), pairs[0].1);
      forall k, i | 0 <= k < |pairs[1..]| ensures !OccursAt(template, Placeholder(pairs[1..][k].0), i) {
        assert pairs[1..][k] == pairs[k + 1];
      }
      RenderAllAbsent(template, pairs[1..]);
    }
  }

  /** The module prefix `hr` strips from built-in type names. */
  const BuiltinPrefix: string := "__builtin__."

  /** `hr` (txspy/objectbrowser.py:259-260): a name without the built-in
      prefix. */
  function HumanName(n: string): string
  {
    if |BuiltinPrefix| <= |n| && n[..|BuiltinPrefix|] == BuiltinPrefix then n[|BuiltinPrefix|..] else n
  }

  /** A built-in type loses exactly its prefix: `hr` inverts prefixing. */
  lemma HumanNameStripsPrefix(m: string)
    ensures HumanName(BuiltinPrefix + m) == m
  {
    assert (BuiltinPrefix + m)[..|BuiltinPrefix|] == BuiltinPrefix;
    assert (BuiltinPrefix + m)[|BuiltinPrefix|..] == m;
  }

  /** Any other name is shown as it is, and every name is either kept or
      is the prefix followed by what is shown. */
  lemma HumanNameKeepsOthers(n: string)
    ensures (|BuiltinPrefix| <= |n| && n[..|BuiltinPrefix|] == BuiltinPrefix) || HumanName(n) == n
    ensures HumanName(n) == n || n == BuiltinPrefix + HumanName(n)
  {
    if |BuiltinPrefix| <= |n| && n[..|BuiltinPrefix|] == BuiltinPrefix {
      assert n == n[..|BuiltinPrefix|] + n[|BuiltinPrefix|..];
    }
  }

  /** The largest sample. */
  function Max(s: seq<int>): (m: int)
    requires |s| > 0
    ensures m in s
    ensures forall x | x in s :: x <= m
    decreases |s|
  {
    if |s| == 1 then s[0]
    else
      var rest := Max(s[1..]);
      assert forall x | x in s :: x == s[0] || x in s[1..];
      if s[0] >= rest then s[0] else rest
  }

  /** The upper end of a chart's y-range, `((max(samples) / 10) + 1) * 10`
      (txspy/objectbrowser.py:273 and 410); `max` of an empty row raises. */
  function ChartTop(samples: seq<int>): (r: Option<int>)
    ensures r.None? <==> samples == []
    ensures r.Some? ==> r.value % 10 == 0 && Max(samples) < r.value <= Max(samples) + 10
  {
    if samples == [] then None
    else
      var m := Max(samples);
      var q := m / 10;
      assert m == 10 * q + m % 10 && 0 <= m % 10 < 10;
      assert (q + 1) * 10 == 10 * q + 10;
      Some((q + 1) * 10)
  }

  /** So the top is the least multiple of ten above every sample. */
  lemma ChartTopIsLeast(samples: seq<int>, t: int)
    requires samples != [] && t % 10 == 0
    requires forall x | x in samples :: x < t
    ensures ChartTop(samples).value <= t
  {
    var m := Max(samples);
    assert m < t;
  }

  /** After a tick every row of the history has a chart: its rows are never
      empty, and the top lies strictly above every sample. */
  lemma EveryRowHasAChart(st: Store, census: seq<string>, now: Timestamp, maxSize: int, name: string)
    requires 0 < maxSize && Aligned(st, maxSize)
    requires name in Tick(st, census, now, maxSize).history
    ensures ChartTop(Tick(st, census, now, maxSize).history[name]).Some?
    ensures forall x | x in Tick(st, census, now, maxSize).history[name] ::
              x < ChartTop(Tick(st, census, now, maxSize).history[name]).value
  {
    TickPreservesInvariant(st, census, now, maxSize);
    AppendLast(maxSize, st.timestamps, now);
  }
}
