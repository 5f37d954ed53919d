# txSpy object browser: the sampling engine in Dafny

txSpy is a Twisted service that shows how many objects of each type are
alive in a running Python process. At an interval it takes a census of the
heap: the type name of every live object. It counts each name and keeps
the counts of the most recent ticks in one ring buffer per type, next to a
shared ring buffer of tick timestamps. A web page then charts every row.

This project models that engine from `txspy/objectbrowser.py` and proves
what it promises:

- `RingBuffers`: the `RingBuffer` class. `RingAppend` states its `append`:
  push, then pop exactly one element once the capacity is exceeded. `extend`
  is the deque's own and enforces no bound. The lemmas prove the window
  property and what an over-full buffer does.
- `Census`: how a census becomes counts. Python's `str` order is total.
  `sorted` is an ordered permutation. `itertools.groupby` yields maximal
  runs that partition its input. On sorted input the group keys are
  distinct and are exactly the names present, and each group's size is the
  multiplicity of its name. `count` is a loop.
- `Sampler`: one tick as a function on values (`Tick`). Lemmas prove that
  it keeps the alignment check the source asserts at its end. They prove
  what it does to new, returning, absent and quiet names. They prove that a
  name absent from `maxSize` consecutive censuses is dropped.
- `UpdateLoops`: the two loops of `updateStats`, written as the folds they
  are, loop over the groups and then loop over `history.items()`. A lemma
  proves that together they compute exactly the rows `Sampler.Tick` prunes.
- `ObjectBrowsers`: the `ObjectBrowser` service as a class.
  - `history` is `None` or a dictionary of `RingBuffer` objects that are
    updated in place, and `timestamps` is `null` or the shared
    `RingBuffer`.
  - `startService` and `stopService` install and discard both fields.
  - `UpdateStats` runs the source's loops over those objects. It is proved
    to leave exactly `Sampler.Tick` of the previous state and to keep the
    service invariant.
- `Render`: `renderTemplate` as a loop of `str.replace` calls, with
  `replace` proved equal to Python's `join` after `split`. Also `hr`, and
  the upper end of a chart's y-range, proved to be the least multiple of
  ten above every sample.

Inputs the program reads from its environment are parameters: the census
stands for `gc.get_objects()` mapped through `getTypeName`, and `now` stands
for `time.time()`.

## Model

| member | source | states |
|---|---|---|
| Sampler.Tick | txspy/objectbrowser.py:322-374 | definition of one tick on values: every name tracked or present gets its `NextSamples` row, the rows that are then all zeros are dropped (`Prune`), and the timestamp row gets `now` by `RingAppend` |
| Sampler.NextSamples | txspy/objectbrowser.py:339-359 | definition of one name's row after the appends: a census name gets its multiplicity appended to its own row, or to zeros as long as the pre-tick timestamp row when new; a tracked absent name gets a 0 |
| Sampler.NextRows | txspy/objectbrowser.py:339-359 | definition: the map from every tracked or present name to its `NextSamples` row |
| Sampler.Prune | txspy/objectbrowser.py:361-363 | definition: the sub-map of the rows that hold a non-zero sample |
| Sampler.AllZero | txspy/objectbrowser.py:362 | definition of `all(s == 0 for s in samples)`: every sample is 0 (true of the empty row) |
| Sampler.Names | txspy/objectbrowser.py:353 | definition of `set(sortedObjectTypes)`: the names occurring in the census |
| RingBuffers.RingAppend | txspy/objectbrowser.py:445-448 | definition of `append`: push `x` on the right, then pop one element from the left when the length exceeds `maxSize` |
| RingBuffers.Window | txspy/objectbrowser.py:436-448 | definition, independent of `RingAppend`, of the documented behaviour: the last `maxSize` elements |
| RingBuffers.AppendAll | txspy/objectbrowser.py:436-448 | definition: `RingAppend` of each element in turn |
| Census.LexLe | txspy/objectbrowser.py:333 | definition of Python 2 `str` order: by character code from the left, a proper prefix before the longer string |
| UpdateLoops.MergeOne | txspy/objectbrowser.py:340-350 | definition of one pass of the loop over groups: the group's count appended to its name's row, or to `numSamples` zeros when the name is new |
| UpdateLoops.MergeAll | txspy/objectbrowser.py:339-350 | definition: `MergeOne` for each group in turn |
| UpdateLoops.ZeroFill | txspy/objectbrowser.py:353-359 | definition of the appends of the loop over `history.items()`: every tracked name outside the census gets a 0 |
| UpdateLoops.PartialZeroFill | txspy/objectbrowser.py:355-359 | definition of that loop part way: names not yet visited keep their row |
| UpdateLoops.KeptKeys | txspy/objectbrowser.py:361-363 | definition of the names the pruning keeps part way: the unvisited ones, and those with a non-zero sample |
| Render.Replace | txspy/objectbrowser.py:184 | definition of `s.replace(p, v)` for a nonempty `p`: scanning from the left, each occurrence becomes `v` and scanning resumes after it |
| Render.Split | txspy/objectbrowser.py:184 | `s.split(p)`: at least one piece, the first a prefix of `s`, and no piece holding `p` |
| Render.Join | txspy/objectbrowser.py:184 | definition of `v.join(pieces)`: the pieces with `v` between consecutive ones |
| Render.Placeholder | txspy/objectbrowser.py:184 | definition of `'{ %s }' % key` |
| Render.RenderAll | txspy/objectbrowser.py:183-185 | definition: the template after one `Replace` of `Placeholder(key)` by the value per pair, in order |
| Render.HumanName | txspy/objectbrowser.py:259-260 | definition of `hr`: a name starting with `__builtin__.` loses that prefix, any other stays as it is |
| RingBuffers.AppendWindow | txspy/objectbrowser.py:436-448 | on a buffer within its capacity, `append(x)` keeps the last min(len + 1, maxSize) elements of old + [x]: it drops nothing below capacity and exactly the oldest element when full; the newest element is `x` |
| RingBuffers.AppendLast | txspy/objectbrowser.py:436-448 | after `append(x)` the buffer is nonempty and its newest element is `x`, whatever its length before |
| RingBuffers.AppendOverfull | txspy/objectbrowser.py:436-448 | a buffer that `extend` pushed past its capacity stays exactly as long after `append`, since one element is popped per push |
| RingBuffers.AppendAllWindow | txspy/objectbrowser.py:436-448 | any run of appends from a bounded buffer leaves exactly the newest `maxSize` of all elements seen, in order, and stays within the capacity |
| RingBuffers.AppendFiveToCapacityThree | txspy/objectbrowser.py:436-448 | a buffer of capacity 3 fed 1, 2, 3, 4, 5 holds 3, 4, 5 |
| RingBuffers.RingBuffer.constructor | txspy/objectbrowser.py:426-434 | the capacity must be positive (the constructor's assert); the buffer starts empty with that capacity |
| RingBuffers.RingBuffer.Length | txspy/objectbrowser.py:455-457 | `__len__` is the number of elements held |
| RingBuffers.RingBuffer.Append | txspy/objectbrowser.py:436-448 | the new contents are `RingAppend` of the old ones: push on the right, pop one from the left when over capacity |
| RingBuffers.RingBuffer.Extend | txspy/objectbrowser.py:450-452 | the new contents are old + xs: no eviction, no bound |
| RingBuffers.RingBuffer.Get | txspy/objectbrowser.py:470-472 | `__getitem__` under Python's index rules: keys 0..len-1 from the oldest end, -len..-1 from the newest, anything else an IndexError (`None`) |
| Census.LexLeTotal | txspy/objectbrowser.py:333 | any two names are ordered one way or the other under Python's `str` order |
| Census.LexLeAntisymmetric | txspy/objectbrowser.py:333 | names ordered both ways are equal |
| Census.LexLeTransitive | txspy/objectbrowser.py:333 | the `str` order is transitive |
| Census.Insert | txspy/objectbrowser.py:333 | one insertion step adds exactly one occurrence of the name |
| Census.InsertSorted | txspy/objectbrowser.py:333 | inserting into a sorted sequence keeps it sorted |
| Census.SortNames | txspy/objectbrowser.py:333 | `sorted` returns a permutation of the census that is in `str` order |
| Census.RunLength | txspy/objectbrowser.py:336 | the run at the front is within the input, consists of the name, and is maximal |
| Census.GroupBy | txspy/objectbrowser.py:336 | every group of `groupby` is nonempty and holds only its key |
| Census.GroupByTail | txspy/objectbrowser.py:336 | unfolding helper of `GroupBy`: the first group is the first maximal run, and the others are the groups of the rest |
| Census.GroupByKeys | txspy/objectbrowser.py:336 | a name is a group key exactly when it occurs in the input |
| Census.GroupByPartitions | txspy/objectbrowser.py:336 | the groups, concatenated, are the input: nothing is lost, added or reordered |
| Census.GroupByDistinct | txspy/objectbrowser.py:333-339 | on sorted input no two groups share a key, so the loop sees each name once |
| Census.GroupByCounts | txspy/objectbrowser.py:339-350 | on sorted input each group's size is the number of occurrences of its key |
| Census.Count | txspy/objectbrowser.py:151-168 | `count` returns the number of items it consumes |
| Sampler.Zeros | txspy/objectbrowser.py:346 | `itertools.repeat(0, n)` has length n and holds zeros only |
| Sampler.NextRowsAt | txspy/objectbrowser.py:339-359 | unfolding helper of `NextRows` and `NextSamples`, name by name: before pruning, the names are the tracked names plus the census names; a census name gets its multiplicity appended to its own row or, when new, to zeros as long as the pre-tick timestamp row; any other name gets a 0 |
| Sampler.TickPreservesInvariant | txspy/objectbrowser.py:366-371 | a tick from an aligned state leaves every row as long as the timestamp row, which gains exactly one entry up to the capacity: the source's closing assert holds, and no all-zero row remains |
| Sampler.TickRecordsCounts | txspy/objectbrowser.py:339-350 | a name in the census is tracked after the tick, and its newest sample is its multiplicity, at least 1 |
| Sampler.TickZeroFillsNewNames | txspy/objectbrowser.py:342-350 | a name seen for the first time gets the last maxSize of [0] * len(timestamps before) + [count], already aligned with the new timestamp row |
| Sampler.TickAppendsToTrackedNames | txspy/objectbrowser.py:339-350 | a tracked name present again gets its count appended to its own row |
| Sampler.TickAbsenceIsZero | txspy/objectbrowser.py:355-359 | a tracked name absent from the census gets exactly one 0 and stays tracked if and only if its new row still holds a non-zero sample |
| Sampler.TickPrunesQuietNames | txspy/objectbrowser.py:355-363 | after a tick a name is tracked if and only if it was tracked or present and its new row is not all zeros; a present name is never pruned |
| Sampler.RunPreservesInvariant | txspy/objectbrowser.py:322-374 | any sequence of ticks keeps the alignment check, and after at least one tick no row is all zeros |
| Sampler.AbsentRowsAge | txspy/objectbrowser.py:355-363 | while a name stays absent, each tick adds one more trailing zero to its row |
| Sampler.AbsentNameIsPruned | txspy/objectbrowser.py:355-363 | a name absent from maxSize consecutive censuses is no longer tracked |
| UpdateLoops.MergeAllAt | txspy/objectbrowser.py:339-350 | after the loop over groups with distinct keys, each group's name holds its count appended to its old row, or to `numSamples` zeros when new; every other name keeps its row, and no other name is added |
| UpdateLoops.SortedNames | txspy/objectbrowser.py:353 | `set(sortedObjectTypes)` is the set of names of the census |
| UpdateLoops.GroupKeysAreNames | txspy/objectbrowser.py:336-339 | the names the loop over groups visits are exactly the names of its input |
| UpdateLoops.GroupsOfCensus | txspy/objectbrowser.py:331-350 | the groups of the sorted census have distinct keys, are the census names, and hold each name as often as it occurs |
| UpdateLoops.LoopsComputeNextRows | txspy/objectbrowser.py:339-359 | the loop over groups followed by the zero-filling of `history.items()` computes exactly the per-name next rows of `Sampler.Tick` |
| UpdateLoops.PartialZeroFillStep | txspy/objectbrowser.py:355-359 | step helper of the loop invariant of `AppendZerosAndPrune`: visiting one name of the loop over `history.items()` settles exactly that name's row |
| UpdateLoops.PartialZeroFillEnds | txspy/objectbrowser.py:355-359 | step helper, entry and exit of that invariant: before that loop no row has changed, and after it every absent name has its 0 |
| UpdateLoops.KeptKeysStep | txspy/objectbrowser.py:361-363 | step helper of that invariant: visiting a name removes it from the dictionary exactly when its row is then all zeros, and no other name is added or removed |
| ObjectBrowsers.AppendSample | txspy/objectbrowser.py:350 | appending to the buffer of one name changes that name's row only, since no two names share a buffer |
| ObjectBrowsers.ContentsAfterInsert | txspy/objectbrowser.py:348 | step helper of `AddBuffer`: registering a buffer under a name adds that name's row and changes no other |
| ObjectBrowsers.PrunedContents | txspy/objectbrowser.py:362-363 | the sub-dictionary that keeps the names with a non-zero sample holds the pruned rows |
| ObjectBrowsers.ZeroFillName | txspy/objectbrowser.py:358-359 | a visited name absent from the census gets its 0, and a present one is left as it is |
| ObjectBrowsers.ObjectBrowser.constructor | txspy/objectbrowser.py:196-221 | a new service keeps its interval and capacity and is stopped: both fields are `None` |
| ObjectBrowsers.ObjectBrowser.StartService | txspy/objectbrowser.py:224-233 | starting installs an empty dictionary and an empty timestamp buffer of the service's capacity, so a restart keeps no earlier samples; the invariant holds |
| ObjectBrowsers.ObjectBrowser.StopService | txspy/objectbrowser.py:235-244 | stopping resets both fields to `None` |
| ObjectBrowsers.ObjectBrowser.UpdateStats | txspy/objectbrowser.py:322-374 | while running, the new history and timestamps are exactly `Sampler.Tick` of the old ones, the closing length assert holds, and the invariant is kept; while stopped the first access to `_history` raises before anything changes |
| ObjectBrowsers.ObjectBrowser.MergeGroups | txspy/objectbrowser.py:339-350 | the loop over groups leaves in the buffers exactly the rows `MergeAll` computes from the rows it started from, with the pre-tick timestamp length as zero baseline; the timestamp buffer is untouched |
| ObjectBrowsers.ObjectBrowser.MergeGroup | txspy/objectbrowser.py:340-350 | one group: the rows become `MergeOne` of the old rows, and only fresh buffers join the service |
| ObjectBrowsers.ObjectBrowser.AddBuffer | txspy/objectbrowser.py:342-348 | a new name gets a fresh buffer of the service's capacity holding `numSamples` zeros, registered in `_history`; the other rows are unchanged |
| ObjectBrowsers.ObjectBrowser.AppendZerosAndPrune | txspy/objectbrowser.py:353-363 | the loop over `history.items()` leaves exactly the pruned, zero-filled rows, whatever order it visits the names in |
| ObjectBrowsers.ObjectBrowser.VisitName | txspy/objectbrowser.py:355-363 | one name of that loop: its 0 when absent, then its removal exactly when its row is all zeros |
| ObjectBrowsers.ObjectBrowser.OwnsSubmap | txspy/objectbrowser.py:362-363 | removing names from the dictionary keeps its buffers distinct and distinct from the timestamp buffer |
| Render.ReplaceIsJoinSplit | txspy/objectbrowser.py:184 | `s.replace(p, v)` equals `v.join(s.split(p))` |
| Render.ReplaceBySelf | txspy/objectbrowser.py:184 | replacing a pattern by itself changes nothing |
| Render.JoinSplit | txspy/objectbrowser.py:184 | joining the pieces of `s.split(p)` with `p` gives back `s` |
| Render.ReplaceAbsent | txspy/objectbrowser.py:184 | a string in which the pattern does not occur is unchanged |
| Render.ReplaceWhole | txspy/objectbrowser.py:184 | a string that is exactly the pattern becomes the value |
| Render.RenderTemplate | txspy/objectbrowser.py:171-186 | the loop applies to the template one `replace` of `{ key }` by its value per pair, each on the result of the previous one |
| Render.RenderAllAppend | txspy/objectbrowser.py:183-184 | rendering in two batches is rendering all the pairs in order |
| Render.RenderAllAbsent | txspy/objectbrowser.py:171-186 | a template holding none of the placeholders comes back unchanged |
| Render.HumanNameStripsPrefix | txspy/objectbrowser.py:259-260 | `hr` of `__builtin__.` + m is m |
| Render.HumanNameKeepsOthers | txspy/objectbrowser.py:259-260 | a name without the prefix is shown as it is; any name is either kept or is the prefix followed by what is shown |
| Render.Max | txspy/objectbrowser.py:273 | `max(samples)` is a sample and no sample exceeds it |
| Render.ChartTop | txspy/objectbrowser.py:410 | `((max(samples) / 10) + 1) * 10` with floor division is a multiple of 10, strictly above the maximum and at most 10 above it; an empty row raises (`None`) |
| Render.ChartTopIsLeast | txspy/objectbrowser.py:273 | no multiple of 10 above every sample is below that top |
| Render.EveryRowHasAChart | txspy/objectbrowser.py:272-273 | after a tick every tracked row is nonempty, so its chart range exists and lies above all its samples |

## Left out

- `gc.collect`, `gc.get_objects` and `getTypeName` (txspy/objectbrowser.py:132-147, 324-331) inspect the running heap. The census is a parameter.
- `time.time()` is a clock. Its reading `now` is a parameter that is only stored.
- The Twisted plumbing is I/O and scheduling, not sampling logic:
  - `LoopingCall` scheduling;
  - exception swallowing in `safeCall`;
  - logging through `LoggedServiceMixin` and `_log`;
  - `service.Service`.
  `UpdateStats` therefore returns `ok = false` where the source raises and `safeCall` logs the error.
- The `loop.start` and `loop.stop` calls in `startService` and `stopService` are left out, and so are their errors on a double start or stop. The interval `sampleInterval` is stored but only the scheduler uses it.
- The HTTP layer is not modelled. That covers `getChild`, HTML generation in `render_GET`, `GraphResource`, the `InlineResource` subclasses and the `pygooglechart` chart URLs. Only the pure helpers inside them are modelled: `hr`, the y-range bound and `renderTemplate`.
- The static CSS, JavaScript and image assets, and the twistd demo block, are data, randomness and network set-up.
- `RingBuffer.__iter__` and `__str__` (txspy/objectbrowser.py:460-468) delegate to the deque's iterator and string form. Iteration over a buffer is its `contents`; the string form is not modelled.
- Concurrency is out: the source relies on Twisted's single-threaded reactor, so each call is atomic.
- ObjectBrowsers.ObjectBrowser.StartService: requires a positive capacity, because the `RingBuffer` constructor asserts one. With a capacity of 0 or less the source raises after it has installed the new dictionary. That half-started state is not modelled.
- Render.RenderTemplate: takes the key/value pairs as a sequence in the dictionary's iteration order, since Python 2 does not fix that order. It requires no distinct keys.
- Render.ChartTop: samples are counts, so Python 2's floor division is Dafny's division here. Dafny's division is also floor division for any dividend when the divisor is 10.
- Python `str` is modelled as a sequence of characters compared by code, with no encoding.
