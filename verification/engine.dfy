/**
 The storage engine of `src/engine.rs`: a sequence of (log, index) segments, oldest first.

 `Set` first rotates (a fresh segment once the active log has reached `LOG_SIZE_LIMIT` bytes),
 then compacts the two oldest segments into one whenever there are more than two, and finally
 appends the pair to the active (last) log and records its location in the active index. `Get`
 is the newest-wins lookup of `Lookup`. `Del` appends an empty value and stores a tombstone,
 but only when the key currently has a value.

 Segment files are values here; a segment's file name is its number `name`, standing for
 `<name>.log` in the engine's directory. Opening takes the segments in the order the directory
 scan leaves them; how that order is produced is the subject of `SegmentNames`.
 */
module StorageEngine {
  import opened Wrappers
  import opened LogFile
  import opened KeyIndex
  import Lookup
  import Merger

  /** `LOG_SIZE_LIMIT`: the active log is rotated once it holds at least this many bytes. */
  const LOG_SIZE_LIMIT: nat := 36

  /** A segment file: its number and its bytes. */
  datatype Log = Log(name: nat, data: Bytes)

  /** `Engine`: one index per log, oldest first. */
  datatype Engine = Engine(maps: seq<Map>, logs: seq<Log>)

  /** The engine's segments as `Lookup` sees them. */
  function Segments(e: Engine): (r: seq<Lookup.Segment>)
    requires |e.logs| == |e.maps|
    ensures |r| == |e.logs|
    ensures forall i :: 0 <= i < |r| ==> r[i] == Lookup.Segment(e.logs[i].data, e.maps[i])
  {
    seq(|e.logs|, i requires 0 <= i < |e.logs| => Lookup.Segment(e.logs[i].data, e.maps[i]))
  }

  /** `Engine::get`: the newest segment whose index knows the key answers. A key no index knows
      is absent, a value found is never empty, and the only failure is the read the source
      unwraps. */
  function Get(e: Engine, key: Key): (r: Result<Option<Bytes>, IoError>)
    requires |e.logs| == |e.maps|
    ensures (forall i :: 0 <= i < |e.maps| ==> key !in e.maps[i]) ==> r == Ok(None)
    ensures r.Ok? && r.value.Some? ==> |r.value.value| > 0
    ensures r.Err? ==> r.error == UnexpectedEof
  {
    Lookup.Get(Segments(e), key)
  }

  // ---------------------------------------------------------------------------
  // The engine invariant

  /** Segment numbers strictly increase from the oldest to the newest segment. */
  predicate NamesIncreasing(logs: seq<Log>) {
    forall i, j :: 0 <= i < j < |logs| ==> logs[i].name < logs[j].name
  }

  /** An in-memory index agrees with what rebuilding its file would give. */
  ghost predicate Consistent(data: Bytes, m: Map) {
    LoadFromLog(data).Ok? && Equivalent(m, LoadFromLog(data).value)
  }

  /** What every engine operation keeps: one index per log, at least one segment, increasing
      segment numbers, and every index in step with its file. */
  ghost predicate Valid(e: Engine) {
    && |e.logs| == |e.maps| >= 1
    && NamesIncreasing(e.logs)
    && forall i :: 0 <= i < |e.logs| ==> Consistent(e.logs[i].data, e.maps[i])
  }

  /** An index in step with its file points only inside it, and stores lengths a prefix can carry. */
  lemma ConsistentWellFormed(data: Bytes, m: Map)
    requires Consistent(data, m)
    ensures Lookup.InBounds(Lookup.Segment(data, m))
    ensures forall k :: k in m && !IsTombstone(m[k]) ==> Fits64(m[k].len)
  {
    LoadWellFormed(data);
    var rebuilt := LoadFromLog(data).value;
    forall k | k in m && !IsTombstone(m[k])
      ensures m[k].offset + m[k].len <= |data| && Fits64(m[k].len)
    {
      assert k in rebuilt;
    }
  }

  /** In a valid engine no lookup fails. */
  lemma ValidGetOk(e: Engine, key: Key)
    requires Valid(e)
    ensures Get(e, key).Ok?
  {
    var segs := Segments(e);
    forall i | 0 <= i < |segs|
      ensures Lookup.InBounds(segs[i])
    {
      ConsistentWellFormed(e.logs[i].data, e.maps[i]);
    }
    Lookup.AddressableGetOk(segs, key);
  }

  // ---------------------------------------------------------------------------
  // Rotation

  /** `Engine::new_log_mono_increase`: an empty log numbered one past the newest, or 0. */
  function NewLogMonoIncrease(latest: Option<Log>): (r: Log)
    ensures r.data == []
    ensures latest.Some? ==> r.name > latest.value.name
    ensures latest.None? ==> r.name == 0
  {
    match latest
    case None => Log(0, [])
    case Some(l) => Log(l.name + 1, [])
  }

  /** The newest log, if any. */
  function LastLog(logs: seq<Log>): Option<Log> {
    if |logs| == 0 then None else Some(logs[|logs| - 1])
  }

  /** `Engine::grow`: one more segment, an empty log after the newest and an empty index; the
      existing segments are untouched. */
  function Grow(e: Engine): (r: Engine)
    ensures |r.logs| == |e.logs| + 1 && |r.maps| == |e.maps| + 1
    ensures r.logs[..|e.logs|] == e.logs && r.maps[..|e.maps|] == e.maps
    ensures r.logs[|e.logs|] == NewLogMonoIncrease(LastLog(e.logs)) && r.maps[|e.maps|] == map[]
  {
    var r := Engine(e.maps + [KeyIndex.New()], e.logs + [NewLogMonoIncrease(LastLog(e.logs))]);
    assert r.logs[..|e.logs|] == e.logs && r.maps[..|e.maps|] == e.maps;
    r
  }

  /** The active log is full. */
  predicate Full(e: Engine)
    requires |e.logs| >= 1
  {
    Size(e.logs[|e.logs| - 1].data) >= LOG_SIZE_LIMIT
  }

  /** The rotation step of `Engine::set`: one fresh, empty segment exactly when the active log
      holds at least `LOG_SIZE_LIMIT` bytes; the existing segments are untouched. */
  function Rotate(e: Engine): (r: Engine)
    requires |e.logs| >= 1
    ensures |r.logs| == |e.logs| + (if |e.logs[|e.logs| - 1].data| >= LOG_SIZE_LIMIT then 1 else 0)
    ensures |r.maps| - |r.logs| == |e.maps| - |e.logs|
    ensures r.logs[..|e.logs|] == e.logs && r.maps[..|e.maps|] == e.maps
    ensures |r.logs| > |e.logs| ==> r.logs[|e.logs|].data == [] && r.maps[|e.maps|] == map[]
  {
    if Full(e) then Grow(e) else e
  }

  /** The new segment's number is above every existing one. */
  lemma GrowNamesIncreasing(e: Engine)
    requires |e.logs| >= 1 && NamesIncreasing(e.logs)
    ensures NamesIncreasing(Grow(e).logs)
  {
    var g := Grow(e);
    var n := |e.logs|;
    forall i, j | 0 <= i < j < |g.logs|
      ensures g.logs[i].name < g.logs[j].name
    {
      assert g.logs[i] == e.logs[i];
      if j < n {
        assert g.logs[j] == e.logs[j];
      } else if i < n - 1 {
        assert e.logs[i].name < e.logs[n - 1].name;
      }
    }
  }

  /** The new, empty index is in step with the new, empty log; the old pairs are unchanged. */
  lemma GrowConsistent(e: Engine)
    requires Valid(e)
    ensures forall i :: 0 <= i < |Grow(e).logs| ==> Consistent(Grow(e).logs[i].data, Grow(e).maps[i])
  {
    var g := Grow(e);
    var n := |e.logs|;
    LoadEmpty();
    assert Consistent(g.logs[n].data, g.maps[n]);
    forall i | 0 <= i < n
      ensures Consistent(g.logs[i].data, g.maps[i])
    {
      assert g.logs[i] == e.logs[i] && g.maps[i] == e.maps[i];
    }
  }

  /** Growing keeps the engine valid and numbers the new segment one past the newest. */
  lemma GrowPreservesValid(e: Engine)
    requires Valid(e)
    ensures Valid(Grow(e))
    ensures Grow(e).logs[|e.logs|].name == e.logs[|e.logs| - 1].name + 1
  {
    var g := Grow(e);
    assert LastLog(e.logs) == Some(e.logs[|e.logs| - 1]);
    GrowNamesIncreasing(e);
    GrowConsistent(e);
    assert |g.logs| == |g.maps| >= 1;
  }

  /** Growing changes no lookup: the new index is empty. */
  lemma GrowPreservesGet(e: Engine)
    requires |e.logs| == |e.maps|
    ensures forall k :: Get(Grow(e), k) == Get(e, k)
  {
    var g := Grow(e);
    var newer := [Lookup.Segment([], map[])];
    assert Segments(g) == Segments(e) + newer;
    forall k
      ensures Get(g, k) == Get(e, k)
    {
      Lookup.GetSplit(Segments(e), newer, k);
    }
  }

  // ---------------------------------------------------------------------------
  // Compaction of the two oldest segments

  /** An iteration order for every index: one of the orders a `HashMap` may produce. */
  ghost predicate IterationOrder(order: Map -> seq<Key>) {
    forall m :: Merger.Enumerates(order(m), m)
  }

  /** The two oldest segments as `LogMerger::new` sees them: each index rebuilt from its file. */
  function RebuiltPair(e: Engine): (r: seq<Lookup.Segment>)
    requires |e.logs| >= 2
    requires LoadFromLog(e.logs[0].data).Ok? && LoadFromLog(e.logs[1].data).Ok?
  {
    [Lookup.Segment(e.logs[0].data, LoadFromLog(e.logs[0].data).value),
     Lookup.Segment(e.logs[1].data, LoadFromLog(e.logs[1].data).value)]
  }

  /** `LogMerger::new` on the two oldest logs rebuilds both, as the engine's pair, and any
      iteration order enumerates them. */
  lemma MergeInputs(e: Engine, order: Map -> seq<Key>)
    requires |e.logs| >= 2
    requires LoadFromLog(e.logs[0].data).Ok? && LoadFromLog(e.logs[1].data).Ok?
    requires IterationOrder(order)
    ensures var datas := [e.logs[0].data, e.logs[1].data];
      && Merger.New(datas).Ok?
      && Merger.Sources(Merger.New(datas).value) == RebuiltPair(e)
      && var m := Merger.New(datas).value;
         forall j :: 0 <= j < 2 ==> Merger.Enumerates([order(m.maps[0]), order(m.maps[1])][j], m.maps[j])
  {
    var datas := [e.logs[0].data, e.logs[1].data];
    var m := Merger.New(datas).value;
    assert Merger.Enumerates(order(m.maps[0]), m.maps[0]);
    assert Merger.Enumerates(order(m.maps[1]), m.maps[1]);
  }

  /** `LogMerger::new` and `LogMerger::merge` on the two oldest logs: a merged log that rebuilds to
      the merged index and answers every lookup as the two rebuilt segments do. */
  function MergedPair(e: Engine, order: Map -> seq<Key>): (r: Lookup.Segment)
    requires |e.logs| >= 2
    requires LoadFromLog(e.logs[0].data).Ok? && LoadFromLog(e.logs[1].data).Ok?
    requires IterationOrder(order)
    ensures LoadFromLog(r.log) == Ok(r.index)
    ensures forall k :: Lookup.Get([r], k) == Lookup.Get(RebuiltPair(e), k)
  {
    var datas := [e.logs[0].data, e.logs[1].data];
    MergeInputs(e, order);
    var m := Merger.New(datas).value;
    var orders := [order(m.maps[0]), order(m.maps[1])];
    Merger.MergeIsEquivalent(datas, orders);
    var merged := Merger.Merge(m, orders).value;
    Lookup.Segment(merged.mergedLog, merged.mergedMap)
  }

  /** The merge step of `Engine::set`: the merged log takes the oldest log's number and the merged
      index replaces both indexes. The source unwraps a failed rebuild, hence the requirement
      that both files parse. */
  function MergeOldest(e: Engine, order: Map -> seq<Key>): (r: Engine)
    requires |e.logs| == |e.maps| > 2
    requires LoadFromLog(e.logs[0].data).Ok? && LoadFromLog(e.logs[1].data).Ok?
    requires IterationOrder(order)
    ensures |r.logs| == |r.maps| == |e.logs| - 1
    ensures r.logs[0].name == e.logs[0].name
    ensures r.logs[1..] == e.logs[2..] && r.maps[1..] == e.maps[2..]
    ensures LoadFromLog(r.logs[0].data) == Ok(r.maps[0])
  {
    var p := MergedPair(e, order);
    var r := Engine([p.index] + e.maps[2..], [Log(e.logs[0].name, p.log)] + e.logs[2..]);
    assert r.logs[1..] == e.logs[2..] && r.maps[1..] == e.maps[2..];
    r
  }

  /** Compaction keeps the engine valid: the merged log rebuilds to the merged index and keeps
      the oldest number. */
  lemma MergeOldestPreservesValid(e: Engine, order: Map -> seq<Key>)
    requires Valid(e) && |e.logs| > 2 && IterationOrder(order)
    ensures Valid(MergeOldest(e, order))
  {
    var r := MergeOldest(e, order);
    EquivalentRefl(r.maps[0]);
    MergeFrontNames(e.logs, r.logs);
    MergeFrontConsistent(e.logs, e.maps, r.logs, r.maps);
  }

  /** Putting one log numbered as the oldest in place of the two oldest keeps the numbers
      increasing. */
  lemma MergeFrontNames(logs: seq<Log>, r: seq<Log>)
    requires NamesIncreasing(logs) && |logs| > 2 && |r| == |logs| - 1
    requires r[0].name == logs[0].name && r[1..] == logs[2..]
    ensures NamesIncreasing(r)
  {
    forall i, j | 0 <= i < j < |r|
      ensures r[i].name < r[j].name
    {
      assert r[j] == r[1..][j - 1] == logs[j + 1];
      if i > 0 {
        assert r[i] == r[1..][i - 1] == logs[i + 1];
      }
    }
  }

  /** Putting one pair in step in place of the two oldest keeps every pair in step. */
  lemma MergeFrontConsistent(logs: seq<Log>, maps: seq<Map>, rlogs: seq<Log>, rmaps: seq<Map>)
    requires |logs| == |maps| > 2 && |rlogs| == |rmaps| == |logs| - 1
    requires forall i :: 0 <= i < |logs| ==> Consistent(logs[i].data, maps[i])
    requires rlogs[1..] == logs[2..] && rmaps[1..] == maps[2..]
    requires Consistent(rlogs[0].data, rmaps[0])
    ensures forall i :: 0 <= i < |rlogs| ==> Consistent(rlogs[i].data, rmaps[i])
  {
    forall i | 0 <= i < |rlogs|
      ensures Consistent(rlogs[i].data, rmaps[i])
    {
      if i > 0 {
        var d, m := logs[i + 1].data, maps[i + 1];
        assert Consistent(d, m);
        assert rlogs[i] == rlogs[1..][i - 1] && rmaps[i] == rmaps[1..][i - 1];
      }
    }
  }

  /** After compaction the segments are the merged pair followed by the untouched newer ones. */
  lemma MergeOldestSegments(e: Engine, order: Map -> seq<Key>)
    requires |e.logs| == |e.maps| > 2
    requires LoadFromLog(e.logs[0].data).Ok? && LoadFromLog(e.logs[1].data).Ok?
    requires IterationOrder(order)
    ensures Segments(MergeOldest(e, order)) == [MergedPair(e, order)] + Segments(e)[2..]
  {
    var r := MergeOldest(e, order);
    assert Segments(r)[0] == MergedPair(e, order);
    SegmentsAfterFront(e, r);
  }

  /** An engine whose logs and indexes past the first are those of `e` past its second has, past
      its first segment, the segments of `e` past the second. */
  lemma SegmentsAfterFront(e: Engine, r: Engine)
    requires |e.logs| == |e.maps| > 2 && |r.logs| == |r.maps| == |e.logs| - 1
    requires r.logs[1..] == e.logs[2..] && r.maps[1..] == e.maps[2..]
    ensures Segments(r) == [Segments(r)[0]] + Segments(e)[2..]
  {
    var rest := Segments(e)[2..];
    forall i | 1 <= i < |r.logs|
      ensures Segments(r)[i] == rest[i - 1]
    {
      assert r.logs[i] == r.logs[1..][i - 1] == e.logs[i + 1];
      assert r.maps[i] == r.maps[1..][i - 1] == e.maps[i + 1];
    }
  }

  /** Compaction changes no lookup, although it drops tombstones and overwritten values. */
  lemma MergeOldestPreservesGet(e: Engine, order: Map -> seq<Key>)
    requires Valid(e) && |e.logs| > 2 && IterationOrder(order)
    ensures forall k :: Get(MergeOldest(e, order), k) == Get(e, k)
  {
    var segs := Segments(e);
    assert Consistent(e.logs[0].data, e.maps[0]) && Consistent(e.logs[1].data, e.maps[1]);
    MergeOldestSegments(e, order);
    var p := MergedPair(e, order);
    forall k
      ensures Get(MergeOldest(e, order), k) == Get(e, k)
    {
      OldestPairReplaced(segs, RebuiltPair(e), p, k);
    }
  }

  /** Replacing the two oldest segments by one that answers `key` as the pair's rebuilt
      equivalents do changes no lookup of `key`. */
  lemma OldestPairReplaced(segs: seq<Lookup.Segment>, rebuilt: seq<Lookup.Segment>, p: Lookup.Segment, key: Key)
    requires |segs| > 2 && |rebuilt| == 2
    requires forall i :: 0 <= i < 2 ==> segs[i].log == rebuilt[i].log && Equivalent(segs[i].index, rebuilt[i].index)
    requires Lookup.Get([p], key) == Lookup.Get(rebuilt, key)
    ensures Lookup.Get([p] + segs[2..], key) == Lookup.Get(segs, key)
  {
    var pair := segs[..2];
    assert segs == pair + segs[2..];
    Lookup.GetEquivalent(pair, rebuilt, key);
    Lookup.GetOlderAgrees(pair, [p], segs[2..], key);
  }

  // ---------------------------------------------------------------------------
  // Appending to the active segment

  /** One record appended to the newest log, with `l` recorded for the key in the newest index. */
  function AppendActive(e: Engine, key: Key, value: Bytes, l: Location): (r: Engine)
    requires |e.logs| == |e.maps| >= 1
    ensures |r.logs| == |r.maps| == |e.logs|
    ensures r.logs[..|e.logs| - 1] == e.logs[..|e.logs| - 1] && r.maps[..|e.maps| - 1] == e.maps[..|e.maps| - 1]
    ensures r.logs[|e.logs| - 1].name == e.logs[|e.logs| - 1].name
    ensures r.logs[|e.logs| - 1].data == Append(e.logs[|e.logs| - 1].data, key, value).file
    ensures r.maps[|e.maps| - 1] == Insert(e.maps[|e.maps| - 1], key, l)
  {
    var n := |e.logs| - 1;
    var a := Append(e.logs[n].data, key, value);
    Engine(e.maps[..n] + [Insert(e.maps[n], key, l)], e.logs[..n] + [Log(e.logs[n].name, a.file)])
  }

  /** The offset the append in `AppendActive` returns. */
  function ActiveOffset(e: Engine, key: Key): nat
    requires |e.logs| >= 1
  {
    |e.logs[|e.logs| - 1].data| + 2 * LEN_BYTES + |key|
  }

  /** Recording the appended value's location, or a tombstone for an empty value, keeps the
      newest index in step with its file. */
  lemma AppendActivePreservesValid(e: Engine, key: Key, value: Bytes, l: Location)
    requires Valid(e) && Fits64(|key|) && Fits64(|value|)
    requires l == Location(ActiveOffset(e, key), |value|) || (IsTombstone(l) && |value| == 0)
    ensures Valid(AppendActive(e, key, value, l))
  {
    var r := AppendActive(e, key, value, l);
    var n := |e.logs| - 1;
    ActiveStaysConsistent(e.logs[n].data, e.maps[n], key, value, l);
    forall i | 0 <= i < n
      ensures r.logs[i] == e.logs[i] && r.maps[i] == e.maps[i]
    {
      assert r.logs[i] == r.logs[..n][i];
      assert r.maps[i] == r.maps[..n][i];
    }
    ReplaceNewestPreservesValid(e, r);
  }

  /** Replacing the newest segment by one with the same number, in step with its index, keeps an
      engine valid. */
  lemma ReplaceNewestPreservesValid(e: Engine, r: Engine)
    requires Valid(e) && |r.logs| == |r.maps| == |e.logs|
    requires forall i :: 0 <= i < |e.logs| - 1 ==> r.logs[i] == e.logs[i] && r.maps[i] == e.maps[i]
    requires r.logs[|e.logs| - 1].name == e.logs[|e.logs| - 1].name
    requires Consistent(r.logs[|e.logs| - 1].data, r.maps[|e.logs| - 1])
    ensures Valid(r)
  {
    ReplaceNewestNames(e.logs, r.logs);
    ReplaceNewestConsistent(e.logs, e.maps, r.logs, r.maps);
  }

  /** Replacing the newest log and index by a pair in step keeps every pair in step. */
  lemma ReplaceNewestConsistent(logs: seq<Log>, maps: seq<Map>, rlogs: seq<Log>, rmaps: seq<Map>)
    requires |rlogs| == |rmaps| == |logs| == |maps| >= 1
    requires forall i :: 0 <= i < |logs| ==> Consistent(logs[i].data, maps[i])
    requires forall i :: 0 <= i < |logs| - 1 ==> rlogs[i] == logs[i] && rmaps[i] == maps[i]
    requires Consistent(rlogs[|logs| - 1].data, rmaps[|logs| - 1])
    ensures forall i :: 0 <= i < |rlogs| ==> Consistent(rlogs[i].data, rmaps[i])
  {
    forall i | 0 <= i < |rlogs|
      ensures Consistent(rlogs[i].data, rmaps[i])
    {
      if i < |logs| - 1 {
        var d, m := logs[i].data, maps[i];
        assert Consistent(d, m);
        assert rlogs[i].data == d && rmaps[i] == m;
      }
    }
  }

  /** Replacing the newest log by one with the same number keeps the numbers increasing. */
  lemma ReplaceNewestNames(logs: seq<Log>, r: seq<Log>)
    requires NamesIncreasing(logs) && |r| == |logs| >= 1
    requires forall i :: 0 <= i < |logs| - 1 ==> r[i] == logs[i]
    requires r[|logs| - 1].name == logs[|logs| - 1].name
    ensures NamesIncreasing(r)
  {
    forall i, j | 0 <= i < j < |r|
      ensures r[i].name < r[j].name
    {
      assert logs[i].name < logs[j].name;
    }
  }

  /** The segment-level step: appending and recording keeps an index in step with its file. */
  lemma ActiveStaysConsistent(data: Bytes, m: Map, key: Key, value: Bytes, l: Location)
    requires Consistent(data, m) && Fits64(|key|) && Fits64(|value|)
    requires l == Location(|data| + 2 * LEN_BYTES + |key|, |value|) || (IsTombstone(l) && |value| == 0)
    ensures Consistent(Append(data, key, value).file, Insert(m, key, l))
  {
    var a := Append(data, key, value);
    LoadAfterAppend(data, key, value);
    InsertEquivalent(m, LoadFromLog(data).value, key, l, Location(a.offset, |value|));
  }

  /** After an append the segments are the untouched older ones and the extended newest one. */
  lemma AppendActiveSegments(e: Engine, key: Key, value: Bytes, l: Location)
    requires |e.logs| == |e.maps| >= 1
    ensures var n := |e.logs| - 1;
      && Segments(e) == Segments(e)[..n] + [Segments(e)[n]]
      && Segments(AppendActive(e, key, value, l))
         == Segments(e)[..n] + [Lookup.Segment(e.logs[n].data + Record(key, value), Insert(e.maps[n], key, l))]
  {
    var r := AppendActive(e, key, value, l);
    var n := |e.logs| - 1;
    forall i | 0 <= i < n
      ensures Segments(r)[i] == Segments(e)[i]
    {
      assert r.logs[i] == r.logs[..n][i] && r.maps[i] == r.maps[..n][i];
    }
  }

  /** An append for `key` changes no other key's lookup. */
  lemma AppendActiveKeepsOthers(e: Engine, key: Key, value: Bytes, l: Location, k: Key)
    requires Valid(e) && k != key
    ensures Get(AppendActive(e, key, value, l), k) == Get(e, k)
  {
    var n := |e.logs| - 1;
    var s := Segments(e)[n];
    assert Consistent(e.logs[n].data, e.maps[n]);
    ConsistentWellFormed(e.logs[n].data, e.maps[n]);
    AppendActiveSegments(e, key, value, l);
    SegmentKeepsOthers(s, Record(key, value), key, l, k);
    Lookup.GetLastAgrees(Segments(e)[..n], s, Lookup.Segment(s.log + Record(key, value), Insert(s.index, key, l)), k);
  }

  /** The segment-level step: an append and insert for `key` leave every other key's answer alone. */
  lemma SegmentKeepsOthers(s: Lookup.Segment, rec: Bytes, key: Key, l: Location, k: Key)
    requires Lookup.InBounds(s) && k != key
    ensures var s' := Lookup.Segment(s.log + rec, Insert(s.index, key, l));
      && (k in s'.index <==> k in s.index)
      && (k in s.index ==> Lookup.Hit(s', k) == Lookup.Hit(s, k))
  {
    var s' := Lookup.Segment(s.log + rec, Insert(s.index, key, l));
    assert KeyIndex.Get(s'.index, k) == KeyIndex.Get(s.index, k);
    if k in s.index && !IsTombstone(s.index[k]) {
      var loc := s.index[k];
      ReadStable(s.log, rec, loc.offset, loc.len);
    }
  }

  /** The key just appended reads back as the value, or as absent when the location is a tombstone. */
  lemma AppendActiveGet(e: Engine, key: Key, value: Bytes, l: Location)
    requires |e.logs| == |e.maps| >= 1
    requires l == Location(ActiveOffset(e, key), |value|) || (IsTombstone(l) && |value| == 0)
    ensures Get(AppendActive(e, key, value, l), key) == Ok(if |value| == 0 then None else Some(value))
  {
    var r := AppendActive(e, key, value, l);
    var n := |e.logs| - 1;
    ReadAppended(e.logs[n].data, key, value);
    Lookup.GetNewestWins(Segments(r), key, n);
  }

  // ---------------------------------------------------------------------------
  // set, del

  /** The merge of `Engine::set` can rebuild the two oldest segments. */
  predicate MergeReady(e: Engine) {
    |e.logs| > 2 ==> LoadFromLog(e.logs[0].data).Ok? && LoadFromLog(e.logs[1].data).Ok?
  }

  /** The segments `Engine::set` appends to: rotated, then compacted when there are more than two. */
  function Prepare(e: Engine, order: Map -> seq<Key>): (r: Engine)
    requires |e.logs| == |e.maps| >= 1
    requires MergeReady(Rotate(e)) && IterationOrder(order)
    ensures |r.logs| == |r.maps| >= 1
    ensures |r.logs| == if |Rotate(e).logs| > 2 then |Rotate(e).logs| - 1 else |Rotate(e).logs|
  {
    var e1 := Rotate(e);
    if |e1.logs| > 2 then MergeOldest(e1, order) else e1
  }

  /** `Engine::set`. The segment count grows by one on rotation and shrinks by one on compaction,
      and the newest index now records where the value was appended. */
  function Set(e: Engine, key: Key, value: Bytes, order: Map -> seq<Key>): (r: Engine)
    requires |e.logs| == |e.maps| >= 1
    requires MergeReady(Rotate(e)) && IterationOrder(order)
    ensures |r.logs| == |r.maps|
    ensures |r.logs| == |e.logs| + (if Full(e) then 1 else 0) - (if |Rotate(e).logs| > 2 then 1 else 0)
    ensures var p := Prepare(e, order); var n := |p.logs| - 1;
      && r.logs[n].data == Append(p.logs[n].data, key, value).file
      && KeyIndex.Get(r.maps[n], key) == Some(Location(ActiveOffset(p, key), |value|))
  {
    var p := Prepare(e, order);
    AppendActive(p, key, value, Location(ActiveOffset(p, key), |value|))
  }

  /** `Engine::del`: when the key has a value, an empty value is appended and a tombstone stored;
      otherwise nothing changes. The lookup inside is unwrapped by the source, hence the requirement. */
  function Del(e: Engine, key: Key): (r: Engine)
    requires |e.logs| == |e.maps| >= 1
    requires Get(e, key).Ok?
    ensures |r.logs| == |r.maps| == |e.logs|
    ensures Get(e, key).value.None? ==> r == e
    ensures Get(e, key).value.Some? ==>
      && r.logs[|e.logs| - 1].data == Append(e.logs[|e.logs| - 1].data, key, []).file
      && KeyIndex.Get(r.maps[|e.maps| - 1], key) == Some(Tombstone())
  {
    if Get(e, key).value.Some? then AppendActive(e, key, [], Tombstone()) else e
  }

  // ---------------------------------------------------------------------------
  // Properties of set and del

  /** Rotation keeps the engine valid, changes no lookup, and leaves the two oldest files
      rebuildable. */
  lemma RotatePreservesGet(e: Engine)
    requires Valid(e)
    ensures Valid(Rotate(e)) && MergeReady(Rotate(e))
    ensures forall k :: Get(Rotate(e), k) == Get(e, k)
  {
    if Full(e) {
      GrowPreservesValid(e);
      GrowPreservesGet(e);
    }
    var e1 := Rotate(e);
    if |e1.logs| > 2 {
      assert Consistent(e1.logs[0].data, e1.maps[0]) && Consistent(e1.logs[1].data, e1.maps[1]);
    }
  }

  /** Rotation and compaction keep the engine valid and change no lookup. */
  lemma PreparePreservesGet(e: Engine, order: Map -> seq<Key>)
    requires Valid(e) && IterationOrder(order)
    ensures MergeReady(Rotate(e))
    ensures Valid(Prepare(e, order))
    ensures forall k :: Get(Prepare(e, order), k) == Get(e, k)
  {
    RotatePreservesGet(e);
    var e1 := Rotate(e);
    if |e1.logs| > 2 {
      MergeOldestPreservesValid(e1, order);
      MergeOldestPreservesGet(e1, order);
    }
  }

  /** `set` keeps the engine valid. */
  lemma SetPreservesValid(e: Engine, key: Key, value: Bytes, order: Map -> seq<Key>)
    requires Valid(e) && IterationOrder(order) && Fits64(|key|) && Fits64(|value|)
    ensures MergeReady(Rotate(e))
    ensures Valid(Set(e, key, value, order))
  {
    PreparePreservesGet(e, order);
    var p := Prepare(e, order);
    AppendActivePreservesValid(p, key, value, Location(ActiveOffset(p, key), |value|));
  }

  /** After `set(k, v)`, `get(k)` returns `v`; an empty `v` is stored with length 0, which is a
      tombstone, so the key then reads as absent. */
  lemma SetThenGet(e: Engine, key: Key, value: Bytes, order: Map -> seq<Key>)
    requires Valid(e) && IterationOrder(order)
    ensures MergeReady(Rotate(e))
    ensures Get(Set(e, key, value, order), key) == Ok(if |value| == 0 then None else Some(value))
  {
    PreparePreservesGet(e, order);
    var p := Prepare(e, order);
    AppendActiveGet(p, key, value, Location(ActiveOffset(p, key), |value|));
  }

  /** `set(k, v)` changes no other key's lookup, across rotation and compaction. */
  lemma SetKeepsOthers(e: Engine, key: Key, value: Bytes, order: Map -> seq<Key>, k: Key)
    requires Valid(e) && IterationOrder(order) && k != key
    ensures MergeReady(Rotate(e))
    ensures Get(Set(e, key, value, order), k) == Get(e, k)
  {
    PreparePreservesGet(e, order);
    var p := Prepare(e, order);
    AppendActiveKeepsOthers(p, key, value, Location(ActiveOffset(p, key), |value|), k);
  }

  /** With at most two segments before a `set`, there are at most two after it: rotation adds the
      third and compaction removes it at once. */
  lemma SetKeepsTwoSegments(e: Engine, key: Key, value: Bytes, order: Map -> seq<Key>)
    requires Valid(e) && IterationOrder(order) && |e.logs| <= 2
    ensures MergeReady(Rotate(e))
    ensures 1 <= |Set(e, key, value, order).logs| <= 2
  {
    PreparePreservesGet(e, order);
  }

  /** `del` keeps the engine valid, makes the key absent, and changes no other key's lookup. */
  lemma DelThenGet(e: Engine, key: Key, k: Key)
    requires Valid(e) && Fits64(|key|)
    ensures Get(e, key).Ok?
    ensures Valid(Del(e, key))
    ensures Get(Del(e, key), key) == Ok(None)
    ensures k != key ==> Get(Del(e, key), k) == Get(e, k)
  {
    ValidGetOk(e, key);
    if Get(e, key).value.Some? {
      AppendActivePreservesValid(e, key, [], Tombstone());
      AppendActiveGet(e, key, [], Tombstone());
      if k != key {
        AppendActiveKeepsOthers(e, key, [], Tombstone(), k);
      }
    }
  }

  // ---------------------------------------------------------------------------
  // Opening a directory

  /** The contents of the segment files, in order. */
  function Datas(logs: seq<Log>): (r: seq<Bytes>)
    ensures |r| == |logs| && forall i :: 0 <= i < |logs| ==> r[i] == logs[i].data
  {
    seq(|logs|, i requires 0 <= i < |logs| => logs[i].data)
  }

  /** `Engine::new` on the segment files in the order the directory scan and sort leave them:
      every index rebuilt from its file, and a first empty segment numbered 0 when there is none.
      A file that does not parse stops the open (the source panics in the rebuild). */
  function Open(logs: seq<Log>): (r: Result<Engine, IoError>)
    ensures r.Ok? <==> forall i :: 0 <= i < |logs| ==> LoadFromLog(logs[i].data).Ok?
    ensures |logs| == 0 ==> r == Ok(Engine([map[]], [Log(0, [])]))
    ensures r.Ok? && |logs| > 0 ==> r.value.logs == logs && |r.value.maps| == |logs|
    ensures r.Ok? && |logs| > 0 ==>
      forall i :: 0 <= i < |logs| ==> r.value.maps[i] == LoadFromLog(logs[i].data).value
    ensures r.Err? ==> r.error == CorruptSegment
  {
    match Merger.LoadAll(Datas(logs))
    case Err(err) => Err(err)
    case Ok(maps) =>
      var e := Engine(maps, logs);
      if |logs| == 0 then Ok(Grow(e)) else Ok(e)
  }

  /** Opening segments listed in increasing number gives a valid engine whose lookups are the
      newest-wins lookups over the rebuilt files. */
  lemma OpenValid(logs: seq<Log>)
    requires NamesIncreasing(logs)
    requires Open(logs).Ok?
    ensures Valid(Open(logs).value)
    ensures forall i :: 0 <= i < |logs| ==> Open(logs).value.maps[i] == LoadFromLog(logs[i].data).value
  {
    var e := Open(logs).value;
    var datas := Datas(logs);
    if |logs| == 0 {
      LoadEmpty();
      assert Iterate([]) == Ok([]);
      assert Consistent(e.logs[0].data, e.maps[0]);
    } else {
      forall i | 0 <= i < |logs|
        ensures Consistent(e.logs[i].data, e.maps[i])
      {
        assert datas[i] == logs[i].data;
        EquivalentRefl(e.maps[i]);
      }
    }
  }
}
