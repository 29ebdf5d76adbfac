/**
 Compaction, `LogMerger` (`src/main.rs`, and the identical copy in `src/merger.rs`).

 `New` rebuilds one index per input file and starts an empty merged log. `Merge` walks the
 inputs oldest first and, within one input, the keys of its index in the index's iteration
 order; a key is copied to the merged log when no later input's index has it (a tombstone there
 counts) and its own location is not a tombstone. The copied value is read from the input file
 at its location, appended to the merged log, and the merged index records where it landed.

 The iteration order of a Rust `HashMap` is not specified, so it is a parameter here: one
 sequence of keys per input, which must list that input's index keys each exactly once.
 */
module Merger {
  import opened Wrappers
  import opened LogFile
  import opened KeyIndex
  import Lookup

  /** `LogMerger`: the inputs, their indexes, and the merged index and log being built. */
  datatype LogMerger = LogMerger(logs: seq<Bytes>, maps: seq<Map>, mergedMap: Map, mergedLog: Bytes)

  /** The rebuilt index of every file, in order, or the first corruption (where the source panics). */
  function LoadAll(datas: seq<Bytes>): (r: Result<seq<Map>, IoError>)
    ensures r.Ok? <==> forall i :: 0 <= i < |datas| ==> LoadFromLog(datas[i]).Ok?
    ensures r.Ok? ==> |r.value| == |datas|
    ensures r.Ok? ==> forall i :: 0 <= i < |datas| ==> r.value[i] == LoadFromLog(datas[i]).value
    ensures r.Err? ==> r.error == CorruptSegment
    decreases |datas|
  {
    if |datas| == 0 then Ok([])
    else
      match LoadFromLog(datas[0])
      case Err(err) => Err(err)
      case Ok(m) =>
        match LoadAll(datas[1..])
        case Err(err) => Err(err)
        case Ok(rest) => Ok([m] + rest)
  }

  /** `LogMerger::new`: one index per input path, in input order, built by replaying that file;
      the merged log starts empty because any earlier result file is removed first. */
  function New(datas: seq<Bytes>): (r: Result<LogMerger, IoError>)
    ensures r.Ok? <==> forall i :: 0 <= i < |datas| ==> LoadFromLog(datas[i]).Ok?
    ensures r.Ok? ==> r.value.logs == datas && r.value.mergedLog == [] && r.value.mergedMap == map[]
    ensures r.Ok? ==> |r.value.maps| == |datas|
    ensures r.Ok? ==> forall i :: 0 <= i < |datas| ==> r.value.maps[i] == LoadFromLog(datas[i]).value
    ensures r.Err? ==> r.error == CorruptSegment
  {
    match LoadAll(datas)
    case Err(err) => Err(err)
    case Ok(maps) => Ok(LogMerger(datas, maps, KeyIndex.New(), []))
  }

  // ---------------------------------------------------------------------------
  // The keep rule

  /** Some input after `i` has an index entry for `k`, live or tombstone. */
  predicate Overwritten(maps: seq<Map>, i: nat, k: Key) {
    exists j :: i < j < |maps| && k in maps[j]
  }

  /** Input `i` holds `k`, no later input does, and the entry is not a tombstone. */
  predicate Kept(maps: seq<Map>, i: int, k: Key) {
    0 <= i < |maps| && k in maps[i] && !Overwritten(maps, i, k) && !IsTombstone(maps[i][k])
  }

  /** A key is kept from at most one input. */
  lemma KeptUnique(maps: seq<Map>, i: nat, j: nat, k: Key)
    requires Kept(maps, i, k) && Kept(maps, j, k)
    ensures i == j
  {
  }

  /** `order` lists the keys of `m`, each once: one possible iteration order of the index. */
  predicate Enumerates(order: seq<Key>, m: Map) {
    && (forall k :: k in order ==> k in m)
    && (forall k :: k in m ==> k in order)
    && forall a, b :: 0 <= a < b < |order| ==> order[a] != order[b]
  }

  // ---------------------------------------------------------------------------
  // Merge

  /** One copy: `value` appended to the merged log under `k`, and the merged index pointing at it. */
  function CopyOne(m: LogMerger, k: Key, value: Bytes): (r: LogMerger)
    ensures r.logs == m.logs && r.maps == m.maps
    ensures forall k' :: k' in r.mergedMap <==> k' in m.mergedMap || k' == k
    ensures Read(r.mergedLog, r.mergedMap[k].offset, r.mergedMap[k].len) == Ok(value)
  {
    var a := Append(m.mergedLog, k, value);
    var r := m.(mergedLog := a.file, mergedMap := Insert(m.mergedMap, k, Location(a.offset, |value|)));
    ReadAppended(m.mergedLog, k, value);
    assert forall k' :: k' in r.mergedMap <==> k' in m.mergedMap || k' == k by {
      forall k' ensures k' in r.mergedMap <==> k' in m.mergedMap || k' == k {
        if k' != k {
          assert Get(r.mergedMap, k') == Get(m.mergedMap, k');
        }
      }
    }
    r
  }

  /** The inner loop of `LogMerger::merge` over the keys of input `i`, in the order `keys`.
      Every kept key ends up in the merged index, nothing else is added, and the inputs are not
      touched; the only failure is a read past the end of the input file. */
  function MergeKeys(m: LogMerger, i: nat, keys: seq<Key>): (r: Result<LogMerger, IoError>)
    requires |m.logs| == |m.maps| && i < |m.maps|
    requires forall k :: k in keys ==> k in m.maps[i]
    ensures r.Ok? ==> r.value.logs == m.logs && r.value.maps == m.maps
    ensures r.Ok? ==> forall k :: k in r.value.mergedMap <==>
      k in m.mergedMap || (k in keys && Kept(m.maps, i, k))
    ensures (forall k :: k in keys && Kept(m.maps, i, k) ==>
      m.maps[i][k].offset + m.maps[i][k].len <= |m.logs[i]|) ==> r.Ok?
    ensures r.Err? ==> r.error == UnexpectedEof
    decreases |keys|
  {
    if |keys| == 0 then Ok(m)
    else
      var k := keys[0];
      var v := m.maps[i][k];
      if !Overwritten(m.maps, i, k) && !IsTombstone(v) then
        match Read(m.logs[i], v.offset, v.len)
        case Err(err) => Err(err)
        case Ok(value) =>
          MergeKeys(CopyOne(m, k, value), i, keys[1..])
      else MergeKeys(m, i, keys[1..])
  }

  /** The outer loop of `LogMerger::merge`, from input `i` on. */
  function MergeFrom(m: LogMerger, i: nat, orders: seq<seq<Key>>): (r: Result<LogMerger, IoError>)
    requires |m.logs| == |m.maps| == |orders| && i <= |m.maps|
    requires forall j :: 0 <= j < |orders| ==> forall k :: k in orders[j] ==> k in m.maps[j]
    ensures r.Ok? ==> r.value.logs == m.logs && r.value.maps == m.maps
    ensures r.Ok? ==> forall k :: k in r.value.mergedMap <==>
      k in m.mergedMap || exists j :: i <= j < |orders| && k in orders[j] && Kept(m.maps, j, k)
    ensures (forall j, k :: i <= j < |orders| && Kept(m.maps, j, k) ==>
      m.maps[j][k].offset + m.maps[j][k].len <= |m.logs[j]|) ==> r.Ok?
    ensures r.Err? ==> r.error == UnexpectedEof
    decreases |m.maps| - i
  {
    if i == |m.maps| then Ok(m)
    else
      match MergeKeys(m, i, orders[i])
      case Err(err) => Err(err)
      case Ok(m') => MergeFrom(m', i + 1, orders)
  }

  /** `LogMerger::merge`: every input, oldest first, each in its own iteration order. The merged
      index gains exactly the kept keys of all inputs. */
  function Merge(m: LogMerger, orders: seq<seq<Key>>): (r: Result<LogMerger, IoError>)
    requires |m.logs| == |m.maps| == |orders|
    requires forall j :: 0 <= j < |orders| ==> Enumerates(orders[j], m.maps[j])
    ensures r.Ok? ==> r.value.logs == m.logs && r.value.maps == m.maps
    ensures r.Ok? ==> forall k :: k in r.value.mergedMap <==>
      k in m.mergedMap || exists j :: Kept(m.maps, j, k)
    ensures r.Err? ==> r.error == UnexpectedEof
  {
    MergeKeySet(m, orders);
    MergeFrom(m, 0, orders)
  }

  /** With every input's keys enumerated, "kept and listed" is just "kept". */
  lemma MergeKeySet(m: LogMerger, orders: seq<seq<Key>>)
    requires |m.logs| == |m.maps| == |orders|
    requires forall j :: 0 <= j < |orders| ==> Enumerates(orders[j], m.maps[j])
    requires forall j :: 0 <= j < |orders| ==> forall k :: k in orders[j] ==> k in m.maps[j]
    ensures MergeFrom(m, 0, orders).Ok? ==> forall k :: k in MergeFrom(m, 0, orders).value.mergedMap <==>
      k in m.mergedMap || exists j :: Kept(m.maps, j, k)
  {
    var r := MergeFrom(m, 0, orders);
    if r.Ok? {
      forall k ensures k in r.value.mergedMap <==> k in m.mergedMap || exists j :: Kept(m.maps, j, k) {
        if exists j :: Kept(m.maps, j, k) {
          var j :| Kept(m.maps, j, k);
          assert k in orders[j];
        }
      }
    }
  }

  // ---------------------------------------------------------------------------
  // What the merged pair holds

  /** Every input index can be written back losslessly and points inside its own file. */
  ghost predicate WellFormed(m: LogMerger) {
    && |m.logs| == |m.maps|
    && forall i :: 0 <= i < |m.maps| ==>
         Storable(m.maps[i]) && Lookup.InBounds(Lookup.Segment(m.logs[i], m.maps[i]))
  }

  /** Every kept key merged so far points, in the merged log, at a live copy of the bytes its
      input location holds. */
  ghost predicate Copied(m: LogMerger) {
    && |m.logs| == |m.maps|
    && forall i, k :: Kept(m.maps, i, k) && k in m.mergedMap ==>
         && !IsTombstone(m.mergedMap[k])
         && Read(m.mergedLog, m.mergedMap[k].offset, m.mergedMap[k].len)
            == Read(m.logs[i], m.maps[i][k].offset, m.maps[i][k].len)
  }

  /** The merged log rebuilds to exactly the merged index and holds one record per key. */
  ghost predicate SelfDescribing(m: LogMerger) {
    && LoadFromLog(m.mergedLog) == Ok(m.mergedMap)
    && |Iterate(m.mergedLog).value| == |m.mergedMap|
  }

  ghost predicate Inv(m: LogMerger) {
    WellFormed(m) && Copied(m) && SelfDescribing(m)
  }

  /** Copying a kept key that is not merged yet keeps the merged pair consistent. */
  lemma CopyOnePreserves(m: LogMerger, i: nat, k: Key, value: Bytes)
    requires Inv(m) && Kept(m.maps, i, k) && k !in m.mergedMap
    requires Read(m.logs[i], m.maps[i][k].offset, m.maps[i][k].len) == Ok(value)
    ensures Inv(CopyOne(m, k, value))
  {
    assert Storable(m.maps[i]);
    CopyOneDescribes(m, k, value);
    CopyOneCopies(m, i, k, value);
  }

  /** The merged log still rebuilds to the merged index, one record per key. */
  lemma CopyOneDescribes(m: LogMerger, k: Key, value: Bytes)
    requires SelfDescribing(m) && k !in m.mergedMap
    requires Fits64(|k|) && Fits64(|value|)
    ensures SelfDescribing(CopyOne(m, k, value))
  {
    LoadAfterAppend(m.mergedLog, k, value);
    IterateAppend(m.mergedLog, k, value);
  }

  /** Every merged key still reads back its input bytes. */
  lemma CopyOneCopies(m: LogMerger, i: nat, k: Key, value: Bytes)
    requires WellFormed(m) && Copied(m) && Kept(m.maps, i, k)
    requires Read(m.logs[i], m.maps[i][k].offset, m.maps[i][k].len) == Ok(value)
    ensures Copied(CopyOne(m, k, value))
  {
    var r := CopyOne(m, k, value);
    var a := Append(m.mergedLog, k, value);
    assert r.mergedLog == m.mergedLog + Record(k, value);
    forall i', k' | Kept(r.maps, i', k') && k' in r.mergedMap
      ensures !IsTombstone(r.mergedMap[k'])
      ensures Read(r.mergedLog, r.mergedMap[k'].offset, r.mergedMap[k'].len)
              == Read(r.logs[i'], r.maps[i'][k'].offset, r.maps[i'][k'].len)
    {
      if k' == k {
        KeptUnique(m.maps, i, i', k);
      } else {
        var l := m.mergedMap[k'];
        assert r.mergedMap[k'] == l;
        assert Lookup.InBounds(Lookup.Segment(m.logs[i'], m.maps[i']));
        ReadStable(m.mergedLog, Record(k, value), l.offset, l.len);
      }
    }
  }

  /** The inner loop keeps the merged pair consistent when its keys are distinct and none of the
      kept ones is merged yet; its reads cannot fail. */
  lemma {:induction false} MergeKeysPreserves(m: LogMerger, i: nat, keys: seq<Key>)
    requires |m.logs| == |m.maps| && i < |m.maps|
    requires forall k :: k in keys ==> k in m.maps[i]
    requires Inv(m)
    requires forall a, b :: 0 <= a < b < |keys| ==> keys[a] != keys[b]
    requires forall k :: k in keys && Kept(m.maps, i, k) ==> k !in m.mergedMap
    ensures MergeKeys(m, i, keys).Ok? && Inv(MergeKeys(m, i, keys).value)
    decreases |keys|
  {
    if |keys| > 0 {
      var k := keys[0];
      var rest := keys[1..];
      assert forall a, b :: 0 <= a < b < |rest| ==> rest[a] == keys[a + 1] && rest[b] == keys[b + 1];
      assert forall k2 :: k2 in rest ==> k2 in keys && k2 != k;
      var v := m.maps[i][k];
      if !Overwritten(m.maps, i, k) && !IsTombstone(v) {
        assert Kept(m.maps, i, k);
        assert Lookup.InBounds(Lookup.Segment(m.logs[i], m.maps[i]));
        var value := Read(m.logs[i], v.offset, v.len).value;
        CopyOnePreserves(m, i, k, value);
        var m1 := CopyOne(m, k, value);
        assert MergeKeys(m, i, keys) == MergeKeys(m1, i, rest);
        assert forall k2 :: k2 in rest && Kept(m1.maps, i, k2) ==> k2 !in m1.mergedMap;
        MergeKeysPreserves(m1, i, rest);
      } else {
        assert MergeKeys(m, i, keys) == MergeKeys(m, i, rest);
        MergeKeysPreserves(m, i, rest);
      }
    }
  }

  /** The outer loop keeps the merged pair consistent when no key it will keep is merged yet. */
  lemma {:induction false} MergeFromPreserves(m: LogMerger, i: nat, orders: seq<seq<Key>>)
    requires |m.logs| == |m.maps| == |orders| && i <= |m.maps|
    requires forall j :: 0 <= j < |orders| ==> Enumerates(orders[j], m.maps[j])
    requires forall j :: 0 <= j < |orders| ==> forall k :: k in orders[j] ==> k in m.maps[j]
    requires Inv(m)
    requires forall j, k :: i <= j < |orders| && Kept(m.maps, j, k) ==> k !in m.mergedMap
    ensures MergeFrom(m, i, orders).Ok? && Inv(MergeFrom(m, i, orders).value)
    decreases |m.maps| - i
  {
    if i < |m.maps| {
      assert Enumerates(orders[i], m.maps[i]);
      MergeKeysPreserves(m, i, orders[i]);
      var m' := MergeKeys(m, i, orders[i]).value;
      forall j, k | i + 1 <= j < |orders| && Kept(m'.maps, j, k)
        ensures k !in m'.mergedMap
      {
        if Kept(m.maps, i, k) {
          KeptUnique(m.maps, i, j, k);
        }
      }
      MergeFromPreserves(m', i + 1, orders);
    }
  }

  /** The inputs as lookup segments, oldest first. */
  function Sources(m: LogMerger): (r: seq<Lookup.Segment>)
    requires |m.logs| == |m.maps|
    ensures |r| == |m.maps|
    ensures forall i :: 0 <= i < |r| ==> r[i] == Lookup.Segment(m.logs[i], m.maps[i])
  {
    seq(|m.maps|, i requires 0 <= i < |m.maps| => Lookup.Segment(m.logs[i], m.maps[i]))
  }

  /** The merged pair as a single lookup segment. */
  function Merged(r: LogMerger): seq<Lookup.Segment> {
    [Lookup.Segment(r.mergedLog, r.mergedMap)]
  }

  /** A key whose newest input entry is a tombstone is kept from no input, so the merged pair
      does not hold it either. */
  lemma TombstoneNotKept(r: LogMerger, k: Key, i: nat)
    requires |r.logs| == |r.maps|
    requires forall k' :: k' in r.mergedMap <==> exists j :: Kept(r.maps, j, k')
    requires Lookup.Newest(Sources(r), k, i) && IsTombstone(r.maps[i][k])
    ensures Lookup.Get(Merged(r), k) == Lookup.Get(Sources(r), k) == Ok(None)
  {
    var srcs := Sources(r);
    forall j | 0 <= j < |r.maps|
      ensures !Kept(r.maps, j, k)
    {
      if j < i {
        assert k in r.maps[i];
      } else if j > i {
        assert srcs[j].index == r.maps[j];
      }
    }
    assert k !in r.mergedMap;
    Lookup.GetNewestWins(srcs, k, i);
  }

  /** A key no input holds is kept from no input, so the merged pair does not hold it either. */
  lemma AbsentNotKept(r: LogMerger, k: Key)
    requires |r.logs| == |r.maps|
    requires forall k' :: k' in r.mergedMap <==> exists j :: Kept(r.maps, j, k')
    requires !Lookup.Holds(Sources(r), k)
    ensures Lookup.Get(Merged(r), k) == Lookup.Get(Sources(r), k) == Ok(None)
  {
    var srcs := Sources(r);
    forall j | 0 <= j < |r.maps|
      ensures !Kept(r.maps, j, k)
    {
      assert srcs[j].index == r.maps[j];
    }
    assert k !in r.mergedMap;
  }

  /** A key live in its newest input reads back, from the merged pair, that input's bytes. */
  lemma LiveKeyAgrees(r: LogMerger, k: Key, i: nat)
    requires Inv(r)
    requires forall k' :: k' in r.mergedMap <==> exists j :: Kept(r.maps, j, k')
    requires Lookup.Newest(Sources(r), k, i) && !IsTombstone(r.maps[i][k])
    ensures Lookup.Get(Merged(r), k) == Lookup.Get(Sources(r), k)
  {
    var srcs := Sources(r);
    assert Kept(r.maps, i, k) by {
      forall j | i < j < |r.maps|
        ensures k !in r.maps[j]
      {
        assert srcs[j].index == r.maps[j];
      }
    }
    assert k in r.mergedMap;
    Lookup.GetNewestWins(Merged(r), k, 0);
    Lookup.GetNewestWins(srcs, k, i);
  }

  /** A consistent merged pair holding exactly the kept keys answers every lookup as the inputs
      do: a key whose newest entry is a tombstone, or that no input has, is absent from it; any
      other key reads back its newest value. */
  lemma MergedLookupAgrees(r: LogMerger, k: Key)
    requires Inv(r)
    requires forall k' :: k' in r.mergedMap <==> exists j :: Kept(r.maps, j, k')
    ensures Lookup.Get(Merged(r), k) == Lookup.Get(Sources(r), k)
  {
    if Lookup.Holds(Sources(r), k) {
      var i := Lookup.NewestExists(Sources(r), k);
      if IsTombstone(r.maps[i][k]) {
        TombstoneNotKept(r, k, i);
      } else {
        LiveKeyAgrees(r, k, i);
      }
    } else {
      AbsentNotKept(r, k);
    }
  }

  /** A fresh merger over rebuilt inputs starts consistent: every input index is well formed and
      the empty merged log rebuilds to the empty merged index. */
  lemma NewInv(datas: seq<Bytes>)
    requires New(datas).Ok?
    ensures Inv(New(datas).value)
  {
    var m := New(datas).value;
    forall i | 0 <= i < |m.maps|
      ensures Storable(m.maps[i]) && Lookup.InBounds(Lookup.Segment(m.logs[i], m.maps[i]))
    {
      LoadWellFormed(datas[i]);
    }
    LoadEmpty();
    assert Iterate([]) == Ok([]);
  }

  /** Merging freshly rebuilt inputs succeeds, keeps exactly the keys live in their newest input,
      and leaves a consistent merged pair. */
  lemma MergeSucceeds(datas: seq<Bytes>, orders: seq<seq<Key>>)
    requires New(datas).Ok?
    requires |orders| == |datas|
    requires forall j :: 0 <= j < |orders| ==> Enumerates(orders[j], New(datas).value.maps[j])
    ensures Merge(New(datas).value, orders).Ok?
    ensures Inv(Merge(New(datas).value, orders).value)
    ensures var r := Merge(New(datas).value, orders).value;
      forall k :: k in r.mergedMap <==> exists j :: Kept(r.maps, j, k)
  {
    var m := New(datas).value;
    NewInv(datas);
    assert forall j :: 0 <= j < |orders| ==> forall k :: k in orders[j] ==> k in m.maps[j] by {
      forall j | 0 <= j < |orders| ensures forall k :: k in orders[j] ==> k in m.maps[j] {
        assert Enumerates(orders[j], m.maps[j]);
      }
    }
    MergeFromPreserves(m, 0, orders);
  }

  /** Compaction is sound: merging freshly rebuilt inputs succeeds, the merged index holds exactly
      the keys that are live in their newest input, the merged log rebuilds to that index with one
      record per key, and a newest-wins lookup in the merged pair equals one across the inputs. */
  lemma MergeIsEquivalent(datas: seq<Bytes>, orders: seq<seq<Key>>)
    requires New(datas).Ok?
    requires |orders| == |datas|
    requires forall j :: 0 <= j < |orders| ==> Enumerates(orders[j], New(datas).value.maps[j])
    ensures Merge(New(datas).value, orders).Ok?
    ensures var r := Merge(New(datas).value, orders).value;
      && (forall k :: k in r.mergedMap <==> exists j :: Kept(r.maps, j, k))
      && LoadFromLog(r.mergedLog) == Ok(r.mergedMap)
      && |Iterate(r.mergedLog).value| == |r.mergedMap|
      && forall k :: Lookup.Get(Merged(r), k) == Lookup.Get(Sources(New(datas).value), k)
  {
    MergeSucceeds(datas, orders);
    var r := Merge(New(datas).value, orders).value;
    assert r.maps == New(datas).value.maps && r.logs == New(datas).value.logs;
    forall k {
      MergedLookupAgrees(r, k);
    }
  }
}
