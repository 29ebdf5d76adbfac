/**
 The per-segment index of `src/map.rs`, and the rebuild of an index from its segment file.

 An index maps each key to the `Location` (offset, length) of its newest value in one
 segment; a location of length 0 marks the key as deleted. The rebuild, `Map::load_from_log`,
 is called by the engine (`src/engine.rs:101`) and the merger (`src/main.rs:156`), but
 `src/map.rs` does not define it. Its behaviour is inferred from those callers: it replays the
 iterator's entries in file order, inserting key -> (value offset, value length), so that a
 later record for a key overwrites an earlier one.
 */
module KeyIndex {
  import opened Wrappers
  import opened LogFile

  type Key = Bytes

  /** `Location`: where a value's bytes sit in its segment file. */
  datatype Location = Location(offset: nat, len: nat)

  /** `Location::is_tombstone`: only the length matters. */
  predicate IsTombstone(l: Location) {
    l.len == 0
  }

  /** `Location::tombstone`: the marker `del` stores. */
  function Tombstone(): (r: Location)
    ensures IsTombstone(r)
    ensures r.offset == 0
  {
    Location(0, 0)
  }

  /** `Location::new(o, 0)` is a tombstone whatever `o` is, and no other location is. */
  lemma TombstoneIffEmpty(offset: nat, len: nat)
    ensures IsTombstone(Location(offset, len)) <==> len == 0
    ensures IsTombstone(Location(offset, 0))
  {
  }

  type Map = map<Key, Location>

  /** `Map::len`: the number of keys; it is 0 exactly when no key is found. */
  function Len(m: Map): (r: nat)
    ensures r == 0 <==> forall k :: Get(m, k).None?
  {
    assert |m.Keys| == |m|;
    assert |m| > 0 ==> exists k :: k in m.Keys && Get(m, k).Some?;
    |m|
  }

  /** `Map::get`. */
  function Get(m: Map, key: Key): (r: Option<Location>)
    ensures r.Some? <==> key in m
    ensures r.Some? ==> r.value == m[key]
  {
    if key in m then Some(m[key]) else None
  }

  /** `Map::new`: nothing is found and the length is 0. */
  function New(): (r: Map)
    ensures Len(r) == 0
    ensures forall k :: Get(r, k) == None
  {
    map[]
  }

  /** `Map::insert`: the key now maps to `l`, every other key is as before, and the length grows
      only when the key is new. */
  function Insert(m: Map, key: Key, l: Location): (r: Map)
    ensures Get(r, key) == Some(l)
    ensures forall k :: k != key ==> Get(r, k) == Get(m, k)
    ensures Len(r) == if key in m then Len(m) else Len(m) + 1
  {
    var r := m[key := l];
    assert r.Keys == m.Keys + {key};
    r
  }

  /** `Map::remove`: the key is gone, every other key is as before. */
  function Remove(m: Map, key: Key): (r: Map)
    ensures Get(r, key) == None
    ensures forall k :: k != key ==> Get(r, k) == Get(m, k)
    ensures Len(r) == if key in m then Len(m) - 1 else Len(m)
  {
    var r := m - {key};
    assert key in m ==> m.Keys == r.Keys + {key};
    r
  }

  /** Two indexes that answer every lookup alike: the same keys, the same deleted keys, and the
      same location for every live key. (A deleted key may be marked at different offsets.) */
  predicate Equivalent(m1: Map, m2: Map) {
    && m1.Keys == m2.Keys
    && forall k :: k in m1 ==>
         && (IsTombstone(m1[k]) <==> IsTombstone(m2[k]))
         && (!IsTombstone(m1[k]) ==> m1[k] == m2[k])
  }

  lemma EquivalentRefl(m: Map)
    ensures Equivalent(m, m)
  {
  }

  /** Inserting the same live location, or a tombstone on each side, keeps two indexes equivalent. */
  lemma InsertEquivalent(m1: Map, m2: Map, key: Key, l1: Location, l2: Location)
    requires Equivalent(m1, m2)
    requires (IsTombstone(l1) && IsTombstone(l2)) || l1 == l2
    ensures Equivalent(Insert(m1, key, l1), Insert(m2, key, l2))
  {
    var r1 := Insert(m1, key, l1);
    var r2 := Insert(m2, key, l2);
    forall k | k in r1
      ensures k in r2
      ensures IsTombstone(r1[k]) <==> IsTombstone(r2[k])
      ensures !IsTombstone(r1[k]) ==> r1[k] == r2[k]
    {
      if k != key {
        assert Get(r1, k) == Get(m1, k) && Get(r2, k) == Get(m2, k);
      } else {
        assert Get(r1, k) == Some(l1) && Get(r2, k) == Some(l2);
      }
    }
    forall k | k in r2
      ensures k in r1
    {
      if k != key {
        assert Get(r2, k) == Get(m2, k) && Get(r1, k) == Get(m1, k);
      }
    }
  }

  // ---------------------------------------------------------------------------
  // Rebuild from a segment file

  /** The location an index records for a parsed entry. */
  function LocationOf(e: LogEntry): Location {
    Location(e.value.offset, e.value.len)
  }

  /** `es` applied in order to `m`, later entries overwriting earlier ones. */
  function Replay(m: Map, es: seq<LogEntry>): Map
    decreases |es|
  {
    if |es| == 0 then m
    else
      var last := es[|es| - 1];
      Insert(Replay(m, es[..|es| - 1]), last.key.value, LocationOf(last))
  }

  /** `j` is the last position of `es` whose entry is for `key`. */
  predicate LastFor(es: seq<LogEntry>, key: Key, j: int) {
    && 0 <= j < |es| && es[j].key.value == key
    && forall j2 :: j < j2 < |es| ==> es[j2].key.value != key
  }

  /** A replay knows a key exactly when the starting index or some entry has it. */
  lemma {:induction false} ReplayKeys(m: Map, es: seq<LogEntry>, key: Key)
    ensures key in Replay(m, es) <==> key in m || exists j :: 0 <= j < |es| && es[j].key.value == key
    decreases |es|
  {
    if |es| > 0 {
      var init := es[..|es| - 1];
      ReplayKeys(m, init, key);
      if exists j :: 0 <= j < |es| && es[j].key.value == key {
        var j :| 0 <= j < |es| && es[j].key.value == key;
        if j < |init| {
          assert init[j] == es[j];
        }
      }
      if exists j :: 0 <= j < |init| && init[j].key.value == key {
        var j :| 0 <= j < |init| && init[j].key.value == key;
        assert es[j] == init[j];
      }
    }
  }

  /** A key no entry mentions keeps its starting location. */
  lemma {:induction false} ReplayUntouched(m: Map, es: seq<LogEntry>, key: Key)
    requires forall j :: 0 <= j < |es| ==> es[j].key.value != key
    ensures Get(Replay(m, es), key) == Get(m, key)
    decreases |es|
  {
    if |es| > 0 {
      var init := es[..|es| - 1];
      assert forall j :: 0 <= j < |init| ==> init[j] == es[j];
      ReplayUntouched(m, init, key);
    }
  }

  /** Last write wins: a key's location is that of the last entry for it. */
  lemma {:induction false} ReplayLastWins(m: Map, es: seq<LogEntry>, key: Key, j: nat)
    requires LastFor(es, key, j)
    ensures Get(Replay(m, es), key) == Some(LocationOf(es[j]))
    decreases |es|
  {
    if j < |es| - 1 {
      var init := es[..|es| - 1];
      assert init[j] == es[j];
      assert forall j2 :: j < j2 < |init| ==> init[j2] == es[j2];
      ReplayLastWins(m, init, key, j);
    }
  }

  /** A replay of entries that all describe bytes of `data`, onto an index whose locations are all
      inside `data`, leaves every location inside `data`. */
  lemma {:induction false} ReplayInBounds(m: Map, es: seq<LogEntry>, data: Bytes)
    requires forall k :: k in m ==> m[k].offset + m[k].len <= |data|
    requires forall e :: e in es ==> PointIn(data, e.value)
    ensures forall k :: k in Replay(m, es) ==> Replay(m, es)[k].offset + Replay(m, es)[k].len <= |data|
    decreases |es|
  {
    if |es| > 0 {
      var init := es[..|es| - 1];
      var last := es[|es| - 1];
      assert forall e :: e in init ==> e in es;
      ReplayInBounds(m, init, data);
      assert last in es;
      var r := Replay(m, es);
      forall k | k in r
        ensures r[k].offset + r[k].len <= |data|
      {
        if k != last.key.value {
          assert Get(r, k) == Get(Replay(m, init), k);
        }
      }
    }
  }

  /** A replay of entries whose keys and lengths fit a u64 prefix, onto such an index. */
  lemma {:induction false} ReplayStorable(m: Map, es: seq<LogEntry>)
    requires Storable(m)
    requires forall e :: e in es ==> Fits64(|e.key.value|) && Fits64(e.value.len)
    ensures Storable(Replay(m, es))
    decreases |es|
  {
    if |es| > 0 {
      var init := es[..|es| - 1];
      var last := es[|es| - 1];
      assert forall e :: e in init ==> e in es;
      ReplayStorable(m, init);
      assert last in es;
      var r := Replay(m, es);
      forall k | k in r
        ensures Fits64(|k|) && Fits64(r[k].len)
      {
        if k != last.key.value {
          assert Get(r, k) == Get(Replay(m, init), k);
        }
      }
    }
  }

  /** Every key and every recorded length can be written back with a u64 length prefix. */
  predicate Storable(m: Map) {
    forall k :: k in m ==> Fits64(|k|) && Fits64(m[k].len)
  }

  /** `Map::load_from_log`: the index a segment file describes, or the corruption that stops the
      scan (the source panics there). */
  function LoadFromLog(data: Bytes): (r: Result<Map, IoError>)
    ensures r.Ok? <==> Iterate(data).Ok?
    ensures r.Err? ==> r.error == CorruptSegment
  {
    match Iterate(data)
    case Err(err) => Err(err)
    case Ok(es) => Ok(Replay(New(), es))
  }

  /** An empty segment rebuilds to an empty index. */
  lemma LoadEmpty()
    ensures LoadFromLog([]) == Ok(New())
  {
  }

  /** A rebuilt index is stored back losslessly and points only inside its own file. */
  lemma LoadWellFormed(data: Bytes)
    requires LoadFromLog(data).Ok?
    ensures Storable(LoadFromLog(data).value)
    ensures forall k :: k in LoadFromLog(data).value ==>
      LoadFromLog(data).value[k].offset + LoadFromLog(data).value[k].len <= |data|
  {
    var es := Iterate(data).value;
    ParseFromWellFormed(data, 0);
    forall e | e in es
      ensures Fits64(|e.key.value|)
    {
      assert |e.key.value| == e.key.len;
    }
    ReplayStorable(New(), es);
    ReplayInBounds(New(), es, data);
  }

  /** Rebuilding after one more append gives the old index with the appended key set to the
      location `Log::append` returned: the engine's in-memory insert and the rebuild agree. */
  lemma LoadAfterAppend(data: Bytes, key: Key, value: Bytes)
    requires Fits64(|key|) && Fits64(|value|)
    requires LoadFromLog(data).Ok?
    ensures var a := Append(data, key, value);
      LoadFromLog(a.file) == Ok(Insert(LoadFromLog(data).value, key, Location(a.offset, |value|)))
  {
    var es := Iterate(data).value;
    IterateAppend(data, key, value);
    var e := AppendedEntry(data, key, value);
    assert (es + [e])[..|es|] == es;
  }

  /** The live location a rebuilt index holds for a key reads back the value of the last record
      written for it. */
  lemma LoadReadsLastValue(data: Bytes, key: Key, j: nat)
    requires LoadFromLog(data).Ok?
    requires LastFor(Iterate(data).value, key, j)
    ensures key in LoadFromLog(data).value
    ensures var l := LoadFromLog(data).value[key];
      Read(data, l.offset, l.len) == Ok(Iterate(data).value[j].value.value)
  {
    var es := Iterate(data).value;
    ReplayLastWins(New(), es, key, j);
    assert LoadFromLog(data).value == Replay(New(), es);
    ParseFromWellFormed(data, 0);
    assert es[j] in es;
    var p := es[j].value;
    assert PointIn(data, p);
    assert LoadFromLog(data).value[key] == Location(p.offset, p.len);
  }
}
