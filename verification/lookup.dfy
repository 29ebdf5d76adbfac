/**
 Newest-wins lookup across segments, as `Engine::get` does it (`src/engine.rs`).

 A segment pairs a log file with its index. The lookup walks the segments from the newest
 (last) to the oldest; the first index that knows the key decides: a tombstone means the key
 is deleted, anything else is read from that segment's file. A key no index knows is absent.
 */
module Lookup {
  import opened Wrappers
  import opened LogFile
  import opened KeyIndex

  /** One segment: its log file and the index over it. */
  datatype Segment = Segment(log: Bytes, index: Map)

  /** Every live location in the index lies inside the segment's file. */
  predicate InBounds(s: Segment) {
    forall k :: k in s.index && !IsTombstone(s.index[k]) ==> s.index[k].offset + s.index[k].len <= |s.log|
  }

  /** Every segment's index lies inside its file, so no read of a lookup can fail. */
  predicate Addressable(segs: seq<Segment>) {
    forall i :: 0 <= i < |segs| ==> InBounds(segs[i])
  }

  /** What a segment whose index holds `key` answers: a tombstone hides the key, any other
      location is read from the file (the source unwraps that read, so a failing read is kept
      as an error). */
  function Hit(s: Segment, key: Key): Result<Option<Bytes>, IoError>
    requires key in s.index
  {
    var l := s.index[key];
    if IsTombstone(l) then Ok(None)
    else match Read(s.log, l.offset, l.len)
      case Err(err) => Err(err)
      case Ok(value) => Ok(Some(value))
  }

  /** The lookup of `Engine::get`, newest segment first. A value it finds is never empty, and a
      key that no index knows is absent. */
  function Get(segs: seq<Segment>, key: Key): (r: Result<Option<Bytes>, IoError>)
    ensures (forall i :: 0 <= i < |segs| ==> key !in segs[i].index) ==> r == Ok(None)
    ensures r.Ok? && r.value.Some? ==> |r.value.value| > 0
    ensures r.Err? ==> r.error == UnexpectedEof
    decreases |segs|
  {
    if |segs| == 0 then Ok(None)
    else
      var s := segs[|segs| - 1];
      if key in s.index then Hit(s, key)
      else
        var older := segs[..|segs| - 1];
        assert forall i :: 0 <= i < |older| ==> older[i] == segs[i];
        Get(older, key)
  }

  /** Some segment's index knows `key`. */
  predicate Holds(segs: seq<Segment>, key: Key) {
    exists i :: 0 <= i < |segs| && key in segs[i].index
  }

  /** Segment `i` is the newest whose index knows `key`. */
  predicate Newest(segs: seq<Segment>, key: Key, i: int) {
    && 0 <= i < |segs| && key in segs[i].index
    && forall j :: i < j < |segs| ==> key !in segs[j].index
  }

  /** Newest wins: the lookup answers what the newest segment that knows the key answers, even
      when that answer is a tombstone and an older segment holds a live value. */
  lemma {:induction false} GetNewestWins(segs: seq<Segment>, key: Key, i: nat)
    requires Newest(segs, key, i)
    ensures Get(segs, key) == Hit(segs[i], key)
    decreases |segs|
  {
    if i < |segs| - 1 {
      var older := segs[..|segs| - 1];
      assert older[i] == segs[i];
      assert forall j :: i < j < |older| ==> older[j] == segs[j];
      GetNewestWins(older, key, i);
    }
  }

  /** A key some segment knows has a newest such segment. */
  lemma {:induction false} NewestExists(segs: seq<Segment>, key: Key) returns (i: nat)
    requires Holds(segs, key)
    ensures Newest(segs, key, i)
    decreases |segs|
  {
    if key in segs[|segs| - 1].index {
      i := |segs| - 1;
    } else {
      var older := segs[..|segs| - 1];
      var j :| 0 <= j < |segs| && key in segs[j].index;
      assert older[j] == segs[j];
      i := NewestExists(older, key);
      assert older[i] == segs[i];
    }
  }

  /** With every file covering its index, the lookup never fails. */
  lemma {:induction false} AddressableGetOk(segs: seq<Segment>, key: Key)
    requires Addressable(segs)
    ensures Get(segs, key).Ok?
    decreases |segs|
  {
    if |segs| > 0 {
      var s := segs[|segs| - 1];
      if key !in s.index {
        var older := segs[..|segs| - 1];
        assert forall i :: 0 <= i < |older| ==> older[i] == segs[i];
        AddressableGetOk(older, key);
      } else {
        assert InBounds(s);
      }
    }
  }

  /** A newest segment that does not know `key` does not change whether any segment does. */
  lemma HoldsDropLast(segs: seq<Segment>, key: Key)
    requires |segs| > 0 && key !in segs[|segs| - 1].index
    ensures Holds(segs, key) <==> Holds(segs[..|segs| - 1], key)
  {
    var init := segs[..|segs| - 1];
    if Holds(segs, key) {
      var j :| 0 <= j < |segs| && key in segs[j].index;
      assert init[j] == segs[j];
    }
    if Holds(init, key) {
      var j :| 0 <= j < |init| && key in init[j].index;
      assert segs[j] == init[j];
    }
  }

  /** Looking up in `older + newer`: the newer segments decide whenever one of them knows the key. */
  lemma {:induction false} GetSplit(older: seq<Segment>, newer: seq<Segment>, key: Key)
    ensures Get(older + newer, key) == if Holds(newer, key) then Get(newer, key) else Get(older, key)
    decreases |newer|
  {
    var all := older + newer;
    if |newer| == 0 {
      assert all == older;
    } else {
      var s := newer[|newer| - 1];
      assert all[|all| - 1] == s;
      var init := newer[..|newer| - 1];
      assert all[..|all| - 1] == older + init;
      if key !in s.index {
        GetSplit(older, init, key);
        HoldsDropLast(newer, key);
      } else {
        assert key in newer[|newer| - 1].index;
      }
    }
  }

  /** Segments over the same files whose indexes are pairwise equivalent answer every lookup alike. */
  lemma {:induction false} GetEquivalent(a: seq<Segment>, b: seq<Segment>, key: Key)
    requires |a| == |b|
    requires forall i :: 0 <= i < |a| ==> a[i].log == b[i].log && Equivalent(a[i].index, b[i].index)
    ensures Get(a, key) == Get(b, key)
    decreases |a|
  {
    if |a| > 0 {
      var sa := a[|a| - 1];
      var sb := b[|b| - 1];
      assert a[|a| - 1].log == b[|b| - 1].log && Equivalent(sa.index, sb.index);
      if key !in sa.index {
        GetEquivalent(a[..|a| - 1], b[..|b| - 1], key);
      }
    }
  }

  /** Replacing the newest segment by one that answers `key` alike changes no answer for `key`. */
  lemma GetLastAgrees(older: seq<Segment>, s: Segment, s': Segment, key: Key)
    requires key in s.index <==> key in s'.index
    requires key in s.index ==> Hit(s, key) == Hit(s', key)
    ensures Get(older + [s], key) == Get(older + [s'], key)
  {
    assert (older + [s])[..|older|] == older;
    assert (older + [s'])[..|older|] == older;
  }

  /** Replacing the oldest segments by ones that answer `key` alike changes no answer for `key`. */
  lemma GetOlderAgrees(older: seq<Segment>, older': seq<Segment>, newer: seq<Segment>, key: Key)
    requires Get(older, key) == Get(older', key)
    ensures Get(older + newer, key) == Get(older' + newer, key)
  {
    GetSplit(older, newer, key);
    GetSplit(older', newer, key);
  }
}
