/**
 Segment file names and the order `Engine::new` opens segments in (`src/engine.rs`).

 A segment numbered `n` lives in the file `<dir>/<n>.log`, `n` written in decimal without
 leading zeros. `Engine::grow` reads the number back from the newest file's stem and creates the
 next one, so the engine relies on the segment list being in increasing number order.

 At open, the source sorts the segments by their path strings compared as text. Text order is
 not number order once numbers differ in length: `10.log` sorts before `9.log` (and before
 `2.log`). This module models that order as written (`ScanOrder`), shows what it does to a
 directory holding `9.log` and `10.log`, and defines the numeric order the engine needs
 (`NumericOrder`, used by `OpenDir`), with the proof that it produces increasing numbers.
 */
module SegmentNames {
  import opened Wrappers
  import opened LogFile
  import opened KeyIndex
  import opened StorageEngine

  // ---------------------------------------------------------------------------
  // Decimal file names

  predicate IsDigit(c: char) {
    '0' <= c <= '9'
  }

  predicate AllDigits(s: string) {
    forall i :: 0 <= i < |s| ==> IsDigit(s[i])
  }

  function Digit(d: nat): (c: char)
    requires d < 10
    ensures IsDigit(c)
  {
    ('0' as int + d) as char
  }

  function DigitValue(c: char): (d: nat)
    requires IsDigit(c)
    ensures d < 10
  {
    c as int - '0' as int
  }

  /** `u64::to_string`: the decimal digits of `n`, most significant first. */
  function Decimal(n: nat): (r: string)
    ensures 1 <= |r|
    ensures AllDigits(r)
    decreases n
  {
    if n < 10 then [Digit(n)] else Decimal(n / 10) + [Digit(n % 10)]
  }

  /** `str::parse::<u64>` on a non-empty string of digits. The empty string and other characters,
      which the source's parse rejects, never reach it here: it is applied only to stems that
      `Decimal` wrote. */
  function ParseDecimal(s: string): (r: nat)
    requires 1 <= |s| && AllDigits(s)
    ensures s[0] != '0' ==> r > 0
    decreases |s|
  {
    if |s| == 1 then DigitValue(s[0])
    else
      var init := s[..|s| - 1];
      assert forall i :: 0 <= i < |init| ==> init[i] == s[i];
      ParseDecimal(init) * 10 + DigitValue(s[|s| - 1])
  }

  /** Parsing the decimal digits of `n` gives `n` back. */
  lemma {:induction false} ParseDecimalOf(n: nat)
    ensures ParseDecimal(Decimal(n)) == n
    decreases n
  {
    if n >= 10 {
      var s := Decimal(n);
      assert s[..|s| - 1] == Decimal(n / 10);
      ParseDecimalOf(n / 10);
    }
  }

  /** A digit string as `to_string` writes one: no leading zero unless it is `0` itself. */
  predicate Canonical(s: string) {
    1 <= |s| && AllDigits(s) && (|s| == 1 || s[0] != '0')
  }

  /** The other direction: a digit string without leading zeros is the decimal form of the
      number it parses to. */
  lemma {:induction false} DecimalOfParse(s: string)
    requires Canonical(s)
    ensures Decimal(ParseDecimal(s)) == s
    decreases |s|
  {
    if |s| > 1 {
      var init := s[..|s| - 1];
      assert forall i :: 0 <= i < |init| ==> init[i] == s[i];
      DecimalOfParse(init);
      var d := DigitValue(s[|s| - 1]);
      var n := ParseDecimal(s);
      assert n == ParseDecimal(init) * 10 + d;
      assert n / 10 == ParseDecimal(init) && n % 10 == d;
      assert s == init + [s[|s| - 1]];
    }
  }

  /** The file name of segment `n`: a `.log` extension after a stem of decimal digits. */
  function FileName(n: nat): (r: string)
    ensures |r| >= 5 && r[|r| - 4..] == ".log"
    ensures AllDigits(r[..|r| - 4])
  {
    var r := Decimal(n) + ".log";
    assert r[..|r| - 4] == Decimal(n);
    r
  }

  /** The stem of a `.log` file name: the name without its four-character extension. */
  function Stem(file: string): string
    requires |file| >= 4
  {
    file[..|file| - 4]
  }

  /** `new_log_mono_increase` reads the number of the newest segment back from its file stem:
      the stem of segment `n`'s file is all digits and parses to `n`. */
  lemma StemParsesBack(n: nat)
    ensures |FileName(n)| >= 4
    ensures 1 <= |Stem(FileName(n))| && AllDigits(Stem(FileName(n)))
    ensures ParseDecimal(Stem(FileName(n))) == n
  {
    assert Stem(FileName(n)) == Decimal(n);
    ParseDecimalOf(n);
  }

  /** Different segments have different file names. */
  lemma FileNameInjective(a: nat, b: nat)
    requires FileName(a) == FileName(b)
    ensures a == b
  {
    StemParsesBack(a);
    StemParsesBack(b);
  }

  /** The path of segment `n` in directory `dir`. */
  function PathOf(dir: string, n: nat): (r: string)
    ensures |r| == |dir| + 1 + |FileName(n)|
    ensures r[..|dir|] == dir && r[|dir|] == '/' && r[|dir| + 1..] == FileName(n)
  {
    dir + "/" + FileName(n)
  }

  lemma PathOfInjective(dir: string, a: nat, b: nat)
    requires PathOf(dir, a) == PathOf(dir, b)
    ensures a == b
  {
    assert PathOf(dir, a)[|dir| + 1..] == FileName(a);
    assert PathOf(dir, b)[|dir| + 1..] == FileName(b);
    FileNameInjective(a, b);
  }

  // ---------------------------------------------------------------------------
  // Text order on paths

  /** The order of Rust's `str::cmp`: the first differing character decides, and a proper
      prefix comes first. */
  predicate PathLess(a: string, b: string)
    decreases |a|
  {
    |b| > 0 && (|a| == 0 || a[0] < b[0] || (a[0] == b[0] && PathLess(a[1..], b[1..])))
  }

  /** `str::cmp` is lexicographic: after a common prefix of length `i`, a string that ends there
      comes first, and otherwise the first differing character decides. */
  lemma {:induction false} PathLessLexicographic(a: string, b: string, i: nat)
    requires i <= |a| && i <= |b| && a[..i] == b[..i]
    ensures i == |a| && i < |b| ==> PathLess(a, b)
    ensures i < |a| && i < |b| && a[i] != b[i] ==> (PathLess(a, b) <==> a[i] < b[i])
    decreases i
  {
    if i > 0 {
      assert a[0] == a[..i][0] && b[0] == b[..i][0];
      assert a[1..][..i - 1] == a[..i][1..] && b[1..][..i - 1] == b[..i][1..];
      PathLessLexicographic(a[1..], b[1..], i - 1);
    }
  }

  lemma {:induction false} PathLessIrreflexive(a: string)
    ensures !PathLess(a, a)
    decreases |a|
  {
    if |a| > 0 {
      PathLessIrreflexive(a[1..]);
    }
  }

  lemma {:induction false} PathLessTransitive(a: string, b: string, c: string)
    requires PathLess(a, b) && PathLess(b, c)
    ensures PathLess(a, c)
    decreases |a|
  {
    if |a| > 0 && a[0] == b[0] && b[0] == c[0] {
      PathLessTransitive(a[1..], b[1..], c[1..]);
    }
  }

  lemma {:induction false} PathLessTotal(a: string, b: string)
    requires a != b
    ensures PathLess(a, b) || PathLess(b, a)
    decreases |a|
  {
    if |a| > 0 && |b| > 0 && a[0] == b[0] {
      assert a == [a[0]] + a[1..] && b == [b[0]] + b[1..];
      PathLessTotal(a[1..], b[1..]);
    }
  }

  /** A common prefix does not change the order: paths in one directory compare as their file
      names do. */
  lemma {:induction false} PathLessCommonPrefix(p: string, a: string, b: string)
    ensures PathLess(p + a, p + b) <==> PathLess(a, b)
    decreases |p|
  {
    if |p| == 0 {
      assert p + a == a && p + b == b;
    } else {
      assert (p + a)[1..] == p[1..] + a;
      assert (p + b)[1..] == p[1..] + b;
      PathLessCommonPrefix(p[1..], a, b);
    }
  }

  /** The comparison the open sorts by: segment `a`'s path before segment `b`'s, as text. */
  predicate PathOrder(dir: string, a: nat, b: nat) {
    PathLess(PathOf(dir, a), PathOf(dir, b))
  }

  /** Within one directory the path order is the text order of the file names. */
  lemma PathOrderIsFileNameOrder(dir: string, a: nat, b: nat)
    ensures PathOrder(dir, a, b) <==> PathLess(FileName(a), FileName(b))
  {
    assert PathOf(dir, a) == (dir + "/") + FileName(a);
    assert PathOf(dir, b) == (dir + "/") + FileName(b);
    PathLessCommonPrefix(dir + "/", FileName(a), FileName(b));
  }

  // ---------------------------------------------------------------------------
  // Sorting segments

  /** `less` is a strict total order on segment numbers. */
  ghost predicate StrictTotal(less: (nat, nat) -> bool) {
    && (forall a: nat :: !less(a, a))
    && (forall a: nat, b: nat, c: nat :: less(a, b) && less(b, c) ==> less(a, c))
    && (forall a: nat, b: nat :: a != b ==> less(a, b) || less(b, a))
  }

  /** No two segments share a number: a directory holds each path once. */
  predicate DistinctNames(logs: seq<Log>) {
    forall i, j :: 0 <= i < j < |logs| ==> logs[i].name != logs[j].name
  }

  /** Every segment comes before every later one in `less`. */
  ghost predicate Ascending(logs: seq<Log>, less: (nat, nat) -> bool) {
    forall i, j :: 0 <= i < j < |logs| ==> less(logs[i].name, logs[j].name)
  }

  /** Inserts `x` before the first segment that does not come before it. */
  function InsertBy(x: Log, s: seq<Log>, less: (nat, nat) -> bool): (r: seq<Log>)
    ensures multiset(r) == multiset(s) + multiset{x}
    decreases |s|
  {
    if |s| == 0 || !less(s[0].name, x.name) then [x] + s
    else
      assert s == [s[0]] + s[1..];
      [s[0]] + InsertBy(x, s[1..], less)
  }

  /** `slice::sort_by`: the segments rearranged into `less` order. (The source's sort is a
      stable merge sort; with distinct numbers every sort gives the same result.) */
  function SortBy(s: seq<Log>, less: (nat, nat) -> bool): (r: seq<Log>)
    ensures multiset(r) == multiset(s)
    decreases |s|
  {
    if |s| == 0 then []
    else
      assert s == [s[0]] + s[1..];
      InsertBy(s[0], SortBy(s[1..], less), less)
  }

  /** Every segment of `s` is one of `x` and the segments of `s`. */
  lemma MultisetMember(x: Log, s: seq<Log>, r: seq<Log>, k: nat)
    requires multiset(r) == multiset(s) + multiset{x}
    requires k < |r| && r[k] != x
    ensures exists j :: 0 <= j < |s| && s[j] == r[k]
  {
    assert r[k] in multiset(r);
    assert r[k] in multiset(s);
  }

  /** Inserting in front of a segment that comes after `x` keeps the order. */
  lemma InsertFrontAscending(x: Log, s: seq<Log>, less: (nat, nat) -> bool)
    requires StrictTotal(less)
    requires Ascending(s, less)
    requires |s| == 0 || less(x.name, s[0].name)
    ensures Ascending([x] + s, less)
  {
    var r := [x] + s;
    forall i, j | 0 <= i < j < |r|
      ensures less(r[i].name, r[j].name)
    {
      if i == 0 && j > 1 {
        assert r[j] == s[j - 1] && less(s[0].name, s[j - 1].name);
      } else if i > 0 {
        assert r[i] == s[i - 1] && r[j] == s[j - 1];
      }
    }
  }

  /** Putting `y` before a list of segments that all come after it keeps the order. */
  lemma ConsAscending(y: Log, r: seq<Log>, less: (nat, nat) -> bool)
    requires Ascending(r, less)
    requires forall k :: 0 <= k < |r| ==> less(y.name, r[k].name)
    ensures Ascending([y] + r, less)
  {
    var r' := [y] + r;
    forall i, j | 0 <= i < j < |r'|
      ensures less(r'[i].name, r'[j].name)
    {
      assert r'[j] == r[j - 1];
      if i > 0 {
        assert r'[i] == r[i - 1];
      }
    }
  }

  lemma {:induction false} InsertByAscending(x: Log, s: seq<Log>, less: (nat, nat) -> bool)
    requires StrictTotal(less)
    requires Ascending(s, less)
    requires forall i :: 0 <= i < |s| ==> s[i].name != x.name
    ensures Ascending(InsertBy(x, s, less), less)
    decreases |s|
  {
    if |s| == 0 || !less(s[0].name, x.name) {
      if |s| > 0 {
        assert s[0].name != x.name;
      }
      InsertFrontAscending(x, s, less);
    } else {
      var rest := s[1..];
      assert Ascending(rest, less) by {
        assert forall i, j :: 0 <= i < j < |rest| ==> rest[i] == s[i + 1] && rest[j] == s[j + 1];
      }
      InsertByAscending(x, rest, less);
      var r' := InsertBy(x, rest, less);
      forall k | 0 <= k < |r'|
        ensures less(s[0].name, r'[k].name)
      {
        if r'[k] != x {
          MultisetMember(x, rest, r', k);
          var j :| 0 <= j < |rest| && rest[j] == r'[k];
          assert s[j + 1] == rest[j];
        }
      }
      ConsAscending(s[0], r', less);
    }
  }

  /** A rearrangement of segments none of which is numbered like `x` has none either. */
  lemma PermutationAvoids(x: Log, s: seq<Log>, r: seq<Log>)
    requires multiset(r) == multiset(s)
    requires forall j :: 0 <= j < |s| ==> s[j].name != x.name
    ensures forall i :: 0 <= i < |r| ==> r[i].name != x.name
  {
    forall i | 0 <= i < |r|
      ensures r[i].name != x.name
    {
      assert r[i] in multiset(s);
      var j :| 0 <= j < |s| && s[j] == r[i];
    }
  }

  /** The segments after the first of a list with distinct numbers have distinct numbers, none
      numbered like the first. */
  lemma DistinctTail(s: seq<Log>)
    requires |s| > 0 && DistinctNames(s)
    ensures DistinctNames(s[1..])
    ensures forall j :: 0 <= j < |s[1..]| ==> s[1..][j].name != s[0].name
  {
    var rest := s[1..];
    assert forall j :: 0 <= j < |rest| ==> rest[j] == s[j + 1];
  }

  /** Sorting segments with distinct numbers by a strict total order leaves them ascending. */
  lemma {:induction false} SortByAscending(s: seq<Log>, less: (nat, nat) -> bool)
    requires StrictTotal(less)
    requires DistinctNames(s)
    ensures Ascending(SortBy(s, less), less)
    decreases |s|
  {
    if |s| > 0 {
      DistinctTail(s);
      SortByAscending(s[1..], less);
      PermutationAvoids(s[0], s[1..], SortBy(s[1..], less));
      InsertByAscending(s[0], SortBy(s[1..], less), less);
    }
  }

  // ---------------------------------------------------------------------------
  // The open order as written

  /** The path order is a strict total order on segment numbers. */
  lemma PathOrderStrictTotal(dir: string)
    ensures StrictTotal((a: nat, b: nat) => PathOrder(dir, a, b))
  {
    forall a: nat
      ensures !PathOrder(dir, a, a)
    {
      PathLessIrreflexive(PathOf(dir, a));
    }
    forall a: nat, b: nat, c: nat | PathOrder(dir, a, b) && PathOrder(dir, b, c)
      ensures PathOrder(dir, a, c)
    {
      PathLessTransitive(PathOf(dir, a), PathOf(dir, b), PathOf(dir, c));
    }
    forall a: nat, b: nat | a != b
      ensures PathOrder(dir, a, b) || PathOrder(dir, b, a)
    {
      if PathOf(dir, a) == PathOf(dir, b) {
        PathOfInjective(dir, a, b);
      }
      PathLessTotal(PathOf(dir, a), PathOf(dir, b));
    }
  }

  /** The open order as written: `slice::sort_by` comparing the lossy string form of each
      segment's path, so the segments found in `dir` come out sorted by their paths as text. */
  function ScanOrder(dir: string, files: seq<Log>): (r: seq<Log>)
    ensures multiset(r) == multiset(files)
  {
    SortBy(files, (a: nat, b: nat) => PathOrder(dir, a, b))
  }

  /** The segments come out in path order. */
  lemma ScanOrderSorted(dir: string, files: seq<Log>)
    requires DistinctNames(files)
    ensures forall i, j :: 0 <= i < j < |ScanOrder(dir, files)| ==>
      PathOrder(dir, ScanOrder(dir, files)[i].name, ScanOrder(dir, files)[j].name)
  {
    PathOrderStrictTotal(dir);
    SortByAscending(files, (a: nat, b: nat) => PathOrder(dir, a, b));
  }

  lemma DecimalNineAndTen()
    ensures Decimal(9) == "9" && Decimal(10) == "10" && Decimal(0) == "0"
  {
    assert Decimal(1) == "1";
  }

  /** Segment 10's path sorts before segment 9's. */
  lemma TenBeforeNine(dir: string)
    ensures PathOrder(dir, 10, 9)
    ensures !PathOrder(dir, 9, 10)
  {
    DecimalNineAndTen();
    PathOrderIsFileNameOrder(dir, 10, 9);
    PathOrderIsFileNameOrder(dir, 9, 10);
    assert FileName(10)[0] == '1' && FileName(9)[0] == '9';
  }

  /** A segment file holding one record. */
  function OneRecord(key: Key, value: Bytes): Bytes {
    Append([], key, value).file
  }

  /** A one-record segment rebuilds to an index holding just its key, and answers that key with
      the record's value. */
  lemma LoadOneRecord(key: Key, value: Bytes)
    requires Fits64(|key|) && Fits64(|value|)
    ensures LoadFromLog(OneRecord(key, value)) == Ok(map[key := Location(2 * LEN_BYTES + |key|, |value|)])
    ensures |value| > 0 ==>
      var data := OneRecord(key, value);
      Lookup.Hit(Lookup.Segment(data, LoadFromLog(data).value), key) == Ok(Some(value))
  {
    var a := Append([], key, value);
    var l := Location(2 * LEN_BYTES + |key|, |value|);
    assert a.offset == l.offset;
    LoadEmpty();
    LoadAfterAppend([], key, value);
    assert Insert(New(), key, l) == map[key := l];
    ReadAppended([], key, value);
  }

  /** A directory where segment 9 set `key` to `v9` and the newer segment 10 set it to `v10`. */
  function StaleDir(key: Key, v9: Bytes, v10: Bytes): seq<Log> {
    [Log(9, OneRecord(key, v9)), Log(10, OneRecord(key, v10))]
  }

  /** As written, segment 10 is opened as the older one: the lookup answers the value segment 9
      holds, although segment 10 overwrote it. */
  lemma ScanOrderServesStaleValue(dir: string, key: Key, v9: Bytes, v10: Bytes)
    requires Fits64(|key|) && Fits64(|v9|) && Fits64(|v10|) && |v9| > 0 && |v10| > 0
    ensures ScanOrder(dir, StaleDir(key, v9, v10)) == [StaleDir(key, v9, v10)[1], StaleDir(key, v9, v10)[0]]
    ensures Open(ScanOrder(dir, StaleDir(key, v9, v10))).Ok?
    ensures !NamesIncreasing(Open(ScanOrder(dir, StaleDir(key, v9, v10))).value.logs)
    ensures StorageEngine.Get(Open(ScanOrder(dir, StaleDir(key, v9, v10))).value, key) == Ok(Some(v9))
  {
    var files := StaleDir(key, v9, v10);
    TenBeforeNine(dir);
    SortByTwo(files[0], files[1], (a: nat, b: nat) => PathOrder(dir, a, b));
    OpenTenThenNine(key, v9, v10);
  }

  /** Segments 10 then 9, each holding one record for `key`: the lookup answers segment 9's value. */
  lemma OpenTenThenNine(key: Key, v9: Bytes, v10: Bytes)
    requires Fits64(|key|) && Fits64(|v9|) && Fits64(|v10|) && |v9| > 0 && |v10| > 0
    ensures var o := Open([StaleDir(key, v9, v10)[1], StaleDir(key, v9, v10)[0]]);
      && o.Ok? && !NamesIncreasing(o.value.logs) && StorageEngine.Get(o.value, key) == Ok(Some(v9))
  {
    var files := StaleDir(key, v9, v10);
    LoadOneRecord(key, v9);
    LoadOneRecord(key, v10);
    var sorted := [files[1], files[0]];
    var e := Open(sorted).value;
    assert e.logs == sorted && e.maps[1] == LoadFromLog(files[0].data).value;
    assert Segments(e)[1] == Lookup.Segment(files[0].data, LoadFromLog(files[0].data).value);
    Lookup.GetNewestWins(Segments(e), key, 1);
  }

  /** Two segments in the wrong order are swapped; in the right order they stay. */
  lemma SortByTwo(x: Log, y: Log, less: (nat, nat) -> bool)
    ensures less(y.name, x.name) ==> SortBy([x, y], less) == [y, x]
    ensures !less(y.name, x.name) ==> SortBy([x, y], less) == [x, y]
  {
    assert [x, y][1..] == [y];
    assert SortBy([y], less) == [y];
    assert [y][1..] == [];
  }

  /** The sort of three segments where `x` comes first and `z` before `y`. */
  lemma SortByThree(x: Log, y: Log, z: Log, less: (nat, nat) -> bool)
    requires less(z.name, y.name) && !less(y.name, x.name) && !less(z.name, x.name)
    ensures SortBy([x, y, z], less) == [x, z, y]
  {
    assert [x, y, z][1..] == [y, z];
    SortByTwo(y, z, less);
  }

  /** Segment 0's path sorts before segment 9's and segment 10's. */
  lemma ZeroFirst(dir: string)
    ensures !PathOrder(dir, 9, 0) && !PathOrder(dir, 10, 0)
  {
    DecimalNineAndTen();
    PathOrderIsFileNameOrder(dir, 9, 0);
    PathOrderIsFileNameOrder(dir, 10, 0);
    assert FileName(0)[0] == '0' && FileName(9)[0] == '9' && FileName(10)[0] == '1';
  }

  /** Three segments numbered 0, 9 and 10 in that order. */
  predicate ZeroNineTen(files: seq<Log>) {
    |files| == 3 && files[0].name == 0 && files[1].name == 9 && files[2].name == 10
  }

  /** Segments 0, 9 and 10 come out of the as-written sort as 0, 10, 9. */
  lemma ScanOrderOfThree(dir: string, files: seq<Log>)
    requires ZeroNineTen(files)
    ensures ScanOrder(dir, files) == [files[0], files[2], files[1]]
  {
    TenBeforeNine(dir);
    ZeroFirst(dir);
    assert files == [files[0], files[1], files[2]];
    SortByThree(files[0], files[1], files[2], (a: nat, b: nat) => PathOrder(dir, a, b));
  }

  /** As written, after opening segments 0, 9 and 10 the engine takes 9 as the newest, and its
      next segment gets the number 10 again: creating that file fails because it exists. */
  lemma ScanOrderRepeatsName(dir: string, files: seq<Log>)
    requires ZeroNineTen(files)
    requires forall i :: 0 <= i < |files| ==> LoadFromLog(files[i].data).Ok?
    ensures Open(ScanOrder(dir, files)).Ok?
    ensures var e := Open(ScanOrder(dir, files)).value;
      |e.logs| == |e.maps| == 3 && Grow(e).logs[3].name == e.logs[1].name == 10
  {
    ScanOrderOfThree(dir, files);
    LoadsLastTwoSwapped(files, ScanOrder(dir, files));
    GrowAfterMisorder(ScanOrder(dir, files));
  }

  /** Swapping the last two of three segments keeps every one of them loadable. */
  lemma LoadsLastTwoSwapped(files: seq<Log>, swapped: seq<Log>)
    requires |files| == 3 && swapped == [files[0], files[2], files[1]]
    requires forall i :: 0 <= i < |files| ==> LoadFromLog(files[i].data).Ok?
    ensures forall i :: 0 <= i < |swapped| ==> LoadFromLog(swapped[i].data).Ok?
  {
    forall i | 0 <= i < |swapped|
      ensures LoadFromLog(swapped[i].data).Ok?
    {
      if i == 0 {
        assert swapped[i] == files[0];
      } else if i == 1 {
        assert swapped[i] == files[2];
      } else {
        assert swapped[i] == files[1];
      }
    }
  }

  /** Segments opened with 10 before 9 at the end grow a segment numbered 10. */
  lemma GrowAfterMisorder(logs: seq<Log>)
    requires |logs| == 3 && logs[1].name == 10 && logs[2].name == 9
    requires forall i :: 0 <= i < |logs| ==> LoadFromLog(logs[i].data).Ok?
    ensures Open(logs).Ok? && |Open(logs).value.logs| == |Open(logs).value.maps| == 3
    ensures Grow(Open(logs).value).logs[3].name == Open(logs).value.logs[1].name == 10
  {
    var e := Open(logs).value;
    assert e.logs == logs;
    assert LastLog(e.logs) == Some(logs[2]);
  }

  // ---------------------------------------------------------------------------
  // The open order the engine needs

  /** Segments sorted by number, oldest first. */
  function NumericOrder(files: seq<Log>): (r: seq<Log>)
    ensures multiset(r) == multiset(files)
  {
    SortBy(files, (a: nat, b: nat) => a < b)
  }

  /** Sorting by number lists the segments in increasing number, as the engine requires. */
  lemma NumericOrderIncreasing(files: seq<Log>)
    requires DistinctNames(files)
    ensures NamesIncreasing(NumericOrder(files))
    ensures |NumericOrder(files)| == |files|
  {
    SortByAscending(files, (a: nat, b: nat) => a < b);
    assert |multiset(NumericOrder(files))| == |multiset(files)|;
  }

  /** Whether every segment file parses does not depend on their order. */
  lemma AllLoad(a: seq<Log>, b: seq<Log>)
    requires multiset(a) == multiset(b)
    ensures (forall i :: 0 <= i < |a| ==> LoadFromLog(a[i].data).Ok?)
        <==> (forall i :: 0 <= i < |b| ==> LoadFromLog(b[i].data).Ok?)
  {
    if forall i :: 0 <= i < |a| ==> LoadFromLog(a[i].data).Ok? {
      forall i | 0 <= i < |b|
        ensures LoadFromLog(b[i].data).Ok?
      {
        assert b[i] in multiset(a);
        var j :| 0 <= j < |a| && a[j] == b[i];
      }
    }
    if forall i :: 0 <= i < |b| ==> LoadFromLog(b[i].data).Ok? {
      forall i | 0 <= i < |a|
        ensures LoadFromLog(a[i].data).Ok?
      {
        assert a[i] in multiset(b);
        var j :| 0 <= j < |b| && b[j] == a[i];
      }
    }
  }

  /** `Engine::new` on the segment files of a directory, opened in number order. */
  function OpenDir(files: seq<Log>): (r: Result<Engine, IoError>)
    ensures r.Ok? <==> forall i :: 0 <= i < |files| ==> LoadFromLog(files[i].data).Ok?
    ensures r.Err? ==> r.error == CorruptSegment
  {
    var sorted := NumericOrder(files);
    AllLoad(files, sorted);
    Open(sorted)
  }

  /** Opening a directory in number order gives a valid engine, newest segment last. */
  lemma OpenDirValid(files: seq<Log>)
    requires DistinctNames(files)
    requires OpenDir(files).Ok?
    ensures Valid(OpenDir(files).value)
  {
    NumericOrderIncreasing(files);
    OpenValid(NumericOrder(files));
  }

  /** Opened in number order, the directory of the counterexample answers the newest value. */
  lemma OpenDirServesNewest(key: Key, v9: Bytes, v10: Bytes)
    requires Fits64(|key|) && Fits64(|v9|) && Fits64(|v10|) && |v9| > 0 && |v10| > 0
    ensures OpenDir(StaleDir(key, v9, v10)).Ok?
    ensures StorageEngine.Get(OpenDir(StaleDir(key, v9, v10)).value, key) == Ok(Some(v10))
  {
    var files := StaleDir(key, v9, v10);
    SortByTwo(files[0], files[1], (a: nat, b: nat) => a < b);
    assert NumericOrder(files) == files;
    LoadOneRecord(key, v9);
    LoadOneRecord(key, v10);
    var e := Open(files).value;
    assert e.logs == files && e.maps[1] == LoadFromLog(files[1].data).value;
    assert Segments(e)[1] == Lookup.Segment(files[1].data, LoadFromLog(files[1].data).value);
    Lookup.GetNewestWins(Segments(e), key, 1);
  }
}
