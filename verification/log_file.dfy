/**
 The on-disk segment format of `src/log.rs`.

 A segment file is a flat byte string of records
   key_len:u64 big-endian | key | value_len:u64 big-endian | value
 `Append` adds one record at the end and returns the offset of its value bytes,
 `Read` returns an exact slice, and `Next`/`Iterate` parse a whole file back into
 entries that carry the offsets of their key and value bytes.
 */
module LogFile {
  import opened Wrappers

  type byte = b: int | 0 <= b < 256
  type Bytes = seq<byte>

  /** Width of each length prefix: a big-endian u64. */
  const LEN_BYTES: nat := 8
  /** 2^64, one more than the largest u64. */
  const U64_LIMIT: nat := 0x1_0000_0000_0000_0000

  type u64 = n: nat | n < U64_LIMIT

  /** A length that a u64 prefix represents without loss. */
  predicate Fits64(n: nat) {
    n < U64_LIMIT
  }

  /** The failures the format code can report. */
  datatype IoError =
    | UnexpectedEof   // read_exact ran past the end of the file
    | InvalidLength   // from_log_len_bytes was given other than 8 bytes
    | CorruptSegment  // a record is cut short: the source panics here

  // ---------------------------------------------------------------------------
  // Big-endian integers

  function Pow256(width: nat): (r: nat)
    ensures r >= 1
  {
    if width == 0 then 1 else 256 * Pow256(width - 1)
  }

  lemma Pow256Eight()
    ensures Pow256(LEN_BYTES) == U64_LIMIT
  {
    assert Pow256(0) == 1;
    assert Pow256(4) == 0x1_0000_0000;
  }

  /** The low `width` bytes of `n`, most significant first. */
  function ToBigEndian(n: nat, width: nat): (r: Bytes)
    ensures |r| == width
    decreases width
  {
    if width == 0 then [] else ToBigEndian(n / 256, width - 1) + [(n % 256) as byte]
  }

  /** The number whose big-endian bytes are `s`. */
  function FromBigEndian(s: Bytes): (r: nat)
    ensures r < Pow256(|s|)
  {
    if |s| == 0 then 0 else FromBigEndian(s[..|s| - 1]) * 256 + s[|s| - 1]
  }

  lemma ModUnique(n: int, d: int, q: int, r: int)
    requires d > 0 && 0 <= r < d && n == d * q + r
    ensures n % d == r && n / d == q
  {
    var q' := n / d;
    var r' := n % d;
    assert n == d * q' + r';
    MulAtLeast(d, q' + 1, q);
    MulAtLeast(d, q + 1, q');
  }

  lemma MulAtLeast(d: int, a: int, b: int)
    requires d > 0
    ensures a <= b ==> d * a <= d * b
  {
  }

  lemma ModDigits(n: nat, p: nat)
    requires p >= 1
    ensures ((n / 256) % p) * 256 + n % 256 == n % (256 * p)
  {
    var q := n / 256;
    var a := q / p;
    var b := q % p;
    assert q == p * a + b;
    assert n == (256 * p) * a + (256 * b + n % 256);
    ModUnique(n, 256 * p, a, 256 * b + n % 256);
  }

  /** Decoding the `width` low bytes of `n` gives `n` modulo 256^width. */
  lemma {:induction false} FromToBigEndian(n: nat, width: nat)
    ensures FromBigEndian(ToBigEndian(n, width)) == n % Pow256(width)
  {
    if width > 0 {
      var s := ToBigEndian(n, width);
      assert s[..width - 1] == ToBigEndian(n / 256, width - 1);
      FromToBigEndian(n / 256, width - 1);
      ModDigits(n, Pow256(width - 1));
    }
  }

  /** Re-encoding a decoded byte string gives the same bytes. */
  lemma {:induction false} ToFromBigEndian(s: Bytes)
    ensures ToBigEndian(FromBigEndian(s), |s|) == s
  {
    if |s| > 0 {
      var init := s[..|s| - 1];
      var hi := FromBigEndian(init);
      var lo := s[|s| - 1];
      var n := hi * 256 + lo;
      assert n / 256 == hi && n % 256 == lo;
      ToFromBigEndian(init);
      assert s == init + [lo];
    }
  }

  // ---------------------------------------------------------------------------
  // LogRecordLen

  /** `u64::to_log_len_bytes`: the 8 big-endian bytes of `len`, written out digit by digit; they
      decode back to `len`. */
  function EncodeLen(len: u64): (r: Bytes)
    ensures |r| == LEN_BYTES
    ensures DecodeLen(r) == Ok(len)
  {
    var r := [ (len / 0x100_0000_0000_0000 % 256) as byte, (len / 0x1_0000_0000_0000 % 256) as byte,
      (len / 0x100_0000_0000 % 256) as byte, (len / 0x1_0000_0000 % 256) as byte,
      (len / 0x100_0000 % 256) as byte, (len / 0x1_0000 % 256) as byte,
      (len / 0x100 % 256) as byte, (len % 256) as byte ];
    assert r == ToBigEndian(len, LEN_BYTES) by {
      forall i | 0 <= i < LEN_BYTES
        ensures r[i] == ToBigEndian(len, LEN_BYTES)[i]
      {
        BigEndianDigit(len, LEN_BYTES, i);
      }
    }
    DecodeBigEndian(len, LEN_BYTES);
    r
  }

  lemma EncodeLenIsBigEndian(len: u64)
    ensures EncodeLen(len) == ToBigEndian(len, LEN_BYTES)
  {
    forall i | 0 <= i < LEN_BYTES
      ensures EncodeLen(len)[i] == ToBigEndian(len, LEN_BYTES)[i]
    {
      BigEndianDigit(len, LEN_BYTES, i);
    }
  }

  lemma DivDiv(n: nat, a: nat, b: nat)
    requires a > 0 && b > 0
    ensures n / a / b == n / (a * b)
  {
    var q := n / a / b;
    var r := (n / a) % b * a + n % a;
    assert n / a == b * q + (n / a) % b;
    assert n == a * (n / a) + n % a;
    assert n == (a * b) * q + r;
    MulAtLeast(a, (n / a) % b + 1, b);
    ModUnique(n, a * b, q, r);
  }

  /** Byte `i` of the `width`-byte big-endian form of `n` is digit `width - 1 - i` of `n` in base 256. */
  lemma {:induction false} BigEndianDigit(n: nat, width: nat, i: nat)
    requires i < width
    ensures ToBigEndian(n, width)[i] == (n / Pow256(width - 1 - i)) % 256
    decreases width
  {
    if i < width - 1 {
      BigEndianDigit(n / 256, width - 1, i);
      DivDiv(n, 256, Pow256(width - 2 - i));
    }
  }


  /** `u64::from_log_len_bytes`: fails unless given exactly 8 bytes. */
  function DecodeLen(bytes: Bytes): (r: Result<u64, IoError>)
    ensures r.Ok? <==> |bytes| == LEN_BYTES
    ensures r.Err? ==> r.error == InvalidLength
  {
    if |bytes| != LEN_BYTES then Err(InvalidLength)
    else
      Pow256Eight();
      var n: u64 := FromBigEndian(bytes);
      Ok(n)
  }

  /** Decoding the bytes `to_log_len_bytes` wrote gives the length back. */
  lemma DecodeEncodeLen(len: u64)
    ensures DecodeLen(EncodeLen(len)) == Ok(len)
  {
    EncodeLenIsBigEndian(len);
    DecodeBigEndian(len, LEN_BYTES);
  }

  lemma DecodeBigEndian(len: u64, width: nat)
    requires width == LEN_BYTES
    ensures DecodeLen(ToBigEndian(len, width)) == Ok(len)
  {
    FromToBigEndian(len, width);
    Pow256Eight();
  }

  /** Every 8-byte prefix is the encoding of the length it decodes to. */
  lemma EncodeDecodeLen(bytes: Bytes)
    requires DecodeLen(bytes).Ok?
    ensures EncodeLen(DecodeLen(bytes).value) == bytes
  {
    EncodeLenIsBigEndian(DecodeLen(bytes).value);
    ToFromBigEndian(bytes);
  }

  /** The prefix `Log::append` writes for a slice of `len` bytes: `(len as u64).to_be_bytes()`.
      A Rust slice is shorter than 2^64 bytes, so the reduction below never changes `len`
      on a 64-bit target; it is written out so that the encoding stays total. */
  function LengthPrefix(len: nat): (r: Bytes)
    ensures |r| == LEN_BYTES
    ensures Fits64(len) ==> DecodeLen(r) == Ok(len)
  {
    DecodeEncodeLenOf(len);
    EncodeLen(len % U64_LIMIT)
  }

  lemma DecodeEncodeLenOf(len: nat)
    ensures Fits64(len) ==> DecodeLen(EncodeLen(len % U64_LIMIT)) == Ok(len)
  {
    if Fits64(len) {
      assert len % U64_LIMIT == len;
      DecodeEncodeLen(len);
    }
  }

  // ---------------------------------------------------------------------------
  // Log: size, append, read

  /** `Log::size`: the file length in bytes, which is exactly how far reads reach. */
  function Size(file: Bytes): (r: nat)
    ensures forall offset: nat, len: nat :: offset + len <= r ==> Read(file, offset, len).Ok?
    ensures forall offset: nat, len: nat :: 0 < len && Read(file, offset, len).Ok? ==> offset + len <= r
  {
    |file|
  }

  /** The bytes of one record. */
  function Record(key: Bytes, value: Bytes): (r: Bytes)
    ensures |r| == 2 * LEN_BYTES + |key| + |value|
  {
    LengthPrefix(|key|) + key + LengthPrefix(|value|) + value
  }

  /** The file after an append, and the offset `Log::append` returned. */
  datatype Appended = Appended(file: Bytes, offset: nat)

  /** `Log::append`: writes key length, key, value length, value at the end of the file and
      returns the position of the value bytes. */
  function Append(file: Bytes, key: Bytes, value: Bytes): (r: Appended)
    ensures |r.file| == |file| + 2 * LEN_BYTES + |key| + |value|
    ensures r.offset == |file| + 2 * LEN_BYTES + |key|
  {
    Appended(file + Record(key, value), |file| + 2 * LEN_BYTES + |key|)
  }

  /** What `Append` writes: the old bytes unchanged, then the key's length prefix, the key, the
      value's length prefix and the value, with the returned offset at the first value byte. */
  lemma AppendLayout(file: Bytes, key: Bytes, value: Bytes)
    ensures var r := Append(file, key, value);
      && r.file[..|file|] == file
      && r.file[|file|..|file| + LEN_BYTES] == LengthPrefix(|key|)
      && r.file[|file| + LEN_BYTES..r.offset - LEN_BYTES] == key
      && r.file[r.offset - LEN_BYTES..r.offset] == LengthPrefix(|value|)
      && r.file[r.offset..] == value
  {
    RecordLayout(file, key, value);
  }

  lemma ConcatSlices(a: Bytes, b: Bytes)
    ensures (a + b)[..|a|] == a && (a + b)[|a|..] == b
  {
  }

  lemma PrefixSlice(a: Bytes, b: Bytes, i: nat, j: nat)
    requires i <= j <= |a|
    ensures (a + b)[i..j] == a[i..j]
  {
  }

  lemma RecordLayout(file: Bytes, key: Bytes, value: Bytes)
    ensures var f := file + Record(key, value);
      var o := |file| + 2 * LEN_BYTES + |key|;
      && f[..|file|] == file
      && f[|file|..|file| + LEN_BYTES] == LengthPrefix(|key|)
      && f[|file| + LEN_BYTES..o - LEN_BYTES] == key
      && f[o - LEN_BYTES..o] == LengthPrefix(|value|)
      && f[o..] == value
  {
    var a1 := file + LengthPrefix(|key|);
    var a2 := a1 + key;
    var a3 := a2 + LengthPrefix(|value|);
    var f := a3 + value;
    assert file + Record(key, value) == f;
    ConcatSlices(a3, value);
    PrefixSlice(a3, value, 0, |file|);
    PrefixSlice(a3, value, |file|, |a1|);
    PrefixSlice(a3, value, |a1|, |a2|);
    PrefixSlice(a3, value, |a2|, |a3|);
    ConcatSlices(a2, LengthPrefix(|value|));
    PrefixSlice(a2, LengthPrefix(|value|), 0, |file|);
    PrefixSlice(a2, LengthPrefix(|value|), |file|, |a1|);
    PrefixSlice(a2, LengthPrefix(|value|), |a1|, |a2|);
    ConcatSlices(a1, key);
    PrefixSlice(a1, key, 0, |file|);
    PrefixSlice(a1, key, |file|, |a1|);
    ConcatSlices(file, LengthPrefix(|key|));
    assert a3[..|file|] == file;
    assert a3[|file|..|a1|] == LengthPrefix(|key|);
    assert a3[|a1|..|a2|] == key;
    assert a3[|a2|..] == LengthPrefix(|value|);
  }

  /** `Log::read`: exactly `len` bytes from `offset`, or `UnexpectedEof` when the file is shorter.
      Seeking past the end is allowed, so a read of no bytes succeeds wherever it starts. */
  function Read(file: Bytes, offset: nat, len: nat): (r: Result<Bytes, IoError>)
    ensures r.Ok? <==> len == 0 || offset + len <= |file|
    ensures r.Ok? ==> |r.value| == len
    ensures r.Ok? && offset + len <= |file| ==> r.value == file[offset..offset + len]
    ensures r.Err? ==> r.error == UnexpectedEof
  {
    if len == 0 then Ok([])
    else if offset + len <= |file| then Ok(file[offset..offset + len])
    else Err(UnexpectedEof)
  }

  /** Reading at the offset `Append` returned, for the value's length, gives the value back. */
  lemma ReadAppended(file: Bytes, key: Bytes, value: Bytes)
    ensures var a := Append(file, key, value); Read(a.file, a.offset, |value|) == Ok(value)
  {
    var a := Append(file, key, value);
    AppendLayout(file, key, value);
    assert a.file[a.offset..a.offset + |value|] == a.file[a.offset..];
  }

  /** Appending never changes what an in-bounds read returns. */
  lemma ReadStable(file: Bytes, extra: Bytes, offset: nat, len: nat)
    requires Read(file, offset, len).Ok?
    ensures Read(file + extra, offset, len) == Read(file, offset, len)
  {
    if len > 0 {
      assert (file + extra)[offset..offset + len] == file[offset..offset + len];
    }
  }

  // ---------------------------------------------------------------------------
  // LogIterator

  /** A field of a parsed record: where its bytes start, how many there are, and the bytes. */
  datatype Point = Point(offset: nat, len: nat, value: Bytes)

  datatype LogEntry = LogEntry(key: Point, value: Point)

  /** One call of `LogIterator::next` at position `index`. */
  datatype Step =
    | Done                                 // None: the index is at or past the end
    | Corrupt                              // the source panics on an out-of-bounds slice
    | Yield(entry: LogEntry, next: nat)    // Some(entry); the iterator moves to `next`

  /** `p` describes the bytes of `data` it claims to. */
  predicate PointIn(data: Bytes, p: Point) {
    p.offset + p.len <= |data| && p.value == data[p.offset..p.offset + p.len]
  }

  /** `e` is a well-formed record starting at `index` and ending just before `next`. */
  predicate EntryAt(data: Bytes, index: nat, e: LogEntry, next: nat) {
    && e.key.offset == index + LEN_BYTES
    && e.value.offset == e.key.offset + e.key.len + LEN_BYTES
    && next == e.value.offset + e.value.len
    && next <= |data|
    && PointIn(data, e.key) && PointIn(data, e.value)
    && Fits64(e.key.len) && Fits64(e.value.len)
  }

  /** `LogIterator::next`. */
  function Next(data: Bytes, index: nat): (r: Step)
    ensures r.Done? <==> index >= |data|
    ensures r.Yield? ==> r.next == index + 2 * LEN_BYTES + r.entry.key.len + r.entry.value.len <= |data|
  {
    if index >= |data| then Done
    else if index + LEN_BYTES > |data| then Corrupt
    else
      var klen := DecodeLen(data[index..index + LEN_BYTES]).value;
      var i := index + LEN_BYTES;
      if i + klen > |data| then Corrupt
      else
        var key := Point(i, klen, data[i..i + klen]);
        var j := i + klen;
        if j + LEN_BYTES > |data| then Corrupt
        else
          var vlen := DecodeLen(data[j..j + LEN_BYTES]).value;
          var k := j + LEN_BYTES;
          if k + vlen > |data| then Corrupt
          else Yield(LogEntry(key, Point(k, vlen, data[k..k + vlen])), k + vlen)
  }

  /** All entries from `index` to the end of the file, or the corruption that stops the scan. */
  function ParseFrom(data: Bytes, index: nat): (r: Result<seq<LogEntry>, IoError>)
    ensures r.Err? ==> r.error == CorruptSegment
    ensures index >= |data| ==> r == Ok([])
    decreases |data| - index
  {
    match Next(data, index)
    case Done => Ok([])
    case Corrupt => Err(CorruptSegment)
    case Yield(e, next) =>
      match ParseFrom(data, next)
      case Err(err) => Err(err)
      case Ok(rest) => Ok([e] + rest)
  }

  /** Every entry a successful scan yields describes bytes that really are in the file, with
      lengths a `u64` prefix can carry. */
  lemma {:induction false} ParseFromWellFormed(data: Bytes, index: nat)
    requires ParseFrom(data, index).Ok?
    ensures forall e :: e in ParseFrom(data, index).value ==>
      PointIn(data, e.key) && PointIn(data, e.value) && Fits64(e.key.len) && Fits64(e.value.len)
    decreases |data| - index
  {
    match Next(data, index)
    case Done =>
    case Yield(e, next) =>
      NextEntryAt(data, index);
      ParseFromWellFormed(data, next);
      assert ParseFrom(data, index).value == [e] + ParseFrom(data, next).value;
  }

  /** A record `Next` accepts is laid out as the format says: an 8-byte prefix that encodes the key
      length, the key, a prefix that encodes the value length, the value. */
  lemma NextEntryAt(data: Bytes, index: nat)
    requires Next(data, index).Yield?
    ensures EntryAt(data, index, Next(data, index).entry, Next(data, index).next)
  {
    var i := index + LEN_BYTES;
    EncodeDecodeLen(data[index..i]);
    var j := i + DecodeLen(data[index..i]).value;
    EncodeDecodeLen(data[j..j + LEN_BYTES]);
  }

  /** `Log::iter` drained to the end: every entry of the file, in file order. */
  function Iterate(data: Bytes): (r: Result<seq<LogEntry>, IoError>)
    ensures r.Err? ==> r.error == CorruptSegment
    ensures |data| == 0 ==> r == Ok([])
    ensures r.Ok? ==> forall j :: 0 <= j < |r.value| ==> PointIn(data, r.value[j].key) && PointIn(data, r.value[j].value)
  {
    var r := ParseFrom(data, 0);
    if r.Ok? then
      ParseFromWellFormed(data, 0);
      assert forall j :: 0 <= j < |r.value| ==> r.value[j] in r.value;
      r
    else r
  }

  /** A cut-off length prefix is corruption, not the end of the file. */
  lemma TruncatedPrefixIsCorrupt(data: Bytes, index: nat)
    requires index < |data| < index + LEN_BYTES
    ensures Next(data, index) == Corrupt
  {
  }

  /** A length prefix that promises more key bytes than the file holds is corruption. */
  lemma OverlongKeyIsCorrupt(data: Bytes, index: nat)
    requires index + LEN_BYTES <= |data|
    requires index + LEN_BYTES + FromBigEndian(data[index..index + LEN_BYTES]) > |data|
    ensures Next(data, index) == Corrupt
  {
  }

  /** The entry `Next` yields for a record appended at the end of `file`. */
  function AppendedEntry(file: Bytes, key: Bytes, value: Bytes): LogEntry {
    LogEntry(Point(|file| + LEN_BYTES, |key|, key), Point(|file| + 2 * LEN_BYTES + |key|, |value|, value))
  }

  lemma NextOnLongerData(data: Bytes, extra: Bytes, index: nat)
    requires Next(data, index).Yield?
    ensures Next(data + extra, index) == Next(data, index)
  {
    var d := data + extra;
    var i := index + LEN_BYTES;
    PrefixSlice(data, extra, index, i);
    var klen := DecodeLen(data[index..i]).value;
    var j := i + klen;
    PrefixSlice(data, extra, i, j);
    PrefixSlice(data, extra, j, j + LEN_BYTES);
    var vlen := DecodeLen(data[j..j + LEN_BYTES]).value;
    var k := j + LEN_BYTES;
    PrefixSlice(data, extra, k, k + vlen);
  }

  /** `Next` on a complete record whose two prefixes decode to `klen` and `vlen`. */
  lemma NextOfCompleteRecord(data: Bytes, index: nat, klen: nat, vlen: nat)
    requires index + 2 * LEN_BYTES + klen + vlen <= |data|
    requires DecodeLen(data[index..index + LEN_BYTES]) == Ok(klen)
    requires DecodeLen(data[index + LEN_BYTES + klen..index + 2 * LEN_BYTES + klen]) == Ok(vlen)
    ensures var i := index + LEN_BYTES; var k := i + klen + LEN_BYTES;
      Next(data, index) == Yield(LogEntry(Point(i, klen, data[i..i + klen]), Point(k, vlen, data[k..k + vlen])), k + vlen)
  {
  }

  lemma NextAtAppend(file: Bytes, key: Bytes, value: Bytes)
    requires Fits64(|key|) && Fits64(|value|)
    ensures Next(file + Record(key, value), |file|) == Yield(AppendedEntry(file, key, value), |file| + |Record(key, value)|)
  {
    var d := file + Record(key, value);
    var i := |file| + LEN_BYTES;
    var j := i + |key|;
    var k := j + LEN_BYTES;
    RecordLayout(file, key, value);
    NextOfCompleteRecord(d, |file|, |key|, |value|);
    assert d[k..k + |value|] == d[k..];
  }

  /** Parsing a file that gained one complete record yields the old entries and then the new one. */
  lemma {:induction false} ParseFromExtend(file: Bytes, rec: Bytes, e: LogEntry, index: nat)
    requires Next(file + rec, |file|) == Yield(e, |file| + |rec|)
    requires index <= |file| && ParseFrom(file, index).Ok?
    ensures ParseFrom(file + rec, index) == Ok(ParseFrom(file, index).value + [e])
    decreases |file| - index
  {
    var d := file + rec;
    if index == |file| {
      assert Next(d, |d|) == Done;
      assert ParseFrom(d, |d|) == Ok([]);
      assert Next(d, index) == Yield(e, |d|);
      assert ParseFrom(d, index) == Ok([e] + []);
      assert Next(file, index) == Done;
      assert ParseFrom(file, index) == Ok([]);
      assert [e] + [] == [] + [e];
    } else {
      var r := Next(file, index);
      NextOnLongerData(file, rec, index);
      ParseFromExtend(file, rec, e, r.next);
      assert [r.entry] + (ParseFrom(file, r.next).value + [e]) == ([r.entry] + ParseFrom(file, r.next).value) + [e];
    }
  }

  lemma ParseFromAppend(file: Bytes, key: Bytes, value: Bytes, index: nat)
    requires Fits64(|key|) && Fits64(|value|)
    requires index <= |file| && ParseFrom(file, index).Ok?
    ensures ParseFrom(Append(file, key, value).file, index)
      == Ok(ParseFrom(file, index).value + [AppendedEntry(file, key, value)])
  {
    NextAtAppend(file, key, value);
    ParseFromExtend(file, Record(key, value), AppendedEntry(file, key, value), index);
  }

  /** Iterating after an append: the old entries, then one whose value offset is what `Append` returned. */
  lemma IterateAppend(file: Bytes, key: Bytes, value: Bytes)
    requires Fits64(|key|) && Fits64(|value|)
    requires Iterate(file).Ok?
    ensures var a := Append(file, key, value);
      && Iterate(a.file) == Ok(Iterate(file).value + [AppendedEntry(file, key, value)])
      && AppendedEntry(file, key, value).key.value == key
      && AppendedEntry(file, key, value).value.value == value
      && AppendedEntry(file, key, value).value.offset == a.offset
  {
    ParseFromAppend(file, key, value, 0);
  }

  // ---------------------------------------------------------------------------
  // A file built by a sequence of appends

  datatype KeyValue = KeyValue(key: Bytes, value: Bytes)

  /** The file left by appending `records` in order to an empty log, and the offsets each append returned. */
  function AppendAll(records: seq<KeyValue>): (r: (Bytes, seq<nat>))
    ensures |r.1| == |records|
    decreases |records|
  {
    if |records| == 0 then ([], [])
    else
      var prev := AppendAll(records[..|records| - 1]);
      var last := records[|records| - 1];
      var a := Append(prev.0, last.key, last.value);
      (a.file, prev.1 + [a.offset])
  }

  /** `entries` carry the keys and values of `records` in order, each value at the matching offset. */
  predicate ListsRecords(entries: seq<LogEntry>, records: seq<KeyValue>, offsets: seq<nat>) {
    && |entries| == |records| == |offsets|
    && forall j :: 0 <= j < |records| ==>
         && entries[j].key.value == records[j].key
         && entries[j].value.value == records[j].value
         && entries[j].value.offset == offsets[j]
  }

  /** Iterating a file built by appends gives back the same pairs in order, each value at the offset
      its append returned. */
  lemma {:induction false} IterateAppendAll(records: seq<KeyValue>)
    requires forall j :: 0 <= j < |records| ==> Fits64(|records[j].key|) && Fits64(|records[j].value|)
    ensures Iterate(AppendAll(records).0).Ok?
    ensures ListsRecords(Iterate(AppendAll(records).0).value, records, AppendAll(records).1)
    decreases |records|
  {
    if |records| == 0 {
      assert Iterate([]) == Ok([]);
    } else {
      var init := records[..|records| - 1];
      var last := records[|records| - 1];
      IterateAppendAll(init);
      var prev := AppendAll(init);
      var es := Iterate(prev.0).value;
      IterateAppend(prev.0, last.key, last.value);
      var e := AppendedEntry(prev.0, last.key, last.value);
      var a := Append(prev.0, last.key, last.value);
      assert AppendAll(records) == (a.file, prev.1 + [a.offset]);
      assert records == init + [last];
      ListsRecordsSnoc(es, init, prev.1, e, last, a.offset);
    }
  }

  /** One more entry that lists one more record keeps the listing. */
  lemma ListsRecordsSnoc(es: seq<LogEntry>, records: seq<KeyValue>, offsets: seq<nat>,
                         e: LogEntry, kv: KeyValue, offset: nat)
    requires ListsRecords(es, records, offsets)
    requires e.key.value == kv.key && e.value.value == kv.value && e.value.offset == offset
    ensures ListsRecords(es + [e], records + [kv], offsets + [offset])
  {
    var es', records', offsets' := es + [e], records + [kv], offsets + [offset];
    forall j | 0 <= j < |records'|
      ensures es'[j].key.value == records'[j].key
      ensures es'[j].value.value == records'[j].value
      ensures es'[j].value.offset == offsets'[j]
    {
      if j < |records| {
        assert es'[j] == es[j] && records'[j] == records[j] && offsets'[j] == offsets[j];
      }
    }
  }

  /** Reading each record back at (returned offset, value length) gives the value that was stored. */
  lemma {:induction false} ReadBackAppendAll(records: seq<KeyValue>)
    ensures var (file, offsets) := AppendAll(records);
      forall j :: 0 <= j < |records| ==> Read(file, offsets[j], |records[j].value|) == Ok(records[j].value)
    decreases |records|
  {
    if |records| > 0 {
      var init := records[..|records| - 1];
      var last := records[|records| - 1];
      ReadBackAppendAll(init);
      var prev := AppendAll(init);
      var a := Append(prev.0, last.key, last.value);
      ReadAppended(prev.0, last.key, last.value);
      assert a.file == prev.0 + Record(last.key, last.value);
      forall j | 0 <= j < |init|
        ensures Read(a.file, prev.1[j], |records[j].value|) == Ok(records[j].value)
      {
        assert records[j] == init[j];
        ReadStable(prev.0, Record(last.key, last.value), prev.1[j], |records[j].value|);
      }
    }
  }
}
