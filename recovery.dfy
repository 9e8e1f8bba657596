/** Recovery (`getKeyDir`): rebuild the keyDir by reading the log from offset
    0, one header and one payload at a time, until a header read returns no
    bytes. */
module Recovery {
  import opened Codec
  import opened Log
  import opened Index

  /** How recovery (and a read in `Get`) can fail. */
  datatype Error =
    | ReadEOF        // a payload read at end of file returned io.EOF
    | EOFReadingKey  // a payload read returned 0 bytes without an error
    | DecodePanic    // decodeKV sliced past the end of its buffer

  datatype Result<T> = Ok(value: T) | Err(error: Error)

  /** What one iteration of the recovery loop does. */
  datatype Step =
    | End                 // the header read returned no bytes
    | Fail(error: Error)  // the iteration returned an error
    | Install(key: Bytes, entry: KeyEntry, nextPos: nat, nextOffset: nat)

  /** One iteration of the recovery loop, with the read handle at pos and the
      running offset at offset: read a header, read the payload it announces,
      decode the key, and install an entry for it. The read position and the
      running offset move together except after a short payload read, which
      leaves the position at end of file and the offset past it. */
  function StepAt(file: Bytes, pos: nat, offset: nat): (s: Step)
    requires pos <= |file|
    ensures s.Install? ==> pos < s.nextPos <= |file|
  {
    var header := ReadAt(file, pos, HeaderSize);
    if header.eof || header.count == 0 then End
    else PayloadStep(file, pos + header.count, offset, header.buf)
  }

  /** The rest of an iteration once a header has been read into headerBuf
      and the read handle has moved to kvPos: read the payload. */
  function PayloadStep(file: Bytes, kvPos: nat, offset: nat, headerBuf: Bytes): (s: Step)
    requires kvPos <= |file| && |headerBuf| == HeaderSize
    ensures s.Install? ==> kvPos <= s.nextPos <= |file|
    ensures s.Install? ==> s.nextPos == kvPos + ReadAt(file, kvPos, Wrap32(DecodeHeader(headerBuf).keySize + DecodeHeader(headerBuf).valueSize)).count
  {
    var h := DecodeHeader(headerBuf);
    var kv := ReadAt(file, kvPos, Wrap32(h.keySize + h.valueSize));
    if kv.eof then Fail(ReadEOF)
    else if kv.count == 0 then Fail(EOFReadingKey)
    else DecodeStep(h, DecodeKV(headerBuf + kv.buf), kvPos + kv.count, offset)
  }

  /** The end of an iteration once the header h and the payload have been
      read, the record bytes have been decoded, and the read handle has moved
      to nextPos: install the decoded key. */
  function DecodeStep(h: Header, decoded: Option<Record>, nextPos: nat, offset: nat): (s: Step)
    ensures s.Install? ==> s.nextPos == nextPos
  {
    match decoded
    case None => Fail(DecodePanic)
    case Some(rec) =>
      var totalSize := Wrap32(HeaderSize + h.keySize + h.valueSize);
      Install(rec.key, KeyEntry(h.timestamp, Wrap32(offset), totalSize), nextPos, offset + totalSize)
  }

  /** Replay from read position pos, with the running offset and the index
      built so far, until a header read finds nothing or an error occurs. */
  function ReplayFrom(file: Bytes, pos: nat, offset: nat, dir: KeyDir): Result<KeyDir>
    requires pos <= |file|
    decreases |file| - pos, 1
  {
    Continue(file, pos, StepAt(file, pos, offset), dir)
  }

  /** What replay does after the iteration at pos ended with step s. */
  function Continue(file: Bytes, pos: nat, s: Step, dir: KeyDir): Result<KeyDir>
    requires pos <= |file| && (s.Install? ==> pos < s.nextPos <= |file|)
    decreases |file| - pos, 0
  {
    match s
    case End => Ok(dir)
    case Fail(e) => Err(e)
    case Install(key, entry, nextPos, nextOffset) => ReplayFrom(file, nextPos, nextOffset, dir[key := entry])
  }

  /** The outcome of recovering the whole file. */
  function Replay(file: Bytes): Result<KeyDir> {
    ReplayFrom(file, 0, 0, map[])
  }

  /** getKeyDir's loop over the file contents. */
  method GetKeyDir(file: Bytes) returns (r: Result<KeyDir>)
    ensures r == Replay(file)
  {
    var keyDir: KeyDir := map[];
    var pos: nat := 0;     // position of the read handle
    var offset: nat := 0;  // start of the record being read, as counted by the loop
    while true
      invariant pos <= |file|
      invariant ReplayFrom(file, pos, offset, keyDir) == Replay(file)
      decreases |file| - pos
    {
      ghost var start := pos;
      var header := ReadAt(file, pos, HeaderSize);
      if header.eof || header.count == 0 {
        ReplayEnd(file, start, offset, keyDir);
        break;
      }
      pos := pos + header.count;
      HeaderStep(file, start, offset, header, pos);
      ghost var kvPos := pos;
      var h := DecodeHeader(header.buf);
      var kv := ReadAt(file, pos, Wrap32(h.keySize + h.valueSize));
      PayloadRead(file, kvPos, offset, header.buf, h, kv);
      if kv.eof {
        ReplayFail(file, start, offset, keyDir, ReadEOF);
        return Err(ReadEOF);
      }
      if kv.count == 0 {
        ReplayFail(file, start, offset, keyDir, EOFReadingKey);
        return Err(EOFReadingKey);
      }
      pos := pos + kv.count;
      var decoded := DecodeKV(header.buf + kv.buf);
      if decoded.None? {
        assert DecodeStep(h, decoded, pos, offset) == Fail(DecodePanic);
        ReplayFail(file, start, offset, keyDir, DecodePanic);
        return Err(DecodePanic);
      }
      var totalSize := Wrap32(HeaderSize + h.keySize + h.valueSize);
      var entry := KeyEntry(h.timestamp, Wrap32(offset), totalSize);
      var key := decoded.value.key;
      var nextOffset := offset + totalSize;
      assert DecodeStep(h, decoded, pos, offset) == Install(key, entry, pos, nextOffset);
      ReplayInstall(file, start, offset, keyDir, key, entry, pos, nextOffset);
      keyDir := keyDir[key := entry];
      offset := nextOffset;
    }
    return Ok(keyDir);
  }

  /** A record whose key and value are not both empty. */
  predicate HasPayload(r: Record) {
    |r.key| + |r.value| > 0
  }

  /** Records the store can write and read back: uint32 fields, a log whose
      offsets fit in uint32. */
  predicate WellFormed(rs: seq<Record>) {
    AllFit(rs) && TotalSize(rs) < Uint32Limit
  }

  /** Replay stops cleanly when a header read finds the end of the file. */
  lemma ReplayStopsAtEnd(file: Bytes, offset: nat, dir: KeyDir)
    ensures ReplayFrom(file, |file|, offset, dir) == Ok(dir)
  {
    ReadAtEnd(file, HeaderSize);
  }

  /** One whole record at the read position is installed at the running
      offset, with its total size, and the position and offset move past it. */
  lemma StepRecord(before: Bytes, r: Record, after: Bytes, offset: nat)
    requires Fits(r) && HasPayload(r) && RecordSize(r) < Uint32Limit
    ensures StepAt(before + Encode(r) + after, |before|, offset)
         == Install(r.key, KeyEntry(r.timestamp, Wrap32(offset), RecordSize(r)),
                    |before| + RecordSize(r), offset + RecordSize(r))
  {
    var e := Encode(r);
    var file := before + e + after;
    var p := |before|;
    ReadWithin(file, p, HeaderSize);
    assert file[p..p + HeaderSize] == e[..HeaderSize];
    EncodedHeader(r.timestamp, r.key, r.value);
    var n := |r.key| + |r.value|;
    ReadWithin(file, p + HeaderSize, n);
    assert file[p + HeaderSize..p + HeaderSize + n] == e[HeaderSize..];
    assert e[..HeaderSize] + e[HeaderSize..] == e;
    DecodeEncodeKV(r.timestamp, r.key, r.value);
  }

  /** Unfolding one iteration that installs an entry. */
  lemma ReplayInstall(file: Bytes, pos: nat, offset: nat, dir: KeyDir,
                      key: Bytes, entry: KeyEntry, nextPos: nat, nextOffset: nat)
    requires pos <= |file| && StepAt(file, pos, offset) == Install(key, entry, nextPos, nextOffset)
    ensures ReplayFrom(file, pos, offset, dir) == ReplayFrom(file, nextPos, nextOffset, dir[key := entry])
  {
  }

  /** A whole record at the read position of a file, which is also the
      running offset, is installed at that position. */
  lemma StepRecordAt(file: Bytes, pos: nat, r: Record, next: nat)
    requires Fits(r) && HasPayload(r) && RecordSize(r) < Uint32Limit && pos < Uint32Limit
    requires next == pos + RecordSize(r) && next <= |file| && file[pos..next] == Encode(r)
    ensures StepAt(file, pos, pos) == Install(r.key, KeyEntry(r.timestamp, pos, RecordSize(r)), next, next)
  {
    assert file == file[..pos] + Encode(r) + file[next..];
    StepRecord(file[..pos], r, file[next..], pos);
  }

  /** A run of records is its first record followed by the rest, in sizes
      and in bytes. */
  lemma SplitFirst(file: Bytes, pos: nat, next: nat, end: nat, rs: seq<Record>)
    requires AllFit(rs) && rs != [] && next == pos + RecordSize(rs[0])
    requires end == pos + TotalSize(rs) && end <= |file| && file[pos..end] == Serialize(rs)
    ensures AllFit(rs[1..]) && end == next + TotalSize(rs[1..])
    ensures file[pos..next] == Encode(rs[0]) && file[next..end] == Serialize(rs[1..])
  {
    TotalSizeFirst(rs);
    SerializeFirst(rs);
    var log := file[pos..end];
    assert file[pos..next] == log[..RecordSize(rs[0])];
    assert file[next..end] == log[RecordSize(rs[0])..];
  }

  /** The index of a run of records is the entry of its first record
      overridden by the index of the rest. */
  lemma IndexFirst(dir: KeyDir, pos: nat, rs: seq<Record>, next: nat)
    requires rs != [] && next == pos + RecordSize(rs[0])
    ensures dir + IndexFrom(pos, rs)
         == dir[rs[0].key := KeyEntry(rs[0].timestamp, pos, RecordSize(rs[0]))] + IndexFrom(next, rs[1..])
  {
    var r, rest := rs[0], rs[1..];
    assert rs == [r] + rest;
    assert [r][..0] == [];
    IndexFromAppend(pos, [r], rest);
  }

  /** Replaying a run of whole records that sits at the read position (and
      at the running offset) installs their index and moves past them. */
  lemma {:induction false} ReplayRecords(file: Bytes, pos: nat, end: nat, dir: KeyDir, rs: seq<Record>)
    requires AllFit(rs) && forall i :: 0 <= i < |rs| ==> HasPayload(rs[i])
    requires end == pos + TotalSize(rs) && end <= |file| && end < Uint32Limit
    requires file[pos..end] == Serialize(rs)
    ensures ReplayFrom(file, pos, pos, dir) == ReplayFrom(file, end, end, dir + IndexFrom(pos, rs))
    decreases |rs|
  {
    if rs == [] {
      assert dir + IndexFrom(pos, rs) == dir;
    } else {
      var r, rest := rs[0], rs[1..];
      var next := pos + RecordSize(r);
      var e := KeyEntry(r.timestamp, pos, RecordSize(r));
      SplitFirst(file, pos, next, end, rs);
      IndexFirst(dir, pos, rs, next);
      StepRecordAt(file, pos, r, next);
      ReplayInstall(file, pos, pos, dir, r.key, e, next, next);
      assert forall i :: 0 <= i < |rest| ==> HasPayload(rest[i]) by {
        forall i | 0 <= i < |rest| ensures HasPayload(rest[i]) {
          assert rest[i] == rs[i + 1];
        }
      }
      ReplayRecords(file, next, end, dir[r.key := e], rest);
    }
  }

  /** Replay of a file that starts with the records rs reaches the end of
      them with their index installed. */
  lemma ReplayPrefix(file: Bytes, rs: seq<Record>)
    requires WellFormed(rs) && forall i :: 0 <= i < |rs| ==> HasPayload(rs[i])
    requires TotalSize(rs) <= |file| && file[..TotalSize(rs)] == Serialize(rs)
    ensures Replay(file) == ReplayFrom(file, TotalSize(rs), TotalSize(rs), IndexFrom(0, rs))
  {
    assert file[0..TotalSize(rs)] == file[..TotalSize(rs)];
    ReplayRecords(file, 0, TotalSize(rs), map[], rs);
    assert map[] + IndexFrom(0, rs) == IndexFrom(0, rs);
  }

  /** Replay reproduces the index: recovering a log of whole records installs,
      for each key, its last record at the sum of the sizes of all records
      before it. */
  lemma ReplayReproducesIndex(file: Bytes, rs: seq<Record>)
    requires WellFormed(rs)
    requires forall i :: 0 <= i < |rs| ==> HasPayload(rs[i])
    requires file == Serialize(rs)
    ensures Replay(file) == Ok(IndexFrom(0, rs))
  {
    ReplayPrefix(file, rs);
    ReplayStopsAtEnd(file, TotalSize(rs), IndexFrom(0, rs));
  }

  /** The first stage of an iteration: a header read that returned bytes
      hands over to the payload read at the position after them. */
  lemma HeaderStep(file: Bytes, pos: nat, offset: nat, header: ReadResult, kvPos: nat)
    requires pos <= |file| && header == ReadAt(file, pos, HeaderSize)
    requires !header.eof && header.count != 0 && kvPos == pos + header.count
    ensures kvPos <= |file| && |header.buf| == HeaderSize
    ensures StepAt(file, pos, offset) == PayloadStep(file, kvPos, offset, header.buf)
  {
  }

  /** The second stage of an iteration, given the header h decoded from
      headerBuf and the payload read kv. */
  lemma PayloadRead(file: Bytes, kvPos: nat, offset: nat, headerBuf: Bytes, h: Header, kv: ReadResult)
    requires kvPos <= |file| && |headerBuf| == HeaderSize && h == DecodeHeader(headerBuf)
    requires kv == ReadAt(file, kvPos, Wrap32(h.keySize + h.valueSize))
    ensures kvPos + kv.count <= |file|
    ensures PayloadStep(file, kvPos, offset, headerBuf)
         == if kv.eof then Fail(ReadEOF)
            else if kv.count == 0 then Fail(EOFReadingKey)
            else DecodeStep(h, DecodeKV(headerBuf + kv.buf), kvPos + kv.count, offset)
  {
  }

  /** Unfolding one iteration that finds the end of the log. */
  lemma ReplayEnd(file: Bytes, pos: nat, offset: nat, dir: KeyDir)
    requires pos <= |file| && StepAt(file, pos, offset) == End
    ensures ReplayFrom(file, pos, offset, dir) == Ok(dir)
  {
  }

  /** Unfolding one iteration that fails. */
  lemma ReplayFail(file: Bytes, pos: nat, offset: nat, dir: KeyDir, e: Error)
    requires pos <= |file| && StepAt(file, pos, offset) == Fail(e)
    ensures ReplayFrom(file, pos, offset, dir) == Err(e)
  {
  }

  /** A whole header at the read position is read in full and decodes to the
      fields it encodes. */
  lemma HeaderAt(file: Bytes, pos: nat, h: Header, kvPos: nat)
    requires HeaderFits(h) && kvPos == pos + HeaderSize && kvPos <= |file|
    requires file[pos..kvPos] == EncodeHeader(h)
    ensures ReadAt(file, pos, HeaderSize) == ReadResult(EncodeHeader(h), HeaderSize, false)
    ensures DecodeHeader(EncodeHeader(h)) == h
  {
    ReadWithin(file, pos, HeaderSize);
    HeaderRoundTrip(h);
  }

  /** An iteration that meets a record with an empty key and an empty value
      fails: its payload read asks for 0 bytes and gets 0. */
  lemma StepEmptyRecord(file: Bytes, pos: nat, offset: nat, timestamp: nat, kvPos: nat)
    requires IsUint32(timestamp) && kvPos == pos + HeaderSize && kvPos <= |file|
    requires file[pos..kvPos] == EncodeKV(timestamp, [], [])
    ensures StepAt(file, pos, offset) == Fail(EOFReadingKey)
  {
    var h := Header(timestamp, 0, 0);
    assert EncodeKV(timestamp, [], []) == EncodeHeader(h);
    HeaderAt(file, pos, h, kvPos);
    assert ReadAt(file, kvPos, 0) == ReadResult([], 0, false);
  }

  /** An iteration that meets a header at the very end of the file, announcing
      a payload whose uint32 length is not 0 (wrapped or not), fails with
      io.EOF. */
  lemma StepMissingPayload(file: Bytes, pos: nat, offset: nat, h: Header)
    requires HeaderFits(h) && Wrap32(h.keySize + h.valueSize) > 0
    requires pos + HeaderSize == |file| && file[pos..] == EncodeHeader(h)
    ensures StepAt(file, pos, offset) == Fail(ReadEOF)
  {
    HeaderAt(file, pos, h, |file|);
    ReadAtEnd(file, Wrap32(h.keySize + h.valueSize));
  }

  /** An iteration that meets a header whose key and value sizes add up to
      2^32 or more fails: the uint32 payload length wraps, so the payload read
      asks for 0 bytes (and the loop reports a missing key) or for fewer bytes
      than the header announces (and decodeKV panics). */
  lemma StepWrappedPayload(file: Bytes, pos: nat, offset: nat, h: Header, kvPos: nat)
    requires HeaderFits(h) && h.keySize + h.valueSize >= Uint32Limit
    requires kvPos == pos + HeaderSize && kvPos < |file| && file[pos..kvPos] == EncodeHeader(h)
    ensures StepAt(file, pos, offset)
         == Fail(if h.keySize + h.valueSize == Uint32Limit then EOFReadingKey else DecodePanic)
  {
    var sum := h.keySize + h.valueSize;
    HeaderAt(file, pos, h, kvPos);
    HeaderStep(file, pos, offset, ReadAt(file, pos, HeaderSize), kvPos);
    var n := Wrap32(sum);
    assert n == sum - Uint32Limit;
    var headerBytes := EncodeHeader(h);
    var kv := ReadAt(file, kvPos, n);
    PayloadRead(file, kvPos, offset, headerBytes, h, kv);
    if n > 0 {
      var data := headerBytes + kv.buf;
      assert data[..HeaderSize] == headerBytes;
      assert DecodeKV(data) == None;
    }
  }

  /** An iteration that meets fewer than 12 bytes fails, whatever they are. */
  lemma StepShortHeader(file: Bytes, pos: nat, offset: nat)
    requires pos < |file| < pos + HeaderSize
    ensures StepAt(file, pos, offset).Fail?
  {
    ReadPastEnd(file, pos, HeaderSize);
    var h := DecodeHeader(ReadAt(file, pos, HeaderSize).buf);
    ReadAtEnd(file, Wrap32(h.keySize + h.valueSize));
  }

  /** An iteration that meets the header and key of a record and only the
      start of its value installs the key with the record's full size: the
      short payload read reports a positive count and no error. */
  lemma StepTruncatedValue(file: Bytes, pos: nat, r: Record, cut: nat, kvPos: nat, next: nat)
    requires Fits(r) && RecordSize(r) < Uint32Limit && pos < Uint32Limit
    requires HeaderSize + |r.key| <= cut < RecordSize(r) && HeaderSize < cut
    requires |file| == pos + cut && file[pos..] == Encode(r)[..cut]
    requires kvPos == pos + HeaderSize && next == pos + RecordSize(r)
    ensures StepAt(file, pos, pos) == Install(r.key, KeyEntry(r.timestamp, pos, RecordSize(r)), |file|, next)
  {
    var h := Header(r.timestamp, |r.key|, |r.value|);
    var headerBytes := EncodeHeader(h);
    var e := Encode(r);
    assert e == headerBytes + r.key + r.value;
    assert file[pos..kvPos] == headerBytes by {
      assert file[pos..kvPos] == e[..cut][..HeaderSize];
    }
    HeaderAt(file, pos, h, kvPos);
    HeaderStep(file, pos, pos, ReadAt(file, pos, HeaderSize), kvPos);
    var n := |r.key| + |r.value|;
    ReadPastEnd(file, kvPos, n);
    var kv := ReadAt(file, kvPos, n);
    PayloadRead(file, kvPos, pos, headerBytes, h, kv);
    var rest := file[kvPos..];
    assert rest == e[HeaderSize..cut];
    assert rest[..|r.key|] == r.key by {
      assert e[HeaderSize..cut][..|r.key|] == e[HeaderSize..HeaderSize + |r.key|] == r.key;
    }
    assert kv.buf[..|r.key|] == r.key by {
      assert kv.buf == rest + Zeros(kvPos + n - |file|);
      assert (rest + Zeros(kvPos + n - |file|))[..|r.key|] == rest[..|r.key|];
    }
    DecodeHeaderAndPayload(h, kv.buf);
  }

  /** Replay of a file that starts with whole records and then meets an
      iteration that fails returns that iteration's error. */
  lemma ReplayFailsAfter(file: Bytes, pre: seq<Record>, n: nat, e: Error)
    requires WellFormed(pre) && forall i :: 0 <= i < |pre| ==> HasPayload(pre[i])
    requires n == TotalSize(pre) && n <= |file| && file[..n] == Serialize(pre)
    requires StepAt(file, n, n) == Fail(e)
    ensures Replay(file) == Err(e)
  {
    ReplayPrefix(file, pre);
    ReplayFail(file, n, n, IndexFrom(0, pre), e);
  }

  /** A record with an empty key and an empty value makes recovery fail: its
      payload read asks for 0 bytes and gets 0, which the loop takes for a
      missing key. */
  lemma ReplayRejectsEmptyRecord(file: Bytes, pre: seq<Record>, timestamp: nat, rest: Bytes)
    requires WellFormed(pre) && IsUint32(timestamp)
    requires forall i :: 0 <= i < |pre| ==> HasPayload(pre[i])
    requires file == Serialize(pre) + EncodeKV(timestamp, [], []) + rest
    ensures Replay(file) == Err(EOFReadingKey)
  {
    var n := TotalSize(pre);
    var kvPos := n + HeaderSize;
    assert file[..n] == Serialize(pre) && file[n..kvPos] == EncodeKV(timestamp, [], []);
    StepEmptyRecord(file, n, n, timestamp, kvPos);
    ReplayFailsAfter(file, pre, n, EOFReadingKey);
  }

  /** A log cut just after a header that announces a payload of non-zero
      uint32 length fails recovery with io.EOF. */
  lemma ReplayRejectsMissingPayload(file: Bytes, pre: seq<Record>, h: Header)
    requires WellFormed(pre) && HeaderFits(h) && Wrap32(h.keySize + h.valueSize) > 0
    requires forall i :: 0 <= i < |pre| ==> HasPayload(pre[i])
    requires file == Serialize(pre) + EncodeHeader(h)
    ensures Replay(file) == Err(ReadEOF)
  {
    var n := TotalSize(pre);
    assert file[..n] == Serialize(pre) && file[n..] == EncodeHeader(h);
    StepMissingPayload(file, n, n, h);
    ReplayFailsAfter(file, pre, n, ReadEOF);
  }

  /** A log whose last header is cut short fails recovery. */
  lemma ReplayRejectsShortHeader(file: Bytes, pre: seq<Record>, tail: Bytes)
    requires WellFormed(pre) && 0 < |tail| < HeaderSize
    requires forall i :: 0 <= i < |pre| ==> HasPayload(pre[i])
    requires file == Serialize(pre) + tail
    ensures Replay(file).Err?
  {
    var n := TotalSize(pre);
    assert file[..n] == Serialize(pre);
    StepShortHeader(file, n, n);
    ReplayFailsAfter(file, pre, n, StepAt(file, n, n).error);
  }

  /** A log that meets a header whose key and value sizes add up to 2^32 or
      more, followed by at least one byte, fails recovery. */
  lemma ReplayRejectsWrappedPayload(file: Bytes, pre: seq<Record>, h: Header, rest: Bytes)
    requires WellFormed(pre) && forall i :: 0 <= i < |pre| ==> HasPayload(pre[i])
    requires HeaderFits(h) && h.keySize + h.valueSize >= Uint32Limit && rest != []
    requires file == Serialize(pre) + EncodeHeader(h) + rest
    ensures Replay(file)
         == Err(if h.keySize + h.valueSize == Uint32Limit then EOFReadingKey else DecodePanic)
  {
    var n := TotalSize(pre);
    var kvPos := n + HeaderSize;
    assert file[..n] == Serialize(pre) && file[n..kvPos] == EncodeHeader(h);
    StepWrappedPayload(file, n, n, h, kvPos);
    ReplayFailsAfter(file, pre, n, StepAt(file, n, n).error);
  }

  /** The last record of a run that the store can write: its own fields fit,
      the records before it are well formed, and its entry is the last one
      installed. */
  lemma LastRecord(pre: seq<Record>, r: Record)
    requires WellFormed(pre + [r])
    ensures WellFormed(pre) && Fits(r) && TotalSize(pre) + RecordSize(r) < Uint32Limit
    ensures IndexFrom(0, pre + [r]) == IndexFrom(0, pre)[r.key := KeyEntry(r.timestamp, TotalSize(pre), RecordSize(r))]
  {
    var rs := pre + [r];
    assert rs[..|pre|] == pre && rs[|pre|] == r;
    assert Fits(rs[|pre|]);
    forall i | 0 <= i < |pre| ensures Fits(pre[i]) {
      assert pre[i] == rs[i];
    }
  }

  /** A log whose last record lost part of its value is accepted as if the
      record were whole: the short payload read returns a positive count and
      no error, and the key is intact. */
  lemma ReplayAcceptsTruncatedValue(file: Bytes, pre: seq<Record>, r: Record, cut: nat)
    requires WellFormed(pre + [r]) && HasPayload(r)
    requires forall i :: 0 <= i < |pre| ==> HasPayload(pre[i])
    requires HeaderSize + |r.key| <= cut < RecordSize(r) && HeaderSize < cut
    requires file == Serialize(pre) + Encode(r)[..cut]
    ensures Replay(file) == Ok(IndexFrom(0, pre + [r]))
  {
    LastRecord(pre, r);
    var n := TotalSize(pre);
    var next := n + RecordSize(r);
    var e := KeyEntry(r.timestamp, n, RecordSize(r));
    assert file[..n] == Serialize(pre) && file[n..] == Encode(r)[..cut];
    ReplayPrefix(file, pre);
    StepTruncatedValue(file, n, r, cut, n + HeaderSize, next);
    ReplayInstall(file, n, n, IndexFrom(0, pre), r.key, e, |file|, next);
    ReplayStopsAtEnd(file, next, IndexFrom(0, pre)[r.key := e]);
  }
}
