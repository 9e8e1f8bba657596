/** The store: an append-only log file and the in-memory keyDir that maps
    every key to the location of its latest record in that file. */
module DiskStores {
  import opened Codec
  import opened Log
  import opened Index
  import opened Recovery

  /** What `Get` returns for key, given the keyDir and the file contents: the
      empty value for a key with no entry; otherwise the value decoded from
      the entry's size bytes read at the entry's offset (a read past the end
      of the file leaves the buffer zero-filled). A buffer too short for the
      header it holds makes decodeKV panic. */
  function Lookup(keyDir: KeyDir, log: Bytes, key: Bytes): Result<Bytes> {
    if key !in keyDir then Ok([])
    else
      var entry := keyDir[key];
      match DecodeKV(ReadAt(log, entry.offset, entry.size).buf)
      case None => Err(DecodePanic)
      case Some(rec) => Ok(rec.value)
  }

  /** The store's state is the one the records rs leave behind when they are
      set one after the other on an empty file: the file holds exactly their
      encodings, the keyDir is their index, and currentOffset is the end of
      the file. */
  predicate Holds(keyDir: KeyDir, log: Bytes, currentOffset: nat, rs: seq<Record>) {
    WellFormed(rs) && log == Serialize(rs) && keyDir == IndexFrom(0, rs)
    && currentOffset == TotalSize(rs)
  }

  /** Get decodes whatever record starts at the entry's offset: when the
      entry's span begins with the encoding of a record, Get returns that
      record's value, whatever its key and whatever bytes follow it. */
  lemma LookupDecodesAtOffset(keyDir: KeyDir, log: Bytes, key: Bytes, e: KeyEntry, r: Record)
    requires key in keyDir && keyDir[key] == e && e.offset + e.size <= |log|
    requires Fits(r) && RecordSize(r) <= e.size
    requires log[e.offset..e.offset + RecordSize(r)] == Encode(r)
    ensures Lookup(keyDir, log, key) == Ok(r.value)
  {
    var buf := log[e.offset..e.offset + e.size];
    ReadWithin(log, e.offset, e.size);
    assert buf == Encode(r) + buf[RecordSize(r)..];
    DecodeEncodeKVTrailing(r.timestamp, r.key, r.value, buf[RecordSize(r)..]);
  }

  /** Looking a key up in the index of a log, against that log, gives the
      value of the key's latest record. */
  lemma LookupLog(rs: seq<Record>, key: Bytes)
    requires AllFit(rs)
    ensures Lookup(IndexFrom(0, rs), Serialize(rs), key) == Ok(LatestValue(rs, key))
  {
    var keyDir, log := IndexFrom(0, rs), Serialize(rs);
    if key in keyDir {
      IndexLocates(rs, key);
      LookupDecodesAtOffset(keyDir, log, key, keyDir[key], Record(keyDir[key].timestamp, key, LatestValue(rs, key)));
    } else {
      UnindexedHasNoValue(0, rs, key);
    }
  }

  /** Get returns the value of the latest record for the key, and the empty
      value for a key that was never set. */
  lemma LookupLatest(keyDir: KeyDir, log: Bytes, currentOffset: nat, rs: seq<Record>, key: Bytes)
    requires Holds(keyDir, log, currentOffset, rs)
    ensures Lookup(keyDir, log, key) == Ok(LatestValue(rs, key))
  {
    LookupLog(rs, key);
  }

  /** The latest value after one more record. */
  lemma LatestValueAppend(rs: seq<Record>, r: Record, k: Bytes)
    ensures LatestValue(rs + [r], k) == if r.key == k then r.value else LatestValue(rs, k)
  {
    assert (rs + [r])[..|rs|] == rs;
  }

  /** A Set that keeps the file under 4 GiB keeps the state in step with the
      records written, one more record at the end. */
  lemma SetKeepsHolds(keyDir: KeyDir, log: Bytes, currentOffset: nat, rs: seq<Record>,
                      timestamp: nat, key: Bytes, value: Bytes)
    requires Holds(keyDir, log, currentOffset, rs)
    requires IsUint32(timestamp) && IsUint32(|key|) && IsUint32(|value|)
    requires currentOffset + HeaderSize + |key| + |value| < Uint32Limit
    ensures var size := HeaderSize + |key| + |value|;
      Holds(keyDir[key := KeyEntry(timestamp, currentOffset, Wrap32(size))],
            log + EncodeKV(timestamp, key, value),
            Wrap32(currentOffset + size),
            rs + [Record(timestamp, key, value)])
  {
    var r := Record(timestamp, key, value);
    var rs' := rs + [r];
    assert rs'[..|rs'| - 1] == rs && rs'[|rs'| - 1] == r;
    assert AllFit(rs') by {
      forall i | 0 <= i < |rs'| ensures Fits(rs'[i]) {
        if i < |rs| { assert rs'[i] == rs[i]; }
      }
    }
  }

  /** Get after Set returns the value just set, as long as currentOffset is
      the end of the file and the record's size fits in a uint32. */
  lemma SetThenLookup(keyDir: KeyDir, log: Bytes, currentOffset: nat,
                      timestamp: nat, key: Bytes, value: Bytes)
    requires currentOffset == |log|
    requires IsUint32(timestamp) && IsUint32(|key|) && IsUint32(|value|)
    requires IsUint32(HeaderSize + |key| + |value|)
    ensures Lookup(keyDir[key := KeyEntry(timestamp, currentOffset, Wrap32(HeaderSize + |key| + |value|))],
                   log + EncodeKV(timestamp, key, value), key)
         == Ok(value)
  {
    var bytes := EncodeKV(timestamp, key, value);
    var e := KeyEntry(timestamp, currentOffset, Wrap32(HeaderSize + |key| + |value|));
    var log' := log + bytes;
    assert log'[e.offset..e.offset + e.size] == bytes;
    LookupDecodesAtOffset(keyDir[key := e], log', key, e, Record(timestamp, key, value));
  }

  /** Set leaves what Get returns for every other key whose entry lies
      inside the file unchanged. */
  lemma SetLeavesOtherKeys(keyDir: KeyDir, log: Bytes, currentOffset: nat,
                           timestamp: nat, key: Bytes, value: Bytes, other: Bytes)
    requires other != key
    requires other in keyDir ==> keyDir[other].offset + keyDir[other].size <= |log|
    requires IsUint32(timestamp) && IsUint32(|key|) && IsUint32(|value|)
    ensures Lookup(keyDir[key := KeyEntry(timestamp, currentOffset, Wrap32(HeaderSize + |key| + |value|))],
                   log + EncodeKV(timestamp, key, value), other)
         == Lookup(keyDir, log, other)
  {
    if other in keyDir {
      ReadAfterAppend(log, EncodeKV(timestamp, key, value), keyDir[other].offset, keyDir[other].size);
    }
  }

  /** The in-session invariant: currentOffset is the end of the file and
      every entry's span lies inside the file. */
  predicate EntriesInLog(keyDir: KeyDir, log: Bytes, currentOffset: nat) {
    currentOffset == |log|
    && forall k :: k in keyDir ==> keyDir[k].offset + keyDir[k].size <= |log|
  }

  /** A Set that keeps the file under 4 GiB keeps every entry inside the
      file. */
  lemma SetKeepsEntriesInLog(keyDir: KeyDir, log: Bytes, currentOffset: nat,
                             timestamp: nat, key: Bytes, value: Bytes)
    requires EntriesInLog(keyDir, log, currentOffset)
    requires IsUint32(timestamp) && IsUint32(|key|) && IsUint32(|value|)
    requires currentOffset + HeaderSize + |key| + |value| < Uint32Limit
    ensures var size := HeaderSize + |key| + |value|;
      EntriesInLog(keyDir[key := KeyEntry(timestamp, currentOffset, Wrap32(size))],
                   log + EncodeKV(timestamp, key, value),
                   Wrap32(currentOffset + size))
  {
  }

  /** A state that the records rs leave behind keeps the in-session
      invariant. */
  lemma HoldsEntriesInLog(keyDir: KeyDir, log: Bytes, currentOffset: nat, rs: seq<Record>)
    requires Holds(keyDir, log, currentOffset, rs)
    ensures EntriesInLog(keyDir, log, currentOffset)
  {
    forall k | k in keyDir ensures keyDir[k].offset + keyDir[k].size <= |log| {
      IndexLocates(rs, k);
    }
  }

  /** An open store: the keyDir, the contents of the file that its read and
      write handles share, and the offset at which the next record will be
      recorded. */
  class DiskStore {
    var keyDir: KeyDir
    var log: Bytes
    var currentOffset: nat

    constructor (keyDir: KeyDir, log: Bytes, currentOffset: nat)
      ensures this.keyDir == keyDir && this.log == log && this.currentOffset == currentOffset
    {
      this.keyDir := keyDir;
      this.log := log;
      this.currentOffset := currentOffset;
    }

    /** The state is the one the records rs leave behind. */
    predicate Stores(rs: seq<Record>)
      reads this
    {
      Holds(keyDir, log, currentOffset, rs)
    }

    /** Look the key up, seek to its entry's offset, read its size bytes and
        decode the value. */
    method Get(key: Bytes) returns (value: Result<Bytes>)
      ensures value == Lookup(keyDir, log, key)
      ensures forall rs :: Stores(rs) ==> value == Ok(LatestValue(rs, key))
    {
      forall rs | Stores(rs) ensures Lookup(keyDir, log, key) == Ok(LatestValue(rs, key)) {
        LookupLatest(keyDir, log, currentOffset, rs, key);
      }
      if key in keyDir {
        var keyEntry := keyDir[key];
        var kvBuffer := ReadAt(log, keyEntry.offset, keyEntry.size).buf;
        var decoded := DecodeKV(kvBuffer);
        if decoded.None? {
          return Err(DecodePanic);
        }
        return Ok(decoded.value.value);
      }
      return Ok([]);
    }

    /** Record (key, value) at the time now (seconds since the epoch):
        point the key's entry at currentOffset, append the encoded record to
        the file, and advance currentOffset by its size, in uint32. */
    method Set(key: Bytes, value: Bytes, now: nat)
      requires IsUint32(|key|) && IsUint32(|value|)
      modifies this
      ensures var size := HeaderSize + |key| + |value|;
        && keyDir == old(keyDir)[key := KeyEntry(Wrap32(now), old(currentOffset), Wrap32(size))]
        && log == old(log) + EncodeKV(Wrap32(now), key, value)
        && currentOffset == Wrap32(old(currentOffset) + size)
      ensures old(EntriesInLog(keyDir, log, currentOffset))
              && old(currentOffset) + HeaderSize + |key| + |value| < Uint32Limit
              ==> EntriesInLog(keyDir, log, currentOffset)
    {
      var timestamp := Wrap32(now);
      if EntriesInLog(keyDir, log, currentOffset) && currentOffset + HeaderSize + |key| + |value| < Uint32Limit {
        SetKeepsEntriesInLog(keyDir, log, currentOffset, timestamp, key, value);
      }
      var encodedKV := EncodeKV(timestamp, key, value);
      var totalSize := |encodedKV|;
      keyDir := keyDir[key := KeyEntry(timestamp, currentOffset, Wrap32(totalSize))];
      log := log + encodedKV;
      currentOffset := Wrap32(currentOffset + totalSize);
    }

    /** Closing the two file handles always reports success. */
    method Close() returns (ok: bool)
      ensures ok
    {
      ok := true;
    }
  }

  /** NewDiskStore as written: recover the keyDir from the file and start
      with currentOffset 0, whatever the file already holds. */
  method NewDiskStore(file: Bytes) returns (r: Result<DiskStore>)
    ensures r.Err? <==> Replay(file).Err?
    ensures r.Err? ==> r.error == Replay(file).error
    ensures r.Ok? ==> fresh(r.value) && r.value.keyDir == Replay(file).value
                      && r.value.log == file && r.value.currentOffset == 0
  {
    var keyDir := GetKeyDir(file);
    if keyDir.Err? {
      return Err(keyDir.error);
    }
    var store := new DiskStore(keyDir.value, file, 0);
    return Ok(store);
  }

  /** NewDiskStore as evidently intended: the next record goes at the end of
      the file, so currentOffset starts at the file's size. */
  method NewDiskStoreAtEnd(file: Bytes) returns (r: Result<DiskStore>)
    ensures r.Err? <==> Replay(file).Err?
    ensures r.Err? ==> r.error == Replay(file).error
    ensures r.Ok? ==> fresh(r.value) && r.value.keyDir == Replay(file).value
                      && r.value.log == file && r.value.currentOffset == Wrap32(|file|)
  {
    var keyDir := GetKeyDir(file);
    if keyDir.Err? {
      return Err(keyDir.error);
    }
    var store := new DiskStore(keyDir.value, file, Wrap32(|file|));
    return Ok(store);
  }

  /** Reopening a file of whole records with the corrected opener restores
      the state those records left behind. */
  lemma ReopenAtEndRestores(rs: seq<Record>)
    requires WellFormed(rs) && forall i :: 0 <= i < |rs| ==> HasPayload(rs[i])
    ensures Replay(Serialize(rs)) == Ok(IndexFrom(0, rs))
    ensures Holds(IndexFrom(0, rs), Serialize(rs), Wrap32(|Serialize(rs)|), rs)
  {
    ReplayReproducesIndex(Serialize(rs), rs);
  }

  /** With the opener as written, the reopened state is the one the records
      left behind only when the file was empty. */
  lemma ReopenAtZeroRestoresOnlyEmpty(rs: seq<Record>)
    requires WellFormed(rs)
    ensures Holds(IndexFrom(0, rs), Serialize(rs), 0, rs) <==> rs == []
  {
    if rs != [] {
      assert TotalSize(rs) >= RecordSize(rs[|rs| - 1]) >= HeaderSize;
    }
  }

  /** Durability across reopen, with either opener: recovering a file of
      whole records and looking a key up against that file gives the value of
      the key's latest record, and the empty value for a key never set. */
  lemma ReopenThenLookup(rs: seq<Record>, key: Bytes)
    requires WellFormed(rs) && forall i :: 0 <= i < |rs| ==> HasPayload(rs[i])
    ensures Replay(Serialize(rs)).Ok?
    ensures Lookup(Replay(Serialize(rs)).value, Serialize(rs), key) == Ok(LatestValue(rs, key))
  {
    ReplayReproducesIndex(Serialize(rs), rs);
    LookupLog(rs, key);
  }

  /** A file holding one record replays to an index with that record's key. */
  lemma SingleRecordReplays(timestamp: nat, key: Bytes, value: Bytes)
    requires IsUint32(timestamp) && IsUint32(|key|) && IsUint32(|value|)
    requires |key| + |value| > 0 && HeaderSize + |key| + |value| < Uint32Limit
    ensures Replay(EncodeKV(timestamp, key, value))
         == Ok(map[key := KeyEntry(timestamp, 0, HeaderSize + |key| + |value|)])
  {
    var r := Record(timestamp, key, value);
    var rs := [r];
    assert rs[..0] == [] && rs[0] == r;
    assert Serialize(rs) == [] + Encode(r) == EncodeKV(timestamp, key, value);
    assert IndexFrom(0, rs) == map[][key := KeyEntry(timestamp, 0, RecordSize(r))];
    ReplayReproducesIndex(Serialize(rs), rs);
  }

  /** ASCII text as the bytes Go keeps in a string. */
  function Ascii(s: string): (b: Bytes)
    ensures |b| == |s|
  {
    seq(|s|, i requires 0 <= i < |s| => (s[i] as int % 256) as byte)
  }

  /** The store's intended use: on a fresh, empty file, set a key and read
      it back. */
  method SetAndGetOnNewFile(now: nat) returns (author: Result<Bytes>)
    ensures author == Ok(Ascii("shakespeare"))
  {
    ReplayStopsAtEnd([], 0, map[]);
    var reopened := NewDiskStore([]);
    var store := reopened.value;
    var key, value := Ascii("othello"), Ascii("shakespeare");
    SetThenLookup(store.keyDir, store.log, store.currentOffset, Wrap32(now), key, value);
    store.Set(key, value, now);
    author := store.Get(key);
  }

  /** On a new file, a key keeps its value when another key is set after
      it: the in-session invariant that Set keeps places the first entry
      inside the file, where the second Set does not reach. */
  method GetAfterSettingAnother(now: nat) returns (author: Result<Bytes>)
    ensures author == Ok(Ascii("shakespeare"))
  {
    ReplayStopsAtEnd([], 0, map[]);
    var reopened := NewDiskStore([]);
    var store := reopened.value;
    var othello, hamlet, value := Ascii("othello"), Ascii("hamlet"), Ascii("shakespeare");
    SetThenLookup(store.keyDir, store.log, store.currentOffset, Wrap32(now), othello, value);
    store.Set(othello, value, now);
    SetLeavesOtherKeys(store.keyDir, store.log, store.currentOffset, Wrap32(now), hamlet, value, othello);
    store.Set(hamlet, value, now);
    author := store.Get(othello);
  }

  /** Reopening a file that already holds a record with NewDiskStore as
      written and then setting the same key: Get returns the old value,
      because the new entry points at offset 0, where the old record is. */
  method StaleReadAfterReopen() returns (v: Result<Bytes>)
    ensures v == Ok([1])
  {
    var key: Bytes := [97];
    var file := EncodeKV(0, key, [1]);
    SingleRecordReplays(0, key, [1]);
    var reopened := NewDiskStore(file);
    var store := reopened.value;
    store.Set(key, [2, 2], 0);
    var first := Record(0, key, [1]);
    var extra := EncodeKV(0, key, [2, 2]);
    assert store.log == file + extra;
    assert (file + extra)[0..|file|] == file == Encode(first);
    LookupDecodesAtOffset(store.keyDir, store.log, key, store.keyDir[key], first);
    v := store.Get(key);
  }

  /** The same steps with the corrected opener return the new value. */
  method ResumedReadAfterReopen() returns (v: Result<Bytes>)
    ensures v == Ok([2, 2])
  {
    var key: Bytes := [97];
    var file := EncodeKV(0, key, [1]);
    SingleRecordReplays(0, key, [1]);
    var reopened := NewDiskStoreAtEnd(file);
    var store := reopened.value;
    SetThenLookup(store.keyDir, store.log, store.currentOffset, 0, key, [2, 2]);
    store.Set(key, [2, 2], 0);
    v := store.Get(key);
  }
}
