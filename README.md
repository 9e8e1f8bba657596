# go-caskdb disk store, modelled in Dafny

go-caskdb is a Bitcask-style log-structured hash table. Every `Set` appends
one record to a log file: a 12-byte header (timestamp, key size, value size,
three uint32 fields), then the key, then the value. An in-memory `keyDir`
maps each key to the timestamp, offset and size of its latest record. `Get`
looks the key up, seeks to the offset, reads that many bytes and decodes the
value. Opening a store (`NewDiskStore`) rebuilds the `keyDir` by replaying the
log from the beginning (`getKeyDir`).

The model has five modules:

- `Codec` (`codec.dfy`) is the record format: `EncodeKV`, `DecodeHeader`,
  `DecodeKV`, Go's `uint32(x)` conversion as `Wrap32`, and the codec's
  round-trip laws. The codec's source (format.go) is not part of this model.
  Its functions are given bodies in one byte order, chosen only so that they
  have bodies. Nothing else depends on that order beyond the round-trip
  lemmas.
- `Log` (`log.dfy`) is the file as a byte sequence. `ReadAt` is Go's
  `(*os.File).Read` on a regular file, for reads of up to 1 GiB:
  - a zero-length buffer gives 0 bytes and no error;
  - at end of file a non-empty buffer gives 0 bytes and `io.EOF`;
  - otherwise the read gives what is left, up to the buffer's length, with
    the buffer's unread tail left zero.

  `Serialize` is the log that a run of records produces.
- `Index` (`index.dfy`) is the `KeyEntry`/`keyDir` types. `IndexFrom` is an
  independent reference for what the index of a run of records must be, with
  lemmas for last-write-wins, offset accounting and the key set.
- `Recovery` (`recovery.dfy`) is `getKeyDir`'s loop, as a method with loop
  invariants (`GetKeyDir`). It is proved equal to the recursive
  specification `Replay`, and `Replay` is characterised on well-formed and
  damaged logs.
- `DiskStores` (`disk_store.dfy`) is the `DiskStore` class, with fields
  `keyDir`, `log` (the file that both handles share) and `currentOffset`, and
  methods `Get`, `Set` and `Close`, plus `NewDiskStore`. `Lookup` is the pure
  meaning of `Get`. `Holds` relates a store's state to the run of records
  that produced it. `EntriesInLog` is the in-session invariant: every entry
  lies inside the file, and `currentOffset` is the file's end.

The doc comment at disk_store.go:40-41 promises that opening "will throw an
error if the file is invalid or corrupt". The code keeps that promise only in
part, and the model follows the code:

- **Truncated last value.** When the last record's value is cut short but its
  header and some payload bytes survive, the payload read returns a positive
  count and no error. Recovery therefore installs the record instead of
  failing (`Recovery.ReplayAcceptsTruncatedValue`). Recovery fails only on:
  - a missing payload;
  - a partial header;
  - an empty key-and-value record;
  - a header whose key and value sizes add up to 2^32 or more. The uint32
    payload length wraps. When the header ends the file and the wrapped
    length is not 0, the payload read returns io.EOF
    (`Recovery.ReplayRejectsMissingPayload`). Otherwise it asks for 0 bytes
    ("EOF reading key") or for fewer bytes than announced, and then decodeKV
    panics (`Recovery.ReplayRejectsWrappedPayload`). `Set` bounds the key and value
    lengths only one at a time, so it can write such a record.
- **Empty key and value.** A record with an empty key and an empty value can
  be set and read back within a session. Replaying it fails with
  "EOF reading key", because reading into a zero-length buffer returns 0
  bytes (`Recovery.ReplayRejectsEmptyRecord`).
- **Short read in Get.** A short read in `Get` is not an error. The buffer is
  zero-padded and decoded as it is (`DiskStores.Lookup`).
- **currentOffset on open.** `currentOffset` starts at 0 on every open, as
  written (see Findings).

## Model

| member | source | states |
|---|---|---|
| Codec.Wrap32IsMod | disk_store.go:148-152 | Go's `uint32(x)` conversion of a non-negative int is x modulo 2^32 |
| Codec.EncodeKV | disk_store.go:149 | an encoded record is 12 + len(key) + len(value) bytes long |
| Codec.DecodeHeader | disk_store.go:94 | every 12-byte header buffer decodes to three uint32 fields; HeaderRoundTrip and HeaderBytesRoundTrip make it the exact inverse of EncodeHeader |
| Codec.DecodeKV | disk_store.go:103-104 | a buffer that decodes gives uint32 fields, a record no longer than the buffer, and the key taken right after the header. No result stands for decodeKV's slice panic. Bytes past the record are ignored (DecodeEncodeKVTrailing). Slice bounds use unbounded arithmetic. DecodeEncodeKV and EncodeDecodeKV pin it down as the inverse of EncodeKV |
| Codec.HeaderRoundTrip | disk_store.go:94 | decoding an encoded header gives back its timestamp, key size and value size |
| Codec.HeaderBytesRoundTrip | disk_store.go:94 | every 12-byte buffer is the encoding of the header decodeHeader reads from it |
| Codec.DecodeEncodeKV | disk_store.go:141 | decodeKV(encodeKV(t, k, v)) == (t, k, v), empty key or value included |
| Codec.DecodeEncodeKVTrailing | disk_store.go:139-141 | decoding a buffer that starts with an encoded record gives that record, whatever bytes follow |
| Codec.EncodeDecodeKV | disk_store.go:103-104 | a buffer that decodes starts with exactly the encoding of the decoded record |
| Codec.DecodeHeaderAndPayload | disk_store.go:103-104 | a header followed by exactly the payload it announces decodes to the key and value split at the key size |
| Log.ReadAt | disk_store.go:85-96 | a read fills a buffer of the requested length and never moves past the end of the file |
| Log.ReadWithin | disk_store.go:138-140 | a read the file can satisfy returns exactly the bytes at that position, with no error |
| Log.ReadPastEnd | disk_store.go:95-99 | a read that reaches past the end returns what is left, zero-padded, with a positive count and no error |
| Log.ReadAtEnd | disk_store.go:86-88 | a read at end of file returns 0 bytes, with io.EOF exactly when the buffer is non-empty |
| Log.ReadAfterAppend | disk_store.go:151 | appending to the log does not change a read inside the old log |
| Log.Serialize | disk_store.go:151 | the log of a run of records is as long as the sum of their sizes |
| Log.TotalSizeAppend | disk_store.go:105-107 | the sizes of two runs of records add up |
| Log.SerializeAppend | disk_store.go:151 | the log of two runs of records is the first run's log followed by the second's |
| Index.IndexKeys | disk_store.go:104-106 | the index of a run of records holds exactly the keys of those records |
| Index.IndexLastWriteWins | disk_store.go:105-107 | a key's entry is the one for its last record, at the sum of the sizes of all records before it, with size 12 + key size + value size |
| Index.UnindexedHasNoValue | disk_store.go:136-144 | a key with no entry was never written, so its latest value is the empty value |
| Index.IndexFromAppend | disk_store.go:83-107 | indexing two runs of records is indexing the first, then the second from where the first ended |
| Index.IndexLocates | disk_store.go:106 | every entry points at a span of the log holding exactly the encoding of the key's latest record |
| Recovery.StepAt | disk_store.go:85-107 | an iteration that installs an entry moves the read position forward and stays inside the file |
| Recovery.PayloadStep | disk_store.go:94-107 | an installing payload stage moves the read position by exactly the count the payload read returned, which stays inside the file |
| Recovery.DecodeStep | disk_store.go:103-107 | an installing iteration resumes where the payload read stopped |
| Recovery.GetKeyDir | disk_store.go:67-110 | the replay loop returns exactly what the recursive specification Replay gives: an index, or the error that stopped it |
| Recovery.ReplayStopsAtEnd | disk_store.go:86-89 | a header read at end of file ends recovery cleanly with the index built so far |
| Recovery.StepRecord | disk_store.go:85-107 | one whole record at the read position is installed at the running offset with its total size |
| Recovery.ReplayRecords | disk_store.go:84-108 | replaying a run of whole records adds their index, with offsets counted from where the run starts |
| Recovery.ReplayPrefix | disk_store.go:83-108 | a file that starts with whole records is replayed through them to the end of the run |
| Recovery.ReplayReproducesIndex | disk_store.go:67-110 | recovering a log of whole records that are not both empty yields exactly their index: last write wins, offsets are running sums of sizes |
| Recovery.StepEmptyRecord | disk_store.go:95-102 | a record with empty key and empty value makes the iteration fail with "EOF reading key" |
| Recovery.ReplayRejectsEmptyRecord | disk_store.go:95-102 | a log holding a record with an empty key and an empty value fails recovery with "EOF reading key" |
| Recovery.StepWrappedPayload | disk_store.go:94-104 | a header whose key and value sizes add up to 2^32 or more makes the iteration fail: "EOF reading key" at exactly 2^32, a decodeKV panic above |
| Recovery.ReplayRejectsWrappedPayload | disk_store.go:94-104 | a log that reaches such a header after whole records, with at least one byte after it, fails recovery with that error |
| Recovery.StepMissingPayload | disk_store.go:94-99 | a header at the very end of the file whose uint32 payload length is not 0, wrapped or not, makes the iteration fail with io.EOF |
| Recovery.ReplayRejectsMissingPayload | disk_store.go:94-99 | a log that ends right after a header whose uint32 payload length is not 0 fails recovery with io.EOF |
| Recovery.StepShortHeader | disk_store.go:86-102 | fewer than 12 bytes left in the file make the iteration fail, whatever those bytes are |
| Recovery.ReplayRejectsShortHeader | disk_store.go:86-102 | a log whose last header is cut short fails recovery |
| Recovery.StepTruncatedValue | disk_store.go:96-107 | a last record cut inside its value is still installed, at its offset and with its full size |
| Recovery.ReplayAcceptsTruncatedValue | disk_store.go:96-107 | a log whose last record lost part of its value is recovered as if the record were whole |
| Recovery.ReplayFailsAfter | disk_store.go:90-102 | an iteration that fails after whole records fails the whole recovery, with no index |
| DiskStores.LookupDecodesAtOffset | disk_store.go:137-141 | Get returns the value of whatever record starts at the entry's offset, whatever its key and whatever follows within the entry's size |
| DiskStores.LookupLog | disk_store.go:135-145 | looking a key up in the index of a log returns its latest value, and the empty value for a key never set |
| DiskStores.LookupLatest | disk_store.go:135-145 | in a state produced by a run of records, Get returns each key's latest value |
| DiskStores.LatestValueAppend | disk_store.go:150 | one more record changes the latest value of its own key only |
| DiskStores.SetKeepsHolds | disk_store.go:147-152 | Set keeps the state in step with the records written, with one more record at the end |
| DiskStores.SetThenLookup | disk_store.go:49-51 | Get after Set returns the value just set, provided currentOffset is the end of the file |
| DiskStores.SetLeavesOtherKeys | disk_store.go:150-152 | Set leaves Get's result for every other key unchanged when that key's entry lies inside the file |
| DiskStores.SetKeepsEntriesInLog | disk_store.go:150-152 | Set keeps every entry inside the file and currentOffset at the file's end |
| DiskStores.HoldsEntriesInLog | disk_store.go:150-152 | a state produced by a run of records keeps every entry inside the file and currentOffset at its end |
| DiskStores.DiskStore.constructor | disk_store.go:127-132 | a store starts with the given keyDir, file and offset |
| DiskStores.DiskStore.Get | disk_store.go:135-145 | Get returns Lookup of the current state, which is each key's latest value in any state produced by a run of records; an absent key gives the empty value; state is unchanged |
| DiskStores.DiskStore.Set | disk_store.go:147-152 | Set points key at (timestamp, old currentOffset, record size), appends exactly the encoded record, and advances currentOffset by its size modulo 2^32; while the file stays under 4 GiB it keeps the in-session invariant EntriesInLog |
| DiskStores.DiskStore.Close | disk_store.go:159-163 | Close reports success |
| DiskStores.NewDiskStore | disk_store.go:112-133 | opening fails with recovery's error or gives a fresh store holding the recovered index and the file, with currentOffset 0 |
| DiskStores.NewDiskStoreAtEnd | disk_store.go:112-133 | the corrected opener: the same as NewDiskStore, with currentOffset at the file's size |
| DiskStores.ReopenAtEndRestores | disk_store.go:116-131 | reopening a log of whole records with the corrected opener restores the state those records produced |
| DiskStores.ReopenAtZeroRestoresOnlyEmpty | disk_store.go:131 | with currentOffset 0, the reopened state matches the records written exactly when the file was empty |
| DiskStores.ReopenThenLookup | disk_store.go:112-145 | durability across reopen: recovering a log of whole records succeeds, and Get against it returns each key's latest value, the empty value for a key never set |
| DiskStores.SingleRecordReplays | disk_store.go:83-108 | a file holding one record replays to an index with that record's key at offset 0 |
| DiskStores.SetAndGetOnNewFile | disk_store.go:49-51 | on a new file, Set("othello", "shakespeare") then Get("othello") returns "shakespeare" |
| DiskStores.GetAfterSettingAnother | disk_store.go:49-51 | on a new file, Get("othello") still returns "shakespeare" after "hamlet" is set too |
| DiskStores.StaleReadAfterReopen | disk_store.go:131 | reopening a file holding a→[1], then setting a→[2, 2], makes Get(a) return the stale [1] |
| DiskStores.ResumedReadAfterReopen | disk_store.go:131 | with the corrected opener, the same steps make Get(a) return [2, 2] |

## Left out

- `Set`'s `Sync` call and the panic when it fails (disk_store.go:153-156): durability is not modelled, and the file is a byte sequence that a write always extends.
- `time.Now()` (disk_store.go:148): the current Unix time is a parameter of `DiskStore.Set`, converted to uint32 with `Wrap32`.
- OS file plumbing: `isFileExists`, `os.Open`, `os.Create`, `os.OpenFile`, `Seek`, the deferred `Close` and the handles' own positions. A missing file is the same as an empty one, because `os.Create` makes it empty. The two handles share one byte sequence, and `Get` reads at the entry's offset.
- Recovery.GetKeyDir: read errors other than io.EOF (disk_store.go:90-92, 97-99) cannot happen on a byte sequence and are not modelled; the `Error` cases are io.EOF, "EOF reading key" and a decodeKV panic.
- The codec's source (format.go) is not part of this model. `DecodeKV` returning nothing stands for decodeKV panicking on a buffer shorter than its header announces. Its byte order is one possible choice.
- Log.ReadAt: one Go Read returns at most 1 GiB. Records whose key and value together exceed 2^30 bytes are read whole in the model. In the source, `Get` would return a value ending in zeros, and recovery would lose its place in the file. `Log.ReadWithin`, `DiskStores.SetThenLookup`, `DiskStores.LookupLog` and `Recovery.ReplayReproducesIndex` rely on whole reads.
- DiskStores.DiskStore.Set: keys and values of 4 GiB or more are excluded by a precondition, because the length fields of the header would truncate them in a codec that is not part of this model.
- DiskStores.SetKeepsHolds: holds only while the file stays under 4 GiB. Beyond that, `currentOffset` wraps modulo 2^32. `DiskStore.Set` itself models the wrap.
- DiskStores.DiskStore.Close: closing the handles is not modelled; a store stays usable after `Close`.
- Concurrency: the store is single-threaded, and nothing here models concurrent callers.

## Findings

| source | as written | input that shows it | evidently intended | confidence | as-written member | corrected member |
|---|---|---|---|---|---|---|
| disk_store.go:131 | `NewDiskStore` starts `currentOffset` at 0 whatever the file already holds, so the first `Set` after reopening records its entry at offset 0, where an old record sits | reopen a file holding the record a→[1], `Set(a, [2, 2])`, then `Get(a)` returns [1] | `currentOffset` starts at the file's size, so new entries point at where the records actually land | not executed | DiskStores.StaleReadAfterReopen | DiskStores.NewDiskStoreAtEnd |
