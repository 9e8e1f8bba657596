/** The in-memory index ("keyDir") and an independent reference for what it
    should hold after a sequence of records has been written: every key maps to
    the timestamp, offset and size of its LAST record. */
module Index {
  import opened Codec
  import opened Log

  /** Where a key's latest record lives: `NewKeyEntry(timestamp, offset, size)`. */
  datatype KeyEntry = KeyEntry(timestamp: nat, offset: nat, size: nat)

  type KeyDir = map<Bytes, KeyEntry>

  /** The index of records rs written one after the other starting at byte
      offset base: each record's entry has the offset base plus the sizes of
      all records before it, and a later record overwrites an earlier entry for
      the same key. */
  function IndexFrom(base: nat, rs: seq<Record>): KeyDir {
    if rs == [] then map[]
    else
      var prefix, last := rs[..|rs| - 1], rs[|rs| - 1];
      IndexFrom(base, prefix)[last.key := KeyEntry(last.timestamp, base + TotalSize(prefix), RecordSize(last))]
  }

  /** Record i is the last one in rs with key k. */
  predicate IsLast(rs: seq<Record>, k: Bytes, i: nat) {
    i < |rs| && rs[i].key == k && forall j :: i < j < |rs| ==> rs[j].key != k
  }

  /** The value of the last record in rs with key k, or the empty value when
      there is none. */
  function LatestValue(rs: seq<Record>, k: Bytes): Bytes {
    if rs == [] then []
    else if rs[|rs| - 1].key == k then rs[|rs| - 1].value
    else LatestValue(rs[..|rs| - 1], k)
  }

  /** The index holds exactly the keys of the records. */
  lemma {:induction false} IndexKeys(base: nat, rs: seq<Record>, k: Bytes)
    ensures k in IndexFrom(base, rs) <==> exists i :: 0 <= i < |rs| && rs[i].key == k
  {
    if rs != [] {
      var prefix := rs[..|rs| - 1];
      IndexKeys(base, prefix, k);
      if k in IndexFrom(base, prefix) {
        var i :| 0 <= i < |prefix| && prefix[i].key == k;
        assert rs[i].key == k;
      }
      if exists i :: 0 <= i < |rs| && rs[i].key == k {
        var i :| 0 <= i < |rs| && rs[i].key == k;
        if i < |prefix| {
          assert prefix[i].key == k;
        }
      }
    }
  }

  /** Last write wins: a key's entry describes its last record, placed after
      all the records before it. */
  lemma {:induction false} IndexLastWriteWins(base: nat, rs: seq<Record>, k: Bytes) returns (i: nat)
    requires k in IndexFrom(base, rs)
    ensures IsLast(rs, k, i)
    ensures IndexFrom(base, rs)[k] == KeyEntry(rs[i].timestamp, base + TotalSize(rs[..i]), RecordSize(rs[i]))
  {
    var prefix, last := rs[..|rs| - 1], rs[|rs| - 1];
    if last.key == k {
      i := |rs| - 1;
    } else {
      i := IndexLastWriteWins(base, prefix, k);
      assert prefix[..i] == rs[..i];
    }
  }

  /** A key with no entry has never been written. */
  lemma {:induction false} UnindexedHasNoValue(base: nat, rs: seq<Record>, k: Bytes)
    requires k !in IndexFrom(base, rs)
    ensures LatestValue(rs, k) == []
  {
    if rs != [] {
      UnindexedHasNoValue(base, rs[..|rs| - 1], k);
    }
  }

  /** Indexing two runs of records one after the other is indexing the first
      and then the second from where the first ended. */
  lemma {:induction false} IndexFromAppend(base: nat, a: seq<Record>, b: seq<Record>)
    ensures IndexFrom(base, a + b) == IndexFrom(base, a) + IndexFrom(base + TotalSize(a), b)
    decreases |b|
  {
    if b == [] {
      assert a + b == a;
    } else {
      var b', last := b[..|b| - 1], b[|b| - 1];
      var ab := a + b;
      assert ab[..|ab| - 1] == a + b' && ab[|ab| - 1] == last;
      TotalSizeAppend(a, b');
      var e := KeyEntry(last.timestamp, base + TotalSize(a) + TotalSize(b'), RecordSize(last));
      var m1, m2 := IndexFrom(base, a), IndexFrom(base + TotalSize(a), b');
      calc {
        IndexFrom(base, ab);
        IndexFrom(base, a + b')[last.key := e];
        { IndexFromAppend(base, a, b'); }
        (m1 + m2)[last.key := e];
        m1 + m2[last.key := e];
        m1 + IndexFrom(base + TotalSize(a), b);
      }
    }
  }

  /** Every entry of the index of a log points at a span of that log that holds
      exactly the encoding of the key's latest record. */
  lemma {:induction false} IndexLocates(rs: seq<Record>, k: Bytes)
    requires AllFit(rs) && k in IndexFrom(0, rs)
    ensures var e := IndexFrom(0, rs)[k];
      && e.offset + e.size <= |Serialize(rs)|
      && IsUint32(e.timestamp) && IsUint32(|LatestValue(rs, k)|) && IsUint32(|k|)
      && Serialize(rs)[e.offset..e.offset + e.size] == EncodeKV(e.timestamp, k, LatestValue(rs, k))
  {
    var prefix, last := rs[..|rs| - 1], rs[|rs| - 1];
    var log := Serialize(rs);
    assert log == Serialize(prefix) + Encode(last);
    if last.key == k {
      assert log[|Serialize(prefix)|..|log|] == Encode(last);
    } else {
      IndexLocates(prefix, k);
      var e := IndexFrom(0, prefix)[k];
      assert log[e.offset..e.offset + e.size] == Serialize(prefix)[e.offset..e.offset + e.size];
    }
  }
}
