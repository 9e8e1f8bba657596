/** The log file as a sequence of bytes that only grows, and what Go's
    `(*os.File).Read` returns when it reads from it. */
module Log {
  import opened Codec

  /** Result of `n, err := f.Read(buf)` with `len(buf) == |buf|`: the bytes
      now in `buf` (the unread tail stays zero, as `make` left it), the count
      `n`, and whether `err` is `io.EOF`. */
  datatype ReadResult = ReadResult(buf: Bytes, count: nat, eof: bool)

  function Zeros(n: nat): (z: Bytes)
    ensures |z| == n
  {
    if n == 0 then [] else [0] + Zeros(n - 1)
  }

  function Min(a: nat, b: nat): nat {
    if a <= b then a else b
  }

  /** Reading n bytes from a regular file whose read position is pos. A read
      into an empty buffer returns 0 bytes and no error; a read at end of file
      into a non-empty buffer returns 0 bytes and io.EOF; otherwise it returns
      as many bytes as remain, up to n. */
  function ReadAt(file: Bytes, pos: nat, n: nat): (r: ReadResult)
    ensures |r.buf| == n && r.count <= n
    ensures pos <= |file| ==> pos + r.count <= |file|
  {
    if pos >= |file| then ReadResult(Zeros(n), 0, n > 0)
    else
      var count := Min(n, |file| - pos);
      ReadResult(file[pos..pos + count] + Zeros(n - count), count, n > 0 && count == 0)
  }

  /** A read that the file can satisfy in full returns exactly those bytes. */
  lemma ReadWithin(file: Bytes, pos: nat, n: nat)
    requires pos + n <= |file|
    ensures ReadAt(file, pos, n) == ReadResult(file[pos..pos + n], n, false)
  {
    if pos < |file| {
      assert file[pos..pos + n] + Zeros(0) == file[pos..pos + n];
    }
  }

  /** A read that reaches past the end returns what is left, zero-padded,
      and no error as long as something was left. */
  lemma ReadPastEnd(file: Bytes, pos: nat, n: nat)
    requires pos < |file| < pos + n
    ensures ReadAt(file, pos, n) == ReadResult(file[pos..] + Zeros(pos + n - |file|), |file| - pos, false)
  {
  }

  lemma ReadAtEnd(file: Bytes, n: nat)
    ensures ReadAt(file, |file|, n) == ReadResult(Zeros(n), 0, n > 0)
  {
  }

  /** Appending to the log does not change what a read inside the old log returns. */
  lemma ReadAfterAppend(file: Bytes, extra: Bytes, pos: nat, n: nat)
    requires pos + n <= |file|
    ensures ReadAt(file + extra, pos, n) == ReadAt(file, pos, n)
  {
    ReadWithin(file, pos, n);
    ReadWithin(file + extra, pos, n);
    assert (file + extra)[pos..pos + n] == file[pos..pos + n];
  }

  predicate AllFit(rs: seq<Record>) {
    forall i :: 0 <= i < |rs| ==> Fits(rs[i])
  }

  /** Sum of the record sizes: the number of bytes the records take in the log. */
  function TotalSize(rs: seq<Record>): nat {
    if rs == [] then 0 else TotalSize(rs[..|rs| - 1]) + RecordSize(rs[|rs| - 1])
  }

  /** The log holding the records rs, one after the other. */
  function Serialize(rs: seq<Record>): (log: Bytes)
    requires AllFit(rs)
    ensures |log| == TotalSize(rs)
  {
    if rs == [] then [] else Serialize(rs[..|rs| - 1]) + Encode(rs[|rs| - 1])
  }

  lemma {:induction false} TotalSizeAppend(a: seq<Record>, b: seq<Record>)
    ensures TotalSize(a + b) == TotalSize(a) + TotalSize(b)
    decreases |b|
  {
    if b == [] {
      assert a + b == a;
    } else {
      var b' := b[..|b| - 1];
      assert (a + b)[..|a + b| - 1] == a + b';
      TotalSizeAppend(a, b');
    }
  }

  lemma {:induction false} SerializeAppend(a: seq<Record>, b: seq<Record>)
    requires AllFit(a) && AllFit(b)
    ensures AllFit(a + b)
    ensures Serialize(a + b) == Serialize(a) + Serialize(b)
    decreases |b|
  {
    assert AllFit(a + b) by {
      forall i | 0 <= i < |a + b| ensures Fits((a + b)[i]) {
        if i >= |a| { assert (a + b)[i] == b[i - |a|]; }
      }
    }
    if b == [] {
      assert a + b == a;
    } else {
      var b' := b[..|b| - 1];
      assert (a + b)[..|a + b| - 1] == a + b';
      SerializeAppend(a, b');
    }
  }

  /** The records after the first take the rest of the size. */
  lemma TotalSizeFirst(rs: seq<Record>)
    requires rs != []
    ensures TotalSize(rs) == RecordSize(rs[0]) + TotalSize(rs[1..])
  {
    assert rs == [rs[0]] + rs[1..];
    assert [rs[0]][..0] == [];
    TotalSizeAppend([rs[0]], rs[1..]);
  }

  /** A log of records starts with the encoding of its first record. */
  lemma SerializeFirst(rs: seq<Record>)
    requires AllFit(rs) && rs != []
    ensures Serialize(rs) == Encode(rs[0]) + Serialize(rs[1..])
  {
    var first, rest := [rs[0]], rs[1..];
    assert rs == first + rest;
    assert Serialize(first) == Encode(rs[0]) by {
      assert first[..0] == [];
    }
    SerializeAppend(first, rest);
  }
}
