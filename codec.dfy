/** The record codec used by the store: a fixed 12-byte header holding three
    unsigned 32-bit fields (timestamp, key size, value size), followed by the
    key bytes and then the value bytes. The store relies only on the round-trip
    laws proved here; the byte order inside a field is fixed (least significant
    byte first) only so that the functions have bodies. */
module Codec {

  newtype byte = x: int | 0 <= x < 256

  type Bytes = seq<byte>

  datatype Option<T> = None | Some(value: T)

  /** Width of the fixed header: three uint32 fields. */
  const HeaderSize: nat := 12

  const Uint32Limit: nat := 0x1_0000_0000

  predicate IsUint32(x: int) {
    0 <= x < Uint32Limit
  }

  /** Go's conversion `uint32(x)` of a non-negative integer: wrap-around
      modulo 2^32, taking 2^32 away until the value fits. */
  function Wrap32(x: nat): (r: nat)
    ensures IsUint32(r)
    ensures IsUint32(x) ==> r == x
  {
    if x < Uint32Limit then x else Wrap32(x - Uint32Limit)
  }

  /** Wrap32 is the remainder modulo 2^32. */
  lemma {:induction false} Wrap32IsMod(x: nat)
    ensures Wrap32(x) == x % Uint32Limit
  {
    if x >= Uint32Limit {
      Wrap32IsMod(x - Uint32Limit);
    }
  }

  datatype Header = Header(timestamp: nat, keySize: nat, valueSize: nat)

  /** One (timestamp, key, value) triple as written by a `set`. */
  datatype Record = Record(timestamp: nat, key: Bytes, value: Bytes)

  /** A record whose three header fields fit in uint32. */
  predicate Fits(r: Record) {
    IsUint32(r.timestamp) && IsUint32(|r.key|) && IsUint32(|r.value|)
  }

  /** Bytes a record takes in the log: header, key, value. */
  function RecordSize(r: Record): nat {
    HeaderSize + |r.key| + |r.value|
  }

  function Pow256(n: nat): (p: nat)
    ensures p >= 1
  {
    if n == 0 then 1 else 256 * Pow256(n - 1)
  }

  lemma Pow256Four()
    ensures Pow256(4) == Uint32Limit
  {
  }

  /** The n low-order bytes of x, least significant first. */
  function EncodeFixed(x: nat, n: nat): (r: Bytes)
    ensures |r| == n
  {
    if n == 0 then [] else [(x % 256) as byte] + EncodeFixed(x / 256, n - 1)
  }

  function DecodeFixed(s: Bytes): (x: nat)
    ensures x < Pow256(|s|)
  {
    if s == [] then 0 else s[0] as nat + 256 * DecodeFixed(s[1..])
  }

  lemma {:induction false} DecodeEncodeFixed(x: nat, n: nat)
    requires x < Pow256(n)
    ensures DecodeFixed(EncodeFixed(x, n)) == x
  {
    if n > 0 {
      var e := EncodeFixed(x, n);
      assert e[1..] == EncodeFixed(x / 256, n - 1);
      DecodeEncodeFixed(x / 256, n - 1);
    }
  }

  lemma {:induction false} EncodeDecodeFixed(s: Bytes)
    ensures EncodeFixed(DecodeFixed(s), |s|) == s
  {
    if s != [] {
      var x := DecodeFixed(s);
      var rest := DecodeFixed(s[1..]);
      assert x == s[0] as nat + 256 * rest;
      assert x % 256 == s[0] as nat && x / 256 == rest;
      EncodeDecodeFixed(s[1..]);
    }
  }

  /** One uint32 header field in its four bytes. */
  function EncodeUint32(x: nat): (r: Bytes)
    requires IsUint32(x)
    ensures |r| == 4
  {
    EncodeFixed(x, 4)
  }

  function DecodeUint32(b: Bytes): (x: nat)
    requires |b| == 4
    ensures IsUint32(x)
  {
    Pow256Four();
    DecodeFixed(b)
  }

  lemma Uint32RoundTrip(x: nat)
    requires IsUint32(x)
    ensures DecodeUint32(EncodeUint32(x)) == x
  {
    Pow256Four();
    DecodeEncodeFixed(x, 4);
  }

  lemma Uint32BytesRoundTrip(b: Bytes)
    requires |b| == 4
    ensures EncodeUint32(DecodeUint32(b)) == b
  {
    EncodeDecodeFixed(b);
  }

  predicate HeaderFits(h: Header) {
    IsUint32(h.timestamp) && IsUint32(h.keySize) && IsUint32(h.valueSize)
  }

  function EncodeHeader(h: Header): (r: Bytes)
    requires HeaderFits(h)
    ensures |r| == HeaderSize
  {
    EncodeUint32(h.timestamp) + EncodeUint32(h.keySize) + EncodeUint32(h.valueSize)
  }

  /** decodeHeader: the three fields of a 12-byte header buffer. */
  function DecodeHeader(buf: Bytes): (h: Header)
    requires |buf| == HeaderSize
    ensures HeaderFits(h)
  {
    Header(DecodeUint32(buf[0..4]), DecodeUint32(buf[4..8]), DecodeUint32(buf[8..12]))
  }

  lemma HeaderRoundTrip(h: Header)
    requires HeaderFits(h)
    ensures DecodeHeader(EncodeHeader(h)) == h
  {
    var e := EncodeHeader(h);
    assert e[0..4] == EncodeUint32(h.timestamp);
    assert e[4..8] == EncodeUint32(h.keySize);
    assert e[8..12] == EncodeUint32(h.valueSize);
    Uint32RoundTrip(h.timestamp);
    Uint32RoundTrip(h.keySize);
    Uint32RoundTrip(h.valueSize);
  }

  lemma HeaderBytesRoundTrip(buf: Bytes)
    requires |buf| == HeaderSize
    ensures EncodeHeader(DecodeHeader(buf)) == buf
  {
    var a, b, c := buf[0..4], buf[4..8], buf[8..12];
    Uint32BytesRoundTrip(a);
    Uint32BytesRoundTrip(b);
    Uint32BytesRoundTrip(c);
    assert buf == a + b + c;
  }

  /** encodeKV: the header for (timestamp, |key|, |value|), then key, then value. */
  function EncodeKV(timestamp: nat, key: Bytes, value: Bytes): (r: Bytes)
    requires IsUint32(timestamp) && IsUint32(|key|) && IsUint32(|value|)
    ensures |r| == HeaderSize + |key| + |value|
  {
    EncodeHeader(Header(timestamp, |key|, |value|)) + key + value
  }

  /** The same encoding as EncodeKV, applied to a record's three fields; the
      lemmas about runs of records use this form. */
  function Encode(r: Record): (b: Bytes)
    requires Fits(r)
    ensures |b| == RecordSize(r)
  {
    EncodeKV(r.timestamp, r.key, r.value)
  }

  /** decodeKV: split a record's bytes using the sizes in its header. None
      stands for the slice-out-of-range panic when the buffer is shorter than
      the header or than the sizes the header announces; bytes past the record
      are ignored. */
  function DecodeKV(data: Bytes): (d: Option<Record>)
    ensures d.Some? ==> Fits(d.value) && RecordSize(d.value) <= |data|
    ensures d.Some? ==> d.value.key == data[HeaderSize..HeaderSize + |d.value.key|]
  {
    if |data| < HeaderSize then None
    else
      var h := DecodeHeader(data[..HeaderSize]);
      var keyEnd := HeaderSize + h.keySize;
      if keyEnd + h.valueSize > |data| then None
      else Some(Record(h.timestamp, data[HeaderSize..keyEnd], data[keyEnd..keyEnd + h.valueSize]))
  }

  /** The header of an encoded record announces its timestamp and sizes. */
  lemma EncodedHeader(timestamp: nat, key: Bytes, value: Bytes)
    requires IsUint32(timestamp) && IsUint32(|key|) && IsUint32(|value|)
    ensures DecodeHeader(EncodeKV(timestamp, key, value)[..HeaderSize]) == Header(timestamp, |key|, |value|)
  {
    var h := Header(timestamp, |key|, |value|);
    assert EncodeKV(timestamp, key, value)[..HeaderSize] == EncodeHeader(h);
    HeaderRoundTrip(h);
  }

  /** Decoding an encoded record gives it back, whatever bytes follow it. */
  lemma DecodeEncodeKVTrailing(timestamp: nat, key: Bytes, value: Bytes, trailing: Bytes)
    requires IsUint32(timestamp) && IsUint32(|key|) && IsUint32(|value|)
    ensures DecodeKV(EncodeKV(timestamp, key, value) + trailing) == Some(Record(timestamp, key, value))
  {
    var e := EncodeKV(timestamp, key, value);
    var data := e + trailing;
    assert data[..HeaderSize] == e[..HeaderSize];
    EncodedHeader(timestamp, key, value);
    var k := HeaderSize + |key|;
    assert data[HeaderSize..k] == key;
    assert data[k..k + |value|] == value;
  }

  /** A header followed by exactly the payload it announces decodes to the
      header's timestamp, the first keySize payload bytes as the key and the
      rest as the value. */
  lemma DecodeHeaderAndPayload(h: Header, payload: Bytes)
    requires HeaderFits(h) && |payload| == h.keySize + h.valueSize
    ensures DecodeKV(EncodeHeader(h) + payload)
         == Some(Record(h.timestamp, payload[..h.keySize], payload[h.keySize..]))
  {
    var data := EncodeHeader(h) + payload;
    assert data[..HeaderSize] == EncodeHeader(h);
    HeaderRoundTrip(h);
    assert data[HeaderSize..HeaderSize + h.keySize] == payload[..h.keySize];
    assert data[HeaderSize + h.keySize..|data|] == payload[h.keySize..];
  }

  /** The codec's round-trip law: decodeKV(encodeKV(t, k, v)) == (t, k, v). */
  lemma DecodeEncodeKV(timestamp: nat, key: Bytes, value: Bytes)
    requires IsUint32(timestamp) && IsUint32(|key|) && IsUint32(|value|)
    ensures DecodeKV(EncodeKV(timestamp, key, value)) == Some(Record(timestamp, key, value))
  {
    DecodeEncodeKVTrailing(timestamp, key, value, []);
    assert EncodeKV(timestamp, key, value) + [] == EncodeKV(timestamp, key, value);
  }

  /** Conversely, a buffer that decodes starts with exactly the encoding of
      the record it decodes to. */
  lemma EncodeDecodeKV(data: Bytes)
    requires DecodeKV(data).Some?
    ensures Fits(DecodeKV(data).value)
    ensures RecordSize(DecodeKV(data).value) <= |data|
    ensures data[..RecordSize(DecodeKV(data).value)] == Encode(DecodeKV(data).value)
  {
    var r := DecodeKV(data).value;
    var h := DecodeHeader(data[..HeaderSize]);
    HeaderBytesRoundTrip(data[..HeaderSize]);
    assert data[..RecordSize(r)] == data[..HeaderSize] + r.key + r.value;
  }
}
