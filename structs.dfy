/**
 * The chunk record and its hand-rolled big-endian wire format
 * (pkg/structs/structs.go): Encode, DecodeChunk and ChunkOverhead.
 *
 * Layout: u32 pathLen, path, 32-byte hash, 1 flag byte (Encrypted),
 * i64 DataOffset, u32 DataPadding, u32 ShareIndex, u32 dataLen, data.
 */
module Structs {
  import opened Wrappers
  import opened Wire

  const HASHSIZE: nat := 32

  /** Bytes of the layout besides the path and the data: 4 + 32 + 1 + 8 + 4 + 4 + 4. */
  const FIXED_OVERHEAD: nat := 57

  /**
   * A Go string is a sequence of bytes; the model writes it as a Dafny string
   * whose every character stands for one byte.
   */
  predicate IsByteString(s: string) {
    forall i | 0 <= i < |s| :: s[i] as int < 256
  }

  /** The wire unit: a file's share or chunk with its addressing metadata. */
  datatype Chunk = Chunk(
    path: string,
    hash: seq<Byte>,
    encrypted: bool,
    dataOffset: int,
    dataPadding: nat,
    shareIndex: nat,
    data: seq<Byte>)

  /** The values Go's field types admit: a byte string, a [32]byte, an int64 and two uint32. */
  predicate WellTyped(c: Chunk) {
    && IsByteString(c.path)
    && |c.hash| == HASHSIZE
    && I64_MIN <= c.dataOffset <= I64_MAX
    && c.dataPadding < U32_LIMIT
    && c.shareIndex < U32_LIMIT
  }

  /** The two variable-length fields are short enough for their u32 length prefixes. */
  predicate Fits(c: Chunk) {
    |c.path| < U32_LIMIT && |c.data| < U32_LIMIT
  }

  /** A record fields of which the codec carries unchanged. */
  predicate Encodable(c: Chunk) {
    WellTyped(c) && Fits(c)
  }

  /** []byte(s). */
  function StringBytes(s: string): (r: seq<Byte>)
    requires IsByteString(s)
    ensures |r| == |s|
    ensures forall i | 0 <= i < |s| :: r[i] == s[i] as int
  {
    seq(|s|, i requires 0 <= i < |s| => s[i] as int)
  }

  /** string(b). */
  function BytesString(b: seq<Byte>): (r: string)
    ensures |r| == |b| && IsByteString(r)
    ensures forall i | 0 <= i < |b| :: r[i] as int == b[i]
  {
    seq(|b|, i requires 0 <= i < |b| => b[i] as char)
  }

  lemma StringBytesRoundTrip(s: string, b: seq<Byte>)
    requires IsByteString(s)
    ensures BytesString(StringBytes(s)) == s
    ensures StringBytes(BytesString(b)) == b
  {
  }

  /** The b2i table: false is 0, true is 1. */
  function FlagByte(b: bool): (r: Byte)
    ensures r == 0 || r == 1
    ensures b <==> r == 1
  {
    if b then 1 else 0
  }

  /**
   * Chunk.Encode. uint32(len(...)) truncates a length of 2^32 or more, which is
   * written out here; the packer writes into a bytes.Buffer and never reports an error.
   */
  function Encode(c: Chunk): (r: seq<Byte>)
    requires WellTyped(c)
  {
    Uint32(|c.path| % U32_LIMIT)
    + (StringBytes(c.path)
    + (c.hash
    + ([FlagByte(c.encrypted)]
    + (Int64(c.dataOffset)
    + (Uint32(c.dataPadding)
    + (Uint32(c.shareIndex)
    + (Uint32(|c.data| % U32_LIMIT)
    + c.data)))))))
  }

  lemma EncodeLength(c: Chunk)
    requires WellTyped(c)
    ensures |Encode(c)| == 4 + |c.path| + 32 + 1 + 8 + 4 + 4 + 4 + |c.data|
  {
  }

  /** Chunk.Encode as the packer runs it: each field pushed onto the end of the buffer in turn. */
  method EncodeChunk(c: Chunk) returns (buffer: seq<Byte>)
    requires WellTyped(c)
    ensures buffer == Encode(c)
  {
    var pathbytes := StringBytes(c.path);
    buffer := [];
    buffer := buffer + Uint32(|pathbytes| % U32_LIMIT);
    buffer := buffer + pathbytes;
    buffer := buffer + c.hash;
    buffer := buffer + [FlagByte(c.encrypted)];
    buffer := buffer + Int64(c.dataOffset);
    buffer := buffer + Uint32(c.dataPadding);
    buffer := buffer + Uint32(c.shareIndex);
    buffer := buffer + Uint32(|c.data| % U32_LIMIT);
    buffer := buffer + c.data;
  }

  /** Chunk{Path: path}: every other field holds Go's zero value. */
  function EmptyChunk(path: string): Chunk
  {
    Chunk(path, Zeros(HASHSIZE), false, 0, 0, 0, [])
  }

  /** ChunkOverhead: the encoded size of a chunk with this path and no data. */
  function ChunkOverhead(path: string): (r: nat)
    requires IsByteString(path)
    ensures r == FIXED_OVERHEAD + |path|
  {
    EncodeLength(EmptyChunk(path));
    |Encode(EmptyChunk(path))|
  }

  lemma EncodedSizeIsOverheadPlusData(c: Chunk)
    requires WellTyped(c)
    ensures |Encode(c)| == ChunkOverhead(c.path) + |c.data|
  {
    EncodeLength(c);
  }

  /**
   * A file being reassembled on the receiver (OpenTempFile): the temp file's name,
   * the file's own path and hash, the archive flag and the time of the last write,
   * in nanoseconds.
   */
  datatype OpenTempFile = OpenTempFile(
    tempFile: string,
    path: string,
    hash: seq<Byte>,
    encrypted: bool,
    lastUpdated: int)

  // ---------------------------------------------------------------------------
  // Decoding: the unpacker as a cursor over the remaining bytes.

  /** Why DecodeChunk reports failure. */
  datatype DecodeError =
    | Truncated       // a fixed field or a length-prefixed field runs past the end of the datagram
    | FlagOutOfRange  // the flag byte is above 1: i2b[enc] is out of range (a panic in the source)

  /** A value fetched from the front of the buffer, and what remains after it. */
  datatype Fetched<T> = Fetched(value: T, rest: seq<Byte>)

  function FetchBytes(s: seq<Byte>, n: nat): (r: Result<Fetched<seq<Byte>>, DecodeError>)
    ensures r.Success? <==> n <= |s|
    ensures r.Success? ==> r.value.value == s[..n] && r.value.rest == s[n..]
  {
    if n <= |s| then Success(Fetched(s[..n], s[n..])) else Failure(Truncated)
  }

  function FetchUint32(s: seq<Byte>): (r: Result<Fetched<nat>, DecodeError>)
    ensures r.Success? <==> 4 <= |s|
    ensures r.Success? ==> r.value.value == ReadUint32(s[..4]) && r.value.rest == s[4..]
  {
    var b :- FetchBytes(s, 4);
    Success(Fetched(ReadUint32(b.value), b.rest))
  }

  function FetchInt64(s: seq<Byte>): (r: Result<Fetched<int>, DecodeError>)
    ensures r.Success? <==> 8 <= |s|
    ensures r.Success? ==> r.value.value == ReadInt64(s[..8]) && r.value.rest == s[8..]
  {
    var b :- FetchBytes(s, 8);
    Success(Fetched(ReadInt64(b.value), b.rest))
  }

  /** The i2b table: a byte above 1 indexes past its end. */
  function FlagValue(b: Byte): (r: Result<bool, DecodeError>)
    ensures r.Success? <==> b <= 1
    ensures r.Success? ==> FlagByte(r.value) == b
  {
    if b == 0 then Success(false) else if b == 1 then Success(true) else Failure(FlagOutOfRange)
  }

  /** DecodeChunk. Bytes after the data are ignored. */
  function Decode(s: seq<Byte>): Result<Chunk, DecodeError>
  {
    var pathLen :- FetchUint32(s);
    var path :- FetchBytes(pathLen.rest, pathLen.value);
    var hash :- FetchBytes(path.rest, HASHSIZE);
    DecodeFields(BytesString(path.value), hash.value, hash.rest)
  }

  /** The rest of DecodeChunk, once the path and the hash have been fetched. */
  function DecodeFields(path: string, hash: seq<Byte>, s: seq<Byte>): Result<Chunk, DecodeError>
  {
    var flag :- FetchBytes(s, 1);
    var encrypted :- FlagValue(flag.value[0]);
    DecodeNumbers(path, hash, encrypted, flag.rest)
  }

  /** The offset, padding and share-index fields. */
  function DecodeNumbers(path: string, hash: seq<Byte>, encrypted: bool, s: seq<Byte>): Result<Chunk, DecodeError>
  {
    var offset :- FetchInt64(s);
    var padding :- FetchUint32(offset.rest);
    var index :- FetchUint32(padding.rest);
    DecodeData(Chunk(path, hash, encrypted, offset.value, padding.value, index.value, []), index.rest)
  }

  /** The length-prefixed data, the last field. */
  function DecodeData(header: Chunk, s: seq<Byte>): Result<Chunk, DecodeError>
  {
    var dataLen :- FetchUint32(s);
    var data :- FetchBytes(dataLen.rest, dataLen.value);
    Success(header.(data := data.value))
  }

  /**
   * DecodeChunk as the unpacker runs it: a cursor over the datagram, each field
   * fetched from what remains. The first fetch that runs short ends decoding
   * with an error; a flag byte above 1 indexes past i2b.
   */
  method DecodeChunk(datagram: seq<Byte>) returns (r: Result<Chunk, DecodeError>)
    ensures r == Decode(datagram)
  {
    var rest := datagram;
    if |rest| < 4 { return Failure(Truncated); }
    var pathLen := ReadUint32(rest[..4]);
    rest := rest[4..];
    if |rest| < pathLen { return Failure(Truncated); }
    var path := BytesString(rest[..pathLen]);
    rest := rest[pathLen..];
    if |rest| < HASHSIZE { return Failure(Truncated); }
    var hash := rest[..HASHSIZE];
    rest := rest[HASHSIZE..];
    assert Decode(datagram) == DecodeFields(path, hash, rest);
    if |rest| < 1 { return Failure(Truncated); }
    var enc := rest[0];
    rest := rest[1..];
    if enc > 1 { return Failure(FlagOutOfRange); }
    var encrypted := enc == 1;
    assert Decode(datagram) == DecodeNumbers(path, hash, encrypted, rest);
    if |rest| < 8 { return Failure(Truncated); }
    var offset := ReadInt64(rest[..8]);
    rest := rest[8..];
    if |rest| < 4 { return Failure(Truncated); }
    var padding := ReadUint32(rest[..4]);
    rest := rest[4..];
    if |rest| < 4 { return Failure(Truncated); }
    var index := ReadUint32(rest[..4]);
    rest := rest[4..];
    assert Decode(datagram) == DecodeData(Chunk(path, hash, encrypted, offset, padding, index, []), rest);
    if |rest| < 4 { return Failure(Truncated); }
    var dataLen := ReadUint32(rest[..4]);
    rest := rest[4..];
    if |rest| < dataLen { return Failure(Truncated); }
    var data := rest[..dataLen];
    return Success(Chunk(path, hash, encrypted, offset, padding, index, data));
  }

  /** Peeling a known prefix off the buffer. */
  lemma FetchPrefix(a: seq<Byte>, b: seq<Byte>)
    ensures FetchBytes(a + b, |a|) == Success(Fetched(a, b))
  {
    assert (a + b)[..|a|] == a;
    assert (a + b)[|a|..] == b;
  }

  /** The fields after the path and the hash, as Encode lays them out. */
  function EncodeFields(c: Chunk): seq<Byte>
    requires WellTyped(c)
  {
    [FlagByte(c.encrypted)]
    + (Int64(c.dataOffset)
    + (Uint32(c.dataPadding)
    + (Uint32(c.shareIndex)
    + (Uint32(|c.data| % U32_LIMIT)
    + c.data))))
  }

  lemma EncodeSplit(c: Chunk, trailing: seq<Byte>)
    requires WellTyped(c)
    ensures Encode(c) + trailing
         == Uint32(|c.path| % U32_LIMIT) + (StringBytes(c.path) + (c.hash + (EncodeFields(c) + trailing)))
  {
  }

  lemma EncodeFieldsSplit(c: Chunk, trailing: seq<Byte>)
    requires WellTyped(c)
    ensures EncodeFields(c) + trailing
         == [FlagByte(c.encrypted)] + (Int64(c.dataOffset) + (Uint32(c.dataPadding)
            + (Uint32(c.shareIndex) + (Uint32(|c.data| % U32_LIMIT) + (c.data + trailing)))))
  {
  }

  lemma DecodeHead(c: Chunk, rest: seq<Byte>)
    requires Encodable(c)
    ensures Decode(Uint32(|c.path|) + (StringBytes(c.path) + (c.hash + rest)))
         == DecodeFields(c.path, c.hash, rest)
  {
    var pl := Uint32(|c.path|);
    var pb := StringBytes(c.path);
    Uint32RoundTrip(|c.path|, pl);
    StringBytesRoundTrip(c.path, []);
    FetchPrefix(pl, pb + (c.hash + rest));
    FetchPrefix(pb, c.hash + rest);
    FetchPrefix(c.hash, rest);
  }

  lemma DecodeTail(c: Chunk, trailing: seq<Byte>)
    requires Encodable(c)
    ensures DecodeFields(c.path, c.hash, EncodeFields(c) + trailing) == Success(c)
  {
    var f := [FlagByte(c.encrypted)];
    var s4 := Int64(c.dataOffset) + (Uint32(c.dataPadding)
      + (Uint32(c.shareIndex) + (Uint32(|c.data|) + (c.data + trailing))));
    EncodeFieldsSplit(c, trailing);
    assert |c.data| % U32_LIMIT == |c.data|;
    FetchPrefix(f, s4);
    DecodeNumbersTail(c, trailing);
  }

  lemma DecodeNumbersTail(c: Chunk, trailing: seq<Byte>)
    requires Encodable(c)
    ensures DecodeNumbers(c.path, c.hash, c.encrypted, Int64(c.dataOffset) + (Uint32(c.dataPadding)
      + (Uint32(c.shareIndex) + (Uint32(|c.data|) + (c.data + trailing))))) == Success(c)
  {
    var off := Int64(c.dataOffset);
    var pad := Uint32(c.dataPadding);
    var idx := Uint32(c.shareIndex);
    var s7 := Uint32(|c.data|) + (c.data + trailing);
    Uint32RoundTrip(c.dataPadding, pad);
    Uint32RoundTrip(c.shareIndex, idx);
    Int64RoundTrip(c.dataOffset, off);
    FetchPrefix(off, pad + (idx + s7));
    FetchPrefix(pad, idx + s7);
    FetchPrefix(idx, s7);
    DecodeDataTail(Chunk(c.path, c.hash, c.encrypted, c.dataOffset, c.dataPadding, c.shareIndex, []), c.data, trailing);
  }

  lemma DecodeDataTail(header: Chunk, data: seq<Byte>, trailing: seq<Byte>)
    requires |data| < U32_LIMIT
    ensures DecodeData(header, Uint32(|data|) + (data + trailing)) == Success(header.(data := data))
  {
    var dl := Uint32(|data|);
    Uint32RoundTrip(|data|, dl);
    FetchPrefix(dl, data + trailing);
    FetchPrefix(data, trailing);
  }

  /** Decoding an encoded chunk gives it back, whatever follows it in the datagram. */
  lemma DecodeEncode(c: Chunk, trailing: seq<Byte>)
    requires Encodable(c)
    ensures Decode(Encode(c) + trailing) == Success(c)
  {
    var rest := EncodeFields(c) + trailing;
    EncodeSplit(c, trailing);
    assert |c.path| % U32_LIMIT == |c.path|;
    assert Encode(c) + trailing == Uint32(|c.path|) + (StringBytes(c.path) + (c.hash + rest));
    DecodeHead(c, rest);
    DecodeTail(c, trailing);
  }

  lemma DecodeEncodeExact(c: Chunk)
    requires Encodable(c)
    ensures Decode(Encode(c)) == Success(c)
  {
    DecodeEncode(c, []);
    assert Encode(c) + [] == Encode(c);
  }

  /** Where Encode puts the length prefix, the path bytes, the hash and the flag byte. */
  lemma EncodeLayout(c: Chunk)
    requires WellTyped(c)
    ensures var e := Encode(c);
      && |e| >= 4 + |c.path| + HASHSIZE + 1
      && e[..4] == Uint32(|c.path| % U32_LIMIT)
      && e[4..4 + |c.path|] == StringBytes(c.path)
      && e[4 + |c.path|..4 + |c.path| + HASHSIZE] == c.hash
      && e[4 + |c.path| + HASHSIZE] == FlagByte(c.encrypted)
      && (e[4 + |c.path| + HASHSIZE] == 0 || e[4 + |c.path| + HASHSIZE] == 1)
  {
    EncodeSplit(c, []);
    var pl := Uint32(|c.path| % U32_LIMIT);
    var pb := StringBytes(c.path);
    var e := Encode(c);
    assert e == pl + (pb + (c.hash + EncodeFields(c)));
    assert e[..4] == pl;
    assert e[4..4 + |c.path|] == pb;
    assert e[4 + |c.path|..4 + |c.path| + HASHSIZE] == c.hash;
    assert e[4 + |c.path| + HASHSIZE] == EncodeFields(c)[0];
  }

  lemma DecodeDataInverse(header: Chunk, s: seq<Byte>)
    requires DecodeData(header, s).Success?
    ensures var c := DecodeData(header, s).value;
      && c == header.(data := c.data) && |c.data| < U32_LIMIT
      && s == Uint32(|c.data|) + (c.data + s[4 + |c.data|..])
  {
    var c := DecodeData(header, s).value;
    Uint32RoundTrip(0, s[..4]);
    SliceThree(s, 4, 4 + |c.data|);
    assert c.data == s[4..4 + |c.data|];
  }

  /** A buffer cut at two points is the three pieces in order. */
  lemma SliceThree(s: seq<Byte>, a: nat, b: nat)
    requires a <= b <= |s|
    ensures s == s[..a] + (s[a..b] + s[b..])
  {
  }

  lemma DecodeNumbersInverse(path: string, hash: seq<Byte>, encrypted: bool, s: seq<Byte>)
    requires DecodeNumbers(path, hash, encrypted, s).Success?
    ensures var c := DecodeNumbers(path, hash, encrypted, s).value;
      && c.path == path && c.hash == hash && c.encrypted == encrypted
      && I64_MIN <= c.dataOffset <= I64_MAX && c.dataPadding < U32_LIMIT && c.shareIndex < U32_LIMIT
      && s == Int64(c.dataOffset) + (Uint32(c.dataPadding) + (Uint32(c.shareIndex) + s[16..]))
      && DecodeData(c.(data := []), s[16..]) == Success(c)
  {
    var c := DecodeNumbers(path, hash, encrypted, s).value;
    Int64RoundTrip(0, s[..8]);
    Uint32RoundTrip(0, s[8..12]);
    Uint32RoundTrip(0, s[12..16]);
    assert s[8..][..4] == s[8..12];
    assert s[8..][4..][..4] == s[12..16];
    assert s[8..][4..][4..] == s[16..];
    assert s == s[..8] + (s[8..12] + (s[12..16] + s[16..]));
  }

  /** Whatever DecodeFields accepts is an encoding of the fields it returns, followed by ignored bytes. */
  lemma DecodeFieldsInverse(path: string, hash: seq<Byte>, s: seq<Byte>)
    requires |hash| == HASHSIZE && IsByteString(path)
    requires DecodeFields(path, hash, s).Success?
    ensures var c := DecodeFields(path, hash, s).value;
      && c.path == path && c.hash == hash && WellTyped(c) && |c.data| < U32_LIMIT
      && |EncodeFields(c)| <= |s|
      && s == EncodeFields(c) + s[|EncodeFields(c)|..]
  {
    var s4 := s[1..];
    var encrypted := FlagValue(s[0]).value;
    assert DecodeFields(path, hash, s) == DecodeNumbers(path, hash, encrypted, s4);
    var c := DecodeNumbers(path, hash, encrypted, s4).value;
    var trailing := NumbersLayout(path, hash, encrypted, s4);
    assert s == [FlagByte(c.encrypted)] + s4;
    EncodeFieldsFollowedBy(c, trailing, s);
  }

  /** The fields after the flag byte, laid out as the encoder writes them, followed by ignored bytes. */
  lemma NumbersLayout(path: string, hash: seq<Byte>, encrypted: bool, s: seq<Byte>) returns (trailing: seq<Byte>)
    requires DecodeNumbers(path, hash, encrypted, s).Success?
    ensures var c := DecodeNumbers(path, hash, encrypted, s).value;
      && c.path == path && c.hash == hash && c.encrypted == encrypted
      && I64_MIN <= c.dataOffset <= I64_MAX && c.dataPadding < U32_LIMIT && c.shareIndex < U32_LIMIT
      && |c.data| < U32_LIMIT
      && s == Int64(c.dataOffset) + (Uint32(c.dataPadding) + (Uint32(c.shareIndex)
           + (Uint32(|c.data|) + (c.data + trailing))))
  {
    var c := DecodeNumbers(path, hash, encrypted, s).value;
    DecodeNumbersInverse(path, hash, encrypted, s);
    var s7 := s[16..];
    DecodeDataInverse(c.(data := []), s7);
    trailing := s7[4 + |c.data|..];
  }

  lemma EncodeFieldsFollowedBy(c: Chunk, trailing: seq<Byte>, s: seq<Byte>)
    requires WellTyped(c) && |c.data| < U32_LIMIT
    requires s == [FlagByte(c.encrypted)] + (Int64(c.dataOffset) + (Uint32(c.dataPadding)
            + (Uint32(c.shareIndex) + (Uint32(|c.data|) + (c.data + trailing)))))
    ensures |EncodeFields(c)| <= |s| && s == EncodeFields(c) + s[|EncodeFields(c)|..]
  {
    assert |c.data| % U32_LIMIT == |c.data|;
    EncodeFieldsSplit(c, trailing);
    assert s[|EncodeFields(c)|..] == trailing;
  }

  /**
   * Whatever DecodeChunk accepts is the encoding of the chunk it returns, followed by
   * ignored bytes; together with DecodeEncode this makes Decode a left inverse of Encode.
   */
  lemma DecodeInverse(s: seq<Byte>)
    requires Decode(s).Success?
    ensures var c := Decode(s).value;
      && Encodable(c)
      && |Encode(c)| <= |s|
      && s == Encode(c) + s[|Encode(c)|..]
  {
    var path, hash, rest := DecodeHeadInverse(s);
    DecodeFieldsInverse(path, hash, rest);
    var c := Decode(s).value;
    var trailing := rest[|EncodeFields(c)|..];
    EncodeFollowedBy(c, trailing, s);
  }

  /** A datagram Decode accepts starts with a length-prefixed path and a hash, and the rest are the fields. */
  lemma DecodeHeadInverse(s: seq<Byte>) returns (path: string, hash: seq<Byte>, rest: seq<Byte>)
    requires Decode(s).Success?
    ensures IsByteString(path) && |path| < U32_LIMIT && |hash| == HASHSIZE
    ensures s == Uint32(|path|) + (StringBytes(path) + (hash + rest))
    ensures Decode(s) == DecodeFields(path, hash, rest)
  {
    var n := ReadUint32(s[..4]);
    var s1 := s[4..];
    var s2 := s1[n..];
    rest := s2[HASHSIZE..];
    var pathBytes := s1[..n];
    path := BytesString(pathBytes);
    hash := s2[..HASHSIZE];
    StringBytesRoundTrip(path, pathBytes);
    Uint32RoundTrip(0, s[..4]);
    assert s[..4] == Uint32(|path|);
    assert s2 == hash + rest;
    assert s1 == StringBytes(path) + s2;
    assert s == s[..4] + s1;
  }

  lemma EncodeFollowedBy(c: Chunk, trailing: seq<Byte>, s: seq<Byte>)
    requires Encodable(c)
    requires s == Uint32(|c.path|) + (StringBytes(c.path) + (c.hash + (EncodeFields(c) + trailing)))
    ensures |Encode(c)| <= |s| && s == Encode(c) + s[|Encode(c)|..]
  {
    EncodeSplit(c, trailing);
    assert |c.path| % U32_LIMIT == |c.path|;
    assert s == Encode(c) + trailing;
    assert s[|Encode(c)|..] == trailing;
  }

  /** A length prefix larger than the bytes after it makes decoding fail (a 0xff-filled datagram, for one). */
  lemma OverlongPathIsTruncated(s: seq<Byte>)
    requires |s| >= 4 && ReadUint32(s[..4]) > |s| - 4
    ensures Decode(s) == Failure(Truncated)
  {
  }

  lemma OverlongDataIsTruncated(c: Chunk, dataLen: nat, short: seq<Byte>)
    requires Encodable(c) && |short| < dataLen < U32_LIMIT
    ensures Decode(Uint32(|c.path|) + (StringBytes(c.path) + (c.hash
             + ([FlagByte(c.encrypted)] + (Int64(c.dataOffset) + (Uint32(c.dataPadding)
             + (Uint32(c.shareIndex) + (Uint32(dataLen) + short))))))))
         == Failure(Truncated)
  {
    var rest := [FlagByte(c.encrypted)] + (Int64(c.dataOffset) + (Uint32(c.dataPadding)
             + (Uint32(c.shareIndex) + (Uint32(dataLen) + short))));
    DecodeHead(c, rest);
    var s5 := Uint32(c.dataPadding) + (Uint32(c.shareIndex) + (Uint32(dataLen) + short));
    var s6 := Uint32(c.shareIndex) + (Uint32(dataLen) + short);
    var s7 := Uint32(dataLen) + short;
    FetchPrefix([FlagByte(c.encrypted)], Int64(c.dataOffset) + s5);
    FetchPrefix(Int64(c.dataOffset), s5);
    FetchPrefix(Uint32(c.dataPadding), s6);
    FetchPrefix(Uint32(c.shareIndex), s7);
    FetchPrefix(Uint32(dataLen), short);
    Uint32RoundTrip(dataLen, Uint32(dataLen));
  }

  /** The 4096-byte datagram of 0xff bytes that the receiver test sends is rejected. */
  lemma AllOnesDatagramIsRejected()
    ensures Decode(seq(4096, _ => 255)) == Failure(Truncated)
  {
    var s: seq<Byte> := seq(4096, _ => 255);
    assert s[..4] == [255, 255, 255, 255];
    assert ReadUint32(s[..4]) == 0xffff_ffff by {
      assert [255, 255, 255, 255][..3] == [255, 255, 255];
      assert [255, 255, 255][..2] == [255, 255];
      assert [255, 255][..1] == [255];
      assert [255][..0] == [];
    }
    OverlongPathIsTruncated(s);
  }

  /** A flag byte above 1 is refused, even when the rest of the record is intact. */
  lemma FlagAboveOneRefused(path: string, hash: seq<Byte>, flag: Byte, rest: seq<Byte>)
    requires IsByteString(path) && |path| < U32_LIMIT && |hash| == HASHSIZE && flag > 1
    ensures Decode(Uint32(|path|) + (StringBytes(path) + (hash + ([flag] + rest))))
         == Failure(FlagOutOfRange)
  {
    DecodeHead(Chunk(path, hash, false, 0, 0, 0, []), [flag] + rest);
    FetchPrefix([flag], rest);
  }

  /** In a decoded datagram the hash is exactly the 32 bytes after the path. */
  lemma DecodedHashFollowsPath(s: seq<Byte>)
    requires Decode(s).Success?
    ensures var c := Decode(s).value;
      4 + |c.path| + HASHSIZE <= |s| && c.hash == s[4 + |c.path|..4 + |c.path| + HASHSIZE]
  {
    var c := Decode(s).value;
    DecodeInverse(s);
    EncodeLayout(c);
    var e := Encode(c);
    assert s[..|e|] == e;
    assert s[4 + |c.path|..4 + |c.path| + HASHSIZE] == e[4 + |c.path|..4 + |c.path| + HASHSIZE];
  }
}
