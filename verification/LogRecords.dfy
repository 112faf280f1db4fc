/** src/record/log_record.rs: the binary format of one log record. */
module LogRecords {
  import opened Outcomes
  import opened Checksum
  import opened Sequences

  const HEADER_SIZE: nat := 13

  datatype RecordType = Normal | Deleted

  datatype Record = Record(key: Bytes, value: Bytes, kind: RecordType)

  /** Where a record lives: file id, byte offset, encoded size (a u32 in the source). */
  datatype Pos = Pos(file: nat, offset: nat, size: u32)

  /** `encoded_length`. */
  function Length(r: Record): (n: nat)
    ensures n >= HEADER_SIZE
  {
    4 + 1 + 4 + 4 + |r.key| + |r.value|
  }

  function TypeByte(t: RecordType): byte {
    match t
    case Normal => 1
    case Deleted => 2
  }

  /** `from_u8`: any byte but 1 and 2 panics. */
  function TypeOf(b: byte): Option<RecordType> {
    if b == 1 then Some(Normal) else if b == 2 then Some(Deleted) else None
  }

  function BigEndian(n: u32): (s: Bytes)
    ensures |s| == 4
  {
    [n / 0x100_0000, n / 0x1_0000 % 0x100, n / 0x100 % 0x100, n % 0x100]
  }

  function FromBigEndian(s: Bytes): u32
    requires |s| == 4
  {
    s[0] as int * 0x100_0000 + s[1] as int * 0x1_0000 + s[2] as int * 0x100 + s[3] as int
  }

  lemma BigEndianInverse(n: u32)
    ensures FromBigEndian(BigEndian(n)) == n
  {
    var q := n / 0x100;
    var p := q / 0x100;
    assert n / 0x1_0000 == p && n / 0x100_0000 == p / 0x100;
  }

  /** The bytes the checksum covers, in order: type, key size, value size, key, value. */
  function Meta(r: Record): (s: Bytes)
    ensures |s| == 9
  {
    [TypeByte(r.kind)] + BigEndian(Truncate(|r.key|)) + BigEndian(Truncate(|r.value|))
  }

  function Body(r: Record): Bytes {
    Meta(r) + r.key + r.value
  }

  function ByteAt(r: Record, i: nat): byte
    requires i < Length(r)
  {
    if i < 4 then BigEndian(Crc(Body(r)))[i] else Body(r)[i - 4]
  }

  /** The on-disk form of a record: its checksum, then the bytes the checksum covers. */
  function Encoding(r: Record): (s: Bytes)
    ensures |s| == Length(r)
  {
    seq(Length(r), i requires 0 <= i < Length(r) => ByteAt(r, i))
  }

  lemma EncodingLayout(r: Record)
    ensures Encoding(r) == BigEndian(Crc(Body(r))) + Body(r)
  {}

  /** Both lengths survive the cast to u32. */
  predicate Encodable(r: Record) {
    |r.key| < 0x1_0000_0000 && |r.value| < 0x1_0000_0000
  }

  /** `LogRecord::encode`: fill a buffer, checksum it past the placeholder, patch the checksum in. */
  method Encode(r: Record) returns (data: Bytes, size: nat)
    ensures data == Encoding(r)
    ensures size == |data|
  {
    size := |r.key| + |r.value| + 13;
    var buf: Bytes := [];
    buf := buf + BigEndian(0);
    buf := buf + [TypeByte(r.kind)];
    buf := buf + BigEndian(Truncate(|r.key|));
    buf := buf + BigEndian(Truncate(|r.value|));
    buf := buf + r.key;
    buf := buf + r.value;
    assert buf[4..] == Body(r);
    var hasher := new Hasher();
    hasher.Update(buf[4..]);
    var crc := hasher.Finalize();
    data := BigEndian(crc) + buf[4..];
    EncodingLayout(r);
  }

  datatype Header = Header(keySize: u32, valueSize: u32, kind: RecordType, crc: u32)

  /** `decode_log_record_header`; `None` is the panic on an unknown type byte. */
  function DecodeHeader(buf: Bytes): Option<Header>
    requires |buf| == HEADER_SIZE
  {
    match TypeOf(buf[4])
    case None => None
    case Some(kind) => Some(Header(FromBigEndian(buf[5..9]), FromBigEndian(buf[9..13]), kind, FromBigEndian(buf[0..4])))
  }

  /** `get_log_record_crc`: three updates in a row. */
  method RecordCrc(r: Record, meta: Bytes) returns (crc: u32)
    ensures crc == Crc(meta + r.key + r.value)
  {
    hide Divide, Xor;
    var hasher := new Hasher();
    hasher.Update(meta);
    hasher.Update(r.key);
    FoldConcat(ONES, meta, r.key, |r.key|);
    assert hasher.crc == Fold(ONES, meta + r.key, |meta + r.key|);
    hasher.Update(r.value);
    FoldConcat(ONES, meta + r.key, r.value, |r.value|);
    crc := hasher.Finalize();
  }

  /** The second read of `read_log_record`: key and value, then the checksum comparison. */
  function ReadBody(file: Bytes, start: nat, h: Header, meta: Bytes): Result<Record> {
    if start + h.keySize + h.valueSize > |file| then Err(UnexpectedEof) else
    var mid := start + h.keySize;
    var r := Record(file[start..mid], file[mid..mid + h.valueSize], h.kind);
    if Crc(meta + r.key + r.value) == h.crc then Ok(r) else Err(InvalidData)
  }

  /** What `read_log_record` makes of the bytes at `offset`. */
  function ReadRecord(file: Bytes, offset: nat): Result<Record> {
    if offset + HEADER_SIZE > |file| then Err(UnexpectedEof) else
    var header := file[offset..offset + HEADER_SIZE];
    match DecodeHeader(header)
    case None => Err(Panic)
    case Some(h) => ReadBody(file, offset + HEADER_SIZE, h, header[4..])
  }

  /** The header of an encoded record decodes to its (truncated) lengths, its type and its checksum. */
  lemma HeaderOfEncoding(r: Record)
    ensures DecodeHeader(Encoding(r)[..HEADER_SIZE])
         == Some(Header(Truncate(|r.key|), Truncate(|r.value|), r.kind, Crc(Body(r))))
    ensures Encoding(r)[..HEADER_SIZE][4..] == Meta(r)
  {
    hide Crc, Truncate;
    var h := Encoding(r)[..HEADER_SIZE];
    assert h[0..4] == BigEndian(Crc(Body(r)));
    assert h[4..] == Meta(r);
    assert h[5..9] == BigEndian(Truncate(|r.key|)) by { assert h[5..9] == Meta(r)[1..5]; }
    assert h[9..13] == BigEndian(Truncate(|r.value|)) by { assert h[9..13] == Meta(r)[5..9]; }
    assert h[4] == Meta(r)[0];
    BigEndianInverse(Crc(Body(r)));
    BigEndianInverse(Truncate(|r.key|));
    BigEndianInverse(Truncate(|r.value|));
  }

  /** The header `encode` writes for `r`. */
  function HeaderOf(r: Record): Header {
    Header(Truncate(|r.key|), Truncate(|r.value|), r.kind, Crc(Body(r)))
  }

  /** The header read of `ReadRecord`, on a file that holds the header of `r` at the given place. */
  lemma ReadAfterHeader(file: Bytes, offset: nat, r: Record)
    requires offset + HEADER_SIZE <= |file|
    requires file[offset..offset + HEADER_SIZE] == Encoding(r)[..HEADER_SIZE]
    ensures ReadRecord(file, offset) == ReadBody(file, offset + HEADER_SIZE, HeaderOf(r), Meta(r))
  {
    HeaderOfEncoding(r);
  }

  lemma EncodedParts(r: Record)
    ensures Encoding(r)[HEADER_SIZE..HEADER_SIZE + |r.key|] == r.key
    ensures Encoding(r)[HEADER_SIZE + |r.key|..] == r.value
  {
    var front := BigEndian(Crc(Body(r))) + Meta(r);
    assert Encoding(r) == front + r.key + r.value;
    SliceMiddle(front, r.key, r.value, 0, |r.key|);
  }

  /** The body read, on a file that holds key and value at the given place. */
  lemma ReadBodyWhole(file: Bytes, start: nat, h: Header, meta: Bytes, r: Record)
    requires h.keySize == |r.key| && h.valueSize == |r.value| && h.kind == r.kind
    requires h.crc == Crc(meta + r.key + r.value)
    requires start + |r.key| + |r.value| <= |file|
    requires file[start..start + |r.key|] == r.key
    requires file[start + |r.key|..start + |r.key| + |r.value|] == r.value
    ensures ReadBody(file, start, h, meta) == Ok(r)
  {
    hide Crc;
    assert Record(file[start..start + |r.key|], file[start + |r.key|..start + |r.key| + |r.value|], h.kind) == r;
  }

  /** The body read, on a file that ends before the value does. */
  lemma ReadBodyShort(file: Bytes, start: nat, h: Header, meta: Bytes)
    requires |file| < start + h.keySize + h.valueSize
    ensures ReadBody(file, start, h, meta) == Err(UnexpectedEof)
  {}

  /** The body read never returns a record longer than the header says. */
  lemma ReadBodySizes(file: Bytes, start: nat, h: Header, meta: Bytes)
    ensures var b := ReadBody(file, start, h, meta);
      b.Ok? ==> |b.value.key| == h.keySize && |b.value.value| == h.valueSize
  {}

  lemma HeaderOfEncodable(r: Record)
    requires Encodable(r)
    ensures HeaderOf(r).keySize == |r.key| && HeaderOf(r).valueSize == |r.value|
    ensures HeaderOf(r).crc == Crc(Meta(r) + r.key + r.value)
  {}

  lemma EncodedBytesAt(file: Bytes, offset: nat, r: Record)
    requires offset + Length(r) <= |file|
    requires file[offset..offset + Length(r)] == Encoding(r)
    ensures file[offset..offset + HEADER_SIZE] == Encoding(r)[..HEADER_SIZE]
    ensures var start := offset + HEADER_SIZE;
      file[start..start + |r.key|] == r.key && file[start + |r.key|..start + |r.key| + |r.value|] == r.value
  {
    var mid := HEADER_SIZE + |r.key|;
    SubSlice(file, offset, Encoding(r), 0, HEADER_SIZE);
    SubSlice(file, offset, Encoding(r), HEADER_SIZE, mid);
    SubSlice(file, offset, Encoding(r), mid, Length(r));
    EncodedParts(r);
  }

  /** A record reads back wherever its encoding stands. */
  lemma ReadWhole(file: Bytes, offset: nat, r: Record)
    requires Encodable(r) && offset + Length(r) <= |file|
    requires file[offset..offset + Length(r)] == Encoding(r)
    ensures ReadRecord(file, offset) == Ok(r)
  {
    EncodedBytesAt(file, offset, r);
    HeaderOfEncodable(r);
    ReadBodyWhole(file, offset + HEADER_SIZE, HeaderOf(r), Meta(r), r);
    ReadAfterHeader(file, offset, r);
  }

  /** A record reads back from the middle of any file exactly when its lengths fit the u32 casts. */
  lemma ReadBack(before: Bytes, r: Record, after: Bytes)
    ensures ReadRecord(before + Encoding(r) + after, |before|) == Ok(r) <==> Encodable(r)
  {
    var offset, file := |before|, before + Encoding(r) + after;
    SliceMiddle(before, Encoding(r), after, 0, Length(r));
    if Encodable(r) {
      ReadWhole(file, offset, r);
    } else {
      SliceMiddle(before, Encoding(r), after, 0, HEADER_SIZE);
      ReadAfterHeader(file, offset, r);
      ReadBodySizes(file, offset + HEADER_SIZE, HeaderOf(r), Meta(r));
    }
  }

  /** A record cut short anywhere reads as end of file: no bad checksum, no bad type byte. */
  lemma ReadTorn(before: Bytes, r: Record, cut: nat)
    requires Encodable(r) && cut < Length(r)
    ensures ReadRecord(before + Encoding(r)[..cut], |before|) == Err(UnexpectedEof)
  {
    var offset, file := |before|, before + Encoding(r)[..cut];
    if cut >= HEADER_SIZE {
      assert file[offset..offset + HEADER_SIZE] == Encoding(r)[..HEADER_SIZE];
      HeaderOfEncodable(r);
      ReadBodyShort(file, offset + HEADER_SIZE, HeaderOf(r), Meta(r));
      ReadAfterHeader(file, offset, r);
    }
  }

  lemma FromBigEndianInverse(s: Bytes)
    requires |s| == 4
    ensures BigEndian(FromBigEndian(s)) == s
  {
    var hi := s[0] as int * 0x100 + s[1];
    var mid := hi * 0x100 + s[2];
    assert FromBigEndian(s) == mid * 0x100 + s[3];
    assert FromBigEndian(s) / 0x100 == mid && FromBigEndian(s) / 0x1_0000 == hi;
    assert FromBigEndian(s) / 0x100_0000 == s[0];
  }

  /** What a successful body read says about the bytes it read. */
  lemma ReadBodyContents(file: Bytes, start: nat, h: Header, meta: Bytes)
    ensures var b := ReadBody(file, start, h, meta);
      b.Ok? ==>
        && |b.value.key| == h.keySize && |b.value.value| == h.valueSize && b.value.kind == h.kind
        && start + |b.value.key| + |b.value.value| <= |file|
        && h.crc == Crc(meta + b.value.key + b.value.value)
        && file[start..start + |b.value.key| + |b.value.value|] == b.value.key + b.value.value
  {
    var mid := start + h.keySize;
    if mid + h.valueSize <= |file| {
      assert file[start..mid + h.valueSize] == file[start..mid] + file[mid..mid + h.valueSize];
    }
  }

  /** A decoded header, written back, is the header that was read. */
  lemma HeaderContents(header: Bytes)
    requires |header| == HEADER_SIZE
    ensures var d := DecodeHeader(header);
      d.Some? ==> header == BigEndian(d.value.crc) + ([TypeByte(d.value.kind)]
                              + BigEndian(d.value.keySize) + BigEndian(d.value.valueSize))
  {
    FromBigEndianInverse(header[0..4]);
    FromBigEndianInverse(header[5..9]);
    FromBigEndianInverse(header[9..13]);
    assert header == header[0..4] + ([header[4]] + header[5..9] + header[9..13]);
  }

  lemma EncodingFromHeader(header: Bytes, h: Header, r: Record)
    requires |header| == HEADER_SIZE && DecodeHeader(header) == Some(h)
    requires |r.key| == h.keySize && |r.value| == h.valueSize && r.kind == h.kind
    requires h.crc == Crc(header[4..] + r.key + r.value)
    ensures Encodable(r) && Encoding(r) == header + (r.key + r.value)
  {
    HeaderContents(header);
    TruncateSmall(|r.key|);
    TruncateSmall(|r.value|);
    assert header[4..] == Meta(r);
    EncodingFromParts(header[..4], header[4..], r, h.crc);
    assert header == header[..4] + header[4..];
  }

  lemma TruncateSmall(n: nat)
    requires n < 0x1_0000_0000
    ensures Truncate(n) == n
  {}

  lemma EncodingFromParts(first: Bytes, meta: Bytes, r: Record, crc: u32)
    requires meta == Meta(r) && first == BigEndian(crc) && crc == Crc(meta + r.key + r.value)
    ensures Encoding(r) == (first + meta) + (r.key + r.value)
  {
    assert Body(r) == meta + r.key + r.value;
  }

  /** Only encodings are readable: whatever `read_log_record` accepts is byte for byte what `encode` writes. */
  lemma ReadCanonical(file: Bytes, offset: nat, r: Record)
    requires ReadRecord(file, offset) == Ok(r)
    ensures Encodable(r) && offset + Length(r) <= |file|
    ensures file[offset..offset + Length(r)] == Encoding(r)
  {
    var start := offset + HEADER_SIZE;
    var header := file[offset..start];
    var h := DecodeHeader(header).value;
    ReadBodyContents(file, start, h, header[4..]);
    EncodingFromHeader(header, h, r);
    SliceSplit(file, offset, start, offset + Length(r));
  }

  // ---------------------------------------------------------------- the format, byte by byte

  /** The number in the four bytes from `at`, the most significant first. */
  function WordAt(file: Bytes, at: nat): nat
    requires at + 4 <= |file|
  {
    ((file[at] as nat * 0x100 + file[at + 1]) * 0x100 + file[at + 2]) * 0x100 + file[at + 3]
  }

  lemma WordIs(file: Bytes, at: nat)
    requires at + 4 <= |file|
    ensures FromBigEndian(file[at..at + 4]) == WordAt(file, at)
  {}

  lemma WordOf(file: Bytes, at: nat, n: u32)
    requires at + 4 <= |file| && file[at..at + 4] == BigEndian(n)
    ensures WordAt(file, at) == n
  {
    BigEndianInverse(n);
    WordIs(file, at);
  }

  /**
   * The encoding, position by position: checksum of all that follows it, type, key length, value length (the most
   * significant byte first, and as many bits as fit), key, value.
   */
  lemma EncodingBytes(r: Record)
    ensures var e := Encoding(r);
      && |e| == 13 + |r.key| + |r.value|
      && WordAt(e, 0) == Crc(e[4..])
      && e[4] == (if r.kind == Normal then 1 else 2)
      && WordAt(e, 5) == |r.key| % 0x1_0000_0000 && WordAt(e, 9) == |r.value| % 0x1_0000_0000
      && e[13..13 + |r.key|] == r.key && e[13 + |r.key|..] == r.value
  {
    hide Crc;
    var e := Encoding(r);
    EncodingLayout(r);
    EncodedParts(r);
    assert e[4..] == Body(r);
    assert e[0..4] == BigEndian(Crc(Body(r)));
    assert e[5..9] == BigEndian(Truncate(|r.key|)) by { assert e[5..9] == Meta(r)[1..5]; }
    assert e[9..13] == BigEndian(Truncate(|r.value|)) by { assert e[9..13] == Meta(r)[5..9]; }
    hide Encoding, Body, Meta, WordAt, BigEndian;
    WordOf(e, 0, Crc(Body(r)));
    WordOf(e, 5, Truncate(|r.key|));
    WordOf(e, 9, Truncate(|r.value|));
  }

  /** `BigEndian` is an order embedding: the smaller number has the smaller byte where the two first differ. */
  lemma BigEndianOrder(m: u32, n: u32, i: nat)
    requires i < 4 && BigEndian(m)[i] != BigEndian(n)[i]
    requires forall j :: 0 <= j < i ==> BigEndian(m)[j] == BigEndian(n)[j]
    ensures m < n <==> BigEndian(m)[i] < BigEndian(n)[i]
  {
    var a, b := BigEndian(m), BigEndian(n);
    BigEndianInverse(m);
    BigEndianInverse(n);
    WordIs(a, 0);
    WordIs(b, 0);
    assert a[0..4] == a && b[0..4] == b;
    assert m == WordAt(a, 0) && n == WordAt(b, 0);
    hide BigEndian;
  }

  /** The place of a whole record: its header, of a known type, and the body that the header announces. */
  predicate WholeAt(file: Bytes, offset: nat) {
    && offset + 13 <= |file| && (file[offset + 4] == 1 || file[offset + 4] == 2)
    && offset + 13 + WordAt(file, offset + 5) + WordAt(file, offset + 9) <= |file|
  }

  /** The header's bytes, taken apart. */
  lemma HeaderAt(file: Bytes, offset: nat)
    requires offset + 13 <= |file|
    ensures var d := DecodeHeader(file[offset..offset + HEADER_SIZE]);
      && (d == None <==> file[offset + 4] != 1 && file[offset + 4] != 2)
      && (d.Some? ==>
            && d.value.keySize == WordAt(file, offset + 5) && d.value.valueSize == WordAt(file, offset + 9)
            && d.value.kind == (if file[offset + 4] == 1 then Normal else Deleted)
            && d.value.crc == WordAt(file, offset))
  {
    var header := file[offset..offset + HEADER_SIZE];
    assert header[0..4] == file[offset..offset + 4];
    assert header[5..9] == file[offset + 5..offset + 5 + 4] && header[9..13] == file[offset + 9..offset + 9 + 4];
    WordIs(file, offset);
    WordIs(file, offset + 5);
    WordIs(file, offset + 9);
  }

  lemma CheckedBytes(file: Bytes, offset: nat, k: nat, v: nat)
    requires offset + 13 + k + v <= |file|
    ensures file[offset..offset + HEADER_SIZE][4..] + file[offset + 13..offset + 13 + k]
              + file[offset + 13 + k..offset + 13 + k + v]
         == file[offset + 4..offset + 13 + k + v]
  {}

  lemma ReadByHeader(file: Bytes, offset: nat)
    requires offset + 13 <= |file|
    ensures var header := file[offset..offset + HEADER_SIZE];
      ReadRecord(file, offset) == match DecodeHeader(header)
        case None => Err(Panic)
        case Some(h) => ReadBody(file, offset + HEADER_SIZE, h, header[4..])
  {}

  /** What a read makes of a whole record: its parts, if the stored checksum is that of all the bytes after it. */
  lemma ReadWholeAt(file: Bytes, offset: nat)
    requires WholeAt(file, offset)
    ensures
      var k, v := WordAt(file, offset + 5), WordAt(file, offset + 9);
      var mid, end := offset + 13 + k, offset + 13 + k + v;
      ReadRecord(file, offset)
      == if WordAt(file, offset) != Crc(file[offset + 4..end]) then Err(InvalidData)
         else Ok(Record(file[offset + 13..mid], file[mid..end], if file[offset + 4] == 1 then Normal else Deleted))
  {
    hide Crc, DecodeHeader, WordAt, ReadRecord;
    HeaderAt(file, offset);
    ReadByHeader(file, offset);
    CheckedBytes(file, offset, WordAt(file, offset + 5), WordAt(file, offset + 9));
  }

  /**
   * Which error a read gives, on any bytes: it panics if and only if there is a header with a type byte other than 1
   * and 2; otherwise it is end of file if and only if the header, or the body it announces, reaches past the end; and
   * InvalidData if and only if the record is whole and its first four bytes are not the checksum of the rest.
   */
  lemma ReadErrors(file: Bytes, offset: nat)
    ensures var got := ReadRecord(file, offset);
      && (got == Err(Panic) <==> offset + 13 <= |file| && file[offset + 4] != 1 && file[offset + 4] != 2)
      && (got == Err(UnexpectedEof) <==> got != Err(Panic) && !WholeAt(file, offset))
      && (got == Err(InvalidData) <==>
            && WholeAt(file, offset)
            && WordAt(file, offset)
               != Crc(file[offset + 4..offset + 13 + WordAt(file, offset + 5) + WordAt(file, offset + 9)]))
      && (got.Ok? || got == Err(Panic) || got == Err(UnexpectedEof) || got == Err(InvalidData))
  {
    if offset + 13 <= |file| {
      HeaderAt(file, offset);
      ReadByHeader(file, offset);
      if WholeAt(file, offset) {
        ReadWholeAt(file, offset);
      }
      hide Crc, DecodeHeader, WordAt, ReadRecord;
    }
  }

  lemma DamagedParts(r: Record, stored: u32)
    requires Encodable(r)
    ensures var damaged := BigEndian(stored) + Body(r);
      && |damaged| == 13 + |r.key| + |r.value| && damaged[0..4] == BigEndian(stored)
      && (damaged[4] == 1 || damaged[4] == 2) && damaged[4..|damaged|] == Body(r)
      && damaged[5..9] == BigEndian(Truncate(|r.key|)) && damaged[9..13] == BigEndian(Truncate(|r.value|))
      && Truncate(|r.key|) == |r.key| && Truncate(|r.value|) == |r.value|
  {
    hide BigEndian;
    var damaged := BigEndian(stored) + Body(r);
    assert damaged[5..9] == Meta(r)[1..5] && damaged[9..13] == Meta(r)[5..9];
  }

  /** A whole record with a stored checksum that is not its own reads as InvalidData, whatever stands around it. */
  lemma ReadDamaged(before: Bytes, r: Record, stored: u32, after: Bytes)
    requires Encodable(r) && stored != Crc(Body(r))
    ensures ReadRecord(before + (BigEndian(stored) + Body(r)) + after, |before|) == Err(InvalidData)
  {
    hide Crc, WordAt, ReadRecord, BigEndian, Body, Meta;
    var damaged, at := BigEndian(stored) + Body(r), |before|;
    var file := before + damaged + after;
    DamagedParts(r, stored);
    SliceMiddle(before, damaged, after, 0, 4);
    SliceMiddle(before, damaged, after, 5, 9);
    SliceMiddle(before, damaged, after, 9, 13);
    SliceMiddle(before, damaged, after, 4, |damaged|);
    WordOf(file, at, stored);
    WordOf(file, at + 5, Truncate(|r.key|));
    WordOf(file, at + 9, Truncate(|r.value|));
    assert file[at + 4] == damaged[4];
    ReadWholeAt(file, at);
  }
}
