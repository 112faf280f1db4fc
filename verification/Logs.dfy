/** One data file as a list of records: sizes, offsets, its bytes, and reading the bytes back. */
module Logs {
  import opened Outcomes
  import opened Checksum
  import opened Sequences
  import opened LogRecords

  type Log = seq<Record>

  function Size(log: Log): nat {
    if log == [] then 0 else Size(log[..|log| - 1]) + Length(log[|log| - 1])
  }

  /** The record that starts at byte `offset`, if one does. */
  function Find(log: Log, offset: nat): Option<Record> {
    if log == [] then None
    else if offset == Size(log[..|log| - 1]) then Some(log[|log| - 1])
    else Find(log[..|log| - 1], offset)
  }

  /** The bytes of a file the records were appended to in order. */
  function Print(log: Log): Bytes {
    if log == [] then [] else Print(log[..|log| - 1]) + Encoding(log[|log| - 1])
  }

  predicate AllEncodable(log: Log) {
    forall r :: r in log ==> Encodable(r)
  }

  lemma SizeSnoc(log: Log, r: Record)
    ensures Size(log + [r]) == Size(log) + Length(r)
    ensures Print(log + [r]) == Print(log) + Encoding(r)
  {
    assert (log + [r])[..|log|] == log;
  }

  lemma FindSnoc(log: Log, r: Record, offset: nat)
    ensures Find(log + [r], offset) == if offset == Size(log) then Some(r) else Find(log, offset)
  {
    assert (log + [r])[..|log|] == log;
  }

  lemma SizePrefix(log: Log, i: nat)
    requires i < |log|
    ensures Size(log[..i + 1]) == Size(log[..i]) + Length(log[i])
  {
    assert log[..i + 1] == log[..i] + [log[i]];
    SizeSnoc(log[..i], log[i]);
  }

  lemma {:induction false} SizeMonotone(log: Log, i: nat, j: nat)
    requires i <= j <= |log|
    ensures Size(log[..i]) <= Size(log[..j])
    ensures i < j ==> Size(log[..i]) < Size(log[..j])
  {
    if i < j {
      SizeMonotone(log, i, j - 1);
      SizePrefix(log, j - 1);
    }
  }

  lemma {:induction false} PrintSize(log: Log)
    ensures |Print(log)| == Size(log)
  {
    if log != [] {
      PrintSize(log[..|log| - 1]);
    }
  }

  lemma {:induction false} SizeConcat(a: Log, b: Log)
    ensures Size(a + b) == Size(a) + Size(b)
  {
    if b == [] {
      assert a + b == a;
    } else {
      SizeConcat(a, b[..|b| - 1]);
      assert (a + b)[..|a + b| - 1] == a + b[..|b| - 1];
    }
  }

  lemma {:induction false} PrintConcat(a: Log, b: Log)
    ensures Print(a + b) == Print(a) + Print(b)
  {
    hide Encoding;
    if b == [] {
      assert a + b == a;
    } else {
      hide Print;
      var init, last := b[..|b| - 1], b[|b| - 1];
      PrintConcat(a, init);
      assert init + [last] == b;
      assert (a + init) + [last] == a + b;
      SizeSnoc(init, last);
      SizeSnoc(a + init, last);
      Associate(Print(a), Print(init), Encoding(last));
    }
  }

  /** Every record is found at the running sum of the lengths before it. */
  lemma {:induction false} FindAt(log: Log, i: nat)
    requires i < |log|
    ensures Find(log, Size(log[..i])) == Some(log[i])
  {
    var n := |log| - 1;
    if i < n {
      SizeMonotone(log, i, n);
      FindAt(log[..n], i);
      assert log[..n][..i] == log[..i];
    }
  }

  /** What is found starts at such a sum, and ends inside the file. */
  lemma {:induction false} FindSound(log: Log, offset: nat)
    requires Find(log, offset).Some?
    ensures exists i :: 0 <= i < |log| && Size(log[..i]) == offset && log[i] == Find(log, offset).value
    ensures offset + Length(Find(log, offset).value) <= Size(log)
  {
    var n := |log| - 1;
    if offset == Size(log[..n]) {
    } else {
      FindSound(log[..n], offset);
      var i :| 0 <= i < n && Size(log[..n][..i]) == offset && log[..n][i] == Find(log, offset).value;
      assert log[..n][..i] == log[..i];
    }
  }

  /** A record stays where it is when more is appended. */
  lemma FindAppend(log: Log, r: Record, offset: nat)
    requires Find(log, offset).Some?
    ensures Find(log + [r], offset) == Find(log, offset)
  {
    FindSnoc(log, r, offset);
    FindSound(log, offset);
  }

  lemma PrintAt(log: Log, i: nat)
    requires i < |log|
    ensures Size(log[..i]) + Length(log[i]) <= |Print(log)|
    ensures Print(log)[..Size(log[..i])] == Print(log[..i])
    ensures Print(log)[Size(log[..i])..Size(log[..i]) + Length(log[i])] == Encoding(log[i])
  {
    hide Encoding;
    assert log == log[..i] + [log[i]] + log[i + 1..];
    SizeSnoc(log[..i], log[i]);
    PrintConcat(log[..i] + [log[i]], log[i + 1..]);
    PrintSize(log[..i]);
  }

  /** Reading at a record's offset returns it, whatever bytes follow the log. */
  lemma ReadFound(log: Log, tail: Bytes, offset: nat)
    requires AllEncodable(log) && Find(log, offset).Some?
    ensures ReadRecord(Print(log) + tail, offset) == Ok(Find(log, offset).value)
  {
    hide Encoding, ReadRecord, Print, Size;
    FindSound(log, offset);
    var i :| 0 <= i < |log| && Size(log[..i]) == offset && log[i] == Find(log, offset).value;
    PrintAt(log, i);
    var file := Print(log) + tail;
    assert file[offset..offset + Length(log[i])] == Print(log)[offset..offset + Length(log[i])];
    ReadWhole(file, offset, log[i]);
  }

  /** Reading where the n-th record starts returns it, or end of file after the last. */
  lemma ReadNth(log: Log, n: nat)
    requires AllEncodable(log) && n <= |log|
    ensures ReadRecord(Print(log), Size(log[..n])) == if n < |log| then Ok(log[n]) else Err(UnexpectedEof)
  {
    hide Encoding, ReadRecord, Print;
    if n < |log| {
      FindAt(log, n);
      ReadFound(log, [], Size(log[..n]));
      assert Print(log) + [] == Print(log);
    } else {
      assert log[..n] == log;
      PrintSize(log);
      ReadPastEnd(Print(log), Size(log));
    }
  }

  /** The records a scan from `offset` returns, and the error other than end of file that stopped it. */
  datatype Scan = Scan(records: Log, error: Option<Error>)

  /** The scan loop `open` and `merge` share: read, step over, stop at UnexpectedEof, give up on anything else. */
  function Parse(file: Bytes, offset: nat): Scan
    decreases |file| - offset
  {
    match ReadRecord(file, offset)
    case Err(e) => Scan([], if e == UnexpectedEof then None else Some(e))
    case Ok(r) =>
      ReadCanonical(file, offset, r);
      var rest := Parse(file, offset + Length(r));
      Scan([r] + rest.records, rest.error)
  }

  /** How many records of `log` lie entirely in its first `cut` bytes. */
  function WholeRecords(log: Log, cut: nat): (n: nat)
    ensures n <= |log| && Size(log[..n]) <= cut
    ensures n < |log| ==> cut < Size(log[..n + 1])
  {
    if Size(log) <= cut then
      assert log[..|log|] == log;
      |log|
    else
      var init := log[..|log| - 1];
      var n := WholeRecords(init, cut);
      assert init[..n] == log[..n];
      assert n < |init| ==> init[..n + 1] == log[..n + 1];
      assert n == |init| ==> log[..n + 1] == log;
      n
  }

  lemma ParseStep(file: Bytes, offset: nat, r: Record)
    requires ReadRecord(file, offset) == Ok(r)
    ensures Parse(file, offset) == var rest := Parse(file, offset + Length(r)); Scan([r] + rest.records, rest.error)
  {
    hide ReadRecord;
  }

  lemma ParseEnd(file: Bytes, offset: nat)
    requires ReadRecord(file, offset) == Err(UnexpectedEof)
    ensures Parse(file, offset) == Scan([], None)
  {}

  lemma ReadBeforeCut(log: Log, cut: nat, i: nat)
    requires AllEncodable(log) && cut <= |Print(log)| && i < WholeRecords(log, cut)
    ensures ReadRecord(Print(log)[..cut], Size(log[..i])) == Ok(log[i])
  {
    hide Encoding, ReadRecord, WholeRecords, Print, Size;
    var file, offset := Print(log)[..cut], Size(log[..i]);
    PrintAt(log, i);
    SizePrefix(log, i);
    SizeMonotone(log, i + 1, WholeRecords(log, cut));
    assert file[offset..offset + Length(log[i])] == Print(log)[offset..offset + Length(log[i])];
    ReadWhole(file, offset, log[i]);
  }

  lemma ReadAtCut(log: Log, cut: nat)
    requires AllEncodable(log) && cut <= |Print(log)|
    ensures ReadRecord(Print(log)[..cut], Size(log[..WholeRecords(log, cut)])) == Err(UnexpectedEof)
  {
    hide Encoding, ReadRecord, WholeRecords, Print, Size;
    var n := WholeRecords(log, cut);
    var file, offset := Print(log)[..cut], Size(log[..n]);
    PrintSize(log);
    if n < |log| {
      PrintAt(log, n);
      SizePrefix(log, n);
      PrintSize(log[..n]);
      SplitPrefix(Print(log), offset, cut, Encoding(log[n]));
      ReadTorn(Print(log[..n]), log[n], cut - offset);
    } else {
      assert log[..n] == log;
      ReadPastEnd(file, offset);
    }
  }

  lemma ReadPastEnd(file: Bytes, offset: nat)
    requires offset >= |file|
    ensures ReadRecord(file, offset) == Err(UnexpectedEof)
  {}

  /** The scan of a file cut at an arbitrary byte, from the start of its i-th record. */
  lemma {:induction false} ParseTornFrom(log: Log, cut: nat, i: nat)
    requires AllEncodable(log) && cut <= |Print(log)| && i <= WholeRecords(log, cut)
    ensures Parse(Print(log)[..cut], Size(log[..i])) == Scan(log[i..WholeRecords(log, cut)], None)
    decreases |log| - i
  {
    hide Encoding, ReadRecord, Parse, Print;
    var n, file, offset := WholeRecords(log, cut), Print(log)[..cut], Size(log[..i]);
    if i < n {
      ReadBeforeCut(log, cut, i);
      SizePrefix(log, i);
      ParseStep(file, offset, log[i]);
      ParseTornFrom(log, cut, i + 1);
      assert log[i..n] == [log[i]] + log[i + 1..n];
    } else {
      ReadAtCut(log, cut);
      ParseEnd(file, offset);
    }
  }

  /**
   * Torn-tail recovery: cut a file at any byte and the scan stops quietly (no bad checksum, no bad type byte) with
   * the longest prefix of whole records.
   */
  lemma ParseTorn(log: Log, cut: nat)
    requires AllEncodable(log) && cut <= |Print(log)|
    ensures Parse(Print(log)[..cut], 0) == Scan(log[..WholeRecords(log, cut)], None)
  {
    ParseTornFrom(log, cut, 0);
    var n := WholeRecords(log, cut);
    assert log[0..n] == log[..n];
    assert log[..0] == [];
  }

  /** Print, then parse: every record comes back, in order. */
  lemma ParsePrint(log: Log)
    requires AllEncodable(log)
    ensures Parse(Print(log), 0) == Scan(log, None)
  {
    PrintSize(log);
    ParseTorn(log, Size(log));
    var n := WholeRecords(log, Size(log));
    assert Print(log)[..Size(log)] == Print(log);
    assert log[..|log|] == log;
  }

  /** Different logs never share their bytes. */
  lemma PrintInjective(a: Log, b: Log)
    requires AllEncodable(a) && AllEncodable(b) && Print(a) == Print(b)
    ensures a == b
  {
    ParsePrint(a);
    ParsePrint(b);
  }

  /** Whatever a scan accepts, from any offset of any file, is printed there. */
  lemma {:induction false} ParseCanonical(file: Bytes, offset: nat)
    requires offset <= |file|
    ensures var log := Parse(file, offset).records;
      && AllEncodable(log) && offset + Size(log) <= |file|
      && file[offset..offset + Size(log)] == Print(log)
    decreases |file| - offset
  {
    hide Encoding, ReadRecord, Length;
    match ReadRecord(file, offset)
    case Err(_) =>
    case Ok(r) =>
      hide Print, Size, Parse;
      ReadCanonical(file, offset, r);
      ParseStep(file, offset, r);
      var next := offset + Length(r);
      ParseCanonical(file, next);
      hide AllEncodable;
      var rest := Parse(file, next).records;
      PrintCons(r, rest);
      SliceSplit(file, offset, next, next + Size(rest));
  }

  lemma PrintCons(r: Record, log: Log)
    ensures Size([r] + log) == Length(r) + Size(log)
    ensures Print([r] + log) == Encoding(r) + Print(log)
  {
    SizeConcat([r], log);
    PrintConcat([r], log);
    SizeSnoc([], r);
    assert [] + [r] == [r];
  }

  /** Parse, then print: a file scanned to its last byte is the print of what the scan returned. */
  lemma PrintParse(file: Bytes)
    requires Size(Parse(file, 0).records) == |file|
    ensures Print(Parse(file, 0).records) == file
  {
    ParseCanonical(file, 0);
    assert file[0..|file|] == file;
  }

  /** Whole records, and then bytes that do not read: the scan returns the records, and how it stopped. */
  lemma {:induction false} ParseUntilFrom(log: Log, tail: Bytes, e: Error, i: nat)
    requires AllEncodable(log) && i <= |log| && ReadRecord(Print(log) + tail, Size(log)) == Err(e)
    ensures Parse(Print(log) + tail, Size(log[..i])) == Scan(log[i..], if e == UnexpectedEof then None else Some(e))
    decreases |log| - i
  {
    hide Encoding, ReadRecord, Print, Size;
    if i < |log| {
      hide Parse;
      FindAt(log, i);
      ReadFound(log, tail, Size(log[..i]));
      SizePrefix(log, i);
      ParseStep(Print(log) + tail, Size(log[..i]), log[i]);
      ParseUntilFrom(log, tail, e, i + 1);
      assert log[i..] == [log[i]] + log[i + 1..];
    } else {
      assert log[..i] == log;
    }
  }

  lemma ParseUntil(log: Log, tail: Bytes, e: Error)
    requires AllEncodable(log) && ReadRecord(Print(log) + tail, Size(log)) == Err(e)
    ensures Parse(Print(log) + tail, 0) == Scan(log, if e == UnexpectedEof then None else Some(e))
  {
    ParseUntilFrom(log, tail, e, 0);
    assert log[..0] == [] && log[0..] == log;
  }

  /**
   * Damage: whole records, then one whole record with a checksum that is not its own, then any bytes. The scan returns
   * the records before it, and the error InvalidData.
   */
  lemma ParseDamaged(log: Log, r: Record, stored: u32, after: Bytes)
    requires AllEncodable(log) && Encodable(r) && stored != Crc(Body(r))
    ensures Parse(Print(log) + (BigEndian(stored) + Body(r) + after), 0) == Scan(log, Some(InvalidData))
  {
    var damaged := BigEndian(stored) + Body(r);
    hide Crc, Body, BigEndian, ReadRecord, Print, Size, Parse;
    PrintSize(log);
    ReadDamaged(Print(log), r, stored, after);
    Associate(Print(log), damaged, after);
    ParseUntil(log, damaged + after, InvalidData);
  }

  /** A header with an unknown type byte after whole records: the scan panics. */
  lemma ParseUnknownType(log: Log, tail: Bytes)
    requires AllEncodable(log) && |tail| >= 13 && tail[4] != 1 && tail[4] != 2
    ensures Parse(Print(log) + tail, 0) == Scan(log, Some(Panic))
  {
    hide ReadRecord, Print, Size, Parse, WholeAt, WordAt, Crc;
    PrintSize(log);
    var file := Print(log) + tail;
    assert file[Size(log) + 4] == tail[4];
    ReadErrors(file, Size(log));
    ParseUntil(log, tail, Panic);
  }
}
