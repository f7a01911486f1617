/** A write-ahead log file as bytes: one encoded record a line, read back with the
    truncation of a corrupt tail. */
module WalFileModel {
  import opened Types
  import opened WalModel

  type Bytes = seq<Byte>

  const NEWLINE: Byte := 10

  /** A text encoding of records; which one does not matter. */
  datatype Codec = Codec(encode: WalRecord -> Bytes, decode: Bytes -> Option<WalRecord>)

  /** Encodings are nonempty, contain no newline and decode to what was encoded. */
  ghost predicate Lawful(c: Codec) {
    forall r :: c.encode(r) != [] && NEWLINE !in c.encode(r) && c.decode(c.encode(r)) == Some(r)
  }

  lemma {:induction false} FirstNewlineExists(bytes: Bytes) returns (e: nat)
    requires NEWLINE in bytes
    ensures e < |bytes| && bytes[e] == NEWLINE && forall i :: 0 <= i < e ==> bytes[i] != NEWLINE
  {
    e := 0;
    while bytes[e] != NEWLINE
      invariant e < |bytes| && forall i :: 0 <= i < e ==> bytes[i] != NEWLINE
      decreases |bytes| - e
    {
      e := e + 1;
    }
  }

  /** The position of the first newline, or the length. */
  function LineEnd(bytes: Bytes): (e: nat)
    ensures e <= |bytes| && (e < |bytes| ==> bytes[e] == NEWLINE)
    ensures forall i :: 0 <= i < e ==> bytes[i] != NEWLINE
  {
    if NEWLINE !in bytes then |bytes|
    else
      assert exists e: nat :: e < |bytes| && bytes[e] == NEWLINE && forall i :: 0 <= i < e ==> bytes[i] != NEWLINE by {
        var e := FirstNewlineExists(bytes);
      }
      var e: nat :| e < |bytes| && bytes[e] == NEWLINE && forall i :: 0 <= i < e ==> bytes[i] != NEWLINE;
      e
  }

  function FirstLine(bytes: Bytes): Bytes {
    bytes[..LineEnd(bytes)]
  }

  function AfterLine(bytes: Bytes): Bytes {
    if LineEnd(bytes) == |bytes| then [] else bytes[LineEnd(bytes) + 1..]
  }

  /** A line that holds a record with a valid checksum. */
  predicate HoldsRecord(c: Codec, h: Hash, line: Bytes) {
    c.decode(line).Some? && ChecksumValid(h, c.decode(line).value)
  }

  datatype ReadResult = ReadResult(records: seq<WalRecord>, kept: nat, truncated: bool)

  /** The records of a file, where the first line that holds none begins, and whether
      there is such a line; empty lines are skipped. */
  function Read(c: Codec, h: Hash, bytes: Bytes): ReadResult
    decreases |bytes|
  {
    if bytes == [] then ReadResult([], 0, false)
    else ReadStep(c, h, FirstLine(bytes), Read(c, h, AfterLine(bytes)))
  }

  /** What a line adds to the result of reading the lines after it. */
  function ReadStep(c: Codec, h: Hash, line: Bytes, more: ReadResult): ReadResult {
    if line == [] then ReadResult(more.records, 1 + more.kept, more.truncated)
    else if !HoldsRecord(c, h, line) then ReadResult([], 0, true)
    else ReadResult([c.decode(line).value] + more.records, |line| + 1 + more.kept, more.truncated)
  }

  lemma {:induction false} KeptInside(c: Codec, h: Hash, bytes: Bytes)
    ensures Read(c, h, bytes).truncated ==> Read(c, h, bytes).kept < |bytes|
    decreases |bytes|
  {
    if bytes != [] {
      KeptInside(c, h, AfterLine(bytes));
    }
  }

  /** The bytes left in the file after it was read. */
  function Truncate(c: Codec, h: Hash, bytes: Bytes): Bytes {
    KeptInside(c, h, bytes);
    var r := Read(c, h, bytes);
    if r.truncated then bytes[..r.kept] else bytes
  }

  function EncodeLine(c: Codec, r: WalRecord): Bytes {
    c.encode(r) + [NEWLINE]
  }

  function EncodeAll(c: Codec, rs: seq<WalRecord>): Bytes {
    if rs == [] then [] else EncodeLine(c, rs[0]) + EncodeAll(c, rs[1..])
  }

  // ----- Reading what was written -----

  lemma LineEndOfLine(line: Bytes, rest: Bytes)
    requires NEWLINE !in line
    ensures LineEnd(line + [NEWLINE] + rest) == |line|
    ensures FirstLine(line + [NEWLINE] + rest) == line && AfterLine(line + [NEWLINE] + rest) == rest
  {
    var bytes := line + [NEWLINE] + rest;
    assert bytes[|line|] == NEWLINE;
    forall i | 0 <= i < |line| ensures bytes[i] != NEWLINE {
      assert bytes[i] == line[i];
    }
    assert bytes[..|line|] == line && bytes[|line| + 1..] == rest;
  }

  /** One line in front of the rest of a file. */
  function Line(line: Bytes, rest: Bytes): Bytes {
    line + [NEWLINE] + rest
  }

  lemma ReadOfLine(c: Codec, h: Hash, line: Bytes, rest: Bytes)
    requires NEWLINE !in line
    ensures Read(c, h, Line(line, rest)) == ReadStep(c, h, line, Read(c, h, rest))
  {
    LineEndOfLine(line, rest);
  }

  lemma SplitAtLine(bytes: Bytes)
    requires LineEnd(bytes) < |bytes|
    ensures bytes == Line(FirstLine(bytes), AfterLine(bytes)) && NEWLINE !in FirstLine(bytes)
  {
  }

  lemma LineConcat(line: Bytes, a: Bytes, b: Bytes)
    ensures Line(line, a) + b == Line(line, a + b)
  {
  }

  lemma ReadPrepends(c: Codec, h: Hash, r: WalRecord, rs: seq<WalRecord>, others: Bytes, rest: Bytes)
    requires Lawful(c) && ChecksumValid(h, r)
    requires var more := Read(c, h, rest);
             Read(c, h, others + rest) == ReadResult(rs + more.records, |others| + more.kept, more.truncated)
    ensures var more := Read(c, h, rest);
            Read(c, h, (EncodeLine(c, r) + others) + rest)
            == ReadResult([r] + rs + more.records, |EncodeLine(c, r) + others| + more.kept, more.truncated)
  {
    ReadLine(c, h, r, others + rest);
    ConcatAssociative(EncodeLine(c, r), others, rest);
    ConcatAssociative([r], rs, Read(c, h, rest).records);
  }

  lemma ReadLine(c: Codec, h: Hash, r: WalRecord, rest: Bytes)
    requires Lawful(c) && ChecksumValid(h, r)
    ensures var more := Read(c, h, rest);
            Read(c, h, EncodeLine(c, r) + rest)
            == ReadResult([r] + more.records, |EncodeLine(c, r)| + more.kept, more.truncated)
  {
    ReadOfLine(c, h, c.encode(r), rest);
  }

  lemma {:induction false} ReadAfterRecords(c: Codec, h: Hash, rs: seq<WalRecord>, rest: Bytes)
    requires Lawful(c) && forall r :: r in rs ==> ChecksumValid(h, r)
    ensures var more := Read(c, h, rest);
            Read(c, h, EncodeAll(c, rs) + rest)
            == ReadResult(rs + more.records, |EncodeAll(c, rs)| + more.kept, more.truncated)
    decreases |rs|
  {
    if rs == [] {
      assert EncodeAll(c, rs) + rest == rest && rs + Read(c, h, rest).records == Read(c, h, rest).records;
    } else {
      ReadAfterRecords(c, h, rs[1..], rest);
      assert rs[0] in rs && [rs[0]] + rs[1..] == rs;
      ReadPrepends(c, h, rs[0], rs[1..], EncodeAll(c, rs[1..]), rest);
    }
  }

  /** Bytes whose first line is not empty and holds no valid record. */
  predicate CorruptTail(c: Codec, h: Hash, tail: Bytes) {
    tail != [] && FirstLine(tail) != [] && !HoldsRecord(c, h, FirstLine(tail))
  }

  /** Main result: reading written records followed by a corrupt tail returns exactly the
      records, cuts the file back to exactly their bytes, and reading again returns the
      same with nothing cut. Without a tail nothing is cut at all. */
  lemma FileRoundTrip(c: Codec, h: Hash, rs: seq<WalRecord>, tail: Bytes)
    requires Lawful(c) && forall r :: r in rs ==> ChecksumValid(h, r)
    requires tail == [] || CorruptTail(c, h, tail)
    ensures var written := EncodeAll(c, rs);
            var file := written + tail;
            && Read(c, h, file) == ReadResult(rs, |written|, tail != [])
            && Truncate(c, h, file) == written
            && Read(c, h, written) == ReadResult(rs, |written|, false)
  {
    var written := EncodeAll(c, rs);
    ReadAfterRecords(c, h, rs, tail);
    ReadAfterRecords(c, h, rs, []);
    assert written + [] == written && rs + [] == rs;
    assert (written + tail)[..|written|] == written;
  }

  // ----- Reading what a crash left of a write -----

  /** No proper part of an encoding from its start decodes, as no proper prefix of a JSON
      object is one. */
  ghost predicate Delimited(c: Codec) {
    forall r, n: nat :: n < |c.encode(r)| ==> c.decode(c.encode(r)[..n]).None?
  }

  /** How many of some records the first n bytes of their lines hold; the last of them may lack
      its newline. */
  function Whole(c: Codec, rs: seq<WalRecord>, n: nat): (k: nat)
    ensures k <= |rs|
  {
    if rs == [] || n < |c.encode(rs[0])| then 0 else 1 + Whole(c, rs[1..], SatSub(n, |EncodeLine(c, rs[0])|))
  }

  lemma ReadUnterminated(c: Codec, h: Hash, bytes: Bytes)
    requires bytes != [] && NEWLINE !in bytes
    ensures Read(c, h, bytes).records == if HoldsRecord(c, h, bytes) then [c.decode(bytes).value] else []
  {
    assert FirstLine(bytes) == bytes && AfterLine(bytes) == [];
    assert Read(c, h, []).records == [];
  }

  /** The first line, cut before its newline. */
  lemma ReadCutLine(c: Codec, h: Hash, r: WalRecord, more: Bytes, n: nat)
    requires Lawful(c) && Delimited(c) && ChecksumValid(h, r) && n <= |c.encode(r)|
    ensures Read(c, h, (EncodeLine(c, r) + more)[..n]).records == if n == |c.encode(r)| then [r] else []
  {
    var bytes := (EncodeLine(c, r) + more)[..n];
    assert bytes == c.encode(r)[..n] && c.encode(r)[..|c.encode(r)|] == c.encode(r);
    if n > 0 {
      ReadUnterminated(c, h, bytes);
    }
  }

  lemma ReadPastLine(c: Codec, h: Hash, r: WalRecord, more: Bytes, m: nat)
    requires Lawful(c) && ChecksumValid(h, r) && m <= |more|
    ensures Read(c, h, (EncodeLine(c, r) + more)[..|EncodeLine(c, r)| + m]).records == [r] + Read(c, h, more[..m]).records
  {
    ReadLine(c, h, r, more[..m]);
    hide Read, EncodeLine;
    assert (EncodeLine(c, r) + more)[..|EncodeLine(c, r)| + m] == EncodeLine(c, r) + more[..m];
  }

  lemma WholeUnfolds(c: Codec, rs: seq<WalRecord>, n: nat)
    requires Lawful(c) && rs != []
    ensures |EncodeLine(c, rs[0])| == |c.encode(rs[0])| + 1
    ensures EncodeAll(c, rs) == EncodeLine(c, rs[0]) + EncodeAll(c, rs[1..])
    ensures n < |c.encode(rs[0])| ==> Whole(c, rs, n) == 0
    ensures n == |c.encode(rs[0])| ==> Whole(c, rs, n) == 1
    ensures n > |c.encode(rs[0])| ==> Whole(c, rs, n) == 1 + Whole(c, rs[1..], n - |EncodeLine(c, rs[0])|)
  {
    assert Whole(c, rs[1..], 0) == 0 by {
      if rs[1..] != [] {
        assert c.encode(rs[1]) != [];
      }
    }
  }

  lemma TakeOneMore<T>(s: seq<T>, k: nat)
    requires k < |s|
    ensures s[..1 + k] == [s[0]] + s[1..][..k]
  {
  }

  /** Of records whose writing stopped after n bytes, exactly the whole ones are read. */
  lemma {:induction false} ReadPrefix(c: Codec, h: Hash, rs: seq<WalRecord>, n: nat)
    requires Lawful(c) && Delimited(c) && (forall r :: r in rs ==> ChecksumValid(h, r)) && n <= |EncodeAll(c, rs)|
    ensures Read(c, h, EncodeAll(c, rs)[..n]).records == rs[..Whole(c, rs, n)]
    decreases |rs|
  {
    hide *;
    if rs == [] {
      ReadNothing(c, h, n);
    } else {
      assert rs[0] in rs;
      WholeUnfolds(c, rs, n);
      if n <= |c.encode(rs[0])| {
        ReadCutLine(c, h, rs[0], EncodeAll(c, rs[1..]), n);
        TakeNoneOrOne(rs);
      } else {
        var m := n - |EncodeLine(c, rs[0])|;
        ReadPrefix(c, h, rs[1..], m);
        ReadPastLine(c, h, rs[0], EncodeAll(c, rs[1..]), m);
        TakeOneMore(rs, Whole(c, rs[1..], m));
      }
    }
  }

  lemma TakeNoneOrOne<T>(s: seq<T>)
    requires s != []
    ensures s[..0] == [] && s[..1] == [s[0]]
  {
  }

  lemma ReadNothing(c: Codec, h: Hash, n: nat)
    requires n <= |EncodeAll(c, [])|
    ensures Read(c, h, EncodeAll(c, [])[..n]).records == [][..Whole(c, [], n)]
  {
    assert EncodeAll(c, [])[..n] == [] && Read(c, h, []).records == [];
  }

  /** A record that was not written whole leaves a corrupt tail, if anything. */
  lemma UnfinishedIsCorrupt(c: Codec, h: Hash, r: WalRecord, n: nat)
    requires Lawful(c) && Delimited(c) && n < |c.encode(r)|
    ensures var tail := EncodeLine(c, r)[..n]; tail == [] || CorruptTail(c, h, tail)
  {
    var tail := EncodeLine(c, r)[..n];
    assert tail == c.encode(r)[..n];
    assert NEWLINE !in tail;
    assert FirstLine(tail) == tail;
  }

  /** All of them are read exactly when at most the final newline is missing. */
  lemma {:induction false} AllWhole(c: Codec, rs: seq<WalRecord>, n: nat)
    requires Lawful(c) && n <= |EncodeAll(c, rs)|
    ensures Whole(c, rs, n) == |rs| <==> n + 1 >= |EncodeAll(c, rs)|
    decreases |rs|
  {
    if rs != [] && n >= |c.encode(rs[0])| {
      AllWhole(c, rs[1..], SatSub(n, |EncodeLine(c, rs[0])|));
      if rs[1..] != [] {
        assert c.encode(rs[1]) != [];
      }
    }
  }

  lemma TakeOfLine(line: Bytes, after: Bytes, k: nat)
    requires k <= |after|
    ensures Line(line, after)[..|line| + 1 + k] == Line(line, after[..k])
  {
  }

  lemma TruncateAfterLine(c: Codec, h: Hash, bytes: Bytes)
    requires bytes != [] && Read(c, h, bytes).truncated
    requires FirstLine(bytes) == [] || HoldsRecord(c, h, FirstLine(bytes))
    ensures LineEnd(bytes) < |bytes| && NEWLINE !in FirstLine(bytes)
    ensures Truncate(c, h, bytes) == Line(FirstLine(bytes), Truncate(c, h, AfterLine(bytes)))
    ensures Read(c, h, AfterLine(bytes)).truncated
    ensures Read(c, h, bytes).records == ReadStep(c, h, FirstLine(bytes), Read(c, h, AfterLine(bytes))).records
  {
    KeptInside(c, h, bytes);
    KeptInside(c, h, AfterLine(bytes));
    var line, after := FirstLine(bytes), AfterLine(bytes);
    assert Read(c, h, bytes) == ReadStep(c, h, line, Read(c, h, after));
    assert LineEnd(bytes) < |bytes|;
    SplitAtLine(bytes);
    hide Read, HoldsRecord, FirstLine, AfterLine;
    TakeOfLine(line, after, Read(c, h, after).kept);
  }

  /** For any file at all, a second read after the truncation returns the same records and
      cuts nothing. */
  lemma {:induction false} ReadIsIdempotent(c: Codec, h: Hash, bytes: Bytes)
    ensures Read(c, h, Truncate(c, h, bytes)).records == Read(c, h, bytes).records
    ensures !Read(c, h, Truncate(c, h, bytes)).truncated
    ensures Read(c, h, bytes).truncated ==>
              Truncate(c, h, bytes) == [] || Truncate(c, h, bytes)[|Truncate(c, h, bytes)| - 1] == NEWLINE
    decreases |bytes|
  {
    KeptInside(c, h, bytes);
    if bytes != [] && Read(c, h, bytes).truncated {
      var line, after := FirstLine(bytes), AfterLine(bytes);
      if line == [] || HoldsRecord(c, h, line) {
        ReadIsIdempotent(c, h, after);
        TruncateAfterLine(c, h, bytes);
        ReadOfLine(c, h, line, Truncate(c, h, after));
        hide Read, Truncate;
      }
    }
  }

  // ----- Appending to a file that was read -----

  predicate Terminated(bytes: Bytes) {
    bytes == [] || bytes[|bytes| - 1] == NEWLINE
  }

  /** An encoding directly followed by another one decodes to nothing. */
  ghost predicate RejectsTrailing(c: Codec) {
    forall line: Bytes, r :: c.decode(line).Some? ==> c.decode(line + c.encode(r)) == None
  }

  lemma TerminatedAfterLine(bytes: Bytes)
    requires bytes != []
    ensures Terminated(bytes) ==> LineEnd(bytes) < |bytes| && Terminated(AfterLine(bytes))
    ensures !Terminated(bytes) && LineEnd(bytes) < |bytes| ==> AfterLine(bytes) != [] && !Terminated(AfterLine(bytes))
  {
  }

  lemma StepConcat(c: Codec, h: Hash, line: Bytes, a: ReadResult, b: ReadResult, extra: seq<WalRecord>)
    requires b.records == a.records + extra && !ReadStep(c, h, line, a).truncated
    ensures ReadStep(c, h, line, b).records == ReadStep(c, h, line, a).records + extra
  {
  }

  lemma {:induction false} ReadConcat(c: Codec, h: Hash, bytes: Bytes, rest: Bytes)
    requires !Read(c, h, bytes).truncated && Terminated(bytes)
    ensures Read(c, h, bytes + rest).records == Read(c, h, bytes).records + Read(c, h, rest).records
    decreases |bytes|
  {
    if bytes == [] {
      assert bytes + rest == rest;
    } else {
      var line, after := FirstLine(bytes), AfterLine(bytes);
      TerminatedAfterLine(bytes);
      SplitAtLine(bytes);
      LineConcat(line, after, rest);
      ReadOfLine(c, h, line, after);
      ReadOfLine(c, h, line, after + rest);
      ReadConcat(c, h, after, rest);
      StepConcat(c, h, line, Read(c, h, after), Read(c, h, after + rest), Read(c, h, rest).records);
    }
  }

  lemma RunTogether(c: Codec, h: Hash, line: Bytes, r: WalRecord)
    requires Lawful(c) && RejectsTrailing(c) && NEWLINE !in line && HoldsRecord(c, h, line)
    ensures Read(c, h, line + EncodeLine(c, r)).records == []
  {
    assert line + EncodeLine(c, r) == Line(line + c.encode(r), []);
    ReadOfLine(c, h, line + c.encode(r), []);
  }

  lemma ReadSingle(c: Codec, h: Hash, bytes: Bytes)
    requires bytes != [] && LineEnd(bytes) == |bytes| && !Read(c, h, bytes).truncated
    ensures HoldsRecord(c, h, bytes) && |Read(c, h, bytes).records| == 1
  {
    assert FirstLine(bytes) == bytes && AfterLine(bytes) == [];
    assert Read(c, h, []).records == [];
  }

  /** Without a final newline the new record runs into the last one and neither is read. */
  lemma {:induction false} UnterminatedAppendLoses(c: Codec, h: Hash, bytes: Bytes, r: WalRecord)
    requires Lawful(c) && RejectsTrailing(c)
    requires !Read(c, h, bytes).truncated && !Terminated(bytes)
    ensures |Read(c, h, bytes + EncodeLine(c, r)).records| == |Read(c, h, bytes).records| - 1
    decreases |bytes|
  {
    if LineEnd(bytes) == |bytes| {
      ReadSingle(c, h, bytes);
      RunTogether(c, h, bytes, r);
    } else {
      var line, after := FirstLine(bytes), AfterLine(bytes);
      TerminatedAfterLine(bytes);
      SplitAtLine(bytes);
      LineConcat(line, after, EncodeLine(c, r));
      ReadOfLine(c, h, line, after);
      ReadOfLine(c, h, line, after + EncodeLine(c, r));
      UnterminatedAppendLoses(c, h, after, r);
    }
  }

  /** Main result about appending to a recovered file: the new record is read back after
      the old ones exactly when the recovered file ends in a newline. */
  lemma AppendAfterReadExactly(c: Codec, h: Hash, bytes: Bytes, r: WalRecord)
    requires Lawful(c) && RejectsTrailing(c) && ChecksumValid(h, r)
    ensures var kept := Truncate(c, h, bytes);
            Read(c, h, kept + EncodeLine(c, r)).records == Read(c, h, bytes).records + [r] <==> Terminated(kept)
  {
    var kept := Truncate(c, h, bytes);
    ReadIsIdempotent(c, h, bytes);
    if Terminated(kept) {
      ReadConcat(c, h, kept, EncodeLine(c, r));
      ReadLine(c, h, r, []);
      assert EncodeLine(c, r) + [] == EncodeLine(c, r);
      assert Read(c, h, []).records == [] && [r] + [] == [r];
    } else {
      UnterminatedAppendLoses(c, h, kept, r);
    }
  }
}
