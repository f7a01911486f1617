/** The loop that reads a log file, tracking the offset of its valid prefix. */
module WalFiles {
  import opened Types
  import opened WalModel
  import opened WalFileModel

  /** Reading from a position, with what was read before it. */
  ghost predicate ReadSoFar(all: ReadResult, more: ReadResult, records: seq<WalRecord>, validEnd: nat) {
    && records + more.records == all.records && more.truncated == all.truncated
    && (all.truncated ==> validEnd + more.kept == all.kept)
  }

  lemma ReadOneMore(c: Codec, h: Hash, all: ReadResult, unread: Bytes, records: seq<WalRecord>, validEnd: nat)
    requires unread != [] && ReadSoFar(all, Read(c, h, unread), records, validEnd)
    ensures var line, more := FirstLine(unread), Read(c, h, AfterLine(unread));
            && (line == [] ==> ReadSoFar(all, more, records, validEnd + 1))
            && (line != [] && HoldsRecord(c, h, line) ==>
                  ReadSoFar(all, more, records + [c.decode(line).value], validEnd + |line| + 1))
            && (line != [] && !HoldsRecord(c, h, line) ==> all == ReadResult(records, validEnd, true))
  {
    var line, more := FirstLine(unread), Read(c, h, AfterLine(unread));
    if line != [] && HoldsRecord(c, h, line) {
      ConcatAssociative(records, [c.decode(line).value], more.records);
    } else if line != [] {
      assert records + [] == records;
    }
  }

  /** Reads a file line by line and returns what is left of it. */
  method ReadSegmentFile(c: Codec, h: Hash, file: Bytes) returns (records: seq<WalRecord>, truncated: bool, left: Bytes)
    ensures records == Read(c, h, file).records && truncated == Read(c, h, file).truncated
    ensures left == Truncate(c, h, file)
  {
    records, truncated := [], false;
    ghost var all := Read(c, h, file);
    assert [] + all.records == all.records;
    var unread, validEnd: nat, offset: nat := file, 0, 0;
    while unread != []
      invariant validEnd == offset
      invariant ReadSoFar(all, Read(c, h, unread), records, validEnd)
      decreases |unread|
    {
      var line := FirstLine(unread);
      ReadOneMore(c, h, all, unread, records, validEnd);
      offset := offset + |line| + 1;
      if line != [] {
        if !HoldsRecord(c, h, line) {
          truncated := true;
          break;
        }
        records := records + [c.decode(line).value];
      }
      validEnd := offset;
      unread := AfterLine(unread);
    }
    assert truncated || records + [] == records;
    KeptInside(c, h, file);
    left := if truncated then file[..validEnd] else file;
  }
}
