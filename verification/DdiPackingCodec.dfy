/** The loops of the record codec: packing into one buffer, walking it, and the two kinds of
    sets that are written into a record's value. */
module DdiPackingCodec {
  import opened Bytes
  import opened DdiPacking
  import opened FiraDevice

  /** Every report in the set contributes its bit, in whatever order they come. */
  method ReportMask(rs: set<Report>) returns (value: bv8)
    ensures value == Mask(rs)
  {
    value := 0;
    var rest := rs;
    while rest != {}
      invariant rest <= rs && value == Mask(rs - rest)
      decreases |rest|
    {
      var r :| r in rest;
      MaskOfOneMore(rs - rest, r);
      assert rs - (rest - {r}) == (rs - rest) + {r};
      value := value | Bit(r);
      rest := rest - {r};
    }
    assert rs - rest == rs;
  }

  method ReportsFromMask(value: bv8) returns (configs: set<Report>)
    ensures configs == ReportsIn(value)
  {
    var every := [TofReport, AoAAzimuthReport, AoAElevationReport, AoAFoMReport];
    configs := {};
    for i := 0 to |every|
      invariant configs == set r | r in every[..i] && value & Bit(r) != 0
    {
      if value & Bit(every[i]) != 0 {
        configs := configs + {every[i]};
      }
      assert every[..i + 1] == every[..i] + [every[i]];
    }
    assert every[..|every|] == every;
    assert forall r :: r in every <==> r in EVERY_REPORT;
  }

  /** The caller's sum of sizes decides the allocation; each record is copied by its own size
      to where the one before it ended. */
  method Pack(word: nat, records: seq<seq<byte>>) returns (buffer: array<byte>)
    requires forall r <- records :: Sized(r)
    ensures fresh(buffer) && buffer[..] == Packed(word, records)
  {
    var total := HEADER_LENGTH;
    for i := 0 to |records|
      invariant total == StartOf(records, i)
    {
      RecordLies(word, records, i);
      total := total + |records[i]|;
    }
    LastStart(word, records);
    var header := LittleOctets(total, 4) + LittleOctets(word, 4) + LittleOctets(|records|, 4);
    assert header == ListHeader(word, records);
    buffer := new byte[total](_ => 0);
    Copy(buffer, 0, header);
    var at := HEADER_LENGTH;
    for i := 0 to |records|
      invariant at == StartOf(records, i) <= buffer.Length
      invariant fresh(buffer) && buffer.Length == StartOf(records, |records|)
      invariant buffer[..at] == header + Concat(records[..i])
    {
      hide *;
      RecordLies(word, records, i);
      StartIsInside(word, records, i + 1);
      OneMoreConcat(records, i);
      Copy(buffer, at, records[i]);
      ghost var before := header + Concat(records[..i]);
      at := at + |records[i]|;
      assert buffer[..at] == before + records[i];
      assert (header + Concat(records[..i])) + records[i] == header + (Concat(records[..i]) + records[i]);
    }
    assert records[..|records|] == records;
    assert buffer[..] == buffer[..at];
  }

  lemma {:induction false} StartIsInside(word: nat, records: seq<seq<byte>>, i: nat)
    requires i <= |records|
    ensures StartOf(records, i) <= StartOf(records, |records|)
    decreases |records| - i
  {
    if i < |records| {
      RecordLies(word, records, i);
      StartIsInside(word, records, i + 1);
    }
  }

  lemma {:induction false} OneMoreConcat(records: seq<seq<byte>>, i: nat)
    requires i < |records|
    ensures Concat(records[..i + 1]) == Concat(records[..i]) + records[i]
  {
    assert records[..i + 1][..i] == records[..i];
  }

  method Copy(buffer: array<byte>, at: nat, source: seq<byte>)
    requires at + |source| <= buffer.Length
    modifies buffer
    ensures buffer[..at] == old(buffer[..at])
    ensures buffer[..at + |source|] == old(buffer[..at]) + source
    ensures buffer[at + |source|..] == old(buffer[at + |source|..])
  {
    for j := 0 to |source|
      invariant buffer[..at + j] == old(buffer[..at]) + source[..j]
      invariant buffer[at + j..] == old(buffer[at + j..])
    {
      buffer[at + j] := source[j];
      assert buffer[..at + j + 1] == buffer[..at + j] + [source[j]];
      assert source[..j + 1] == source[..j] + [source[j]];
    }
  }

  /** Visits `count` records by following the sizes. */
  method ForEachRecord(buffer: seq<byte>) returns (starts: seq<nat>, end: nat)
    requires HEADER_LENGTH <= |buffer| && Walk(buffer, HEADER_LENGTH, Word(buffer, 8)).Some?
    ensures Walk(buffer, HEADER_LENGTH, Word(buffer, 8)) == Some(Path(starts, end))
  {
    var count := Word(buffer, 8);
    starts, end := [], HEADER_LENGTH;
    for i := 0 to count
      invariant Walk(buffer, HEADER_LENGTH, i) == Some(Path(starts, end))
    {
      hide *;
      WalkGoesOn(buffer, HEADER_LENGTH, i, count);
      WalkStep(buffer, HEADER_LENGTH, i + 1);
      starts := starts + [end];
      end := end + RecordAt(buffer, end).value.size;
    }
  }

  lemma {:induction false} WalkGoesOn(buffer: seq<byte>, from: nat, k: nat, count: nat)
    requires k < count && Walk(buffer, from, count).Some?
    ensures Walk(buffer, from, k).Some? && RecordAt(buffer, Walk(buffer, from, k).value.end).Some?
    decreases count
  {
    hide RecordAt;
    if k < count - 1 {
      WalkGoesOn(buffer, from, k, count - 1);
    }
  }

  /** Chunk by chunk, as many whole ones as the length allows. */
  method ReadAddresses(length: nat, width: nat, rest: seq<byte>) returns (found: set<MacAddress>)
    requires width in {SHORT_LENGTH, EXTENDED_LENGTH} && length <= |rest|
    ensures found == Chunks(rest[..length], width)
  {
    found := {};
    var octets := rest[..length];
    var i, offset := 0, 0;
    assert octets[0..] == octets;
    while i < length / width
      invariant i <= length / width && offset == i * width <= length
      invariant found + Chunks(octets[offset..], width) == Chunks(octets, width)
    {
      var left := octets[offset..];
      assert |left| >= width;
      assert left[..width] == rest[offset..offset + width];
      assert left[width..] == octets[offset + width..];
      found := found + {rest[offset..offset + width]};
      i, offset := i + 1, offset + width;
    }
    assert |octets[offset..]| < width;
  }
}
