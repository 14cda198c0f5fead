/** Application configuration parameters as driver records: each record is headed by its own
    size, and a list is a header with the records packed behind it. */
module DdiPacking {
  import opened Bytes
  import opened FiraDevice

  const SHORT_LENGTH: nat := 2
  const EXTENDED_LENGTH: nat := 8
  const VECTOR_LENGTH: nat := 6

  /** Both structures put three 32-bit words before their flexible array. */
  const HEADER_LENGTH: nat := 12

  // ---- Values

  datatype Report = TofReport | AoAAzimuthReport | AoAElevationReport | AoAFoMReport

  /** The alternatives of the value variant. Numbers and enumerators differ by type only.
      A set of addresses comes as the order in which the set is enumerated. */
  datatype Value =
    | Flag(on: bool)
    | Number(n: nat, width: nat)
    | Enumerator(e: nat, width: nat)
    | Reports(reports: set<Report>)
    | Address(address: MacAddress)
    | Vector(octets: seq<byte>)
    | Addresses(order: seq<MacAddress>)

  datatype Parameter = Parameter(typ: nat, value: Value)

  datatype Kind = FlagKind | NumberKind(width: nat) | EnumeratorKind(width: nat) | ReportsKind
                | AddressKind | VectorKind | AddressesKind | UnknownKind

  const DST_MAC_ADDRESS: nat := 0x07

  /** The alternative that each of the 46 parameter types is decoded to. */
  function KindOf(typ: nat): Kind {
    if typ == 0x2C then FlagKind
    else if typ in {0x05, 0x14, 0x15, 0x1B, 0x1E, 0x24, 0x25, 0x29, 0x2D, 0x2F} then NumberKind(1)
    else if typ in {0x08, 0x0F, 0x10, 0x27, 0x2A, 0x32} then NumberKind(2)
    else if typ in {0x09, 0x0A, 0x2B, 0x30} then NumberKind(4)
    else if typ in {0x04, 0x22} then EnumeratorKind(4)
    else if typ in {0x00, 0x01, 0x02, 0x03, 0x0B, 0x0C, 0x0D, 0x0E, 0x11, 0x12, 0x16, 0x17,
                    0x1A, 0x1C, 0x1F, 0x23, 0x26, 0x31, 0x35} then EnumeratorKind(1)
    else if typ == 0x2E then ReportsKind
    else if typ == 0x06 then AddressKind
    else if typ == 0x28 then VectorKind
    else if typ == DST_MAC_ADDRESS then AddressesKind
    else UnknownKind
  }

  /** The value is the alternative its type calls for. */
  predicate WellTyped(p: Parameter) {
    match KindOf(p.typ)
    case FlagKind => p.value.Flag?
    case NumberKind(w) => p.value.Number? && p.value.width == w && p.value.n < Pow256(w)
    case EnumeratorKind(w) => p.value.Enumerator? && p.value.width == w && p.value.e < Pow256(w)
    case ReportsKind => p.value.Reports?
    case AddressKind => p.value.Address? && |p.value.address| in {SHORT_LENGTH, EXTENDED_LENGTH}
    case VectorKind => p.value.Vector? && |p.value.octets| == VECTOR_LENGTH
    case AddressesKind => p.value.Addresses?
    case UnknownKind => false
  }

  function Bit(r: Report): bv8 {
    match r
    case TofReport => 1
    case AoAAzimuthReport => 2
    case AoAElevationReport => 4
    case AoAFoMReport => 8
  }

  function BitIf(rs: set<Report>, r: Report): bv8 {
    if r in rs then Bit(r) else 0
  }

  function Mask(rs: set<Report>): bv8 {
    BitIf(rs, TofReport) | BitIf(rs, AoAAzimuthReport) | BitIf(rs, AoAElevationReport) | BitIf(rs, AoAFoMReport)
  }

  const EVERY_REPORT: set<Report> := {TofReport, AoAAzimuthReport, AoAElevationReport, AoAFoMReport}

  function ReportsIn(v: bv8): set<Report> {
    set r | r in EVERY_REPORT && v & Bit(r) != 0
  }

  /** Distinct bits: the mask of a set of reports gives the set back. */
  lemma {:induction false} ReportsOfMask(rs: set<Report>)
    ensures ReportsIn(Mask(rs)) == rs
  {
    forall r: Report ensures r in EVERY_REPORT && (Mask(rs) & Bit(r) != 0 <==> r in rs) {
      MaskBit(rs, r);
    }
  }

  lemma {:induction false} MaskBit(rs: set<Report>, r: Report)
    ensures Mask(rs) & Bit(r) != 0 <==> r in rs
  {
    match r {
      case TofReport =>
      case AoAAzimuthReport =>
      case AoAElevationReport =>
      case AoAFoMReport =>
    }
  }

  /** One more report sets one more bit. */
  lemma {:induction false} MaskOfOneMore(rs: set<Report>, r: Report)
    ensures Mask(rs + {r}) == Mask(rs) | Bit(r)
  {
    match r {
      case TofReport =>
      case AoAAzimuthReport =>
      case AoAElevationReport =>
      case AoAFoMReport =>
    }
  }

  function Octet(v: bv8): byte {
    v as int
  }

  function Bits(b: byte): bv8 {
    b as bv8
  }

  function Concat(xs: seq<seq<byte>>): seq<byte> {
    if xs == [] then [] else Concat(xs[..|xs| - 1]) + xs[|xs| - 1]
  }

  function EncodedValue(v: Value): seq<byte> {
    match v
    case Flag(on) => [if on then 1 else 0]
    case Number(n, w) => LittleOctets(n, w)
    case Enumerator(e, w) => LittleOctets(e, w)
    case Reports(rs) => [Octet(Mask(rs))]
    case Address(a) => a
    case Vector(iv) => iv
    case Addresses(order) => Concat(order)
  }

  /** What each value is on the wire: a flag 0 or 1, a number or enumerator in host order and
      in as many octets as its type has, reports one bit each, anything else as it is. */
  lemma {:induction false} ValueOctets(v: Value)
    ensures v.Flag? ==> EncodedValue(v) == [if v.on then 1 else 0]
    ensures v.Number? ==> |EncodedValue(v)| == v.width && LittleEndian(EncodedValue(v)) == v.n % Pow256(v.width)
    ensures v.Enumerator? ==> |EncodedValue(v)| == v.width && LittleEndian(EncodedValue(v)) == v.e % Pow256(v.width)
    ensures v.Reports? ==> |EncodedValue(v)| == 1 && EncodedValue(v)[0] as int == ReportsNumber(v.reports)
    ensures v.Address? ==> EncodedValue(v) == v.address
    ensures v.Vector? ==> EncodedValue(v) == v.octets
  {
    match v {
      case Number(n, w) => LittleEndianOctets(n, w);
      case Enumerator(e, w) => LittleEndianOctets(e, w);
      case Reports(rs) => MaskIsNumber(rs);
      case _ =>
    }
  }

  function ReportsNumber(rs: set<Report>): nat {
    (if TofReport in rs then 1 else 0) + (if AoAAzimuthReport in rs then 2 else 0)
    + (if AoAElevationReport in rs then 4 else 0) + (if AoAFoMReport in rs then 8 else 0)
  }

  lemma {:induction false} MaskIsNumber(rs: set<Report>)
    ensures Octet(Mask(rs)) as int == ReportsNumber(rs)
  {
    var a, b, c, d := BitIf(rs, TofReport), BitIf(rs, AoAAzimuthReport), BitIf(rs, AoAElevationReport), BitIf(rs, AoAFoMReport);
    OrIsSum(a, b, c, d);
  }

  lemma {:induction false} OrIsSum(a: bv8, b: bv8, c: bv8, d: bv8)
    requires a in {0, 1} && b in {0, 2} && c in {0, 4} && d in {0, 8}
    ensures (a | b | c | d) as int == a as int + b as int + c as int + d as int
  {
  }

  // ---- Records

  /** Every length is cut to its 32-bit field. */
  function EncodedRecord(p: Parameter): seq<byte> {
    var v := EncodedValue(p.value);
    LittleOctets(HEADER_LENGTH + |v|, 4) + LittleOctets(p.typ, 4) + LittleOctets(|v|, 4) + v
  }

  /** A record as code sees it through a pointer: `rest` is the memory from its value on. */
  datatype Record = Record(size: nat, typ: nat, length: nat, rest: seq<byte>)

  function Word(buffer: seq<byte>, at: nat): nat
    requires at + 4 <= |buffer|
  {
    LittleEndian(buffer[at..at + 4])
  }

  function RecordAt(buffer: seq<byte>, at: nat): Option<Record> {
    if at + HEADER_LENGTH > |buffer| then None
    else Some(Record(Word(buffer, at), Word(buffer, at + 4), Word(buffer, at + 8), buffer[at + HEADER_LENGTH..]))
  }

  /** An unknown type is an exception; reading past the buffer has no defined outcome. */
  datatype Decoded = Decoded(value: Value) | UnknownType | PastTheBuffer

  /** The decoder for one record. Where it only logs, the variant keeps its default. */
  function DecodedValue(r: Record): Decoded {
    match KindOf(r.typ)
    case FlagKind => if |r.rest| < 1 then PastTheBuffer else Decoded(Flag(r.rest[0] != 0))
    case NumberKind(w) => if |r.rest| < w then PastTheBuffer else Decoded(Number(LittleEndian(r.rest[..w]), w))
    case EnumeratorKind(w) => if |r.rest| < w then PastTheBuffer else Decoded(Enumerator(LittleEndian(r.rest[..w]), w))
    case ReportsKind => if |r.rest| < 1 then PastTheBuffer else Decoded(Reports(ReportsIn(Bits(r.rest[0]))))
    case AddressKind =>
      if r.length != SHORT_LENGTH && r.length != EXTENDED_LENGTH then Decoded(Flag(false))
      else if |r.rest| < r.length then PastTheBuffer
      else Decoded(Address(r.rest[..r.length]))
    case VectorKind => if |r.rest| < VECTOR_LENGTH then PastTheBuffer else Decoded(Vector(r.rest[..VECTOR_LENGTH]))
    case AddressesKind => Decoded(Flag(false))
    case UnknownKind => UnknownType
  }

  /** An address of another length than two or eight octets is not decoded: the value stays
      what the variant begins with. */
  lemma {:induction false} OtherLengthKept(r: Record)
    requires r.typ == 0x06
    ensures r.length !in {2, 8} ==> DecodedValue(r) == Decoded(Flag(false))
    ensures r.length in {2, 8} && r.length <= |r.rest| ==> DecodedValue(r) == Decoded(Address(r.rest[..r.length]))
  {
  }

  lemma {:induction false} PowersOf256()
    ensures Pow256(1) == 0x100 && Pow256(2) == 0x1_0000 && Pow256(4) == UINT32_LIMIT
  {
    assert Pow256(3) == 256 * Pow256(2);
  }

  lemma {:induction false} WordOf(before: seq<byte>, n: nat, after: seq<byte>)
    ensures Word(before + LittleOctets(n, 4) + after, |before|) == n % UINT32_LIMIT
  {
    var buffer := before + LittleOctets(n, 4) + after;
    assert buffer[|before|..|before| + 4] == LittleOctets(n, 4);
    LittleEndianOctets(n, 4);
    PowersOf256();
  }

  /** The header fields of an encoded record wherever it lies in a buffer. */
  lemma {:induction false} RecordInBuffer(before: seq<byte>, p: Parameter, after: seq<byte>)
    ensures RecordAt(before + EncodedRecord(p) + after, |before|)
         == Some(Record(|EncodedRecord(p)| % UINT32_LIMIT, p.typ % UINT32_LIMIT, |EncodedValue(p.value)| % UINT32_LIMIT,
                        EncodedValue(p.value) + after))
  {
    var v := EncodedValue(p.value);
    var s, t, l := LittleOctets(HEADER_LENGTH + |v|, 4), LittleOctets(p.typ, 4), LittleOctets(|v|, 4);
    var buffer := before + EncodedRecord(p) + after;
    hide LittleOctets, EncodedValue;
    assert buffer == before + s + (t + l + v + after) by { Regroup(before, s, t, l, v, after); }
    assert buffer == before + s + t + (l + v + after) by { Regroup(before, s, t, l, v, after); }
    assert buffer == before + s + t + l + (v + after) by { Regroup(before, s, t, l, v, after); }
    WordOf(before, HEADER_LENGTH + |v|, t + l + v + after);
    WordOf(before + s, p.typ, l + v + after);
    WordOf(before + s + t, |v|, v + after);
    assert buffer[|before| + HEADER_LENGTH..] == v + after;
  }

  lemma {:induction false} Regroup(a: seq<byte>, s: seq<byte>, t: seq<byte>, l: seq<byte>, v: seq<byte>, z: seq<byte>)
    ensures a + (s + t + l + v) + z == a + s + (t + l + v + z)
    ensures a + (s + t + l + v) + z == a + s + t + (l + v + z)
    ensures a + (s + t + l + v) + z == a + s + t + l + (v + z)
  {
  }

  lemma {:induction false} NumberRoundTrip(n: nat, w: nat, after: seq<byte>)
    requires n < Pow256(w)
    ensures LittleEndian((LittleOctets(n, w) + after)[..w]) == n
  {
    assert (LittleOctets(n, w) + after)[..w] == LittleOctets(n, w);
    LittleEndianOctets(n, w);
    SmallRemainder(n, Pow256(w));
  }

  lemma {:induction false} OctetBits(v: bv8)
    ensures Bits(Octet(v)) == v
  {
  }

  /** Whatever follows the value in memory, decoding it gives it back. */
  lemma {:induction false} ValueRoundTrip(p: Parameter, size: nat, after: seq<byte>)
    requires WellTyped(p) && KindOf(p.typ) != AddressesKind
    ensures DecodedValue(Record(size, p.typ, |EncodedValue(p.value)|, EncodedValue(p.value) + after)) == Decoded(p.value)
  {
    hide KindOf, LittleOctets, LittleEndian, Mask, ReportsIn;
    match KindOf(p.typ) {
      case NumberKind(w) => NumberRoundTrip(p.value.n, w, after);
      case EnumeratorKind(w) => NumberRoundTrip(p.value.e, w, after);
      case ReportsKind =>
        ReportsOfMask(p.value.reports);
        OctetBits(Mask(p.value.reports));
      case _ =>
    }
  }

  lemma {:induction false} KnownType(typ: nat)
    requires KindOf(typ) != UnknownKind
    ensures typ <= 0x35
  {
  }

  lemma {:induction false} ShortValue(p: Parameter)
    requires WellTyped(p) && KindOf(p.typ) != AddressesKind
    ensures |EncodedValue(p.value)| <= 8
  {
    hide Mask, LittleOctets;
  }

  /** Decoding an encoded record, wherever it lies, gives the parameter back. */
  lemma {:induction false} RecordRoundTrip(before: seq<byte>, p: Parameter, after: seq<byte>)
    requires WellTyped(p) && KindOf(p.typ) != AddressesKind
    ensures var r := RecordAt(before + EncodedRecord(p) + after, |before|);
            && r.Some? && r.value.typ == p.typ && r.value.size == |EncodedRecord(p)|
            && DecodedValue(r.value) == Decoded(p.value)
  {
    RecordInBuffer(before, p, after);
    KnownType(p.typ);
    ShortValue(p);
    RecordLength(p);
    ValueRoundTrip(p, |EncodedRecord(p)|, after);
    hide *;
    SmallRemainder(|EncodedRecord(p)|, UINT32_LIMIT);
    SmallRemainder(|EncodedValue(p.value)|, UINT32_LIMIT);
    SmallRemainder(p.typ, UINT32_LIMIT);
  }

  lemma {:induction false} RecordLength(p: Parameter)
    ensures |EncodedRecord(p)| == HEADER_LENGTH + |EncodedValue(p.value)|
  {
  }

  // ---- Addresses

  /** The decoder for a set of addresses: as many chunks of one width as there are. */
  function Chunks(octets: seq<byte>, width: nat): set<MacAddress>
    requires width > 0
  {
    if |octets| < width then {} else {octets[..width]} + Chunks(octets[width..], width)
  }

  lemma {:induction false} ConcatFirst(x: seq<byte>, xs: seq<seq<byte>>)
    ensures Concat([x] + xs) == x + Concat(xs)
  {
    if xs == [] {
      assert [x] + xs == [x];
      assert Concat([x]) == Concat([]) + x;
    } else {
      var k := |xs| - 1;
      ConcatFirst(x, xs[..k]);
      assert ([x] + xs)[..k + 1] == [x] + xs[..k];
    }
  }

  lemma {:induction false} ChunksOfOneMode(order: seq<MacAddress>, width: nat)
    requires width > 0 && forall a <- order :: |a| == width
    ensures Chunks(Concat(order), width) == set a | a in order
  {
    if order != [] {
      var a, rest := order[0], order[1..];
      ChunksOfOneMode(rest, width);
      ConcatFirst(a, rest);
      assert order == [a] + rest;
      var all := a + Concat(rest);
      assert all[..width] == a && all[width..] == Concat(rest);
    }
  }

  lemma {:induction false} ChunksHaveWidth(octets: seq<byte>, width: nat)
    requires width > 0
    ensures forall a <- Chunks(octets, width) :: |a| == width
    decreases |octets|
  {
    if |octets| >= width {
      ChunksHaveWidth(octets[width..], width);
    }
  }

  /** Packed in any order, a set of addresses is decoded to itself exactly when all of them
      have the length of the mode that decodes them. */
  lemma {:induction false} AddressesRoundTripIff(order: seq<MacAddress>, width: nat)
    requires width in {SHORT_LENGTH, EXTENDED_LENGTH}
    ensures (Chunks(EncodedValue(Addresses(order)), width) == set a | a in order)
       <==> (forall a <- order :: |a| == width)
  {
    if forall a <- order :: |a| == width {
      ChunksOfOneMode(order, width);
    } else {
      ChunksHaveWidth(Concat(order), width);
      var a :| a in order && |a| != width;
      assert a in (set b | b in order);
    }
  }

  // ---- Lists

  function Packed(word: nat, records: seq<seq<byte>>): seq<byte> {
    var body := Concat(records);
    LittleOctets(HEADER_LENGTH + |body|, 4) + LittleOctets(word, 4) + LittleOctets(|records|, 4) + body
  }

  function Records(ps: seq<Parameter>): (rs: seq<seq<byte>>)
    ensures |rs| == |ps| && forall i :: 0 <= i < |ps| ==> rs[i] == EncodedRecord(ps[i])
  {
    seq(|ps|, i requires 0 <= i < |ps| => EncodedRecord(ps[i]))
  }

  /** The second word is the status of a query, or the session id of a command. */
  function EncodedList(word: nat, ps: seq<Parameter>): seq<byte> {
    Packed(word, Records(ps))
  }

  /** Where a walk has been: the records it stopped at, and where it stands now. */
  datatype Path = Path(starts: seq<nat>, end: nat)

  /** The walk adds to its position the size it reads there, and reads no other length. */
  function Walk(buffer: seq<byte>, from: nat, count: nat): Option<Path> {
    if count == 0 then Some(Path([], from))
    else
      match Walk(buffer, from, count - 1)
      case None => None
      case Some(path) =>
        match RecordAt(buffer, path.end)
        case None => None
        case Some(r) => Some(Path(path.starts + [path.end], path.end + r.size))
  }

  /** A record that states its own length. */
  predicate Sized(record: seq<byte>) {
    |record| >= HEADER_LENGTH && Word(record, 0) == |record|
  }

  function StartOf(records: seq<seq<byte>>, i: nat): nat
    requires i <= |records|
  {
    HEADER_LENGTH + |Concat(records[..i])|
  }

  function Starts(records: seq<seq<byte>>, count: nat): (r: seq<nat>)
    requires count <= |records|
    ensures |r| == count && forall i :: 0 <= i < count ==> r[i] == StartOf(records, i)
  {
    seq(count, i requires 0 <= i < count => StartOf(records, i))
  }

  lemma {:induction false} ConcatSplit(xs: seq<seq<byte>>, k: nat)
    requires k < |xs|
    ensures Concat(xs) == Concat(xs[..k]) + xs[k] + Concat(xs[k + 1..])
  {
    if k == |xs| - 1 {
      assert xs[k + 1..] == [];
    } else {
      var n := |xs| - 1;
      ConcatSplit(xs[..n], k);
      assert xs[..n][..k] == xs[..k];
      assert xs[k + 1..][..n - k - 1] == xs[..n][k + 1..];
      Associate(Concat(xs[..k]), xs[k], Concat(xs[..n][k + 1..]), xs[n]);
    }
  }

  lemma {:induction false} Associate(a: seq<byte>, b: seq<byte>, c: seq<byte>, d: seq<byte>)
    ensures (a + b + c) + d == a + b + (c + d)
  {
  }

  function ListHeader(word: nat, records: seq<seq<byte>>): (h: seq<byte>)
    ensures |h| == HEADER_LENGTH
  {
    LittleOctets(HEADER_LENGTH + |Concat(records)|, 4) + LittleOctets(word, 4) + LittleOctets(|records|, 4)
  }

  /** Each record lies at its start, followed by the next. */
  lemma {:induction false} RecordLies(word: nat, records: seq<seq<byte>>, k: nat)
    requires k < |records|
    ensures var before := ListHeader(word, records) + Concat(records[..k]);
            && Packed(word, records) == before + records[k] + Concat(records[k + 1..])
            && |before| == StartOf(records, k)
            && StartOf(records, k + 1) == StartOf(records, k) + |records[k]|
  {
    ConcatSplit(records, k);
    assert records[..k + 1][..k] == records[..k];
    var h := ListHeader(word, records);
    assert Packed(word, records) == h + Concat(records);
    Associate3(h, Concat(records[..k]), records[k], Concat(records[k + 1..]));
  }

  lemma {:induction false} Associate3(h: seq<byte>, a: seq<byte>, b: seq<byte>, c: seq<byte>)
    ensures h + (a + b + c) == h + a + b + c
  {
  }

  lemma {:induction false} SizeAt(before: seq<byte>, record: seq<byte>, after: seq<byte>)
    requires Sized(record)
    ensures RecordAt(before + record + after, |before|).Some?
    ensures RecordAt(before + record + after, |before|).value.size == |record|
  {
    var buffer := before + record + after;
    assert buffer[|before|..|before| + 4] == record[0..4];
  }

  lemma {:induction false} WalkStep(buffer: seq<byte>, from: nat, count: nat)
    requires count > 0 && Walk(buffer, from, count - 1).Some?
    requires RecordAt(buffer, Walk(buffer, from, count - 1).value.end).Some?
    ensures Walk(buffer, from, count)
         == (var path := Walk(buffer, from, count - 1).value;
             Some(Path(path.starts + [path.end], path.end + RecordAt(buffer, path.end).value.size)))
  {
  }

  lemma {:induction false} SizedRecordAt(word: nat, records: seq<seq<byte>>, k: nat)
    requires k < |records| && forall r <- records :: Sized(r)
    ensures RecordAt(Packed(word, records), StartOf(records, k)).Some?
    ensures StartOf(records, k) + RecordAt(Packed(word, records), StartOf(records, k)).value.size == StartOf(records, k + 1)
  {
    RecordLies(word, records, k);
    hide *;
    assert records[k] in records;
    SizeAt(ListHeader(word, records) + Concat(records[..k]), records[k], Concat(records[k + 1..]));
  }

  lemma {:induction false} OneMoreStart(records: seq<seq<byte>>, k: nat)
    requires k < |records|
    ensures Starts(records, k + 1) == Starts(records, k) + [StartOf(records, k)]
  {
    hide StartOf;
  }

  lemma {:induction false} NoRecordYet(word: nat, records: seq<seq<byte>>)
    ensures Walk(Packed(word, records), HEADER_LENGTH, 0) == Some(Path(Starts(records, 0), StartOf(records, 0)))
  {
    assert records[..0] == [];
  }

  /** The walk visits exactly the records, in order, each at its start, and after the last
      one it stands at the end of the buffer. */
  lemma {:induction false} WalkVisitsRecords(word: nat, records: seq<seq<byte>>, count: nat)
    requires count <= |records| && forall r <- records :: Sized(r)
    ensures Walk(Packed(word, records), HEADER_LENGTH, count)
         == Some(Path(Starts(records, count), StartOf(records, count)))
  {
    hide *;
    if count == 0 {
      NoRecordYet(word, records);
    } else {
      WalkVisitsRecords(word, records, count - 1);
      SizedRecordAt(word, records, count - 1);
      OneMoreStart(records, count - 1);
      WalkStep(Packed(word, records), HEADER_LENGTH, count);
    }
  }

  predicate LiesAt(buffer: seq<byte>, start: nat, record: seq<byte>) {
    start + |record| <= |buffer| && buffer[start..start + |record|] == record
  }

  lemma {:induction false} RecordLiesAt(word: nat, records: seq<seq<byte>>, k: nat)
    requires k < |records|
    ensures LiesAt(Packed(word, records), StartOf(records, k), records[k])
    ensures StartOf(records, k) + |records[k]| == StartOf(records, k + 1)
  {
    RecordLies(word, records, k);
    hide Packed, StartOf, Concat;
    Middle(ListHeader(word, records) + Concat(records[..k]), records[k], Concat(records[k + 1..]));
  }

  lemma {:induction false} Middle(a: seq<byte>, b: seq<byte>, c: seq<byte>)
    ensures LiesAt(a + b + c, |a|, b)
  {
  }

  lemma {:induction false} LastStart(word: nat, records: seq<seq<byte>>)
    ensures StartOf(records, |records|) == |Packed(word, records)| == HEADER_LENGTH + |Concat(records)|
  {
    assert records[..|records|] == records;
  }

  /** Each record lies whole where the walk stopped for it, the next stop is right behind it,
      and the walk ends where the buffer does. */
  lemma {:induction false} WalkStaysInside(word: nat, records: seq<seq<byte>>)
    requires forall r <- records :: Sized(r)
    ensures var buffer, walk := Packed(word, records), Walk(Packed(word, records), HEADER_LENGTH, |records|);
            && walk.Some? && walk.value.end == |buffer| == HEADER_LENGTH + |Concat(records)|
            && |walk.value.starts| == |records|
            && forall i :: 0 <= i < |records| ==>
                 && LiesAt(buffer, walk.value.starts[i], records[i])
                 && walk.value.starts[i] + |records[i]|
                    == (if i + 1 < |records| then walk.value.starts[i + 1] else walk.value.end)
  {
    WalkVisitsRecords(word, records, |records|);
    LastStart(word, records);
    hide *;
    forall i | 0 <= i < |records|
      ensures LiesAt(Packed(word, records), StartOf(records, i), records[i])
      ensures StartOf(records, i) + |records[i]| == StartOf(records, i + 1)
    {
      RecordLiesAt(word, records, i);
    }
  }

  /** An encoded record states its own length exactly when that fits its size field. */
  lemma {:induction false} EncodedIsSizedIff(p: Parameter)
    ensures Sized(EncodedRecord(p)) <==> |EncodedRecord(p)| < UINT32_LIMIT
  {
    SizeIsFirst(p);
    hide EncodedRecord, Word;
    if |EncodedRecord(p)| < UINT32_LIMIT {
      SmallRemainder(|EncodedRecord(p)|, UINT32_LIMIT);
    }
  }

  lemma {:induction false} SizeIsFirst(p: Parameter)
    ensures |EncodedRecord(p)| >= HEADER_LENGTH && Word(EncodedRecord(p), 0) == |EncodedRecord(p)| % UINT32_LIMIT
  {
    var v := EncodedValue(p.value);
    var size, rest := LittleOctets(HEADER_LENGTH + |v|, 4), LittleOctets(p.typ, 4) + LittleOctets(|v|, 4) + v;
    RecordLength(p);
    assert EncodedRecord(p) == size + rest;
    hide EncodedRecord, Word, LittleOctets, EncodedValue;
    WordOf([], HEADER_LENGTH + |v|, rest);
    assert [] + size == size;
  }

  // ---- Decoding a list

  const MAC_ADDRESS_MODE: nat := 0x26

  /** The parameters of a query's answer, and those of a command. */
  datatype ListKind = QueryList | CommandList

  /** What the loop over the records gathers: parameters, the last address mode, and a copy
      of the last record of destinations. */
  datatype Gathered = Gathered(parameters: seq<Parameter>, mode: Option<Value>, destinations: Option<Record>)

  /** The parameters in order, and the set of destinations that goes behind them. */
  datatype DecodedParameters = DecodedParameters(parameters: seq<Parameter>, destinations: Option<set<MacAddress>>)

  /** The copy of a record is of its declared size: one octet of its value. A command's
      address mode is not handed on as a parameter. */
  function Gather(kind: ListKind, g: Gathered, r: Record): Option<Gathered> {
    if KindOf(r.typ) == AddressesKind then
      if |r.rest| < 1 then None else Some(g.(destinations := Some(r.(rest := r.rest[..1]))))
    else
      match DecodedValue(r)
      case Decoded(v) =>
        var all := g.parameters + [Parameter(r.typ, v)];
        if r.typ != MAC_ADDRESS_MODE then Some(g.(parameters := all))
        else Some(g.(mode := Some(v), parameters := if kind.CommandList? then g.parameters else all))
      case _ => None
  }

  /** What the first so many records give. */
  function GatheredUpTo(kind: ListKind, buffer: seq<byte>, count: nat): Option<Gathered> {
    if count == 0 then Some(Gathered([], None, None))
    else
      match GatheredUpTo(kind, buffer, count - 1)
      case None => None
      case Some(g) =>
        match Walk(buffer, HEADER_LENGTH, count - 1)
        case None => None
        case Some(path) =>
          match RecordAt(buffer, path.end)
          case None => None
          case Some(r) => Gather(kind, g, r)
  }

  /** Without a mode the addresses are taken to be short. */
  function WidthOf(mode: Option<Value>): (width: nat)
    ensures width in {SHORT_LENGTH, EXTENDED_LENGTH}
  {
    if mode == None || mode == Some(Enumerator(0, 1)) then SHORT_LENGTH else EXTENDED_LENGTH
  }

  /** As many whole addresses as the length says, read from the copy. */
  function DecodedAddresses(r: Record, width: nat): Option<set<MacAddress>>
    requires width > 0
  {
    var used := r.length / width * width;
    if used > |r.rest| then None else Some(Chunks(r.rest[..used], width))
  }

  function DecodedList(kind: ListKind, buffer: seq<byte>): Option<DecodedParameters> {
    if |buffer| < HEADER_LENGTH then None
    else
      match GatheredUpTo(kind, buffer, Word(buffer, 8))
      case None => None
      case Some(g) => WithDestinations(g)
  }

  function WithDestinations(g: Gathered): Option<DecodedParameters> {
    match g.destinations
    case None => Some(DecodedParameters(g.parameters, None))
    case Some(r) =>
      match DecodedAddresses(r, WidthOf(g.mode))
      case None => None
      case Some(addresses) => Some(DecodedParameters(g.parameters, Some(addresses)))
  }

  // ---- What a list of parameters says

  predicate IsHandedOn(kind: ListKind, p: Parameter) {
    KindOf(p.typ) != AddressesKind && (kind.CommandList? ==> p.typ != MAC_ADDRESS_MODE)
  }

  function HandedOn(kind: ListKind, ps: seq<Parameter>): seq<Parameter> {
    if ps == [] then []
    else
      var k := |ps| - 1;
      HandedOn(kind, ps[..k]) + (if IsHandedOn(kind, ps[k]) then [ps[k]] else [])
  }

  function ModeIn(ps: seq<Parameter>): Option<Value> {
    if ps == [] then None
    else
      var k := |ps| - 1;
      if ps[k].typ == MAC_ADDRESS_MODE then Some(ps[k].value) else ModeIn(ps[..k])
  }

  function DestinationsIn(ps: seq<Parameter>): (d: Option<Parameter>)
    ensures d.Some? ==> d.value in ps && KindOf(d.value.typ) == AddressesKind
    ensures d.None? ==> forall p <- ps :: KindOf(p.typ) != AddressesKind
  {
    if ps == [] then None
    else
      var k := |ps| - 1;
      if KindOf(ps[k].typ) == AddressesKind then Some(ps[k]) else DestinationsIn(ps[..k])
  }

  /** An empty set of destinations at the very end: there is not even one octet to copy. */
  predicate EndsInNothing(ps: seq<Parameter>) {
    ps != [] && KindOf(ps[|ps| - 1].typ) == AddressesKind && EncodedValue(ps[|ps| - 1].value) == []
  }

  predicate Matches(kind: ListKind, g: Gathered, ps: seq<Parameter>) {
    && g.parameters == HandedOn(kind, ps)
    && g.mode == ModeIn(ps)
    && (g.destinations.Some? <==> DestinationsIn(ps).Some?)
    && (g.destinations.Some? ==>
          && |g.destinations.value.rest| == 1
          && g.destinations.value.length == |EncodedValue(DestinationsIn(ps).value.value)|)
  }

  lemma {:induction false} OneMoreParameter(kind: ListKind, ps: seq<Parameter>, p: Parameter)
    ensures HandedOn(kind, ps + [p]) == HandedOn(kind, ps) + (if IsHandedOn(kind, p) then [p] else [])
    ensures ModeIn(ps + [p]) == if p.typ == MAC_ADDRESS_MODE then Some(p.value) else ModeIn(ps)
    ensures DestinationsIn(ps + [p]) == if KindOf(p.typ) == AddressesKind then Some(p) else DestinationsIn(ps)
  {
    assert (ps + [p])[..|ps|] == ps;
    hide IsHandedOn, KindOf;
  }

  /** Well typed, and short enough for the record to state its length. */
  predicate Encodable(p: Parameter) {
    WellTyped(p) && |EncodedRecord(p)| < UINT32_LIMIT
  }

  lemma {:induction false} RecordsAreSized(ps: seq<Parameter>)
    requires forall p <- ps :: Encodable(p)
    ensures forall r <- Records(ps) :: Sized(r)
  {
    forall r <- Records(ps) ensures Sized(r) {
      var i :| 0 <= i < |ps| && Records(ps)[i] == r;
      assert ps[i] in ps;
      EncodedIsSizedIff(ps[i]);
    }
  }

  lemma {:induction false} GathersParameter(kind: ListKind, before: seq<byte>, p: Parameter, after: seq<byte>,
                                            g: Gathered, ps: seq<Parameter>)
    requires Encodable(p) && KindOf(p.typ) != AddressesKind && Matches(kind, g, ps)
    ensures var r := RecordAt(before + EncodedRecord(p) + after, |before|);
            && r.Some? && Gather(kind, g, r.value).Some?
            && Matches(kind, Gather(kind, g, r.value).value, ps + [p])
  {
    RecordRoundTrip(before, p, after);
    OneMoreParameter(kind, ps, p);
    hide KindOf, RecordAt, EncodedRecord, EncodedValue, DecodedValue, HandedOn, ModeIn, DestinationsIn;
    assert HandedOn(kind, ps) + [] == HandedOn(kind, ps);
  }

  lemma {:induction false} ValueLengthFits(p: Parameter)
    requires Encodable(p)
    ensures |EncodedValue(p.value)| % UINT32_LIMIT == |EncodedValue(p.value)| && p.typ % UINT32_LIMIT == p.typ
  {
    KnownType(p.typ);
    RecordLength(p);
    hide EncodedRecord, EncodedValue;
    SmallRemainder(|EncodedValue(p.value)|, UINT32_LIMIT);
    SmallRemainder(p.typ, UINT32_LIMIT);
  }

  lemma {:induction false} GathersDestinations(kind: ListKind, before: seq<byte>, p: Parameter, after: seq<byte>,
                                               g: Gathered, ps: seq<Parameter>)
    requires Encodable(p) && KindOf(p.typ) == AddressesKind && Matches(kind, g, ps)
    ensures var r := RecordAt(before + EncodedRecord(p) + after, |before|);
            && r.Some?
            && (Gather(kind, g, r.value).Some? <==> EncodedValue(p.value) + after != [])
            && (Gather(kind, g, r.value).Some? ==> Matches(kind, Gather(kind, g, r.value).value, ps + [p]))
  {
    RecordInBuffer(before, p, after);
    ValueLengthFits(p);
    OneMoreParameter(kind, ps, p);
    assert p.typ == DST_MAC_ADDRESS;
    hide RecordAt, EncodedRecord, EncodedValue, DecodedValue, HandedOn, ModeIn, DestinationsIn, Encodable;
    assert HandedOn(kind, ps) + [] == HandedOn(kind, ps);
  }

  lemma {:induction false} GatheredStep(kind: ListKind, buffer: seq<byte>, count: nat)
    requires count > 0 && GatheredUpTo(kind, buffer, count - 1).Some? && Walk(buffer, HEADER_LENGTH, count - 1).Some?
    requires RecordAt(buffer, Walk(buffer, HEADER_LENGTH, count - 1).value.end).Some?
    ensures GatheredUpTo(kind, buffer, count)
         == Gather(kind, GatheredUpTo(kind, buffer, count - 1).value,
                   RecordAt(buffer, Walk(buffer, HEADER_LENGTH, count - 1).value.end).value)
  {
    hide Gather, Walk, RecordAt;
  }

  /** Behind a record that is not the last there is another one. */
  lemma {:induction false} NothingBehindIff(ps: seq<Parameter>, k: nat)
    requires k < |ps|
    ensures Concat(Records(ps)[k + 1..]) == [] <==> k == |ps| - 1
  {
    var rest := Records(ps)[k + 1..];
    if k < |ps| - 1 {
      assert rest[|rest| - 1] == EncodedRecord(ps[|ps| - 1]);
      RecordLength(ps[|ps| - 1]);
      hide EncodedRecord;
    }
  }

  lemma {:induction false} GathersOne(kind: ListKind, word: nat, ps: seq<Parameter>, k: nat, g: Gathered)
    requires k < |ps| && (forall p <- ps :: Encodable(p)) && Matches(kind, g, ps[..k])
    ensures var r := RecordAt(EncodedList(word, ps), StartOf(Records(ps), k));
            && r.Some?
            && (Gather(kind, g, r.value).Some? <==> !(k == |ps| - 1 && EndsInNothing(ps)))
            && (Gather(kind, g, r.value).Some? ==> Matches(kind, Gather(kind, g, r.value).value, ps[..k] + [ps[k]]))
  {
    var records := Records(ps);
    var before, after := ListHeader(word, records) + Concat(records[..k]), Concat(records[k + 1..]);
    RecordLies(word, records, k);
    NothingBehindIff(ps, k);
    assert ps[k] in ps;
    assert records[k] == EncodedRecord(ps[k]);
    assert EncodedList(word, ps) == Packed(word, records);
    hide Packed, ListHeader, Concat, StartOf, RecordAt, Gather, Matches, KindOf, EncodedRecord, EncodedValue, Encodable;
    if KindOf(ps[k].typ) == AddressesKind {
      GathersDestinations(kind, before, ps[k], after, g, ps[..k]);
    } else {
      GathersParameter(kind, before, ps[k], after, g, ps[..k]);
    }
  }

  lemma {:induction false} GathersPrefix(kind: ListKind, word: nat, ps: seq<Parameter>, count: nat)
    requires count <= |ps| && forall p <- ps :: Encodable(p)
    ensures var g := GatheredUpTo(kind, EncodedList(word, ps), count);
            && (g.Some? <==> !(count == |ps| && EndsInNothing(ps)))
            && (g.Some? ==> Matches(kind, g.value, ps[..count]))
  {
    if count == 0 {
      NothingGathered(kind, EncodedList(word, ps));
      EndsAtTheEnd(ps);
      hide *;
      assert ps[..0] == [];
    } else {
      hide *;
      GathersPrefix(kind, word, ps, count - 1);
      GathersNext(kind, word, ps, count - 1);
    }
  }

  lemma {:induction false} EndsAtTheEnd(ps: seq<Parameter>)
    ensures EndsInNothing(ps) ==> |ps| > 0
  {
  }

  lemma {:induction false} GathersNext(kind: ListKind, word: nat, ps: seq<Parameter>, k: nat)
    requires k < |ps| && (forall p <- ps :: Encodable(p)) && GatheredUpTo(kind, EncodedList(word, ps), k).Some?
    requires Matches(kind, GatheredUpTo(kind, EncodedList(word, ps), k).value, ps[..k])
    ensures var g := GatheredUpTo(kind, EncodedList(word, ps), k + 1);
            && (g.Some? <==> !(k + 1 == |ps| && EndsInNothing(ps)))
            && (g.Some? ==> Matches(kind, g.value, ps[..k + 1]))
  {
    hide *;
    RecordsAreSized(ps);
    WalkVisitsRecords(word, Records(ps), k);
    ListIsPacked(word, ps);
    GathersOne(kind, word, ps, k, GatheredUpTo(kind, EncodedList(word, ps), k).value);
    GatheredStep(kind, EncodedList(word, ps), k + 1);
    assert ps[..k] + [ps[k]] == ps[..k + 1];
  }

  lemma {:induction false} ListIsPacked(word: nat, ps: seq<Parameter>)
    ensures EncodedList(word, ps) == Packed(word, Records(ps)) && |Records(ps)| == |ps|
  {
  }

  lemma {:induction false} NothingGathered(kind: ListKind, buffer: seq<byte>)
    ensures GatheredUpTo(kind, buffer, 0) == Some(Gathered([], None, None))
    ensures Matches(kind, Gathered([], None, None), [])
  {
  }

  /** The header states the length of the whole buffer, the given word, and the number of
      records, each in 32 bits. */
  lemma {:induction false} HeaderWords(word: nat, records: seq<seq<byte>>)
    ensures |Packed(word, records)| >= HEADER_LENGTH
    ensures Word(Packed(word, records), 0) == |Packed(word, records)| % UINT32_LIMIT
    ensures Word(Packed(word, records), 4) == word % UINT32_LIMIT
    ensures Word(Packed(word, records), 8) == |records| % UINT32_LIMIT
  {
    var body := Concat(records);
    var total := HEADER_LENGTH + |body|;
    var s, w, c := LittleOctets(total, 4), LittleOctets(word, 4), LittleOctets(|records|, 4);
    var buffer := Packed(word, records);
    hide LittleOctets, Concat, LittleEndian, Word;
    assert buffer == [] + s + (w + c + body) && buffer == s + w + (c + body) && buffer == s + w + c + body;
    WordOf([], total, w + c + body);
    WordOf(s, word, c + body);
    WordOf(s + w, |records|, body);
  }

  /** The copy has room for no address: only a length below that of one gives an outcome. */
  lemma {:induction false} CopyHoldsNoAddress(r: Record, width: nat)
    requires width in {SHORT_LENGTH, EXTENDED_LENGTH} && |r.rest| == 1
    ensures DecodedAddresses(r, width) == if r.length < width then Some({}) else None
  {
    if r.length < width {
      assert r.length / width == 0;
    } else {
      assert r.length / width >= 1;
      assert r.length / width * width >= width;
    }
  }

  /** Read from the record itself, and not from a copy, a set of addresses of the width that
      the mode says comes back. */
  lemma {:induction false} RecordAddresses(before: seq<byte>, p: Parameter, after: seq<byte>, width: nat)
    requires Encodable(p) && p.value.Addresses? && KindOf(p.typ) == AddressesKind
    requires width in {SHORT_LENGTH, EXTENDED_LENGTH} && forall a <- p.value.order :: |a| == width
    ensures var r := RecordAt(before + EncodedRecord(p) + after, |before|);
            r.Some? && DecodedAddresses(r.value, width) == Some(set a | a in p.value.order)
  {
    RecordInBuffer(before, p, after);
    ValueLengthFits(p);
    ChunksOfOneMode(p.value.order, width);
    WholeAddresses(p.value.order, width);
    var octets := EncodedValue(p.value);
    assert (octets + after)[..|octets|] == octets;
    hide RecordAt, EncodedRecord, Chunks, Concat, KindOf, Encodable;
  }

  lemma {:induction false} WholeAddresses(order: seq<MacAddress>, width: nat)
    requires width > 0 && forall a <- order :: |a| == width
    ensures |Concat(order)| / width * width == |Concat(order)|
  {
    ConcatLength(order, width);
    RemainderIs(|Concat(order)|, width, |order|, 0);
  }

  lemma {:induction false} ConcatLength(order: seq<MacAddress>, width: nat)
    requires forall a <- order :: |a| == width
    ensures |Concat(order)| == |order| * width
  {
    if order != [] {
      var k := |order| - 1;
      ConcatLength(order[..k], width);
      assert order[k] in order;
      OneMoreTimes(k, width);
    }
  }

  lemma {:induction false} OneMoreTimes(k: nat, width: nat)
    ensures (k + 1) * width == k * width + width
  {
  }

  /** Addresses are taken to be short when the list has no address mode, or the last one it
      has is the number 0, and extended otherwise. */
  lemma {:induction false} WidthIff(ps: seq<Parameter>)
    ensures WidthOf(ModeIn(ps)) == if IsShort(ps) then 2 else 8
  {
    if ps != [] {
      var k := |ps| - 1;
      WidthIff(ps[..k]);
      ShortOneMore(ps);
      hide IsShort;
    }
  }

  ghost predicate IsShort(ps: seq<Parameter>) {
    || (forall p <- ps :: p.typ != MAC_ADDRESS_MODE)
    || exists i :: LastMode(ps, i) && ps[i].value == Enumerator(0, 1)
  }

  ghost predicate LastMode(ps: seq<Parameter>, i: int) {
    0 <= i < |ps| && ps[i].typ == MAC_ADDRESS_MODE && forall j :: i < j < |ps| ==> ps[j].typ != MAC_ADDRESS_MODE
  }

  lemma {:induction false} ShortOneMore(ps: seq<Parameter>)
    requires ps != []
    ensures var front, last := ps[..|ps| - 1], ps[|ps| - 1];
            IsShort(ps) == (if last.typ == MAC_ADDRESS_MODE then last.value == Enumerator(0, 1) else IsShort(front))
  {
    var k := |ps| - 1;
    var front, last := ps[..k], ps[k];
    if last.typ == MAC_ADDRESS_MODE {
      assert LastMode(ps, k);
      assert last in ps;
    } else {
      assert forall i :: LastMode(front, i) <==> LastMode(ps, i);
      assert ps == front + [last];
    }
  }

  /** What becomes of a packed list: the parameters come back in order, and the last set of
      destinations, whatever it held, as the empty set, if its octets are too few for one
      address; otherwise, or if there is nothing to copy, the code reads where it must not. */
  lemma {:induction false} ListDecoded(kind: ListKind, word: nat, ps: seq<Parameter>)
    requires |ps| < UINT32_LIMIT && forall p <- ps :: Encodable(p)
    ensures DestinationsIn(ps).None? ==>
              DecodedList(kind, EncodedList(word, ps)) == Some(DecodedParameters(HandedOn(kind, ps), None))
    ensures DestinationsIn(ps).Some? ==>
              (DecodedList(kind, EncodedList(word, ps))
               == if EndsInNothing(ps) || |EncodedValue(DestinationsIn(ps).value.value)| >= (if IsShort(ps) then 2 else 8) then None
                  else Some(DecodedParameters(HandedOn(kind, ps), Some({}))))
  {
    hide *;
    ReadsAll(kind, word, ps);
    GathersPrefix(kind, word, ps, |ps|);
    assert ps[..|ps|] == ps;
    var g := GatheredUpTo(kind, EncodedList(word, ps), |ps|);
    if g.Some? {
      DestinationsAppended(kind, g.value, ps);
    } else {
      EndsInASet(ps);
    }
  }

  lemma {:induction false} EndsInASet(ps: seq<Parameter>)
    requires EndsInNothing(ps)
    ensures DestinationsIn(ps).Some?
  {
  }

  lemma {:induction false} ReadsAll(kind: ListKind, word: nat, ps: seq<Parameter>)
    requires |ps| < UINT32_LIMIT
    ensures DecodedList(kind, EncodedList(word, ps))
         == match GatheredUpTo(kind, EncodedList(word, ps), |ps|)
            case None => None
            case Some(g) => WithDestinations(g)
  {
    HeaderWords(word, Records(ps));
    SmallRemainder(|ps|, UINT32_LIMIT);
    hide Packed, Word, GatheredUpTo, WithDestinations;
  }

  lemma {:induction false} DestinationsAppended(kind: ListKind, g: Gathered, ps: seq<Parameter>)
    requires Matches(kind, g, ps)
    ensures DestinationsIn(ps).None? ==> WithDestinations(g) == Some(DecodedParameters(HandedOn(kind, ps), None))
    ensures DestinationsIn(ps).Some? ==>
              (WithDestinations(g)
               == if |EncodedValue(DestinationsIn(ps).value.value)| >= (if IsShort(ps) then 2 else 8) then None
                  else Some(DecodedParameters(HandedOn(kind, ps), Some({}))))
  {
    WidthIff(ps);
    if g.destinations.Some? {
      CopyHoldsNoAddress(g.destinations.value, WidthOf(g.mode));
    }
    hide EncodedValue, HandedOn, ModeIn, WidthOf, DecodedAddresses, IsShort, DestinationsIn;
  }

  /** What the list says: its other parameters, and its last set of destinations. */
  function Meant(ps: seq<Parameter>): DecodedParameters
    requires forall p <- ps :: Encodable(p)
  {
    match DestinationsIn(ps)
    case None => DecodedParameters(HandedOn(QueryList, ps), None)
    case Some(p) => DestinationsHoldAddresses(p); DecodedParameters(HandedOn(QueryList, ps), Some(AddressSet(p)))
  }

  lemma {:induction false} DestinationsHoldAddresses(p: Parameter)
    requires Encodable(p) && KindOf(p.typ) == AddressesKind
    ensures p.value.Addresses?
  {
    hide KindOf, EncodedRecord;
  }

  function AddressSet(p: Parameter): set<MacAddress>
    requires p.value.Addresses?
  {
    set a | a in p.value.order
  }

  lemma {:induction false} CommandHandsOnLess(ps: seq<Parameter>)
    ensures |HandedOn(CommandList, ps)| <= |HandedOn(QueryList, ps)|
    ensures (forall p <- ps :: p.typ != MAC_ADDRESS_MODE) ==> HandedOn(CommandList, ps) == HandedOn(QueryList, ps)
    ensures (exists p <- ps :: p.typ == MAC_ADDRESS_MODE) ==> |HandedOn(CommandList, ps)| < |HandedOn(QueryList, ps)|
  {
    if ps != [] {
      var k := |ps| - 1;
      CommandHandsOnLess(ps[..k]);
      assert ps == ps[..k] + [ps[k]];
      OneMoreParameter(QueryList, ps[..k], ps[k]);
      OneMoreParameter(CommandList, ps[..k], ps[k]);
      assert KindOf(MAC_ADDRESS_MODE) != AddressesKind;
      hide HandedOn, KindOf;
    }
  }

  predicate EndsInDestinations(ps: seq<Parameter>) {
    ps != [] && KindOf(ps[|ps| - 1].typ) == AddressesKind
  }

  lemma {:induction false} EmptyDestinations(ps: seq<Parameter>)
    requires (forall p <- ps :: Encodable(p)) && DestinationsIn(ps).Some?
    ensures DestinationsIn(ps).value.value.Addresses?
    ensures DestinationsIn(ps).value.value.order == [] ==>
              EncodedValue(DestinationsIn(ps).value.value) == [] && (EndsInNothing(ps) <==> EndsInDestinations(ps))
  {
    hide KindOf;
  }

  /** A packed list comes back, in order and with its last set of destinations behind it,
      exactly when there is no such set or it is empty and not the end of the list; and, for
      a command, when no address mode is among the parameters. */
  lemma {:induction false} ListRoundTripIff(kind: ListKind, word: nat, ps: seq<Parameter>)
    requires |ps| < UINT32_LIMIT && forall p <- ps :: Encodable(p)
    ensures DecodedList(kind, EncodedList(word, ps)) == Some(Meant(ps))
       <==> && (kind.CommandList? ==> forall p <- ps :: p.typ != MAC_ADDRESS_MODE)
            && (Meant(ps).destinations == None || (Meant(ps).destinations == Some({}) && !EndsInDestinations(ps)))
  {
    ListDecoded(kind, word, ps);
    HandedOnAlike(kind, ps);
    if DestinationsIn(ps).Some? {
      EmptyDestinations(ps);
      EmptySetIff(DestinationsIn(ps).value);
    }
    hide DecodedList, EncodedList, HandedOn, EncodedValue, ModeIn, KindOf, IsShort, EndsInNothing, EndsInDestinations, Encodable;
  }

  lemma {:induction false} HandedOnAlike(kind: ListKind, ps: seq<Parameter>)
    ensures HandedOn(kind, ps) == HandedOn(QueryList, ps)
       <==> (kind.CommandList? ==> forall p <- ps :: p.typ != MAC_ADDRESS_MODE)
  {
    CommandHandsOnLess(ps);
    hide HandedOn;
  }

  lemma {:induction false} EmptySetIff(p: Parameter)
    requires p.value.Addresses?
    ensures AddressSet(p) == {} <==> p.value.order == []
  {
    if p.value.order != [] {
      assert p.value.order[0] in AddressSet(p);
    }
  }
}
