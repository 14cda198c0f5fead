/** The capability object from the outside: feature by feature which bit stands for it, octet
    by octet what is written, and what each child says to the reader. */
module UwbCapabilityOctets {
  import opened Bytes
  import opened TlvBer
  import opened TlvSerialize
  import opened TaggedChildren
  import opened UwbCapability

  // ---- Where a feature is written

  datatype Place = Place(tag: byte, bit: nat)

  /** The tag and the bit of each feature, for those that have one. */
  function PlaceOf(f: Feature): Option<Place> {
    match f
    case Responder => Some(Place(0x82, 0))
    case Initiator => Some(Place(0x82, 1))
    case Method(OneWay, NoReport) => Some(Place(0x83, 0))
    case Method(SingleSidedTwoWay, Deferred) => Some(Place(0x83, 1))
    case Method(DoubleSidedTwoWay, Deferred) => Some(Place(0x83, 2))
    case Method(SingleSidedTwoWay, NonDeferred) => Some(Place(0x83, 3))
    case Method(DoubleSidedTwoWay, NonDeferred) => Some(Place(0x83, 4))
    case Method(_, _) => None
    case StaticSts => Some(Place(0x84, 0))
    case DynamicSts => Some(Place(0x84, 1))
    case DynamicStsWithResponderSubSessionKey => Some(Place(0x84, 2))
    case Unicast => Some(Place(0x85, 0))
    case OneToMany => Some(Place(0x85, 1))
    case ManyToMany => Some(Place(0x85, 2))
    case Block => Some(Place(0x86, 0))
    case Interval => Some(Place(0x86, 1))
    case Contention => Some(Place(0x87, 0))
    case Time => Some(Place(0x87, 1))
    case Channel(n) =>
      if n == 5 || n == 6 then Some(Place(0x8B, n - 5))
      else if 8 <= n <= 10 then Some(Place(0x8B, n - 6))
      else if 12 <= n <= 14 then Some(Place(0x8B, n - 7))
      else None
    case SP0 => Some(Place(0x8C, 0))
    case SP1 => Some(Place(0x8C, 1))
    case SP2 => None
    case SP3 => Some(Place(0x8C, 3))
    case K3 => Some(Place(0x8D, 0))
    case K7 => Some(Place(0x8D, 1))
    case Bprf(n) => if 1 <= n <= 6 then Some(Place(0x8E, n - 1)) else None
    case Hprf(n) => if 1 <= n <= 35 then Some(Place(0x8F, n - 1)) else None
    case Azimuth90 => Some(Place(0x90, 0))
    case Azimuth180 => Some(Place(0x90, 1))
    case Elevation => Some(Place(0x90, 2))
  }

  predicate IsAt(f: Feature, tag: byte, bit: nat) {
    PlaceOf(f) == Some(Place(tag, bit))
  }

  lemma {:induction false} FromBitZeroAt(features: seq<Feature>, f: Feature, b: BitIndex)
    requires |features| <= WORD_BITS
    ensures Entry(f, b) in FromBitZero(features) <==> b < |features| && features[b] == f
  {
    var m := FromBitZero(features);
    if b < |features| {
      assert m[b] == Entry(features[b], b);
    }
  }

  lemma {:induction false} LowBits(tag: byte, f: Feature, b: BitIndex)
    requires 0x82 <= tag <= 0x84
    ensures Entry(f, b) in BitMapOf(tag) <==> IsAt(f, tag, b)
  {
    FromBitZeroAt([Responder, Initiator], f, b);
    FromBitZeroAt(RANGING_METHODS, f, b);
    FromBitZeroAt([StaticSts, DynamicSts, DynamicStsWithResponderSubSessionKey], f, b);
    hide FromBitZero;
  }

  lemma {:induction false} ModeBits(tag: byte, f: Feature, b: BitIndex)
    requires 0x85 <= tag <= 0x87
    ensures Entry(f, b) in BitMapOf(tag) <==> IsAt(f, tag, b)
  {
    FromBitZeroAt([Unicast, OneToMany, ManyToMany], f, b);
    FromBitZeroAt([Block, Interval], f, b);
    FromBitZeroAt([Contention, Time], f, b);
    hide FromBitZero;
  }

  lemma {:induction false} ChannelBits(f: Feature, b: BitIndex)
    ensures Entry(f, b) in BitMapOf(0x8B) <==> IsAt(f, 0x8B, b)
  {
    FromBitZeroAt(ChannelFeatures(), f, b);
    hide FromBitZero, ChannelFeatures;
    if b < 8 {
      assert ChannelFeatures()[b] == Channel(CHANNEL_NUMBERS[b]);
    }
  }

  lemma {:induction false} FrameBits(tag: byte, f: Feature, b: BitIndex)
    requires tag == 0x8C || tag == 0x8D || tag == 0x90
    ensures Entry(f, b) in BitMapOf(tag) <==> IsAt(f, tag, b)
  {
    FromBitZeroAt([K3, K7], f, b);
    FromBitZeroAt([Azimuth90, Azimuth180, Elevation], f, b);
    hide FromBitZero;
  }

  lemma {:induction false} ParameterSetBits(tag: byte, f: Feature, b: BitIndex)
    requires tag == 0x8E || tag == 0x8F
    ensures Entry(f, b) in BitMapOf(tag) <==> IsAt(f, tag, b)
  {
    FromBitZeroAt(BprfFeatures(), f, b);
    FromBitZeroAt(HprfFeatures(), f, b);
    if b < 6 { assert BprfFeatures()[b] == Bprf(b + 1); }
    if b < 35 { assert HprfFeatures()[b] == Hprf(b + 1); }
    hide FromBitZero, BprfFeatures, HprfFeatures;
  }

  /** The bit map of each tag is the features that have their place there, and no others. */
  lemma {:induction false} BitsByFeature(tag: byte, f: Feature, b: BitIndex)
    requires IsList(tag)
    ensures Entry(f, b) in BitMapOf(tag) <==> IsAt(f, tag, b)
  {
    hide BitMapOf, IsAt;
    if tag <= 0x84 {
      LowBits(tag, f, b);
    } else if tag <= 0x87 {
      ModeBits(tag, f, b);
    } else if tag == 0x8B {
      ChannelBits(f, b);
    } else if tag == 0x8E || tag == 0x8F {
      ParameterSetBits(tag, f, b);
    } else {
      FrameBits(tag, f, b);
    }
  }

  lemma {:induction false} BitOfByFeature(tag: byte, f: Feature)
    requires IsList(tag)
    ensures BitOf(BitMapOf(tag), f).Some? ==> IsAt(f, tag, BitOf(BitMapOf(tag), f).value)
    ensures BitOf(BitMapOf(tag), f).None? ==> forall b: BitIndex :: !IsAt(f, tag, b)
  {
    BitOfIsEntry(BitMapOf(tag), f);
    forall b: BitIndex ensures Entry(f, b) in BitMapOf(tag) <==> IsAt(f, tag, b) {
      BitsByFeature(tag, f, b);
    }
    hide BitMapOf, BitOf, IsAt;
  }

  // ---- What is written

  /** In the octets of a set each bit that is on stands for a feature of the set, and there is
      one for every feature; the flag for figures of merit is bit 3 beside the angles. */
  lemma {:induction false} WrittenBits(c: Capability, tag: byte, b: BitIndex)
    requires Valid(c) && IsList(tag) && Encodable(c)
    ensures |ValueAt(c, tag)| == (if tag == 0x8F then 5 else 1)
    ensures TestBit(BigEndian(ValueAt(c, tag)), b)
       <==> (exists f <- c.lists[tag] :: IsAt(f, tag, b)) || (tag == 0x90 && b == 3 && c.angleOfArrivalFom)
  {
    MaskFits(c, tag);
    ListValue(c, tag);
    var n, k := ListMask(c, tag), Width(tag);
    BigEndianOctets(n, k);
    SmallRemainder(n, Pow256(k));
    hide BitMapOf, MaskOf, ListMask, Octets, BigEndian, TestBit, IsAt, Encodable, Valid, Pow256, ValueAt;
    MaskBit(c, tag, b);
  }

  lemma {:induction false} ListValue(c: Capability, tag: byte)
    requires Valid(c) && IsList(tag)
    ensures ValueAt(c, tag) == Octets(ListMask(c, tag), Width(tag)) && |ValueAt(c, tag)| == (if tag == 0x8F then 5 else 1)
  {
    hide Octets, ListMask, Valid;
  }

  lemma {:induction false} MaskBit(c: Capability, tag: byte, b: BitIndex)
    requires Valid(c) && IsList(tag) && Encodable(c)
    ensures TestBit(ListMask(c, tag), b)
       <==> (exists f <- c.lists[tag] :: IsAt(f, tag, b)) || (tag == 0x90 && b == 3 && c.angleOfArrivalFom)
  {
    MaskFits(c, tag);
    var n := MaskOf(c.lists[tag], BitMapOf(tag)).value;
    MaskBits(c.lists[tag], BitMapOf(tag), b);
    TestWithBit(n, 3, b);
    HasBitByFeature(c.lists[tag], tag, b);
    hide BitMapOf, MaskOf, TestBit, WithBit, IsAt, Encodable, Valid, SomeHasBit, Pow256;
  }

  lemma {:induction false} HasBitByFeature(features: seq<Feature>, tag: byte, b: BitIndex)
    requires IsList(tag)
    ensures SomeHasBit(features, BitMapOf(tag), b) <==> exists f <- features :: IsAt(f, tag, b)
  {
    forall f <- features ensures BitOf(BitMapOf(tag), f) == Some(b) <==> IsAt(f, tag, b) {
      BitOfByFeature(tag, f);
      hide BitMapOf, BitOf;
    }
    hide BitMapOf, BitOf, IsAt;
  }

  /** The two numbers in four octets, and each flag as 0 or 1. */
  lemma {:induction false} WrittenNumbers(c: Capability)
    requires Valid(c)
    ensures ValueAt(c, 0x80) == Octets(c.phyVersionRange, 4) && ValueAt(c, 0x81) == Octets(c.macVersionRange, 4)
    ensures ValueAt(c, 0x88) == [if c.hoppingMode then 1 else 0]
    ensures ValueAt(c, 0x89) == [if c.blockStriding then 1 else 0]
    ensures ValueAt(c, 0x8A) == [if c.uwbInitiationTime then 1 else 0]
    ensures ValueAt(c, 0x91) == [if c.extendedMacAddress then 1 else 0]
  {
    hide Octets, ListMask, Valid;
  }

  /** The content from the field with this tag on. */
  function FieldsFrom(c: Capability, tag: nat): seq<byte>
    requires Valid(c) && 0x80 <= tag <= 0x92
    decreases 0x92 - tag
  {
    if tag == 0x92 then [] else Field(tag, ValueAt(c, tag)) + FieldsFrom(c, tag + 1)
  }

  lemma {:induction false} FieldsFromStep(c: Capability, tag: nat)
    requires Valid(c) && 0x80 <= tag <= 0x92
    ensures FieldsFrom(c, tag) == if tag == 0x92 then [] else Field(tag, ValueAt(c, tag)) + FieldsFrom(c, tag + 1)
  {
    hide Field, ValueAt, Valid;
  }

  lemma {:induction false} ChildIsField(c: Capability, k: nat)
    requires Valid(c) && k < 18
    ensures |Children(c)| == 18 && Encode(Children(c)[k]) == Field(0x80 + k, ValueAt(c, 0x80 + k))
  {
    assert Children(c)[k] == Leaf(0x80 + k, ValueAt(c, 0x80 + k));
    assert TypeOf(0x80 + k) == Primitive;
    LeafIsField(0x80 + k, ValueAt(c, 0x80 + k));
    hide Field, Children, ValueAt, Encode, Leaf, Valid;
  }

  lemma {:induction false} EncodedFieldsFrom(c: Capability, k: nat)
    requires Valid(c) && k <= 18
    ensures |Children(c)| == 18 && EncodeAll(Children(c)[k..]) == FieldsFrom(c, 0x80 + k)
    decreases 18 - k
  {
    hide *;
    ChildIsField(c, if k < 18 then k else 0);
    EncodedFrom(Children(c), k);
    FieldsFromStep(c, 0x80 + k);
    if k < 18 {
      EncodedFieldsFrom(c, k + 1);
    }
  }

  /** The object is its eighteen fields, in the order of their tags, 80 to 91. */
  lemma {:induction false} Layout(c: Capability)
    requires Valid(c) && Encodable(c)
    ensures ToOobDataObject(c).Some? && Encode(ToOobDataObject(c).value) == Field(0xA3, FieldsFrom(c, 0x80))
  {
    hide *;
    ObjectOf(c);
    ObjectIsField(0xA3, Children(c));
    EncodedFieldsFrom(c, 0);
    assert Children(c)[0..] == Children(c);
  }

  lemma {:induction false} ObjectOf(c: Capability)
    requires Valid(c) && Encodable(c)
    ensures ToOobDataObject(c) == Some(Object(0xA3, [], Children(c))) && TypeOf(0xA3) == Constructed
  {
    hide Children, Object, Encodable, Valid;
  }

  // ---- What is read

  /** The octets that the value of a known tag must have. */
  function LengthOf(tag: byte): nat {
    if tag == 0x80 || tag == 0x81 then 4 else if tag == 0x8F then 5 else 1
  }

  lemma {:induction false} AcceptsIff(c: Tlv)
    ensures Accepts(c) <==> |c.tag| == 1 && 0x80 <= c.tag[0] <= 0x91 && |c.value| == LengthOf(c.tag[0])
  {
  }

  /** A wrong outer tag comes first; then the first child, if any, whose tag is not one octet, or
      that is known and has a value of another length, decides, and says which of the two it is. */
  lemma {:induction false} ErrorByChild(dataObject: Tlv)
    ensures dataObject.tag != [0xA3] ==> Read(dataObject) == Err(IncorrectTlvTag)
    ensures forall i :: dataObject.tag == [0xA3] && FirstWrong(dataObject.values, i) ==>
              Read(dataObject) == Err(if |dataObject.values[i].tag| != 1 then IncorrectNumberOfBytesInTag
                                      else IncorrectNumberOfBytesInValue)
    ensures Read(dataObject).Ok? <==> dataObject.tag == [0xA3] && forall c <- dataObject.values :: !IsWrong(c)
  {
    NoErrorIff(dataObject.values);
    forall c <- dataObject.values ensures ErrorOf(c).Some? <==> IsWrong(c) { }
    hide FirstError, Fields, IsWrong, ErrorOf;
    forall i | FirstWrong(dataObject.values, i)
      ensures FirstError(dataObject.values)
           == Some(if |dataObject.values[i].tag| != 1 then IncorrectNumberOfBytesInTag else IncorrectNumberOfBytesInValue)
    {
      FirstDecides(dataObject.values, i);
    }
  }

  predicate IsWrong(c: Tlv) {
    |c.tag| != 1 || (0x80 <= c.tag[0] <= 0x91 && |c.value| != LengthOf(c.tag[0]))
  }

  ghost predicate FirstWrong(children: seq<Tlv>, i: int) {
    0 <= i < |children| && IsWrong(children[i]) && forall j :: 0 <= j < i ==> !IsWrong(children[j])
  }

  lemma {:induction false} FirstDecides(children: seq<Tlv>, i: int)
    requires FirstWrong(children, i)
    ensures FirstError(children)
         == Some(if |children[i].tag| != 1 then IncorrectNumberOfBytesInTag else IncorrectNumberOfBytesInValue)
  {
    var front := children[..i];
    NoErrorIff(front);
    forall c <- front ensures ErrorOf(c) == None {
      var j :| 0 <= j < i && front[j] == c;
      assert !IsWrong(children[j]);
    }
    OneMoreError(front, children[i]);
    assert ErrorOf(children[i]) == Some(if |children[i].tag| != 1 then IncorrectNumberOfBytesInTag
                                        else IncorrectNumberOfBytesInValue);
    assert front + [children[i]] == children[..i + 1];
    hide FirstError, ErrorOf, IsWrong;
    FirstErrorStays(children, i + 1);
  }

  /** What the last child of a tag says is what is read: numbers and flags, */
  lemma {:induction false} SaysLast(dataObject: Tlv, i: int, tag: byte)
    requires Read(dataObject).Ok? && IsLast(dataObject.values, i, tag, Accepts)
    ensures var c, v := Read(dataObject).capability, dataObject.values[i].value;
            && |v| == LengthOf(tag)
            && (tag == 0x80 ==> c.phyVersionRange == BigEndian(v))
            && (tag == 0x81 ==> c.macVersionRange == BigEndian(v))
            && (tag == 0x88 ==> (c.hoppingMode <==> v[0] != 0))
            && (tag == 0x89 ==> (c.blockStriding <==> v[0] != 0))
            && (tag == 0x8A ==> (c.uwbInitiationTime <==> v[0] != 0))
            && (tag == 0x91 ==> (c.extendedMacAddress <==> v[0] != 0))
            && (tag == 0x90 ==> (c.angleOfArrivalFom <==> TestBit(v[0], 3)))
  {
    var v := dataObject.values[i].value;
    LastAt(dataObject.values, i, tag, Accepts);
    AcceptsIff(dataObject.values[i]);
    BigEndianBound(v);
    FourOctets();
    if tag == 0x80 || tag == 0x81 {
      SmallRemainder(BigEndian(v), UINT32_LIMIT);
    }
    hide Last, IsLast, BigEndian, TestBit, ListsIn, FirstError, Accepts, Pow256;
  }

  lemma {:induction false} FourOctets()
    ensures Pow256(4) == UINT32_LIMIT
  {
    assert Pow256(2) == 0x1_0000 && Pow256(3) == 0x100_0000;
  }

  /** and each set, feature by feature. */
  lemma {:induction false} ListSaysLast(dataObject: Tlv, i: int, tag: byte, f: Feature)
    requires Read(dataObject).Ok? && IsLast(dataObject.values, i, tag, Accepts) && IsList(tag)
    ensures tag in Read(dataObject).capability.lists
    ensures f in Read(dataObject).capability.lists[tag]
       <==> exists b: BitIndex :: IsAt(f, tag, b) && TestBit(BigEndian(dataObject.values[i].value), b)
  {
    var v := dataObject.values[i].value;
    LastAt(dataObject.values, i, tag, Accepts);
    AcceptsIff(dataObject.values[i]);
    ListAt(dataObject.values, tag);
    KeysInExactly(BigEndian(v), BitMapOf(tag), f);
    KeysByFeature(BigEndian(v), tag, f);
    assert ReadSizeT(v) == BigEndian(v);
    hide Last, IsLast, BigEndian, TestBit, BitMapOf, ListsIn, FirstError, Accepts, IsAt, NumberIn, FlagIn, FomIn, KeysIn;
  }

  lemma {:induction false} KeysByFeature(n: nat, tag: byte, f: Feature)
    requires IsList(tag)
    ensures (exists e <- BitMapOf(tag) :: e.key == f && TestBit(n, e.bit))
       <==> exists b: BitIndex :: IsAt(f, tag, b) && TestBit(n, b)
  {
    forall b: BitIndex ensures Entry(f, b) in BitMapOf(tag) <==> IsAt(f, tag, b) {
      BitsByFeature(tag, f, b);
    }
    hide BitMapOf, TestBit, IsAt;
    if e :| e in BitMapOf(tag) && e.key == f && TestBit(n, e.bit) {
      assert Entry(f, e.bit) == e;
    }
    if b: BitIndex :| IsAt(f, tag, b) && TestBit(n, b) {
      assert Entry(f, b).key == f;
    }
  }

  /** The features a capability begins with: all that have a bit but four. */
  predicate IsDefault(f: Feature) {
    PlaceOf(f).Some? && f != ManyToMany && f != Interval && f != Contention && f != SP0
  }

  lemma {:induction false} SmallDefaults(tag: byte, f: Feature)
    requires IsList(tag) && tag != 0x8B && tag != 0x8E && tag != 0x8F
    ensures f in DefaultList(tag) <==> IsDefault(f) && PlaceOf(f).value.tag == tag
  {
  }

  lemma {:induction false} LargeDefaults(tag: byte, f: Feature)
    requires tag == 0x8B || tag == 0x8E || tag == 0x8F
    ensures f in DefaultList(tag) <==> IsDefault(f) && PlaceOf(f).value.tag == tag
  {
    if tag == 0x8B {
      if f.Channel? && IsDefault(f) { assert ChannelFeatures()[PlaceOf(f).value.bit] == f; }
    } else if tag == 0x8E {
      if f.Bprf? && IsDefault(f) { assert BprfFeatures()[f.bprf - 1] == f; }
    } else {
      if f.Hprf? && IsDefault(f) { assert HprfFeatures()[f.hprf - 1] == f; }
    }
    hide ChannelFeatures, BprfFeatures, HprfFeatures;
  }

  /** What has no child stays as a capability begins. */
  lemma {:induction false} AbsentSaysDefault(dataObject: Tlv, tag: byte, f: Feature)
    requires Read(dataObject).Ok? && forall c <- dataObject.values :: !(c.tag == [tag] && Accepts(c))
    ensures var c := Read(dataObject).capability;
            && (tag == 0x80 ==> c.phyVersionRange == 0)
            && (tag == 0x81 ==> c.macVersionRange == 0)
            && (tag == 0x88 ==> c.hoppingMode)
            && (tag == 0x89 ==> c.blockStriding)
            && (tag == 0x8A ==> !c.uwbInitiationTime)
            && (tag == 0x91 ==> !c.extendedMacAddress)
            && (tag == 0x90 ==> !c.angleOfArrivalFom)
            && (IsList(tag) ==> tag in c.lists && (f in c.lists[tag] <==> IsDefault(f) && PlaceOf(f).value.tag == tag))
  {
    NoLast(dataObject.values, tag, Accepts);
    ListAt(dataObject.values, tag);
    if IsList(tag) {
      if tag == 0x8B || tag == 0x8E || tag == 0x8F { LargeDefaults(tag, f); } else { SmallDefaults(tag, f); }
    }
    hide Last, ListsIn, FirstError, Accepts, DefaultList, IsDefault, PlaceOf;
  }
}
