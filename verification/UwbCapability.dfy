/** The device capability object: versions, flags and sets of features, each under a tag of
    its own, the sets as bit maps. */
module UwbCapability {
  import opened Bytes
  import opened TlvBer
  import opened TlvSerialize
  import opened TaggedChildren

  const TAG: byte := 0xA3

  const FIRA_PHY_VERSION_RANGE: byte := 0x80
  const FIRA_MAC_VERSION_RANGE: byte := 0x81
  const DEVICE_ROLES: byte := 0x82
  const RANGING_METHOD: byte := 0x83
  const STS_CONFIG: byte := 0x84
  const MULTI_NODE_MODE: byte := 0x85
  const RANGING_MODE: byte := 0x86
  const SCHEDULED_MODE: byte := 0x87
  const HOPPING_MODE: byte := 0x88
  const BLOCK_STRIDING: byte := 0x89
  const UWB_INITIATION_TIME: byte := 0x8A
  const CHANNELS: byte := 0x8B
  const RFRAME_CONFIG: byte := 0x8C
  const CC_CONSTRAINT_LENGTH: byte := 0x8D
  const BPRF_PARAMETER_SETS: byte := 0x8E
  const HPRF_PARAMETER_SETS: byte := 0x8F
  const AOA_SUPPORT: byte := 0x90
  const EXTENDED_MAC_ADDRESS: byte := 0x91

  const TAG_COUNT: nat := 18

  const ANGLE_OF_ARRIVAL_FOM_BIT: BitIndex := 3

  datatype Direction = OneWay | SingleSidedTwoWay | DoubleSidedTwoWay

  datatype ReportMode = NoReport | Deferred | NonDeferred

  /** The enumerators of all the feature sets. */
  datatype Feature =
    | Responder | Initiator
    | Method(direction: Direction, report: ReportMode)
    | StaticSts | DynamicSts | DynamicStsWithResponderSubSessionKey
    | Unicast | OneToMany | ManyToMany
    | Block | Interval
    | Contention | Time
    | Channel(channel: nat)
    | SP0 | SP1 | SP2 | SP3
    | K3 | K7
    | Bprf(bprf: nat) | Hprf(hprf: nat)
    | Azimuth90 | Azimuth180 | Elevation

  /** The tags whose value is a set of features. */
  predicate IsList(tag: byte) {
    DEVICE_ROLES <= tag <= SCHEDULED_MODE || CHANNELS <= tag <= AOA_SUPPORT
  }

  predicate IsKnown(tag: byte) {
    FIRA_PHY_VERSION_RANGE <= tag <= EXTENDED_MAC_ADDRESS
  }

  const LISTS: set<byte> := set t: byte | 0x82 <= t <= 0x90 && IsList(t)

  /** The twelve vectors are kept by the tag they are written under. */
  datatype Capability = Capability(
    phyVersionRange: nat, macVersionRange: nat, extendedMacAddress: bool, uwbInitiationTime: bool,
    angleOfArrivalFom: bool, blockStriding: bool, hoppingMode: bool, lists: map<byte, seq<Feature>>)

  predicate Valid(c: Capability) {
    c.phyVersionRange < UINT32_LIMIT && c.macVersionRange < UINT32_LIMIT && c.lists.Keys == LISTS
  }

  /** Consecutive bits, from bit 0. */
  function FromBitZero(features: seq<Feature>): (m: seq<Entry<Feature>>)
    requires |features| <= WORD_BITS
    ensures |m| == |features| && forall i :: 0 <= i < |m| ==> m[i] == Entry(features[i], i)
  {
    seq(|features|, i requires 0 <= i < |features| => Entry(features[i], i))
  }

  const CHANNEL_NUMBERS: seq<nat> := [5, 6, 8, 9, 10, 12, 13, 14]

  function ChannelFeatures(): (r: seq<Feature>)
    ensures |r| == 8 && forall i :: 0 <= i < 8 ==> r[i] == Channel(CHANNEL_NUMBERS[i])
  {
    seq(8, i requires 0 <= i < 8 => Channel(CHANNEL_NUMBERS[i]))
  }

  function BprfFeatures(): (r: seq<Feature>)
    ensures |r| == 6 && forall i :: 0 <= i < 6 ==> r[i] == Bprf(i + 1)
  {
    seq(6, i requires 0 <= i < 6 => Bprf(i + 1))
  }

  function HprfFeatures(): (r: seq<Feature>)
    ensures |r| == 35 && forall i :: 0 <= i < 35 ==> r[i] == Hprf(i + 1)
  {
    seq(35, i requires 0 <= i < 35 => Hprf(i + 1))
  }

  const RANGING_METHODS: seq<Feature> := [
    Method(OneWay, NoReport), Method(SingleSidedTwoWay, Deferred), Method(DoubleSidedTwoWay, Deferred),
    Method(SingleSidedTwoWay, NonDeferred), Method(DoubleSidedTwoWay, NonDeferred)]

  /** The bit of each feature of a set. All but the frame configurations count from bit 0;
      those skip the bit of SP2, which has none. */
  function BitMapOf(tag: byte): seq<Entry<Feature>>
    requires IsList(tag)
  {
    if tag == DEVICE_ROLES then FromBitZero([Responder, Initiator])
    else if tag == RANGING_METHOD then FromBitZero(RANGING_METHODS)
    else if tag == STS_CONFIG then FromBitZero([StaticSts, DynamicSts, DynamicStsWithResponderSubSessionKey])
    else if tag == MULTI_NODE_MODE then FromBitZero([Unicast, OneToMany, ManyToMany])
    else if tag == RANGING_MODE then FromBitZero([Block, Interval])
    else if tag == SCHEDULED_MODE then FromBitZero([Contention, Time])
    else if tag == CHANNELS then FromBitZero(ChannelFeatures())
    else if tag == RFRAME_CONFIG then [Entry(SP0, 0), Entry(SP1, 1), Entry(SP3, 3)]
    else if tag == CC_CONSTRAINT_LENGTH then FromBitZero([K3, K7])
    else if tag == BPRF_PARAMETER_SETS then FromBitZero(BprfFeatures())
    else if tag == HPRF_PARAMETER_SETS then FromBitZero(HprfFeatures())
    else FromBitZero([Azimuth90, Azimuth180, Elevation])
  }

  function DefaultList(tag: byte): seq<Feature>
    requires IsList(tag)
  {
    if tag == DEVICE_ROLES then [Initiator, Responder]
    else if tag == RANGING_METHOD then RANGING_METHODS
    else if tag == STS_CONFIG then [StaticSts, DynamicSts, DynamicStsWithResponderSubSessionKey]
    else if tag == MULTI_NODE_MODE then [Unicast, OneToMany]
    else if tag == RANGING_MODE then [Block]
    else if tag == SCHEDULED_MODE then [Time]
    else if tag == CHANNELS then ChannelFeatures()
    else if tag == RFRAME_CONFIG then [SP1, SP3]
    else if tag == CC_CONSTRAINT_LENGTH then [K3, K7]
    else if tag == BPRF_PARAMETER_SETS then BprfFeatures()
    else if tag == HPRF_PARAMETER_SETS then HprfFeatures()
    else [Azimuth90, Azimuth180, Elevation]
  }

  /** How many octets the value of a known tag has. */
  function Width(tag: byte): nat {
    if tag == FIRA_PHY_VERSION_RANGE || tag == FIRA_MAC_VERSION_RANGE then 4
    else if tag == HPRF_PARAMETER_SETS then 5
    else 1
  }

  /** A set of frame configurations may hold SP2, which has no bit: an exception. */
  predicate Encodable(c: Capability)
    requires Valid(c)
  {
    forall t <- LISTS :: HasKeys(c.lists[t], BitMapOf(t))
  }

  /** The mask of a set; the one for angles of arrival carries the figure-of-merit flag too. */
  function ListMask(c: Capability, tag: byte): nat
    requires Valid(c) && IsList(tag)
  {
    match MaskOf(c.lists[tag], BitMapOf(tag))
    case None => 0
    case Some(n) => if tag == AOA_SUPPORT && c.angleOfArrivalFom then WithBit(n, ANGLE_OF_ARRIVAL_FOM_BIT) else n
  }

  function FlagOctet(b: bool): seq<byte> {
    [if b then 1 else 0]
  }

  function ValueAt(c: Capability, tag: byte): seq<byte>
    requires Valid(c) && IsKnown(tag)
  {
    if tag == FIRA_PHY_VERSION_RANGE then Octets(c.phyVersionRange, Width(tag))
    else if tag == FIRA_MAC_VERSION_RANGE then Octets(c.macVersionRange, Width(tag))
    else if IsList(tag) then Octets(ListMask(c, tag), Width(tag))
    else if tag == HOPPING_MODE then FlagOctet(c.hoppingMode)
    else if tag == BLOCK_STRIDING then FlagOctet(c.blockStriding)
    else if tag == UWB_INITIATION_TIME then FlagOctet(c.uwbInitiationTime)
    else FlagOctet(c.extendedMacAddress)
  }

  function TagAt(k: nat): byte
    requires k < TAG_COUNT
  {
    0x80 + k
  }

  /** One child per tag, in the order of the tags. */
  function Children(c: Capability): (r: seq<Tlv>)
    requires Valid(c)
    ensures |r| == TAG_COUNT && forall k :: 0 <= k < TAG_COUNT ==> r[k] == Leaf(TagAt(k), ValueAt(c, TagAt(k)))
  {
    seq(TAG_COUNT, k requires 0 <= k < TAG_COUNT => Leaf(TagAt(k), ValueAt(c, TagAt(k))))
  }

  function ToOobDataObject(c: Capability): Option<Tlv>
    requires Valid(c)
  {
    if !Encodable(c) then None else Some(Object(TAG, [], Children(c)))
  }

  // ---- Decoding

  datatype Error = IncorrectTlvTag | IncorrectNumberOfBytesInTag | IncorrectNumberOfBytesInValue

  datatype Result = Ok(capability: Capability) | Err(error: Error)

  predicate Accepts(c: Tlv) {
    |c.tag| == 1 && IsKnown(c.tag[0]) && |c.value| == Width(c.tag[0])
  }

  function ErrorOf(c: Tlv): Option<Error> {
    if |c.tag| != 1 then Some(IncorrectNumberOfBytesInTag)
    else if IsKnown(c.tag[0]) && |c.value| != Width(c.tag[0]) then Some(IncorrectNumberOfBytesInValue)
    else None
  }

  function FirstError(children: seq<Tlv>): Option<Error> {
    if children == [] then None
    else
      var k := |children| - 1;
      match FirstError(children[..k])
      case Some(e) => Some(e)
      case None => ErrorOf(children[k])
  }

  function NumberIn(children: seq<Tlv>, tag: byte): nat {
    match Last(children, tag, Accepts)
    case None => 0
    case Some(c) => ReadSizeT(c.value) % UINT32_LIMIT
  }

  predicate FlagIn(children: seq<Tlv>, tag: byte, fallback: bool) {
    match Last(children, tag, Accepts)
    case None => fallback
    case Some(c) => IsTrue(c.value)
  }

  predicate HasFom(value: seq<byte>) {
    value != [] && TestBit(value[0], ANGLE_OF_ARRIVAL_FOM_BIT)
  }

  predicate FomIn(children: seq<Tlv>) {
    match Last(children, AOA_SUPPORT, Accepts)
    case None => false
    case Some(c) => HasFom(c.value)
  }

  function ListIn(children: seq<Tlv>, tag: byte): seq<Feature>
    requires IsList(tag)
  {
    match Last(children, tag, Accepts)
    case None => DefaultList(tag)
    case Some(c) => DecodedValues(BitMapOf(tag), c.value)
  }

  function ListsIn(children: seq<Tlv>): map<byte, seq<Feature>> {
    map t | t in LISTS :: ListIn(children, t)
  }

  /** What the children say so far, over the defaults. */
  function Fields(children: seq<Tlv>): Capability {
    Capability(
      NumberIn(children, FIRA_PHY_VERSION_RANGE),
      NumberIn(children, FIRA_MAC_VERSION_RANGE),
      FlagIn(children, EXTENDED_MAC_ADDRESS, false),
      FlagIn(children, UWB_INITIATION_TIME, false),
      FomIn(children),
      FlagIn(children, BLOCK_STRIDING, true),
      FlagIn(children, HOPPING_MODE, true),
      ListsIn(children))
  }

  function Read(dataObject: Tlv): Result {
    if dataObject.tag != [TAG] then Err(IncorrectTlvTag)
    else
      match FirstError(dataObject.values)
      case Some(e) => Err(e)
      case None => Ok(Fields(dataObject.values))
  }

  /** The effect of one child that is accepted. */
  function Assigned(c: Capability, tag: byte, value: seq<byte>): Capability
    requires IsKnown(tag) && |value| == Width(tag)
  {
    if tag == FIRA_PHY_VERSION_RANGE then c.(phyVersionRange := ReadSizeT(value) % UINT32_LIMIT)
    else if tag == FIRA_MAC_VERSION_RANGE then c.(macVersionRange := ReadSizeT(value) % UINT32_LIMIT)
    else if tag == HOPPING_MODE then c.(hoppingMode := IsTrue(value))
    else if tag == BLOCK_STRIDING then c.(blockStriding := IsTrue(value))
    else if tag == UWB_INITIATION_TIME then c.(uwbInitiationTime := IsTrue(value))
    else if tag == EXTENDED_MAC_ADDRESS then c.(extendedMacAddress := IsTrue(value))
    else if tag == AOA_SUPPORT then
      c.(lists := c.lists[tag := DecodedValues(BitMapOf(tag), value)], angleOfArrivalFom := HasFom(value))
    else c.(lists := c.lists[tag := DecodedValues(BitMapOf(tag), value)])
  }

  lemma {:induction false} AcceptedTag(c: Tlv)
    ensures Accepts(c) ==> |c.tag| == 1 && c.tag == [c.tag[0]] && IsKnown(c.tag[0]) && |c.value| == Width(c.tag[0])
  {
  }

  /** Whether an accepted child is the one for a given tag. */
  predicate IsFor(c: Tlv, tag: byte) {
    Accepts(c) && c.tag[0] == tag
  }

  lemma {:induction false} OneMore(children: seq<Tlv>, c: Tlv, tag: byte)
    ensures Last(children + [c], tag, Accepts) == if IsFor(c, tag) then Some(c) else Last(children, tag, Accepts)
  {
    OneMoreLast(children, c, tag, Accepts);
    AcceptedTag(c);
    hide Accepts, Last;
  }

  lemma {:induction false} OneMoreList(children: seq<Tlv>, c: Tlv, tag: byte)
    requires IsList(tag)
    ensures ListIn(children + [c], tag)
         == if IsFor(c, tag) then DecodedValues(BitMapOf(tag), c.value) else ListIn(children, tag)
  {
    OneMore(children, c, tag);
    hide Last, IsFor, DecodedValues, BitMapOf, DefaultList, IsList;
  }

  lemma {:induction false} ListAt(children: seq<Tlv>, t: byte)
    ensures t in ListsIn(children) <==> t in LISTS
    ensures t in LISTS <==> IsList(t)
    ensures t in LISTS ==> ListsIn(children)[t] == ListIn(children, t)
  {
    hide ListIn;
  }

  lemma {:induction false} OneMoreLists(children: seq<Tlv>, c: Tlv)
    ensures ListsIn(children + [c])
         == if Accepts(c) && IsList(c.tag[0]) then ListsIn(children)[c.tag[0] := DecodedValues(BitMapOf(c.tag[0]), c.value)]
            else ListsIn(children)
  {
    forall t: byte
      ensures t in ListsIn(children) <==> IsList(t)
      ensures t in ListsIn(children + [c]) <==> IsList(t)
      ensures IsList(t) ==> ListsIn(children)[t] == ListIn(children, t)
      ensures IsList(t) ==> ListsIn(children + [c])[t] == ListIn(children + [c], t)
      ensures IsList(t) ==>
                ListIn(children + [c], t) == if IsFor(c, t) then DecodedValues(BitMapOf(t), c.value) else ListIn(children, t)
    {
      ListAt(children, t);
      ListAt(children + [c], t);
      if IsList(t) { OneMoreList(children, c, t); }
    }
    hide ListsIn, ListIn, DecodedValues, BitMapOf, IsList, Accepts;
  }

  lemma {:induction false} OneMoreFlag(children: seq<Tlv>, c: Tlv, tag: byte, fallback: bool)
    ensures FlagIn(children + [c], tag, fallback) == if IsFor(c, tag) then IsTrue(c.value) else FlagIn(children, tag, fallback)
  {
    OneMore(children, c, tag);
    hide Last, IsFor, IsTrue;
  }

  lemma {:induction false} OneMoreNumber(children: seq<Tlv>, c: Tlv, tag: byte)
    ensures NumberIn(children + [c], tag)
         == if IsFor(c, tag) then ReadSizeT(c.value) % UINT32_LIMIT else NumberIn(children, tag)
  {
    OneMore(children, c, tag);
    hide Last, IsFor, ReadSizeT;
  }

  lemma {:induction false} OneMoreFom(children: seq<Tlv>, c: Tlv)
    ensures FomIn(children + [c]) == if IsFor(c, AOA_SUPPORT) then HasFom(c.value) else FomIn(children)
  {
    OneMore(children, c, AOA_SUPPORT);
    hide Last, IsFor, HasFom;
  }

  /** Decoding one more child assigns to its field and to no other. */
  lemma {:induction false} OneMoreChild(children: seq<Tlv>, c: Tlv)
    ensures Fields(children + [c])
         == if Accepts(c) then Assigned(Fields(children), c.tag[0], c.value) else Fields(children)
  {
    OneMoreNumber(children, c, FIRA_PHY_VERSION_RANGE);
    OneMoreNumber(children, c, FIRA_MAC_VERSION_RANGE);
    OneMoreFlag(children, c, EXTENDED_MAC_ADDRESS, false);
    OneMoreFlag(children, c, UWB_INITIATION_TIME, false);
    OneMoreFlag(children, c, BLOCK_STRIDING, true);
    OneMoreFlag(children, c, HOPPING_MODE, true);
    OneMoreFom(children, c);
    OneMoreLists(children, c);
    AcceptedTag(c);
    hide Accepts, NumberIn, FlagIn, FomIn, ListsIn, ReadSizeT, DecodedValues, BitMapOf, IsTrue, HasFom;
  }

  lemma {:induction false} OneMoreError(children: seq<Tlv>, c: Tlv)
    ensures FirstError(children + [c]) == match FirstError(children) case Some(e) => Some(e) case None => ErrorOf(c)
  {
    assert (children + [c])[..|children|] == children;
  }

  method FromOobDataObject(dataObject: Tlv) returns (r: Result)
    ensures r == Read(dataObject)
  {
    if |dataObject.tag| != 1 || dataObject.tag[0] != TAG {
      return Err(IncorrectTlvTag);
    }
    var children := dataObject.values;
    var c := Fields([]);
    for i := 0 to |children|
      invariant FirstError(children[..i]) == None
      invariant c == Fields(children[..i])
    {
      var child := children[i];
      assert children[..i + 1] == children[..i] + [child];
      OneMoreError(children[..i], child);
      OneMoreChild(children[..i], child);
      if |child.tag| != 1 {
        FirstErrorStays(children, i + 1);
        return Err(IncorrectNumberOfBytesInTag);
      }
      if IsKnown(child.tag[0]) {
        if |child.value| != Width(child.tag[0]) {
          FirstErrorStays(children, i + 1);
          return Err(IncorrectNumberOfBytesInValue);
        }
        hide Fields, Assigned, FirstError;
        c := Assigned(c, child.tag[0], child.value);
      }
    }
    assert children[..|children|] == children;
    r := Ok(c);
  }

  lemma {:induction false} FirstErrorStays(children: seq<Tlv>, k: nat)
    requires k <= |children| && FirstError(children[..k]).Some?
    ensures FirstError(children) == FirstError(children[..k])
    decreases |children|
  {
    if k == |children| {
      assert children[..k] == children;
    } else {
      var j := |children| - 1;
      assert children[..j][..k] == children[..k];
      FirstErrorStays(children[..j], k);
    }
  }

  /** Decoding fails exactly when the tag is not the object's, or some child has a tag that
      is not one octet or a known tag with a value of the wrong length. */
  lemma {:induction false} FailsIff(dataObject: Tlv)
    ensures Read(dataObject).Err?
       <==> (dataObject.tag != [TAG] || exists c <- dataObject.values :: ErrorOf(c).Some?)
  {
    NoErrorIff(dataObject.values);
    hide FirstError, ErrorOf, Fields;
  }

  lemma {:induction false} NoErrorIff(children: seq<Tlv>)
    ensures FirstError(children) == None <==> forall c <- children :: ErrorOf(c) == None
  {
    if children != [] {
      var k := |children| - 1;
      NoErrorIff(children[..k]);
      assert children == children[..k] + [children[k]];
      hide ErrorOf;
    }
  }

  /** Of two objects without errors: neither the order of the children nor unknown ones matter. */
  lemma {:induction false} OrderDoesNotMatter(a: Tlv, b: Tlv)
    requires SameAccepted(a.values, b.values, Accepts) && OnePerTag(a.values, Accepts)
    requires Read(a).Ok? && Read(b).Ok?
    ensures Read(a) == Read(b)
  {
    forall t: byte ensures Last(a.values, t, Accepts) == Last(b.values, t, Accepts) {
      SameLast(a.values, b.values, t, Accepts);
    }
    hide Last, Accepts, ReadSizeT, DecodedValues, BitMapOf, DefaultList, IsTrue, HasFom, FirstError;
  }

  // ---- The round trip

  /** The equality of capabilities: the vectors are compared as sets. */
  predicate Equal(a: Capability, b: Capability)
    requires a.lists.Keys == b.lists.Keys == LISTS
  {
    && a.(lists := map[]) == b.(lists := map[])
    && forall t <- LISTS :: UnorderedEquals(a.lists[t], b.lists[t])
  }

  lemma {:induction false} FromBitZeroIsBitMap(features: seq<Feature>)
    requires |features| <= WORD_BITS && forall i, j :: 0 <= i < j < |features| ==> features[i] != features[j]
    ensures IsBitMap(FromBitZero(features)) && BitsBelow(FromBitZero(features), |features|)
  {
  }

  /** The bits of a set are distinct, fit its octets, and leave the figure-of-merit bit alone. */
  lemma {:induction false} BitMapsFit(tag: byte)
    requires IsList(tag)
    ensures IsBitMap(BitMapOf(tag)) && BitsBelow(BitMapOf(tag), 8 * Width(tag))
    ensures tag == AOA_SUPPORT ==> BitsBelow(BitMapOf(tag), ANGLE_OF_ARRIVAL_FOM_BIT)
  {
    if tag == DEVICE_ROLES { FromBitZeroIsBitMap([Responder, Initiator]); }
    else if tag == RANGING_METHOD { FromBitZeroIsBitMap(RANGING_METHODS); }
    else if tag == STS_CONFIG { FromBitZeroIsBitMap([StaticSts, DynamicSts, DynamicStsWithResponderSubSessionKey]); }
    else if tag == MULTI_NODE_MODE { FromBitZeroIsBitMap([Unicast, OneToMany, ManyToMany]); }
    else if tag == RANGING_MODE { FromBitZeroIsBitMap([Block, Interval]); }
    else if tag == SCHEDULED_MODE { FromBitZeroIsBitMap([Contention, Time]); }
    else if tag == CHANNELS { FromBitZeroIsBitMap(ChannelFeatures()); }
    else if tag == CC_CONSTRAINT_LENGTH { FromBitZeroIsBitMap([K3, K7]); }
    else if tag == BPRF_PARAMETER_SETS { FromBitZeroIsBitMap(BprfFeatures()); }
    else if tag == HPRF_PARAMETER_SETS { FromBitZeroIsBitMap(HprfFeatures()); }
    else if tag == AOA_SUPPORT { FromBitZeroIsBitMap([Azimuth90, Azimuth180, Elevation]); }
  }

  lemma {:induction false} MaskFits(c: Capability, tag: byte)
    requires Valid(c) && Encodable(c) && IsList(tag)
    ensures MaskOf(c.lists[tag], BitMapOf(tag)).Some?
    ensures ListMask(c, tag) < Pow256(Width(tag))
  {
    assert tag in LISTS;
    MaskExists(c.lists[tag], BitMapOf(tag));
    BitMapsFit(tag);
    MaskBound(c.lists[tag], BitMapOf(tag), 8 * Width(tag));
    BitsOfOctets(Width(tag));
    if tag == AOA_SUPPORT {
      WithBitBound(MaskOf(c.lists[tag], BitMapOf(tag)).value, ANGLE_OF_ARRIVAL_FOM_BIT, 8);
    }
    hide BitMapOf, MaskOf, Pow2, Pow256, WithBit, HasKeys, BitsBelow, IsBitMap;
  }

  /** The keys that the mask of a set reads as; its flag is no key. */
  lemma {:induction false} KeysOfListMask(c: Capability, tag: byte)
    requires Valid(c) && Encodable(c) && IsList(tag)
    ensures UnorderedEquals(c.lists[tag], KeysIn(ListMask(c, tag), BitMapOf(tag)))
  {
    MaskFits(c, tag);
    BitMapsFit(tag);
    KeysOfMask(c.lists[tag], BitMapOf(tag));
    if tag == AOA_SUPPORT {
      OtherBitIgnored(MaskOf(c.lists[tag], BitMapOf(tag)).value, ANGLE_OF_ARRIVAL_FOM_BIT, BitMapOf(tag));
    }
    hide BitMapOf, MaskOf, Pow256, WithBit, HasKeys, BitsBelow, IsBitMap, KeysIn, UnorderedEquals;
  }

  /** Each set comes back as a set, the 35 bits in five octets among them, */
  lemma {:induction false} ListRoundTrip(c: Capability, tag: byte)
    requires Valid(c) && Encodable(c) && IsList(tag)
    ensures UnorderedEquals(c.lists[tag], DecodedValues(BitMapOf(tag), Octets(ListMask(c, tag), Width(tag))))
  {
    MaskFits(c, tag);
    KeysOfListMask(c, tag);
    ReadBack(ListMask(c, tag), Width(tag));
    hide BitMapOf, MaskOf, Pow256, KeysIn, UnorderedEquals, ListMask, Octets, ReadSizeT;
  }

  lemma {:induction false} FomOfOctet(n: nat)
    requires n < Pow256(1)
    ensures HasFom(Octets(n, 1)) <==> TestBit(n, ANGLE_OF_ARRIVAL_FOM_BIT)
  {
    assert Pow256(1) == 256;
    assert Octets(n / 256, 0) == [];
    assert Octets(n, 1) == [n];
    hide TestBit;
  }

  lemma {:induction false} FomOfMask(c: Capability)
    requires Valid(c) && Encodable(c)
    ensures TestBit(ListMask(c, AOA_SUPPORT), ANGLE_OF_ARRIVAL_FOM_BIT) <==> c.angleOfArrivalFom
  {
    var tag, bit := AOA_SUPPORT, ANGLE_OF_ARRIVAL_FOM_BIT;
    MaskFits(c, tag);
    BitMapsFit(tag);
    var m := MaskOf(c.lists[tag], BitMapOf(tag)).value;
    MaskBound(c.lists[tag], BitMapOf(tag), bit);
    NoHigherBit(m, bit);
    TestWithBit(m, bit, bit);
    hide BitMapOf, MaskOf, TestBit, WithBit, Pow2, Pow256, BitsBelow, IsBitMap, HasKeys, Encodable;
  }

  /** and so does the flag that shares an octet with the angles of arrival. */
  lemma {:induction false} FomRoundTrip(c: Capability)
    requires Valid(c) && Encodable(c)
    ensures HasFom(Octets(ListMask(c, AOA_SUPPORT), Width(AOA_SUPPORT))) <==> c.angleOfArrivalFom
  {
    MaskFits(c, AOA_SUPPORT);
    FomOfMask(c);
    hide ListMask, HasFom, TestBit, Pow256, Octets, Encodable, Valid;
    FomOfOctet(ListMask(c, AOA_SUPPORT));
  }

  lemma {:induction false} ChildIsAccepted(c: Capability, k: nat)
    requires Valid(c) && k < TAG_COUNT
    ensures var child := Leaf(TagAt(k), ValueAt(c, TagAt(k)));
            Accepts(child) && ErrorOf(child) == None && |Content(child)| <= SHORT_CONTENT && WellFormed(child)
  {
    LeafWellFormed(TagAt(k), ValueAt(c, TagAt(k)));
    hide Octets, ListMask, WellFormed;
  }

  lemma {:induction false} Found(c: Capability, tag: byte)
    requires Valid(c) && IsKnown(tag)
    ensures Last(Children(c), tag, Accepts) == Some(Leaf(tag, ValueAt(c, tag)))
  {
    var k := tag - 0x80;
    ChildIsAccepted(c, k);
    hide Accepts, Last, Children, ValueAt;
    LastIsIt(Children(c), k, Accepts);
  }

  lemma {:induction false} NumbersFound(c: Capability)
    requires Valid(c)
    ensures NumberIn(Children(c), FIRA_PHY_VERSION_RANGE) == c.phyVersionRange
    ensures NumberIn(Children(c), FIRA_MAC_VERSION_RANGE) == c.macVersionRange
  {
    Found(c, FIRA_PHY_VERSION_RANGE);
    Found(c, FIRA_MAC_VERSION_RANGE);
    hide Last, Children, Octets;
    NumberFound(Children(c), FIRA_PHY_VERSION_RANGE, c.phyVersionRange);
    NumberFound(Children(c), FIRA_MAC_VERSION_RANGE, c.macVersionRange);
  }

  lemma {:induction false} NumberFound(children: seq<Tlv>, tag: byte, n: nat)
    requires n < UINT32_LIMIT && Last(children, tag, Accepts) == Some(Leaf(tag, Octets(n, 4)))
    ensures NumberIn(children, tag) == n
  {
    assert Pow256(2) == 0x1_0000 && Pow256(3) == 0x100_0000 && Pow256(4) == UINT32_LIMIT;
    ReadBack(n, 4);
    hide Last, Octets, ReadSizeT, Pow256;
  }

  lemma {:induction false} FlagsFound(c: Capability)
    requires Valid(c)
    ensures FlagIn(Children(c), EXTENDED_MAC_ADDRESS, false) == c.extendedMacAddress
    ensures FlagIn(Children(c), UWB_INITIATION_TIME, false) == c.uwbInitiationTime
    ensures FlagIn(Children(c), BLOCK_STRIDING, true) == c.blockStriding
    ensures FlagIn(Children(c), HOPPING_MODE, true) == c.hoppingMode
  {
    Found(c, EXTENDED_MAC_ADDRESS);
    Found(c, UWB_INITIATION_TIME);
    Found(c, BLOCK_STRIDING);
    Found(c, HOPPING_MODE);
    hide Last, Children, ListMask;
  }

  lemma {:induction false} ListsFound(c: Capability)
    requires Valid(c) && Encodable(c)
    ensures FomIn(Children(c)) == c.angleOfArrivalFom
    ensures forall t <- LISTS :: t in ListsIn(Children(c)) && UnorderedEquals(ListsIn(Children(c))[t], c.lists[t])
  {
    Found(c, AOA_SUPPORT);
    FomRoundTrip(c);
    forall t <- LISTS ensures t in ListsIn(Children(c)) && UnorderedEquals(ListsIn(Children(c))[t], c.lists[t]) {
      ListFound(c, t);
    }
    hide Last, Children, ListMask, HasFom, UnorderedEquals, ListsIn;
  }

  lemma {:induction false} ListFound(c: Capability, t: byte)
    requires Valid(c) && Encodable(c) && t in LISTS
    ensures t in ListsIn(Children(c)) && UnorderedEquals(ListsIn(Children(c))[t], c.lists[t])
  {
    ListAt(Children(c), t);
    Found(c, t);
    ListRoundTrip(c, t);
    hide Last, Children, ListMask, ListsIn, BitMapOf, DecodedValues, DefaultList, Octets, Encodable, Valid;
  }

  lemma {:induction false} NoErrors(c: Capability)
    requires Valid(c)
    ensures FirstError(Children(c)) == None
  {
    forall child <- Children(c) ensures ErrorOf(child) == None {
      var k :| 0 <= k < TAG_COUNT && Children(c)[k] == child;
      ChildIsAccepted(c, k);
    }
    NoErrorIff(Children(c));
    hide Children, ErrorOf, FirstError, ValueAt;
  }

  lemma {:induction false} FieldsFound(c: Capability)
    requires Valid(c) && Encodable(c)
    ensures Fields(Children(c)).lists.Keys == LISTS && Equal(Fields(Children(c)), c)
  {
    NumbersFound(c);
    FlagsFound(c);
    ListsFound(c);
    forall t: byte ensures t in ListsIn(Children(c)) <==> t in LISTS {
      ListAt(Children(c), t);
    }
    hide Children, NumberIn, FlagIn, FomIn, ListsIn, UnorderedEquals, Encodable;
  }

  lemma {:induction false} EncodableIff(c: Capability)
    requires Valid(c)
    ensures Encodable(c) <==> forall t <- LISTS, f <- c.lists[t] :: BitOf(BitMapOf(t), f).Some?
  {
    hide BitMapOf, BitOf;
    if !Encodable(c) {
      var t :| t in LISTS && !HasKeys(c.lists[t], BitMapOf(t));
      var f :| f in c.lists[t] && BitOf(BitMapOf(t), f).None?;
    }
  }

  /** Every capability whose features all have bits is decoded to an equal one; one with a
      feature that has none has no encoding. */
  lemma {:induction false} RoundTripIff(c: Capability)
    requires Valid(c)
    ensures ToOobDataObject(c).Some? <==> forall t <- LISTS, f <- c.lists[t] :: BitOf(BitMapOf(t), f).Some?
    ensures ToOobDataObject(c).Some? ==>
              var r := Read(ToOobDataObject(c).value);
              r.Ok? && r.capability.lists.Keys == LISTS && Equal(r.capability, c)
  {
    EncodableIff(c);
    hide Children, BitMapOf, BitOf, FirstError, Encodable, Fields, Equal, Valid;
    if Encodable(c) {
      NoErrors(c);
      FieldsFound(c);
    }
  }

  lemma {:induction false} ObjectFits(c: Capability)
    requires Valid(c)
    ensures WellFormed(Object(TAG, [], Children(c))) && |Content(Object(TAG, [], Children(c)))| < LENGTH_LIMIT
  {
    forall child <- Children(c) ensures |child.tag| == 1 && |Content(child)| <= SHORT_CONTENT && WellFormed(child) {
      var k :| 0 <= k < TAG_COUNT && Children(c)[k] == child;
      ChildIsAccepted(c, k);
    }
    hide Children, EncodeAll, WellFormed, ValueAt;
    ShortChildrenSize(Children(c));
    ObjectWellFormed(TAG, Children(c));
  }

  /** From capability to octets and back, whatever follows. */
  lemma {:induction false} WireRoundTrip(c: Capability, more: seq<byte>)
    requires Valid(c) && Encodable(c)
    ensures var t := ToOobDataObject(c);
            && t.Some?
            && var r := Decode(Encode(t.value) + more);
               && r.Some? && r.value.size == |Encode(t.value)|
               && var read := Read(r.value.tlv);
                  read.Ok? && read.capability.lists.Keys == LISTS && Equal(read.capability, c)
  {
    var t := Object(TAG, [], Children(c));
    assert ToOobDataObject(c) == Some(t);
    hide *;
    RoundTripIff(c);
    ObjectFits(c);
    TlvBer.RoundTrip(t, more);
  }
}
