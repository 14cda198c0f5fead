/** The FiRa regulatory information object. */
module UwbRegulatoryInformation {
  import opened Bytes
  import opened TlvBer
  import opened TlvSerialize
  import opened TaggedChildren

  const TAG: byte := 0xA6

  const INFORMATION_SOURCE: byte := 0x80
  const OUTDOOR_PERMITTED: byte := 0x81
  const COUNTRY_CODE: byte := 0x82
  const TIMESTAMP: byte := 0x83

  /** Channels are named by their number. */
  type Channel = nat

  const CHANNELS: set<Channel> := {5, 6, 8, 9, 10, 12, 13, 14}

  const CHANNEL_TAGS: set<byte> := {0x86, 0x87, 0x88, 0x89, 0x8A, 0x8B, 0x8C, 0x8D}

  const TAGS: set<byte> := {INFORMATION_SOURCE, OUTDOOR_PERMITTED, COUNTRY_CODE, TIMESTAMP} + CHANNEL_TAGS

  const COUNT: nat := 12

  datatype Source = UserDefined | Satellite | Cellular | OtherFiraDevice

  datatype Info = Info(source: Source, outdoorPermitted: bool, countryCode: nat, timestamp: nat, power: map<Channel, byte>)

  predicate Valid(s: Info) {
    s.countryCode < UINT16_LIMIT && s.timestamp < UINT32_LIMIT && s.power.Keys <= CHANNELS
  }

  function ChannelOf(tag: byte): (c: Channel)
    requires tag in CHANNEL_TAGS
    ensures c in CHANNELS
  {
    match tag
    case 0x86 => 5 case 0x87 => 6 case 0x88 => 8 case 0x89 => 9
    case 0x8A => 10 case 0x8B => 12 case 0x8C => 13 case _ => 14
  }

  function TagOfChannel(c: Channel): (tag: byte)
    requires c in CHANNELS
    ensures tag in CHANNEL_TAGS && ChannelOf(tag) == c
  {
    match c
    case 5 => 0x86 case 6 => 0x87 case 8 => 0x88 case 9 => 0x89
    case 10 => 0x8A case 12 => 0x8B case 13 => 0x8C case _ => 0x8D
  }

  lemma {:induction false} ChannelTagsAreDistinct(tag: byte)
    requires tag in CHANNEL_TAGS
    ensures TagOfChannel(ChannelOf(tag)) == tag
  {
  }

  function SourceNumber(s: Source): byte {
    match s case UserDefined => 0 case Satellite => 1 case Cellular => 2 case OtherFiraDevice => 3
  }

  function SourceOf(b: byte): Source
    requires b < 4
  {
    match b case 0 => UserDefined case 1 => Satellite case 2 => Cellular case _ => OtherFiraDevice
  }

  /** A source outside the enumeration leaves its tag undecoded, and so does an empty value. */
  predicate Accepts(c: Tlv) {
    |c.tag| == 1 && c.tag[0] in TAGS && c.value != [] && (c.tag[0] == INFORMATION_SOURCE ==> c.value[0] < 4)
  }

  /** None stands for the exception of a channel without a power. */
  function ToDataObject(s: Info): Option<Tlv> {
    if !(CHANNELS <= s.power.Keys) then None
    else Some(Object(TAG, [], Children(s)))
  }

  /** The tags in the order in which they are written. */
  function TagAt(k: nat): byte
    requires k < COUNT
  {
    if k < 4 then 0x80 + k else 0x82 + k
  }

  /** A number in big-endian octets of its width, or a single octet. */
  function ValueAt(s: Info, k: nat): seq<byte>
    requires CHANNELS <= s.power.Keys && k < COUNT
  {
    match k
    case 0 => [SourceNumber(s.source)]
    case 1 => [if s.outdoorPermitted then 1 else 0]
    case 2 => Octets(s.countryCode, 2)
    case 3 => Octets(s.timestamp, 4)
    case _ => [s.power[ChannelOf(TagAt(k))]]
  }

  function Children(s: Info): (r: seq<Tlv>)
    requires CHANNELS <= s.power.Keys
    ensures |r| == COUNT && forall k :: 0 <= k < COUNT ==> r[k] == Leaf(TagAt(k), ValueAt(s, k))
  {
    seq(COUNT, k requires 0 <= k < COUNT => Leaf(TagAt(k), ValueAt(s, k)))
  }

  function Front(children: seq<Tlv>, tag: byte): Option<byte> {
    match Last(children, tag, Accepts)
    case None => None
    case Some(c) => if c.value == [] then None else Some(c.value[0])
  }

  function Number(children: seq<Tlv>, tag: byte, limit: nat): nat
    requires limit > 0
  {
    match Last(children, tag, Accepts)
    case None => 0
    case Some(c) => ReadSizeT(c.value) % limit
  }

  /** What the children say so far, over the defaults. */
  function Fields(children: seq<Tlv>): Info {
    Info(
      SourceIn(children),
      OutdoorIn(children),
      Number(children, COUNTRY_CODE, UINT16_LIMIT),
      Number(children, TIMESTAMP, UINT32_LIMIT),
      Powers(children))
  }

  function SourceIn(children: seq<Tlv>): Source {
    match Front(children, INFORMATION_SOURCE)
    case Some(b) => if b < 4 then SourceOf(b) else UserDefined
    case None => UserDefined
  }

  predicate OutdoorIn(children: seq<Tlv>) {
    match Front(children, OUTDOOR_PERMITTED)
    case Some(b) => b != 0
    case None => true
  }

  function Powers(children: seq<Tlv>): map<Channel, byte> {
    map c | c in CHANNELS && Front(children, TagOfChannel(c)).Some? :: Front(children, TagOfChannel(c)).value
  }

  /** What the children say; None stands for a syntax error. */
  function Read(children: seq<Tlv>): Option<Info> {
    if TagsSeen(children, TAGS, Accepts) != TAGS then None else Some(Fields(children))
  }

  /** The effect of one child that is accepted. */
  function Assigned(info: Info, tag: byte, value: seq<byte>): Info
    requires tag in TAGS && value != [] && (tag == INFORMATION_SOURCE ==> value[0] < 4)
  {
    if tag == INFORMATION_SOURCE then info.(source := SourceOf(value[0]))
    else if tag == OUTDOOR_PERMITTED then info.(outdoorPermitted := value[0] != 0)
    else if tag == COUNTRY_CODE then info.(countryCode := ReadSizeT(value) % UINT16_LIMIT)
    else if tag == TIMESTAMP then info.(timestamp := ReadSizeT(value) % UINT32_LIMIT)
    else info.(power := info.power[ChannelOf(tag) := value[0]])
  }

  lemma {:induction false} OneMoreFront(children: seq<Tlv>, c: Tlv, tag: byte)
    ensures Front(children + [c], tag) == if HasTag(c, tag) && Accepts(c) then Some(c.value[0]) else Front(children, tag)
  {
    OneMoreLast(children, c, tag, Accepts);
    hide Last;
  }

  lemma {:induction false} OneMoreNumber(children: seq<Tlv>, c: Tlv, tag: byte, limit: nat)
    requires limit > 0
    ensures Number(children + [c], tag, limit)
         == if HasTag(c, tag) && Accepts(c) then ReadSizeT(c.value) % limit else Number(children, tag, limit)
  {
    OneMoreLast(children, c, tag, Accepts);
    hide Last, ReadSizeT, Accepts;
  }

  lemma {:induction false} OneMorePower(children: seq<Tlv>, c: Tlv, ch: Channel)
    requires ch in CHANNELS
    ensures Front(children + [c], TagOfChannel(ch))
         == if Accepts(c) && c.tag[0] in CHANNEL_TAGS && ChannelOf(c.tag[0]) == ch then Some(c.value[0])
            else Front(children, TagOfChannel(ch))
  {
    OneMoreFront(children, c, TagOfChannel(ch));
    if Accepts(c) {
      assert c.tag == [c.tag[0]];
      if c.tag[0] in CHANNEL_TAGS {
        ChannelTagsAreDistinct(c.tag[0]);
      }
    }
    hide Front, ChannelOf, TagOfChannel;
  }

  lemma {:induction false} PowerAt(children: seq<Tlv>, ch: Channel)
    ensures ch in Powers(children) <==> ch in CHANNELS && Front(children, TagOfChannel(ch)).Some?
    ensures ch in Powers(children) ==> Powers(children)[ch] == Front(children, TagOfChannel(ch)).value
  {
    hide Front, TagOfChannel;
  }

  lemma {:induction false} AcceptedTag(c: Tlv)
    ensures Accepts(c) ==> |c.tag| == 1 && c.tag == [c.tag[0]] && c.value != []
  {
  }

  /** A channel's child sets the power of that channel. */
  lemma {:induction false} OneMorePowers(children: seq<Tlv>, c: Tlv)
    ensures Powers(children + [c])
         == if Accepts(c) && c.tag[0] in CHANNEL_TAGS then Powers(children)[ChannelOf(c.tag[0]) := c.value[0]]
            else Powers(children)
  {
    AcceptedTag(c);
    hide *;
    forall ch: Channel
      ensures ch in CHANNELS ==>
        Front(children + [c], TagOfChannel(ch))
           == if Accepts(c) && c.tag[0] in CHANNEL_TAGS && ChannelOf(c.tag[0]) == ch then Some(c.value[0])
              else Front(children, TagOfChannel(ch))
      ensures ch in Powers(children) <==> ch in CHANNELS && Front(children, TagOfChannel(ch)).Some?
      ensures ch in Powers(children) ==> Powers(children)[ch] == Front(children, TagOfChannel(ch)).value
      ensures ch in Powers(children + [c]) <==> ch in CHANNELS && Front(children + [c], TagOfChannel(ch)).Some?
      ensures ch in Powers(children + [c]) ==> Powers(children + [c])[ch] == Front(children + [c], TagOfChannel(ch)).value
    {
      if ch in CHANNELS { OneMorePower(children, c, ch); }
      PowerAt(children, ch);
      PowerAt(children + [c], ch);
    }
  }

  /** Whether an accepted child is the one for a given tag. */
  predicate IsFor(c: Tlv, tag: byte) {
    Accepts(c) && c.tag[0] == tag
  }

  lemma {:induction false} IsForTag(c: Tlv, tag: byte)
    ensures IsFor(c, tag) <==> HasTag(c, tag) && Accepts(c)
  {
    AcceptedTag(c);
    hide Accepts;
  }

  lemma {:induction false} OneMoreFlags(children: seq<Tlv>, c: Tlv)
    ensures IsFor(c, INFORMATION_SOURCE) ==> c.value[0] < 4
    ensures SourceIn(children + [c]) == if IsFor(c, INFORMATION_SOURCE) then SourceOf(c.value[0]) else SourceIn(children)
    ensures OutdoorIn(children + [c]) == if IsFor(c, OUTDOOR_PERMITTED) then c.value[0] != 0 else OutdoorIn(children)
  {
    OneMoreFront(children, c, INFORMATION_SOURCE);
    OneMoreFront(children, c, OUTDOOR_PERMITTED);
    IsForTag(c, INFORMATION_SOURCE);
    IsForTag(c, OUTDOOR_PERMITTED);
    hide Front, SourceOf;
  }

  /** Decoding one more child assigns to its field and to no other. */
  lemma {:induction false} OneMoreChild(children: seq<Tlv>, c: Tlv)
    ensures Fields(children + [c])
         == if Accepts(c) then Assigned(Fields(children), c.tag[0], c.value) else Fields(children)
  {
    OneMoreFlags(children, c);
    OneMoreNumber(children, c, COUNTRY_CODE, UINT16_LIMIT);
    OneMoreNumber(children, c, TIMESTAMP, UINT32_LIMIT);
    IsForTag(c, COUNTRY_CODE);
    IsForTag(c, TIMESTAMP);
    OneMorePowers(children, c);
    AcceptedTag(c);
    assert Accepts(c) ==> c.tag[0] in TAGS;
    hide Accepts, Front, Number, Powers, SourceIn, OutdoorIn, ChannelOf, TagOfChannel, ReadSizeT, SourceOf, HasTag;
    if Accepts(c) {
      var tag := c.tag[0];
      if tag == INFORMATION_SOURCE || tag == OUTDOOR_PERMITTED || tag == COUNTRY_CODE || tag == TIMESTAMP {
        assert tag !in CHANNEL_TAGS;
      } else {
        assert tag in CHANNEL_TAGS;
      }
    }
  }

  method FromDataObject(dataObject: Tlv) returns (r: Option<Info>)
    ensures r == Read(dataObject.values)
  {
    NothingYet();
    hide TagsSeen, Fields, Assigned, Read;
    var children := dataObject.values;
    var info := Info(UserDefined, true, 0, 0, map[]);
    var decoded: set<byte> := {};
    for i := 0 to |children|
      invariant decoded == TagsSeen(children[..i], TAGS, Accepts)
      invariant info == Fields(children[..i])
    {
      var c := children[i];
      assert children[..i + 1] == children[..i] + [c];
      OneMoreSeen(children[..i], c, TAGS, Accepts);
      OneMoreChild(children[..i], c);
      if |c.tag| != 1 || c.tag[0] !in TAGS || c.value == [] {
        continue;
      }
      if c.tag[0] == INFORMATION_SOURCE && c.value[0] >= 4 {
        continue;
      }
      info := Assigned(info, c.tag[0], c.value);
      decoded := decoded + {c.tag[0]};
    }
    assert children[..|children|] == children;
    ReadOf(children);
    AllSeenIff(decoded, TAGS);
    r := if |decoded| < |TAGS| then None else Some(info);
  }

  lemma {:induction false} NothingYet()
    ensures Fields([]) == Info(UserDefined, true, 0, 0, map[]) && TagsSeen([], TAGS, Accepts) == {}
  {
  }

  lemma {:induction false} ReadOf(children: seq<Tlv>)
    ensures TagsSeen(children, TAGS, Accepts) <= TAGS
    ensures Read(children) == if TagsSeen(children, TAGS, Accepts) != TAGS then None else Some(Fields(children))
  {
    hide Fields;
  }

  /** A syntax error exactly when some required tag has no child that can be decoded. */
  lemma {:induction false} SyntaxErrorIff(children: seq<Tlv>)
    ensures Read(children) == None <==> exists t <- TAGS :: forall c <- children :: c.tag == [t] ==> !Accepts(c)
  {
    forall t <- TAGS
      ensures t !in TagsSeen(children, TAGS, Accepts) <==> forall c <- children :: c.tag == [t] ==> !Accepts(c)
    {
      LastIsAccepted(children, t, Accepts);
    }
    hide Accepts;
  }

  /** Neither the order of the children nor the ones that are not accepted matter. */
  lemma {:induction false} OrderDoesNotMatter(xs: seq<Tlv>, ys: seq<Tlv>)
    requires SameAccepted(xs, ys, Accepts) && OnePerTag(xs, Accepts)
    ensures Read(xs) == Read(ys)
  {
    SameSeen(xs, ys, TAGS, Accepts);
    forall t: byte ensures Last(xs, t, Accepts) == Last(ys, t, Accepts) {
      SameLast(xs, ys, t, Accepts);
    }
    forall t: byte ensures Front(xs, t) == Front(ys, t) { }
    assert Powers(xs) == Powers(ys);
    hide Last, Front, TagsSeen, Accepts;
  }

  /** The twelve tags that are known, with a value, and a source that there is. */
  lemma {:induction false} AcceptsIff(c: Tlv)
    ensures Accepts(c)
       <==> && |c.tag| == 1 && c.value != [] && (0x80 <= c.tag[0] <= 0x83 || 0x86 <= c.tag[0] <= 0x8D)
            && (c.tag[0] == 0x80 ==> c.value[0] <= 3)
    ensures forall t: byte :: t in TAGS <==> 0x80 <= t <= 0x83 || 0x86 <= t <= 0x8D
  {
  }

  /** What the last child of each tag says is what is read. */
  lemma {:induction false} SaysLast(children: seq<Tlv>, i: int, tag: byte)
    requires Read(children).Some? && IsLast(children, i, tag, Accepts)
    ensures var s, v := Read(children).value, children[i].value;
            && (tag == 0x80 ==> s.source == match v[0] case 0 => UserDefined case 1 => Satellite case 2 => Cellular
                                                      case _ => OtherFiraDevice)
            && (tag == 0x81 ==> (s.outdoorPermitted <==> v[0] != 0))
            && (tag == 0x82 ==> s.countryCode == if |v| < 8 then BigEndian(v) % 0x1_0000 else 0)
            && (tag == 0x83 ==> s.timestamp == if |v| < 8 then BigEndian(v) % 0x1_0000_0000 else 0)
  {
    LastAt(children, i, tag, Accepts);
    hide Last, IsLast, TagsSeen, Powers, BigEndian, ChannelOf, TagOfChannel;
  }

  /** The channels and their tags. */
  const CHANNEL_OF_TAG: seq<Channel> := [5, 6, 8, 9, 10, 12, 13, 14]

  lemma {:induction false} PowerSaysLast(children: seq<Tlv>, i: int, tag: byte)
    requires Read(children).Some? && IsLast(children, i, tag, Accepts) && 0x86 <= tag <= 0x8D
    ensures var power := Read(children).value.power;
            power.Keys == {5, 6, 8, 9, 10, 12, 13, 14} && power[CHANNEL_OF_TAG[tag - 0x86]] == children[i].value[0]
  {
    LastAt(children, i, tag, Accepts);
    var ch := CHANNEL_OF_TAG[tag - 0x86];
    assert TagOfChannel(ch) == tag && ch in CHANNELS;
    PowerAt(children, ch);
    AllChannels(children);
    assert Front(children, tag) == Some(children[i].value[0]);
    hide Front, Last, IsLast, TagsSeen, Powers, Number, SourceIn, OutdoorIn, TagOfChannel, ChannelOf, Accepts;
  }

  lemma {:induction false} AllChannels(children: seq<Tlv>)
    requires Read(children).Some?
    ensures Powers(children).Keys == CHANNELS
  {
    forall ch <- CHANNELS ensures Front(children, TagOfChannel(ch)).Some? {
      assert TagOfChannel(ch) in TagsSeen(children, TAGS, Accepts);
      LastIsAccepted(children, TagOfChannel(ch), Accepts);
    }
    hide Front, Last, TagsSeen, TagOfChannel, ChannelOf, Accepts, Fields;
  }

  lemma {:induction false} NumbersRoundTrip(s: Info)
    requires Valid(s)
    ensures ReadSizeT(Octets(s.countryCode, 2)) % UINT16_LIMIT == s.countryCode
    ensures ReadSizeT(Octets(s.timestamp, 4)) % UINT32_LIMIT == s.timestamp
    ensures Octets(s.countryCode, 2) != [] && Octets(s.timestamp, 4) != []
  {
    assert Pow256(2) == UINT16_LIMIT;
    assert Pow256(3) == 256 * UINT16_LIMIT;
    ReadBack(s.countryCode, 2);
    ReadBack(s.timestamp, 4);
  }

  lemma {:induction false} ChildAt(s: Info, k: nat)
    requires Valid(s) && CHANNELS <= s.power.Keys && k < COUNT
    ensures Accepts(Leaf(TagAt(k), ValueAt(s, k))) && |ValueAt(s, k)| <= SHORT_CONTENT
    ensures WellFormed(Leaf(TagAt(k), ValueAt(s, k)))
  {
    NumbersRoundTrip(s);
    LeafWellFormed(TagAt(k), ValueAt(s, k));
    hide ReadSizeT, Octets, WellFormed, ChannelOf;
  }

  lemma {:induction false} Found(s: Info, k: nat)
    requires Valid(s) && CHANNELS <= s.power.Keys && k < COUNT
    ensures Last(Children(s), TagAt(k), Accepts) == Some(Leaf(TagAt(k), ValueAt(s, k)))
  {
    ChildAt(s, k);
    hide Accepts, Last, Children, ValueAt;
    LastIsIt(Children(s), k, Accepts);
  }

  lemma {:induction false} FrontFound(s: Info, k: nat)
    requires Valid(s) && CHANNELS <= s.power.Keys && k < COUNT
    ensures ValueAt(s, k) != [] && Front(Children(s), TagAt(k)) == Some(ValueAt(s, k)[0])
  {
    Found(s, k);
    ChildAt(s, k);
    hide Last, Children, ValueAt, ChannelOf;
  }

  lemma {:induction false} NumbersFound(s: Info)
    requires Valid(s) && CHANNELS <= s.power.Keys
    ensures Number(Children(s), COUNTRY_CODE, UINT16_LIMIT) == s.countryCode
    ensures Number(Children(s), TIMESTAMP, UINT32_LIMIT) == s.timestamp
  {
    Found(s, 2);
    Found(s, 3);
    NumbersRoundTrip(s);
    hide Last, Children, ReadSizeT, Octets, ChannelOf;
  }

  lemma {:induction false} PowersFound(s: Info)
    requires Valid(s) && CHANNELS <= s.power.Keys
    ensures Powers(Children(s)) == s.power
  {
    forall c <- CHANNELS ensures Front(Children(s), TagOfChannel(c)) == Some(s.power[c]) {
      FrontFound(s, TagOfChannel(c) - 0x82);
    }
    hide Front, Children, TagOfChannel, ChannelOf;
  }

  lemma {:induction false} SourceFound(s: Info)
    requires Valid(s) && CHANNELS <= s.power.Keys
    ensures SourceIn(Children(s)) == s.source && OutdoorIn(Children(s)) == s.outdoorPermitted
  {
    FrontFound(s, 0);
    FrontFound(s, 1);
    hide Front, Children, Octets, ChannelOf;
  }

  lemma {:induction false} FieldsFound(s: Info)
    requires Valid(s) && CHANNELS <= s.power.Keys
    ensures Fields(Children(s)) == s
  {
    SourceFound(s);
    NumbersFound(s);
    PowersFound(s);
    hide Front, Number, Powers, SourceIn, OutdoorIn, Children, Valid;
  }

  lemma {:induction false} AllFound(s: Info)
    requires Valid(s) && CHANNELS <= s.power.Keys
    ensures TagsSeen(Children(s), TAGS, Accepts) == TAGS
  {
    forall t <- TAGS ensures Last(Children(s), t, Accepts).Some? {
      Found(s, if t < 0x84 then t - 0x80 else t - 0x82);
    }
    hide Last, Children, Accepts;
  }

  lemma {:induction false} ChildIsField(s: Info, k: nat)
    requires CHANNELS <= s.power.Keys && k < COUNT
    ensures Encode(Children(s)[k]) == Field(TagAt(k), ValueAt(s, k))
  {
    LeafIsField(TagAt(k), ValueAt(s, k));
    hide ValueAt, Encode, Field, Leaf;
  }

  /** The content from the k-th field on. */
  function FieldsFrom(s: Info, k: nat): seq<byte>
    requires CHANNELS <= s.power.Keys && k <= COUNT
    decreases COUNT - k
  {
    if k == COUNT then [] else Field(TagAt(k), ValueAt(s, k)) + FieldsFrom(s, k + 1)
  }

  lemma {:induction false} EncodedFieldsFrom(s: Info, k: nat)
    requires CHANNELS <= s.power.Keys && k <= COUNT
    ensures EncodeAll(Children(s)[k..]) == FieldsFrom(s, k)
    decreases COUNT - k
  {
    EncodedFrom(Children(s), k);
    if k < COUNT {
      ChildIsField(s, k);
      EncodedFieldsFrom(s, k + 1);
    }
    hide Field, Children, ValueAt, Encode, EncodeAll;
  }

  /** The octets of the object are those of its fields, */
  lemma {:induction false} Layout(s: Info)
    requires CHANNELS <= s.power.Keys
    ensures ToDataObject(s).Some? && Encode(ToDataObject(s).value) == Field(0xA6, FieldsFrom(s, 0))
  {
    hide *;
    ObjectOf(s);
    ObjectIsField(0xA6, Children(s));
    EncodedFieldsFrom(s, 0);
    assert Children(s)[0..] == Children(s);
  }

  lemma {:induction false} ObjectOf(s: Info)
    requires CHANNELS <= s.power.Keys
    ensures ToDataObject(s) == Some(Object(0xA6, [], Children(s))) && TypeOf(0xA6) == Constructed
  {
    hide Children, Object;
  }

  /** which are source, outdoor flag, country and time, */
  lemma {:induction false} FirstFields(s: Info)
    requires CHANNELS <= s.power.Keys
    ensures FieldsFrom(s, 0) == Field(0x80, [SourceNumber(s.source)]) + FieldsFrom(s, 1)
    ensures FieldsFrom(s, 1) == Field(0x81, [if s.outdoorPermitted then 1 else 0]) + FieldsFrom(s, 2)
    ensures FieldsFrom(s, 2) == Field(0x82, Octets(s.countryCode, 2)) + FieldsFrom(s, 3)
    ensures FieldsFrom(s, 3) == Field(0x83, Octets(s.timestamp, 4)) + FieldsFrom(s, 4)
  {
    hide Field, Octets;
  }

  /** and one for each channel, in the order of the channels. */
  lemma {:induction false} ChannelFields(s: Info, k: nat)
    requires CHANNELS <= s.power.Keys && k < 8
    ensures CHANNEL_OF_TAG[k] in s.power
    ensures FieldsFrom(s, 4 + k) == Field(0x86 + k, [s.power[CHANNEL_OF_TAG[k]]]) + FieldsFrom(s, 5 + k)
    ensures FieldsFrom(s, 12) == []
  {
    hide Field;
  }

  /** An object with all eight powers is read back as it was; one without has no encoding. */
  lemma {:induction false} RoundTripIff(s: Info)
    requires Valid(s)
    ensures (ToDataObject(s).Some? && Read(ToDataObject(s).value.values) == Some(s)) <==> s.power.Keys == CHANNELS
  {
    if s.power.Keys == CHANNELS {
      FieldsFound(s);
      AllFound(s);
    }
    hide Fields, TagsSeen, Children, Octets;
  }

  /** An encoding reads back, and is told apart by its tag. */
  lemma {:induction false} DataObjectReads(s: Info)
    requires Valid(s) && ToDataObject(s).Some?
    ensures var t := ToDataObject(s).value; t.tag == [TAG] && t.typ.Constructed? && Read(t.values) == Some(s)
  {
    DataObjectIs(s);
    RoundTripIff(s);
    hide *;
  }

  lemma {:induction false} DataObjectIs(s: Info)
    requires Valid(s) && ToDataObject(s).Some?
    ensures var t := ToDataObject(s).value; t.tag == [TAG] && t.typ.Constructed? && s.power.Keys == CHANNELS
  {
    hide Children;
  }

  lemma {:induction false} ChildIsShort(s: Info, k: nat)
    requires Valid(s) && CHANNELS <= s.power.Keys && k < COUNT
    ensures var c := Leaf(TagAt(k), ValueAt(s, k)); |c.tag| == 1 && |Content(c)| <= SHORT_CONTENT && WellFormed(c)
  {
    ChildAt(s, k);
    hide ValueAt, WellFormed, Valid;
  }

  lemma {:induction false} ChildrenWellFormed(s: Info)
    requires Valid(s) && CHANNELS <= s.power.Keys
    ensures WellFormed(Object(TAG, [], Children(s)))
    ensures |EncodeAll(Children(s))| <= (SHORT_CONTENT + 2) * COUNT
  {
    hide Children, WellFormed, EncodeAll, Content, Leaf, TagAt, ValueAt, Valid;
    forall c <- Children(s) ensures |c.tag| == 1 && |Content(c)| <= SHORT_CONTENT && WellFormed(c) {
      var k :| 0 <= k < COUNT && Children(s)[k] == c;
      ChildIsShort(s, k);
    }
    ShortChildrenSize(Children(s));
    ObjectWellFormed(TAG, Children(s));
  }

  /** From object to octets and back, whatever follows. */
  lemma {:induction false} WireRoundTrip(s: Info, more: seq<byte>)
    requires Valid(s) && s.power.Keys == CHANNELS
    ensures var t := ToDataObject(s);
            && t.Some?
            && var r := Decode(Encode(t.value) + more);
               r.Some? && r.value.size == |Encode(t.value)| && Read(r.value.tlv.values) == Some(s)
  {
    RoundTripIff(s);
    ChildrenWellFormed(s);
    hide Read, Encode, EncodeAll, WellFormed, Children;
    TlvBer.RoundTrip(Object(TAG, [], Children(s)), more);
  }
}
