/** The FiRa session data object, over any codec for the configuration nested in it. */
module UwbSessionData {
  import opened Bytes
  import opened TlvBer
  import opened TlvSerialize
  import opened TaggedChildren
  import Static = StaticRangingInfo
  import Secure = SecureRangingInfo
  import Regulatory = UwbRegulatoryInformation

  const TAG_OCTETS: seq<byte> := [0xBF, 0x78]

  const SESSION_DATA_VERSION: byte := 0x80
  const SESSION_ID: byte := 0x81
  const SUB_SESSION_ID: byte := 0x82
  const UWB_CONFIG_AVAILABLE: byte := 0x87
  const CONFIGURATION_PARAMETERS: byte := 0xA3

  const REQUIRED: set<byte> := {SESSION_DATA_VERSION, SESSION_ID, SUB_SESSION_ID, CONFIGURATION_PARAMETERS}

  const TAGS: set<byte> := REQUIRED + {UWB_CONFIG_AVAILABLE, Static.TAG, Secure.TAG, Regulatory.TAG}

  const VERSION_1_1: nat := 0x0101

  datatype Data<C> = Data(
    version: nat, sessionId: nat, subSessionId: nat, configuration: C, configurationAvailable: bool,
    staticInfo: Option<Static.Info>, secureInfo: Option<Secure.Info>, regulatory: Option<Regulatory.Info>)

  /** The configuration object has a decoder of its own, and a default when it is absent. */
  datatype Codec<C> = Codec(decode: Tlv -> Option<C>, initial: C)

  predicate Valid<C>(d: Data<C>) {
    && d.version < UINT16_LIMIT && d.sessionId < UINT32_LIMIT && d.subSessionId < UINT32_LIMIT
    && (d.staticInfo.Some? ==> Static.Valid(d.staticInfo.value))
    && (d.regulatory.Some? ==> Regulatory.Valid(d.regulatory.value))
  }

  /** Children with a known tag of one octet are decoded, unless primitive and empty. */
  predicate Accepts(c: Tlv) {
    |c.tag| == 1 && c.tag[0] in TAGS && (c.typ.Primitive? ==> c.value != [])
  }

  /** A nested object whose own decoder raises a syntax error. */
  predicate NestedFails<C>(c: Tlv, codec: Codec<C>) {
    || (HasTag(c, CONFIGURATION_PARAMETERS) && codec.decode(c).None?)
    || (HasTag(c, Static.TAG) && Static.Read(c.values).None?)
    || (HasTag(c, Secure.TAG) && Secure.Read(c.values).None?)
    || (HasTag(c, Regulatory.TAG) && Regulatory.Read(c.values).None?)
  }

  function Number(children: seq<Tlv>, tag: byte, limit: nat, fallback: nat): nat
    requires limit > 0
  {
    match Last(children, tag, Accepts)
    case None => fallback
    case Some(c) => ReadSizeT(c.value) % limit
  }

  predicate Available(children: seq<Tlv>) {
    match Last(children, UWB_CONFIG_AVAILABLE, Accepts)
    case None => false
    case Some(c) => IsTrue(c.value)
  }

  function Configuration<C>(children: seq<Tlv>, codec: Codec<C>): C {
    match Last(children, CONFIGURATION_PARAMETERS, Accepts)
    case None => codec.initial
    case Some(c) => ValueOr(codec.decode(c), codec.initial)
  }

  function ValueOr<C>(o: Option<C>, fallback: C): C {
    match o case Some(v) => v case None => fallback
  }

  /** The children of the last accepted nested object, if there is one. */
  function Nested(children: seq<Tlv>, tag: byte): Option<seq<Tlv>> {
    match Last(children, tag, Accepts)
    case None => None
    case Some(c) => Some(c.values)
  }

  /** What the children say so far, over the defaults. */
  function Fields<C>(children: seq<Tlv>, codec: Codec<C>): Data<C> {
    Data(
      Number(children, SESSION_DATA_VERSION, UINT16_LIMIT, VERSION_1_1),
      Number(children, SESSION_ID, UINT32_LIMIT, 0),
      Number(children, SUB_SESSION_ID, UINT32_LIMIT, 0),
      Configuration(children, codec),
      Available(children),
      match Nested(children, Static.TAG) case None => None case Some(cs) => Static.Read(cs),
      match Nested(children, Secure.TAG) case None => None case Some(cs) => Secure.Read(cs),
      match Nested(children, Regulatory.TAG) case None => None case Some(cs) => Regulatory.Read(cs))
  }

  predicate SomeNestedFails<C>(children: seq<Tlv>, codec: Codec<C>) {
    exists c <- children :: Accepts(c) && NestedFails(c, codec)
  }

  /** What the children say; None stands for a syntax error. */
  function Read<C>(children: seq<Tlv>, codec: Codec<C>): Option<Data<C>> {
    if SomeNestedFails(children, codec) || !(REQUIRED <= TagsSeen(children, TAGS, Accepts)) then None
    else Some(Fields(children, codec))
  }

  /** The effect of one child that is accepted. */
  function Assigned<C>(d: Data<C>, c: Tlv, codec: Codec<C>): Data<C>
    requires Accepts(c)
  {
    var tag := c.tag[0];
    if tag == SESSION_DATA_VERSION then d.(version := ReadSizeT(c.value) % UINT16_LIMIT)
    else if tag == SESSION_ID then d.(sessionId := ReadSizeT(c.value) % UINT32_LIMIT)
    else if tag == SUB_SESSION_ID then d.(subSessionId := ReadSizeT(c.value) % UINT32_LIMIT)
    else if tag == CONFIGURATION_PARAMETERS then d.(configuration := ValueOr(codec.decode(c), d.configuration))
    else if tag == Static.TAG then d.(staticInfo := Static.Read(c.values))
    else if tag == Secure.TAG then d.(secureInfo := Secure.Read(c.values))
    else if tag == Regulatory.TAG then d.(regulatory := Regulatory.Read(c.values))
    else d.(configurationAvailable := IsTrue(c.value))
  }

  lemma {:induction false} AcceptedTag(c: Tlv)
    ensures Accepts(c) ==> |c.tag| == 1 && c.tag == [c.tag[0]]
  {
  }

  /** Whether an accepted child is the one for a given tag. */
  predicate IsFor(c: Tlv, tag: byte) {
    Accepts(c) && c.tag[0] == tag
  }

  lemma {:induction false} IsForTag(c: Tlv, tag: byte)
    ensures IsFor(c, tag) <==> HasTag(c, tag) && Accepts(c)
  {
    AcceptedTag(c);
    hide Accepts;
  }

  lemma {:induction false} OneMore(children: seq<Tlv>, c: Tlv, tag: byte)
    ensures Last(children + [c], tag, Accepts) == if IsFor(c, tag) then Some(c) else Last(children, tag, Accepts)
  {
    IsForTag(c, tag);
    OneMoreLast(children, c, tag, Accepts);
    hide Accepts, Last, IsFor;
  }

  /** Decoding one more child assigns to its field and to no other. */
  lemma {:induction false} OneMoreChild<C>(children: seq<Tlv>, c: Tlv, codec: Codec<C>)
    requires !(Accepts(c) && NestedFails(c, codec))
    ensures Fields(children + [c], codec)
         == if Accepts(c) then Assigned(Fields(children, codec), c, codec) else Fields(children, codec)
  {
    OneMoreNumber(children, c, SESSION_DATA_VERSION, UINT16_LIMIT, VERSION_1_1);
    OneMoreNumber(children, c, SESSION_ID, UINT32_LIMIT, 0);
    OneMoreNumber(children, c, SUB_SESSION_ID, UINT32_LIMIT, 0);
    OneMoreConfiguration(children, c, codec);
    OneMore(children, c, UWB_CONFIG_AVAILABLE);
    OneMoreNested(children, c, Static.TAG);
    OneMoreNested(children, c, Secure.TAG);
    OneMoreNested(children, c, Regulatory.TAG);
    assert Accepts(c) ==> c.tag[0] in TAGS;
    hide Accepts, Last, ReadSizeT, Static.Read, Secure.Read, Regulatory.Read, IsTrue, HasTag, NestedFails, Nested;
    hide Configuration, Number;
  }

  lemma {:induction false} OneMoreNumber(children: seq<Tlv>, c: Tlv, tag: byte, limit: nat, fallback: nat)
    requires limit > 0
    ensures Number(children + [c], tag, limit, fallback)
         == if IsFor(c, tag) then ReadSizeT(c.value) % limit else Number(children, tag, limit, fallback)
  {
    OneMore(children, c, tag);
    hide Last, IsFor, ReadSizeT;
  }

  lemma {:induction false} OneMoreNested(children: seq<Tlv>, c: Tlv, tag: byte)
    ensures Nested(children + [c], tag) == if IsFor(c, tag) then Some(c.values) else Nested(children, tag)
  {
    OneMore(children, c, tag);
    hide Last, IsFor;
  }

  lemma {:induction false} OneMoreConfiguration<C>(children: seq<Tlv>, c: Tlv, codec: Codec<C>)
    requires !(Accepts(c) && NestedFails(c, codec))
    ensures Configuration(children + [c], codec)
         == if IsFor(c, CONFIGURATION_PARAMETERS) then ValueOr(codec.decode(c), Configuration(children, codec))
            else Configuration(children, codec)
  {
    OneMore(children, c, CONFIGURATION_PARAMETERS);
    IsForTag(c, CONFIGURATION_PARAMETERS);
    assert IsFor(c, CONFIGURATION_PARAMETERS) ==> codec.decode(c).Some?;
    hide Last, IsFor, Accepts, NestedFails;
  }

  method FromDataObject<C>(dataObject: Tlv, codec: Codec<C>) returns (r: Option<Data<C>>)
    ensures r == Read(dataObject.values, codec)
  {
    var children := dataObject.values;
    var data := Data(VERSION_1_1, 0, 0, codec.initial, false, None, None, None);
    var notSeen := REQUIRED;
    for i := 0 to |children|
      invariant !SomeNestedFails(children[..i], codec)
      invariant notSeen == REQUIRED - TagsSeen(children[..i], TAGS, Accepts)
      invariant data == Fields(children[..i], codec)
    {
      var c := children[i];
      assert children[..i + 1] == children[..i] + [c];
      assert c in children;
      if Accepts(c) {
        if NestedFails(c, codec) {
          return None;
        }
      }
      OneMoreSeen(children[..i], c, TAGS, Accepts);
      OneMoreChild(children[..i], c, codec);
      hide Fields, TagsSeen, Assigned, NestedFails, Accepts;
      if Accepts(c) {
        data := Assigned(data, c, codec);
        notSeen := notSeen - {c.tag[0]};
      }
    }
    assert children[..|children|] == children;
    r := if notSeen != {} then None else Some(data);
  }

  /** A syntax error exactly when a required tag has no child that can be decoded, or the
      decoder of a nested object raises one. */
  lemma {:induction false} SyntaxErrorIff<C>(children: seq<Tlv>, codec: Codec<C>)
    ensures Read(children, codec) == None
       <==> ((exists t <- REQUIRED :: forall c <- children :: c.tag == [t] ==> !Accepts(c))
             || (exists c <- children :: Accepts(c) && NestedFails(c, codec)))
  {
    forall t <- REQUIRED
      ensures t !in TagsSeen(children, TAGS, Accepts) <==> forall c <- children :: c.tag == [t] ==> !Accepts(c)
    {
      LastIsAccepted(children, t, Accepts);
    }
    hide Accepts, NestedFails, Fields;
  }

  /** Neither the order of the children nor the ones that are not accepted matter. */
  lemma {:induction false} OrderDoesNotMatter<C>(xs: seq<Tlv>, ys: seq<Tlv>, codec: Codec<C>)
    requires SameAccepted(xs, ys, Accepts) && OnePerTag(xs, Accepts)
    ensures Read(xs, codec) == Read(ys, codec)
  {
    SameSeen(xs, ys, TAGS, Accepts);
    forall t: byte ensures Last(xs, t, Accepts) == Last(ys, t, Accepts) {
      SameLast(xs, ys, t, Accepts);
    }
    hide Last, TagsSeen, Accepts, NestedFails, ReadSizeT, Static.Read, Secure.Read, Regulatory.Read;
  }

  /** The eight tags that are known, unless primitive and empty. */
  lemma {:induction false} AcceptsIff(c: Tlv)
    ensures Accepts(c)
       <==> && |c.tag| == 1 && c.tag[0] in {0x80, 0x81, 0x82, 0x87, 0xA3, 0xA4, 0xA5, 0xA6}
            && (c.typ == Primitive ==> c.value != [])
    ensures REQUIRED == {0x80, 0x81, 0x82, 0xA3}
  {
  }

  /** A nested object fails when the decoder for its tag does. */
  lemma {:induction false} NestedFailsIff<C>(c: Tlv, codec: Codec<C>)
    requires |c.tag| == 1
    ensures NestedFails(c, codec)
       <==> match c.tag[0]
            case 0xA3 => codec.decode(c) == None
            case 0xA4 => Static.Read(c.values) == None
            case 0xA5 => Secure.Read(c.values) == None
            case 0xA6 => Regulatory.Read(c.values) == None
            case _ => false
  {
    hide Static.Read, Secure.Read, Regulatory.Read;
    assert c.tag == [c.tag[0]];
  }

  /** The number that a value of fewer than eight octets denotes, cut to so many octets. */
  function CutNumber(v: seq<byte>, width: nat): nat {
    if |v| < 8 then BigEndian(v) % Pow256(width) else 0
  }

  /** What the last child of each tag says is what is read, */
  lemma {:induction false} SaysLast<C>(children: seq<Tlv>, i: int, tag: byte, codec: Codec<C>)
    requires Read(children, codec).Some? && IsLast(children, i, tag, Accepts)
    ensures var d, v := Read(children, codec).value, children[i].value;
            && (tag == 0x80 ==> d.version == CutNumber(v, 2))
            && (tag == 0x81 ==> d.sessionId == CutNumber(v, 4))
            && (tag == 0x82 ==> d.subSessionId == CutNumber(v, 4))
            && (tag == 0x87 ==> (d.configurationAvailable <==> v != [] && v[0] != 0))
  {
    LastAt(children, i, tag, Accepts);
    assert Pow256(2) == UINT16_LIMIT && Pow256(3) == 256 * UINT16_LIMIT && Pow256(4) == UINT32_LIMIT;
    hide Last, IsLast, TagsSeen, BigEndian, Configuration, Nested, Static.Read, Secure.Read, Regulatory.Read, Accepts;
    hide Pow256, SomeNestedFails;
  }

  /** nested objects through their own decoders, */
  lemma {:induction false} NestedSaysLast<C>(children: seq<Tlv>, i: int, tag: byte, codec: Codec<C>)
    requires Read(children, codec).Some? && IsLast(children, i, tag, Accepts)
    ensures var d, c := Read(children, codec).value, children[i];
            && (tag == 0xA3 ==> codec.decode(c) == Some(d.configuration))
            && (tag == 0xA4 ==> d.staticInfo == Static.Read(c.values) && d.staticInfo.Some?)
            && (tag == 0xA5 ==> d.secureInfo == Secure.Read(c.values) && d.secureInfo.Some?)
            && (tag == 0xA6 ==> d.regulatory == Regulatory.Read(c.values) && d.regulatory.Some?)
  {
    LastAt(children, i, tag, Accepts);
    assert children[i] in children && !NestedFails(children[i], codec);
    hide Last, IsLast, TagsSeen, Number, Available, Static.Read, Secure.Read, Regulatory.Read, Accepts;
    hide SomeNestedFails;
  }

  /** and what has no child stays as it began. */
  lemma {:induction false} AbsentSaysNothing<C>(children: seq<Tlv>, tag: byte, codec: Codec<C>)
    requires Read(children, codec).Some? && forall c <- children :: !(c.tag == [tag] && Accepts(c))
    ensures var d := Read(children, codec).value;
            && (tag == 0x87 ==> !d.configurationAvailable)
            && (tag == 0xA4 ==> d.staticInfo == None)
            && (tag == 0xA5 ==> d.secureInfo == None)
            && (tag == 0xA6 ==> d.regulatory == None)
  {
    NoLast(children, tag, Accepts);
    hide Last, TagsSeen, Number, Static.Read, Secure.Read, Regulatory.Read, Accepts, SomeNestedFails, Configuration;
  }

  // ---- Encoding

  /** A configuration object that its own decoder accepts. */
  predicate GoodConfiguration<C>(c: Tlv, codec: Codec<C>) {
    HasTag(c, CONFIGURATION_PARAMETERS) && c.typ.Constructed? && codec.decode(c).Some?
  }

  function Optional(o: Option<Tlv>): seq<Tlv> {
    match o case None => [] case Some(t) => [t]
  }

  /** The children that are always written; the configuration is whatever its codec makes. */
  function Base<C>(d: Data<C>, configuration: Tlv): seq<Tlv> {
    [Leaf(SESSION_DATA_VERSION, Octets(d.version, 2))]
    + [Leaf(SESSION_ID, Octets(d.sessionId, 4))]
    + [Leaf(SUB_SESSION_ID, Octets(d.subSessionId, 4))]
    + [configuration]
    + [Leaf(UWB_CONFIG_AVAILABLE, [if d.configurationAvailable then 1 else 0])]
  }

  function WithoutOptional<C>(d: Data<C>): Data<C> {
    d.(staticInfo := None, secureInfo := None, regulatory := None)
  }

  function StaticObject<C>(d: Data<C>): Option<Tlv> {
    match d.staticInfo case None => None case Some(s) => Some(Static.ToDataObject(s))
  }

  function SecureObject<C>(d: Data<C>): Option<Tlv> {
    match d.secureInfo case None => None case Some(s) => Some(Secure.ToDataObject(s))
  }

  function RegulatoryObject<C>(d: Data<C>): Option<Tlv> {
    match d.regulatory case None => None case Some(s) => Regulatory.ToDataObject(s)
  }

  function Children<C>(d: Data<C>, configuration: Tlv): seq<Tlv> {
    Base(d, configuration) + Optional(StaticObject(d)) + Optional(SecureObject(d)) + Optional(RegulatoryObject(d))
  }

  /** Regulatory information with a power missing has no encoding: an exception. */
  predicate Encodable<C>(d: Data<C>) {
    d.regulatory.Some? ==> Regulatory.ToDataObject(d.regulatory.value).Some?
  }

  function ToDataObject<C>(d: Data<C>, configuration: Tlv): Option<Tlv> {
    if !Encodable(d) then None
    else Some(Tlv(ContextSpecific, Constructed, 0x78, TAG_OCTETS, [], Children(d, configuration)))
  }

  lemma {:induction false} EncodeAllConcat(ts: seq<Tlv>, us: seq<Tlv>)
    ensures EncodeAll(ts + us) == EncodeAll(ts) + EncodeAll(us)
  {
    if ts == [] {
      assert ts + us == us;
    } else {
      hide *;
      EncodeAllConcat(ts[1..], us);
      FirstAndRest(ts, us);
      EncodeAllCons(ts[0], ts[1..]);
      EncodeAllCons(ts[0], ts[1..] + us);
      Associative(Encode(ts[0]), EncodeAll(ts[1..]), EncodeAll(us));
    }
  }

  lemma {:induction false} FirstAndRest(ts: seq<Tlv>, us: seq<Tlv>)
    requires ts != []
    ensures [ts[0]] + ts[1..] == ts && [ts[0]] + (ts[1..] + us) == ts + us
  {
  }

  lemma {:induction false} EncodeOne(t: Tlv)
    ensures EncodeAll([t]) == Encode(t)
  {
    assert [t][1..] == [];
    assert Encode(t) + [] == Encode(t);
    hide Encode;
  }

  function OptionalOctets(o: Option<Tlv>): seq<byte> {
    match o case None => [] case Some(t) => Encode(t)
  }

  lemma {:induction false} EncodeOptional(o: Option<Tlv>)
    ensures EncodeAll(Optional(o)) == OptionalOctets(o)
  {
    if o.Some? {
      EncodeOne(o.value);
    }
    hide Encode;
  }

  /** The octets of the children that are always written, */
  lemma {:induction false} BaseLayout<C>(d: Data<C>, configuration: Tlv)
    ensures EncodeAll(Base(d, configuration))
         == Field(0x80, Octets(d.version, 2)) + Field(0x81, Octets(d.sessionId, 4)) + Field(0x82, Octets(d.subSessionId, 4))
            + Encode(configuration) + Field(0x87, [if d.configurationAvailable then 1 else 0])
  {
    var a, b, c := Leaf(0x80, Octets(d.version, 2)), Leaf(0x81, Octets(d.sessionId, 4)), Leaf(0x82, Octets(d.subSessionId, 4));
    var e := Leaf(0x87, [if d.configurationAvailable then 1 else 0]);
    assert Base(d, configuration) == [a] + [b] + [c] + [configuration] + [e];
    LeafIsField(0x80, Octets(d.version, 2));
    LeafIsField(0x81, Octets(d.sessionId, 4));
    LeafIsField(0x82, Octets(d.subSessionId, 4));
    LeafIsField(0x87, [if d.configurationAvailable then 1 else 0]);
    hide *;
    FiveEncoded(a, b, c, configuration, e);
  }

  lemma {:induction false} FiveEncoded(a: Tlv, b: Tlv, c: Tlv, d: Tlv, e: Tlv)
    ensures EncodeAll([a] + [b] + [c] + [d] + [e]) == Encode(a) + Encode(b) + Encode(c) + Encode(d) + Encode(e)
  {
    hide *;
    EncodeAllConcat([a], [b]);
    EncodeAllConcat([a] + [b], [c]);
    EncodeAllConcat([a] + [b] + [c], [d]);
    EncodeAllConcat([a] + [b] + [c] + [d], [e]);
    EncodeOne(a);
    EncodeOne(b);
    EncodeOne(c);
    EncodeOne(d);
    EncodeOne(e);
  }

  /** and those of the whole object, under its tag of two octets. */
  lemma {:induction false} Layout<C>(d: Data<C>, configuration: Tlv)
    requires Encodable(d)
    ensures var content := EncodeAll(Base(d, configuration)) + OptionalOctets(StaticObject(d))
                           + OptionalOctets(SecureObject(d)) + OptionalOctets(RegulatoryObject(d));
            && ToDataObject(d, configuration).Some?
            && Encode(ToDataObject(d, configuration).value) == [0xBF, 0x78] + LengthOctets(|content|) + content
    ensures StaticObject(d).Some? <==> d.staticInfo.Some?
    ensures SecureObject(d).Some? <==> d.secureInfo.Some?
    ensures RegulatoryObject(d).Some? <==> d.regulatory.Some?
    ensures d.staticInfo.Some? ==> StaticObject(d) == Some(Static.ToDataObject(d.staticInfo.value))
    ensures d.secureInfo.Some? ==> SecureObject(d) == Some(Secure.ToDataObject(d.secureInfo.value))
    ensures d.regulatory.Some? ==> RegulatoryObject(d) == Regulatory.ToDataObject(d.regulatory.value)
  {
    ChildrenOctets(d, configuration);
    ObjectOctets(Children(d, configuration));
    hide Children, Base, OptionalOctets, EncodeAll, Encode, LengthOctets, Static.ToDataObject, Secure.ToDataObject;
    hide Regulatory.ToDataObject;
  }

  lemma {:induction false} ChildrenOctets<C>(d: Data<C>, configuration: Tlv)
    ensures EncodeAll(Children(d, configuration))
         == EncodeAll(Base(d, configuration)) + OptionalOctets(StaticObject(d)) + OptionalOctets(SecureObject(d))
            + OptionalOctets(RegulatoryObject(d))
  {
    var a, b, c, e := Base(d, configuration), Optional(StaticObject(d)), Optional(SecureObject(d)), Optional(RegulatoryObject(d));
    assert Children(d, configuration) == a + b + c + e;
    hide *;
    EncodeAllConcat(a, b);
    EncodeAllConcat(a + b, c);
    EncodeAllConcat(a + b + c, e);
    EncodeOptional(StaticObject(d));
    EncodeOptional(SecureObject(d));
    EncodeOptional(RegulatoryObject(d));
  }

  lemma {:induction false} ObjectOctets(children: seq<Tlv>)
    ensures Encode(Tlv(ContextSpecific, Constructed, 0x78, TAG_OCTETS, [], children))
         == [0xBF, 0x78] + LengthOctets(|EncodeAll(children)|) + EncodeAll(children)
  {
    hide EncodeAll, LengthOctets;
  }

  /** There is no encoding exactly when there is regulatory information without a power for
      some channel. */
  lemma {:induction false} NoEncodingIff<C>(d: Data<C>, configuration: Tlv)
    ensures ToDataObject(d, configuration) == None
       <==> d.regulatory.Some? && !({5, 6, 8, 9, 10, 12, 13, 14} <= d.regulatory.value.power.Keys)
  {
    hide Children, Regulatory.Children;
  }

  /** All that reading has made of the children so far. */
  ghost predicate Says<C>(children: seq<Tlv>, codec: Codec<C>, data: Data<C>, seen: set<byte>) {
    && !SomeNestedFails(children, codec)
    && Fields(children, codec) == data
    && seen <= TagsSeen(children, TAGS, Accepts)
  }

  lemma {:induction false} SaysNothing<C>(codec: Codec<C>)
    ensures Says([], codec, Data(VERSION_1_1, 0, 0, codec.initial, false, None, None, None), {})
  {
  }

  /** Going through one more good child. */
  lemma {:induction false} SaysMore<C>(children: seq<Tlv>, c: Tlv, codec: Codec<C>, data: Data<C>, seen: set<byte>)
    requires Says(children, codec, data, seen) && Accepts(c) && !NestedFails(c, codec)
    ensures Says(children + [c], codec, Assigned(data, c, codec), seen + {c.tag[0]})
  {
    OneMoreChild(children, c, codec);
    OneMoreSeen(children, c, TAGS, Accepts);
    assert c.tag[0] in TAGS;
    hide Fields, Assigned, NestedFails, Accepts, TagsSeen;
  }

  lemma {:induction false} SaysEnough<C>(children: seq<Tlv>, codec: Codec<C>, data: Data<C>, seen: set<byte>)
    requires Says(children, codec, data, seen) && REQUIRED <= seen
    ensures Read(children, codec) == Some(data)
  {
    hide Fields, TagsSeen, SomeNestedFails;
  }

  lemma {:induction false} Uint16RoundTrip(n: nat)
    requires n < UINT16_LIMIT
    ensures ReadSizeT(Octets(n, 2)) % UINT16_LIMIT == n
  {
    assert Pow256(2) == UINT16_LIMIT;
    ReadBack(n, 2);
  }

  lemma {:induction false} Uint32RoundTrip(n: nat)
    requires n < UINT32_LIMIT
    ensures ReadSizeT(Octets(n, 4)) % UINT32_LIMIT == n
  {
    assert Pow256(3) == 256 * UINT16_LIMIT && Pow256(4) == UINT32_LIMIT;
    ReadBack(n, 4);
  }

  lemma {:induction false} LeafIsGood<C>(tag: byte, value: seq<byte>, codec: Codec<C>)
    requires tag in {SESSION_DATA_VERSION, SESSION_ID, SUB_SESSION_ID, UWB_CONFIG_AVAILABLE} && value != []
    ensures Accepts(Leaf(tag, value)) && Leaf(tag, value).tag == [tag] && !NestedFails(Leaf(tag, value), codec)
  {
    hide Static.Read, Secure.Read, Regulatory.Read;
  }

  lemma {:induction false} AddVersion<C>(children: seq<Tlv>, n: nat, codec: Codec<C>, data: Data<C>, seen: set<byte>)
    requires Says(children, codec, data, seen) && n < UINT16_LIMIT
    ensures Says(children + [Leaf(SESSION_DATA_VERSION, Octets(n, 2))], codec,
                 data.(version := n), seen + {SESSION_DATA_VERSION})
  {
    LeafIsGood(SESSION_DATA_VERSION, Octets(n, 2), codec);
    Uint16RoundTrip(n);
    hide Says, Accepts, NestedFails, Octets, ReadSizeT;
    SaysMore(children, Leaf(SESSION_DATA_VERSION, Octets(n, 2)), codec, data, seen);
  }

  lemma {:induction false} AddSessionId<C>(children: seq<Tlv>, n: nat, codec: Codec<C>, data: Data<C>, seen: set<byte>)
    requires Says(children, codec, data, seen) && n < UINT32_LIMIT
    ensures Says(children + [Leaf(SESSION_ID, Octets(n, 4))], codec, data.(sessionId := n), seen + {SESSION_ID})
  {
    LeafIsGood(SESSION_ID, Octets(n, 4), codec);
    Uint32RoundTrip(n);
    hide Says, Accepts, NestedFails, Octets, ReadSizeT;
    SaysMore(children, Leaf(SESSION_ID, Octets(n, 4)), codec, data, seen);
  }

  lemma {:induction false} AddSubSessionId<C>(children: seq<Tlv>, n: nat, codec: Codec<C>, data: Data<C>,
                                              seen: set<byte>)
    requires Says(children, codec, data, seen) && n < UINT32_LIMIT
    ensures Says(children + [Leaf(SUB_SESSION_ID, Octets(n, 4))], codec,
                 data.(subSessionId := n), seen + {SUB_SESSION_ID})
  {
    LeafIsGood(SUB_SESSION_ID, Octets(n, 4), codec);
    Uint32RoundTrip(n);
    hide Says, Accepts, NestedFails, Octets, ReadSizeT;
    SaysMore(children, Leaf(SUB_SESSION_ID, Octets(n, 4)), codec, data, seen);
  }

  lemma {:induction false} AddAvailable<C>(children: seq<Tlv>, available: bool, codec: Codec<C>, data: Data<C>,
                                           seen: set<byte>)
    requires Says(children, codec, data, seen)
    ensures Says(children + [Leaf(UWB_CONFIG_AVAILABLE, [if available then 1 else 0])], codec,
                 data.(configurationAvailable := available), seen + {UWB_CONFIG_AVAILABLE})
  {
    var value: seq<byte> := [if available then 1 else 0];
    LeafIsGood(UWB_CONFIG_AVAILABLE, value, codec);
    hide Says, Accepts, NestedFails, ReadSizeT;
    SaysMore(children, Leaf(UWB_CONFIG_AVAILABLE, value), codec, data, seen);
  }

  lemma {:induction false} AddConfiguration<C>(children: seq<Tlv>, c: Tlv, codec: Codec<C>, data: Data<C>,
                                               seen: set<byte>)
    requires Says(children, codec, data, seen)
    requires GoodConfiguration(c, codec)
    ensures Says(children + [c], codec, data.(configuration := codec.decode(c).value), seen + {CONFIGURATION_PARAMETERS})
  {
    assert Accepts(c) && !NestedFails(c, codec) && c.tag[0] == CONFIGURATION_PARAMETERS;
    hide Says, Accepts, NestedFails, ReadSizeT;
    SaysMore(children, c, codec, data, seen);
  }

  lemma {:induction false} AddStatic<C>(children: seq<Tlv>, s: Static.Info, codec: Codec<C>, data: Data<C>,
                                        seen: set<byte>)
    requires Says(children, codec, data, seen) && Static.Valid(s)
    ensures Says(children + [Static.ToDataObject(s)], codec, data.(staticInfo := Some(s)), seen + {Static.TAG})
  {
    var c := Static.ToDataObject(s);
    assert c.tag == [Static.TAG] && c.typ.Constructed?;
    Static.RoundTrip(s);
    hide Says, Static.Read, Static.ToDataObject, ReadSizeT;
    SaysMore(children, c, codec, data, seen);
  }

  lemma {:induction false} AddSecure<C>(children: seq<Tlv>, s: Secure.Info, codec: Codec<C>, data: Data<C>,
                                        seen: set<byte>)
    requires Says(children, codec, data, seen)
    ensures Says(children + [Secure.ToDataObject(s)], codec, data.(secureInfo := Some(s)), seen + {Secure.TAG})
  {
    var c := Secure.ToDataObject(s);
    assert c.tag == [Secure.TAG] && c.typ.Constructed?;
    Secure.RoundTrip(s);
    hide Says, Secure.Read, Secure.ToDataObject, ReadSizeT;
    SaysMore(children, c, codec, data, seen);
  }

  lemma {:induction false} AddRegulatory<C>(children: seq<Tlv>, s: Regulatory.Info, codec: Codec<C>, data: Data<C>,
                                            seen: set<byte>)
    requires Says(children, codec, data, seen) && Regulatory.Valid(s) && Regulatory.ToDataObject(s).Some?
    ensures Says(children + [Regulatory.ToDataObject(s).value], codec,
                 data.(regulatory := Some(s)), seen + {Regulatory.TAG})
  {
    Regulatory.DataObjectReads(s);
    hide *;
    var c := Regulatory.ToDataObject(s).value;
    RegulatoryIsGood(c, s, codec, data);
    SaysMore(children, c, codec, data, seen);
  }

  lemma {:induction false} RegulatoryIsGood<C>(c: Tlv, s: Regulatory.Info, codec: Codec<C>, data: Data<C>)
    requires c.tag == [Regulatory.TAG] && c.typ.Constructed? && Regulatory.Read(c.values) == Some(s)
    ensures Accepts(c) && !NestedFails(c, codec) && Assigned(data, c, codec) == data.(regulatory := Some(s))
  {
    hide Regulatory.Read;
  }

  lemma {:induction false} BaseSays<C>(d: Data<C>, configuration: Tlv, codec: Codec<C>)
    requires Valid(d)
    requires GoodConfiguration(configuration, codec)
    ensures Says(Base(d, configuration), codec,
                 WithoutOptional(d.(configuration := codec.decode(configuration).value)),
                 REQUIRED + {UWB_CONFIG_AVAILABLE})
  {
    var c1, c2 := [Leaf(SESSION_DATA_VERSION, Octets(d.version, 2))], [Leaf(SESSION_ID, Octets(d.sessionId, 4))];
    var c3 := [Leaf(SUB_SESSION_ID, Octets(d.subSessionId, 4))];
    var c5 := [Leaf(UWB_CONFIG_AVAILABLE, [if d.configurationAvailable then 1 else 0])];
    assert Base(d, configuration) == c1 + c2 + c3 + [configuration] + c5;
    assert d.version < UINT16_LIMIT && d.sessionId < UINT32_LIMIT && d.subSessionId < UINT32_LIMIT;
    var s1 := {} + {SESSION_DATA_VERSION};
    var s2 := s1 + {SESSION_ID};
    var s3 := s2 + {SUB_SESSION_ID};
    var s4 := s3 + {CONFIGURATION_PARAMETERS};
    assert REQUIRED + {UWB_CONFIG_AVAILABLE} == s4 + {UWB_CONFIG_AVAILABLE};
    var d0 := Data(VERSION_1_1, 0, 0, codec.initial, false, None, None, None);
    var d1 := d0.(version := d.version);
    var d2 := d1.(sessionId := d.sessionId);
    var d3 := d2.(subSessionId := d.subSessionId);
    var d4 := d3.(configuration := codec.decode(configuration).value);
    assert [] + c1 == c1;
    hide *;
    SaysNothing(codec);
    AddVersion([], d.version, codec, d0, {});
    AddSessionId(c1, d.sessionId, codec, d1, s1);
    AddSubSessionId(c1 + c2, d.subSessionId, codec, d2, s2);
    AddConfiguration(c1 + c2 + c3, configuration, codec, d3, s3);
    AddAvailable(c1 + c2 + c3 + [configuration], d.configurationAvailable, codec, d4, s4);
  }

  lemma {:induction false} MaybeStatic<C>(children: seq<Tlv>, s: Option<Static.Info>, codec: Codec<C>, data: Data<C>)
    requires Says(children, codec, data, REQUIRED)
    requires data.staticInfo == None && (s.Some? ==> Static.Valid(s.value))
    ensures Says(children + Optional(match s case None => None case Some(x) => Some(Static.ToDataObject(x))),
                 codec, data.(staticInfo := s), REQUIRED)
  {
    match s {
      case None => assert children + [] == children;
      case Some(x) =>
        AddStatic(children, x, codec, data, REQUIRED);
        Fewer(children + [Static.ToDataObject(x)], codec, data.(staticInfo := s), REQUIRED, REQUIRED + {Static.TAG});
    }
    hide Says, Static.ToDataObject;
  }

  lemma {:induction false} MaybeSecure<C>(children: seq<Tlv>, s: Option<Secure.Info>, codec: Codec<C>, data: Data<C>)
    requires Says(children, codec, data, REQUIRED) && data.secureInfo == None
    ensures Says(children + Optional(match s case None => None case Some(x) => Some(Secure.ToDataObject(x))),
                 codec, data.(secureInfo := s), REQUIRED)
  {
    match s {
      case None => assert children + [] == children;
      case Some(x) =>
        AddSecure(children, x, codec, data, REQUIRED);
        Fewer(children + [Secure.ToDataObject(x)], codec, data.(secureInfo := s), REQUIRED, REQUIRED + {Secure.TAG});
    }
    hide Says, Secure.ToDataObject;
  }

  lemma {:induction false} MaybeRegulatory<C>(children: seq<Tlv>, s: Option<Regulatory.Info>, codec: Codec<C>,
                                              data: Data<C>)
    requires Says(children, codec, data, REQUIRED) && data.regulatory == None
    requires s.Some? ==> Regulatory.Valid(s.value) && Regulatory.ToDataObject(s.value).Some?
    ensures Says(children + Optional(match s case None => None case Some(x) => Regulatory.ToDataObject(x)),
                 codec, data.(regulatory := s), REQUIRED)
  {
    match s {
      case None => assert children + [] == children;
      case Some(x) =>
        AddRegulatory(children, x, codec, data, REQUIRED);
        var all := children + [Regulatory.ToDataObject(x).value];
        Fewer(all, codec, data.(regulatory := s), REQUIRED, REQUIRED + {Regulatory.TAG});
    }
    hide Says, Regulatory.ToDataObject, Regulatory.Valid;
  }

  lemma {:induction false} Fewer<C>(children: seq<Tlv>, codec: Codec<C>, data: Data<C>, fewer: set<byte>,
                                    seen: set<byte>)
    requires Says(children, codec, data, seen) && fewer <= seen
    ensures Says(children, codec, data, fewer)
  {
    hide Fields, SomeNestedFails, TagsSeen;
  }

  /** A valid object is read back as it was, but for its configuration, which is what its own
      codec makes of it. */
  lemma {:induction false} RoundTrip<C>(d: Data<C>, configuration: Tlv, codec: Codec<C>)
    requires Valid(d) && Encodable(d)
    requires GoodConfiguration(configuration, codec)
    ensures ToDataObject(d, configuration).Some?
    ensures Read(ToDataObject(d, configuration).value.values, codec)
         == Some(d.(configuration := codec.decode(configuration).value))
  {
    var data := WithoutOptional(d.(configuration := codec.decode(configuration).value));
    var base, o1, o2 := Base(d, configuration), Optional(StaticObject(d)), Optional(SecureObject(d));
    BaseSays(d, configuration, codec);
    Fewer(base, codec, data, REQUIRED, REQUIRED + {UWB_CONFIG_AVAILABLE});
    hide Says, Base, Read, Static.Valid, Regulatory.Valid;
    hide Static.ToDataObject, Secure.ToDataObject, Regulatory.ToDataObject;
    MaybeStatic(base, d.staticInfo, codec, data);
    var data1 := data.(staticInfo := d.staticInfo);
    MaybeSecure(base + o1, d.secureInfo, codec, data1);
    var data2 := data1.(secureInfo := d.secureInfo);
    MaybeRegulatory(base + o1 + o2, d.regulatory, codec, data2);
    SaysEnough(Children(d, configuration), codec, d.(configuration := codec.decode(configuration).value), REQUIRED);
  }

  lemma {:induction false} ChildrenWellFormed<C>(d: Data<C>, configuration: Tlv)
    requires Valid(d) && Encodable(d) && WellFormed(configuration)
    ensures forall c <- Children(d, configuration) :: WellFormed(c)
  {
    BaseWellFormed(d, configuration);
    NestedWellFormed(d);
    hide WellFormed, Base, StaticObject, SecureObject, RegulatoryObject, Valid, Encodable;
  }

  lemma {:induction false} BaseWellFormed<C>(d: Data<C>, configuration: Tlv)
    requires WellFormed(configuration)
    ensures forall c <- Base(d, configuration) :: WellFormed(c)
  {
    LeafWellFormed(SESSION_DATA_VERSION, Octets(d.version, 2));
    LeafWellFormed(SESSION_ID, Octets(d.sessionId, 4));
    LeafWellFormed(SUB_SESSION_ID, Octets(d.subSessionId, 4));
    LeafWellFormed(UWB_CONFIG_AVAILABLE, [if d.configurationAvailable then 1 else 0]);
    hide WellFormed, Leaf, Octets;
  }

  lemma {:induction false} NestedWellFormed<C>(d: Data<C>)
    requires Valid(d) && Encodable(d)
    ensures StaticObject(d).Some? ==> WellFormed(StaticObject(d).value)
    ensures SecureObject(d).Some? ==> WellFormed(SecureObject(d).value)
    ensures RegulatoryObject(d).Some? ==> WellFormed(RegulatoryObject(d).value)
  {
    if d.staticInfo.Some? { Static.DataObjectWellFormed(d.staticInfo.value); }
    if d.secureInfo.Some? { Secure.DataObjectWellFormed(d.secureInfo.value); }
    if d.regulatory.Some? { Regulatory.ChildrenWellFormed(d.regulatory.value); }
    hide WellFormed, Static.ToDataObject, Secure.ToDataObject, Regulatory.Children, Static.Valid, Regulatory.Valid;
  }

  lemma {:induction false} DataObjectWellFormed(children: seq<Tlv>)
    requires forall c <- children :: WellFormed(c)
    ensures var t := Tlv(ContextSpecific, Constructed, 0x78, TAG_OCTETS, [], children);
            WellFormed(t) && Content(t) == EncodeAll(children)
  {
    assert TAG_OCTETS[..2] == TAG_OCTETS;
  }

  /** From object to octets and back, whatever follows. */
  lemma {:induction false} WireRoundTrip<C>(d: Data<C>, configuration: Tlv, codec: Codec<C>, more: seq<byte>)
    requires Valid(d) && Encodable(d) && WellFormed(configuration)
    requires GoodConfiguration(configuration, codec)
    requires |EncodeAll(Children(d, configuration))| < LENGTH_LIMIT
    ensures var t := ToDataObject(d, configuration);
            && t.Some?
            && var r := Decode(Encode(t.value) + more);
               r.Some? && r.value.size == |Encode(t.value)|
               && Read(r.value.tlv.values, codec) == Some(d.(configuration := codec.decode(configuration).value))
  {
    var t := Tlv(ContextSpecific, Constructed, 0x78, TAG_OCTETS, [], Children(d, configuration));
    assert ToDataObject(d, configuration) == Some(t);
    ChildrenWellFormed(d, configuration);
    hide *;
    RoundTrip(d, configuration, codec);
    DataObjectWellFormed(Children(d, configuration));
    TlvBer.RoundTrip(t, more);
  }
}
