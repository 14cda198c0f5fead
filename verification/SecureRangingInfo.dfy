/** The FiRa secure ranging information object. */
module SecureRangingInfo {
  import opened Bytes
  import opened TlvBer
  import opened TaggedChildren

  const TAG: byte := 0xA5

  const UWB_SESSION_KEY_INFO: byte := 0x80
  const RESPONDER_SPECIFIC_SUB_SESSION_KEY_INFO: byte := 0x81
  const SUS_ADDITIONAL_PARAMETERS: byte := 0x82

  const TAGS: set<byte> :=
    {UWB_SESSION_KEY_INFO, RESPONDER_SPECIFIC_SUB_SESSION_KEY_INFO, SUS_ADDITIONAL_PARAMETERS}

  datatype Info = Info(sessionKeyInfo: seq<byte>, responderKeyInfo: seq<byte>, susParameters: seq<byte>)

  /** Children with a known tag of one octet are decoded, empty ones too. */
  predicate Accepts(c: Tlv) {
    |c.tag| == 1 && c.tag[0] in TAGS
  }

  function ToDataObject(s: Info): Tlv {
    Object(TAG, [], [
      Leaf(UWB_SESSION_KEY_INFO, s.sessionKeyInfo),
      Leaf(RESPONDER_SPECIFIC_SUB_SESSION_KEY_INFO, s.responderKeyInfo),
      Leaf(SUS_ADDITIONAL_PARAMETERS, s.susParameters)])
  }

  function ValueOf(children: seq<Tlv>, tag: byte): seq<byte> {
    match Last(children, tag, Accepts)
    case None => []
    case Some(c) => c.value
  }

  /** What the children say; None stands for a syntax error. */
  function Read(children: seq<Tlv>): Option<Info> {
    if TagsSeen(children, TAGS, Accepts) != TAGS then None
    else Some(Info(ValueOf(children, UWB_SESSION_KEY_INFO),
                   ValueOf(children, RESPONDER_SPECIFIC_SUB_SESSION_KEY_INFO),
                   ValueOf(children, SUS_ADDITIONAL_PARAMETERS)))
  }

  method FromDataObject(dataObject: Tlv) returns (r: Option<Info>)
    ensures r == Read(dataObject.values)
  {
    var children := dataObject.values;
    var info := Info([], [], []);
    var decoded: set<byte> := {};
    for i := 0 to |children|
      invariant decoded == TagsSeen(children[..i], TAGS, Accepts)
      invariant info.sessionKeyInfo == ValueOf(children[..i], UWB_SESSION_KEY_INFO)
      invariant info.responderKeyInfo == ValueOf(children[..i], RESPONDER_SPECIFIC_SUB_SESSION_KEY_INFO)
      invariant info.susParameters == ValueOf(children[..i], SUS_ADDITIONAL_PARAMETERS)
    {
      var c := children[i];
      assert children[..i + 1] == children[..i] + [c];
      OneMoreSeen(children[..i], c, TAGS, Accepts);
      OneMoreLast(children[..i], c, UWB_SESSION_KEY_INFO, Accepts);
      OneMoreLast(children[..i], c, RESPONDER_SPECIFIC_SUB_SESSION_KEY_INFO, Accepts);
      OneMoreLast(children[..i], c, SUS_ADDITIONAL_PARAMETERS, Accepts);
      hide Last, TagsSeen;
      if |c.tag| != 1 || c.tag[0] !in TAGS {
        continue;
      }
      match c.tag[0] {
        case 0x80 => info := info.(sessionKeyInfo := c.value);
        case 0x81 => info := info.(responderKeyInfo := c.value);
        case _ => info := info.(susParameters := c.value);
      }
      decoded := decoded + {c.tag[0]};
    }
    assert children[..|children|] == children;
    AllSeenIff(decoded, TAGS);
    r := if |decoded| < |TAGS| then None else Some(info);
  }

  /** A syntax error exactly when some required tag has no child. */
  lemma {:induction false} SyntaxErrorIff(children: seq<Tlv>)
    ensures Read(children) == None <==> exists t <- TAGS :: forall c <- children :: c.tag != [t]
  {
    forall t <- TAGS
      ensures t !in TagsSeen(children, TAGS, Accepts) <==> forall c <- children :: c.tag != [t]
    {
      LastIsAccepted(children, t, Accepts);
    }
  }

  /** Neither the order of the children nor children with other tags matter. */
  lemma {:induction false} OrderDoesNotMatter(xs: seq<Tlv>, ys: seq<Tlv>)
    requires SameAccepted(xs, ys, Accepts) && OnePerTag(xs, Accepts)
    ensures Read(xs) == Read(ys)
  {
    SameSeen(xs, ys, TAGS, Accepts);
    SameLast(xs, ys, UWB_SESSION_KEY_INFO, Accepts);
    SameLast(xs, ys, RESPONDER_SPECIFIC_SUB_SESSION_KEY_INFO, Accepts);
    SameLast(xs, ys, SUS_ADDITIONAL_PARAMETERS, Accepts);
  }

  lemma {:induction false} RoundTrip(s: Info)
    ensures Read(ToDataObject(s).values) == Some(s)
  {
    var a, b, c := ToDataObject(s).values[0], ToDataObject(s).values[1], ToDataObject(s).values[2];
    assert ToDataObject(s).values == (([] + [a]) + [b]) + [c];
    forall t <- TAGS ensures Last(ToDataObject(s).values, t, Accepts)
                          == Some(if t == UWB_SESSION_KEY_INFO then a
                                  else if t == RESPONDER_SPECIFIC_SUB_SESSION_KEY_INFO then b else c)
    {
      OneMoreLast([], a, t, Accepts);
      OneMoreLast([] + [a], b, t, Accepts);
      OneMoreLast(([] + [a]) + [b], c, t, Accepts);
    }
  }

  /** The three tags that are known, each accepted whatever its value. */
  lemma {:induction false} AcceptsIff(c: Tlv)
    ensures Accepts(c) <==> c.tag == [0x80] || c.tag == [0x81] || c.tag == [0x82]
    ensures TAGS == {0x80, 0x81, 0x82}
  {
  }

  /** What the last child of each tag holds is what is read. */
  lemma {:induction false} SaysLast(children: seq<Tlv>, i: int, tag: byte)
    requires Read(children).Some? && IsLast(children, i, tag, Accepts)
    ensures tag == 0x80 ==> Read(children).value.sessionKeyInfo == children[i].value
    ensures tag == 0x81 ==> Read(children).value.responderKeyInfo == children[i].value
    ensures tag == 0x82 ==> Read(children).value.susParameters == children[i].value
  {
    LastAt(children, i, tag, Accepts);
    hide Last, Accepts, IsLast, TagsSeen;
  }

  /** The octets of the object. */
  lemma {:induction false} Layout(s: Info)
    ensures Encode(ToDataObject(s))
         == Field(0xA5, Field(0x80, s.sessionKeyInfo) + (Field(0x81, s.responderKeyInfo) + Field(0x82, s.susParameters)))
  {
    var children := ToDataObject(s).values;
    ObjectIsField(0xA5, children);
    LeafIsField(0x80, s.sessionKeyInfo);
    LeafIsField(0x81, s.responderKeyInfo);
    LeafIsField(0x82, s.susParameters);
    hide Field, Encode, EncodeAll, LengthOctets;
    EncodedFrom(children, 0);
    EncodedFrom(children, 1);
    EncodedFrom(children, 2);
    EncodedFrom(children, 3);
    assert children[0..] == children;
    assert Field(0x82, s.susParameters) + [] == Field(0x82, s.susParameters);
  }

  lemma {:induction false} DataObjectWellFormed(s: Info)
    ensures WellFormed(ToDataObject(s))
  {
    LeafWellFormed(UWB_SESSION_KEY_INFO, s.sessionKeyInfo);
    LeafWellFormed(RESPONDER_SPECIFIC_SUB_SESSION_KEY_INFO, s.responderKeyInfo);
    LeafWellFormed(SUS_ADDITIONAL_PARAMETERS, s.susParameters);
    ObjectWellFormed(TAG, ToDataObject(s).values);
    hide WellFormed;
  }

  /** From object to octets and back, whatever follows. */
  lemma {:induction false} WireRoundTrip(s: Info, more: seq<byte>)
    requires |Content(ToDataObject(s))| < LENGTH_LIMIT
    ensures var r := Decode(Encode(ToDataObject(s)) + more);
            r.Some? && r.value.size == |Encode(ToDataObject(s))| && Read(r.value.tlv.values) == Some(s)
  {
    DataObjectWellFormed(s);
    hide *;
    TlvBer.RoundTrip(ToDataObject(s), more);
    RoundTrip(s);
  }
}
