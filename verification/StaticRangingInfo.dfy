/** The FiRa static ranging information object. */
module StaticRangingInfo {
  import opened Bytes
  import opened TlvBer
  import opened TlvSerialize
  import opened TaggedChildren

  const TAG: byte := 0xA4

  const VENDOR_ID: byte := 0x80
  const STATIC_STS_IV: byte := 0x81

  const TAGS: set<byte> := {VENDOR_ID, STATIC_STS_IV}

  const VECTOR_LENGTH: nat := 6

  datatype Info = Info(vendorId: nat, vector: seq<byte>)

  predicate Valid(s: Info) {
    s.vendorId < UINT16_LIMIT && |s.vector| == VECTOR_LENGTH
  }

  /** Children with a known tag of one octet and a value that is not empty are decoded. */
  predicate Accepts(c: Tlv) {
    |c.tag| == 1 && c.tag[0] in TAGS && c.value != []
  }

  function ToDataObject(s: Info): Tlv {
    Object(TAG, [], [Leaf(VENDOR_ID, Octets(s.vendorId, 2)), Leaf(STATIC_STS_IV, s.vector)])
  }

  /** Copies as much of the value as fits over the front of the vector. */
  function Overlaid(vector: seq<byte>, value: seq<byte>): (r: seq<byte>)
    requires |vector| == VECTOR_LENGTH
    ensures |r| == VECTOR_LENGTH
  {
    if |value| >= VECTOR_LENGTH then value[..VECTOR_LENGTH] else value + vector[|value|..]
  }

  function Zeros(): (r: seq<byte>)
    ensures |r| == VECTOR_LENGTH
  {
    [0, 0, 0, 0, 0, 0]
  }

  /** A short value leaves what an earlier child put behind it. */
  function VectorOf(children: seq<Tlv>): (r: seq<byte>)
    ensures |r| == VECTOR_LENGTH
  {
    if children == [] then Zeros()
    else
      var k := |children| - 1;
      var c := children[k];
      if HasTag(c, STATIC_STS_IV) && Accepts(c) then Overlaid(VectorOf(children[..k]), c.value) else VectorOf(children[..k])
  }

  function VendorOf(children: seq<Tlv>): nat {
    match Last(children, VENDOR_ID, Accepts)
    case None => 0
    case Some(c) => ReadSizeT(c.value) % UINT16_LIMIT
  }

  /** What the children say; None stands for a syntax error. */
  function Read(children: seq<Tlv>): Option<Info> {
    if TagsSeen(children, TAGS, Accepts) != TAGS then None
    else Some(Info(VendorOf(children), VectorOf(children)))
  }

  lemma {:induction false} OneMoreVector(children: seq<Tlv>, c: Tlv)
    ensures VectorOf(children + [c])
         == if HasTag(c, STATIC_STS_IV) && Accepts(c) then Overlaid(VectorOf(children), c.value) else VectorOf(children)
  {
    assert (children + [c])[..|children|] == children;
  }

  method FromDataObject(dataObject: Tlv) returns (r: Option<Info>)
    ensures r == Read(dataObject.values)
  {
    var children := dataObject.values;
    var info := Info(0, Zeros());
    var decoded: set<byte> := {};
    for i := 0 to |children|
      invariant decoded == TagsSeen(children[..i], TAGS, Accepts)
      invariant info == Info(VendorOf(children[..i]), VectorOf(children[..i]))
    {
      var c := children[i];
      assert children[..i + 1] == children[..i] + [c];
      OneMoreSeen(children[..i], c, TAGS, Accepts);
      OneMoreLast(children[..i], c, VENDOR_ID, Accepts);
      OneMoreVector(children[..i], c);
      hide Last, TagsSeen, ReadSizeT, VectorOf, Overlaid;
      if |c.tag| != 1 || c.tag[0] !in TAGS || c.value == [] {
        continue;
      }
      if c.tag[0] == VENDOR_ID {
        info := info.(vendorId := ReadSizeT(c.value) % UINT16_LIMIT);
      } else {
        info := info.(vector := Overlaid(info.vector, c.value));
      }
      decoded := decoded + {c.tag[0]};
    }
    assert children[..|children|] == children;
    AllSeenIff(decoded, TAGS);
    r := if |decoded| < |TAGS| then None else Some(info);
  }

  /** A syntax error exactly when some required tag has no child with a value. */
  lemma {:induction false} SyntaxErrorIff(children: seq<Tlv>)
    ensures Read(children) == None <==> exists t <- TAGS :: forall c <- children :: c.tag == [t] ==> c.value == []
  {
    forall t <- TAGS
      ensures t !in TagsSeen(children, TAGS, Accepts) <==> forall c <- children :: c.tag == [t] ==> c.value == []
    {
      LastIsAccepted(children, t, Accepts);
    }
  }

  /** With one child per tag the vector is that child's value over zeros. */
  lemma {:induction false} VectorOfLast(children: seq<Tlv>)
    requires OnePerTag(children, Accepts)
    ensures VectorOf(children) == match Last(children, STATIC_STS_IV, Accepts)
                                  case None => Zeros()
                                  case Some(c) => Overlaid(Zeros(), c.value)
  {
    if children != [] {
      var k := |children| - 1;
      assert children == children[..k] + [children[k]];
      VectorOfLast(children[..k]);
      LastIsAccepted(children[..k], STATIC_STS_IV, Accepts);
    }
  }

  /** The octet that the children leave at a place of the vector: that of the last accepted
      vector long enough to reach it, or zero. */
  function OctetLeftAt(children: seq<Tlv>, i: nat): byte {
    if children == [] then 0
    else
      var k := |children| - 1;
      var c := children[k];
      if HasTag(c, STATIC_STS_IV) && Accepts(c) && i < |c.value| then c.value[i] else OctetLeftAt(children[..k], i)
  }

  lemma {:induction false} VectorIsLeft(children: seq<Tlv>, i: nat)
    requires i < VECTOR_LENGTH
    ensures VectorOf(children)[i] == OctetLeftAt(children, i)
  {
    if children == [] {
      assert i == 0 || i == 1 || i == 2 || i == 3 || i == 4 || i == 5;
    } else {
      VectorIsLeft(children[..|children| - 1], i);
    }
  }

  /** The vector of the last vector child is read as that child's octets and zeros exactly
      when the earlier children left nothing but zeros behind its end. */
  lemma {:induction false} LastAloneIff(children: seq<Tlv>, c: Tlv)
    requires HasTag(c, STATIC_STS_IV) && Accepts(c)
    ensures VectorOf(children + [c]) == Overlaid(Zeros(), c.value)
       <==> forall i :: |c.value| <= i < VECTOR_LENGTH ==> OctetLeftAt(children, i) == 0
  {
    var after, alone := VectorOf(children + [c]), Overlaid(Zeros(), c.value);
    hide *;
    if forall i :: |c.value| <= i < VECTOR_LENGTH ==> OctetLeftAt(children, i) == 0 {
      forall i | 0 <= i < VECTOR_LENGTH ensures after[i] == alone[i] {
        LastAloneAt(children, c, i);
      }
      assert after == alone;
    } else {
      var i :| |c.value| <= i < VECTOR_LENGTH && OctetLeftAt(children, i) != 0;
      LastAloneAt(children, c, i);
    }
  }

  lemma {:induction false} LastAloneAt(children: seq<Tlv>, c: Tlv, i: nat)
    requires HasTag(c, STATIC_STS_IV) && Accepts(c) && i < VECTOR_LENGTH
    ensures VectorOf(children + [c])[i] == Overlaid(Zeros(), c.value)[i]
       <==> i < |c.value| || OctetLeftAt(children, i) == 0
  {
    OneMoreVector(children, c);
    VectorIsLeft(children, i);
    VectorIsLeft([], i);
    assert Zeros() == VectorOf([]);
    assert OctetLeftAt([], i) == 0;
    hide VectorOf, OctetLeftAt, Accepts, Zeros;
  }

  /** The two tags that are known, with a value that is not empty. */
  lemma {:induction false} AcceptsIff(c: Tlv)
    ensures Accepts(c) <==> (c.tag == [0x80] || c.tag == [0x81]) && c.value != []
    ensures TAGS == {0x80, 0x81}
  {
  }

  /** The vendor is the big-endian number of the last vendor child, cut to 16 bits; eight
      octets and more are read as 0. */
  lemma {:induction false} VendorSaysLast(children: seq<Tlv>, i: int)
    requires Read(children).Some? && IsLast(children, i, 0x80, Accepts)
    ensures Read(children).value.vendorId
         == if |children[i].value| < 8 then BigEndian(children[i].value) % 0x1_0000 else 0
  {
    LastAt(children, i, 0x80, Accepts);
    hide Last, Accepts, IsLast, TagsSeen, BigEndian;
  }

  /** Each octet of the vector is the one of the last vector child that reaches it, or 0. */
  lemma {:induction false} VectorSaysLast(children: seq<Tlv>, k: nat)
    requires Read(children).Some? && k < 6
    ensures forall i :: LastReaching(children, i, k) ==> Read(children).value.vector[k] == children[i].value[k]
    ensures (forall c <- children :: c.tag == [0x81] ==> |c.value| <= k) ==> Read(children).value.vector[k] == 0
  {
    VectorIsLeft(children, k);
    LeftIsLast(children, k);
    hide VectorOf, OctetLeftAt, TagsSeen, VendorOf;
  }

  ghost predicate LastReaching(children: seq<Tlv>, i: int, k: nat) {
    && 0 <= i < |children| && children[i].tag == [0x81] && |children[i].value| > k
    && forall j :: i < j < |children| && children[j].tag == [0x81] ==> |children[j].value| <= k
  }

  lemma {:induction false} LeftIsLast(children: seq<Tlv>, k: nat)
    requires k < 6
    ensures forall i :: LastReaching(children, i, k) ==> OctetLeftAt(children, k) == children[i].value[k]
    ensures (forall c <- children :: c.tag == [0x81] ==> |c.value| <= k) ==> OctetLeftAt(children, k) == 0
  {
    if children != [] {
      var n := |children| - 1;
      var front, c := children[..n], children[n];
      LeftIsLast(front, k);
      LeftStep(children, k);
      assert c in children;
      assert forall d <- front :: d in children;
      hide OctetLeftAt, Accepts, LastReaching;
      forall i | LastReaching(children, i, k) ensures OctetLeftAt(children, k) == children[i].value[k] {
        ReachesStep(children, i, k);
      }
    }
  }

  lemma {:induction false} LeftStep(children: seq<Tlv>, k: nat)
    requires k < 6 && children != []
    ensures var front, c := children[..|children| - 1], children[|children| - 1];
            OctetLeftAt(children, k) == if c.tag == [0x81] && |c.value| > k then c.value[k] else OctetLeftAt(front, k)
  {
  }

  lemma {:induction false} ReachesStep(children: seq<Tlv>, i: int, k: nat)
    requires LastReaching(children, i, k)
    ensures var n := |children| - 1;
            && n >= 0 && 0 <= i <= n && |children[i].value| > k
            && (i == n ==> children[n].tag == [0x81])
            && (i < n ==> LastReaching(children[..n], i, k) && !(children[n].tag == [0x81] && |children[n].value| > k))
  {
  }

  /** The octets of the object. */
  lemma {:induction false} Layout(s: Info)
    ensures Encode(ToDataObject(s)) == Field(0xA4, Field(0x80, Octets(s.vendorId, 2)) + Field(0x81, s.vector))
  {
    var children := ToDataObject(s).values;
    ObjectIsField(0xA4, children);
    LeafIsField(0x80, Octets(s.vendorId, 2));
    LeafIsField(0x81, s.vector);
    hide Field, Encode, EncodeAll, LengthOctets, Octets;
    EncodedFrom(children, 0);
    EncodedFrom(children, 1);
    EncodedFrom(children, 2);
    assert children[0..] == children;
    assert Field(0x81, s.vector) + [] == Field(0x81, s.vector);
  }

  /** An octet after six leaves five of the six. */
  lemma {:induction false} EarlierVectorShows()
    ensures VectorOf([Leaf(STATIC_STS_IV, [1, 2, 3, 4, 5, 6]), Leaf(STATIC_STS_IV, [9])]) == [9, 2, 3, 4, 5, 6]
  {
    var a, b := Leaf(STATIC_STS_IV, [1, 2, 3, 4, 5, 6]), Leaf(STATIC_STS_IV, [9]);
    assert [a, b][..1] == [a] && [a][..0] == [];
    assert VectorOf([a]) == [1, 2, 3, 4, 5, 6];
  }

  /** Neither the order of the children nor the ones that are not accepted matter. */
  lemma {:induction false} OrderDoesNotMatter(xs: seq<Tlv>, ys: seq<Tlv>)
    requires SameAccepted(xs, ys, Accepts) && OnePerTag(xs, Accepts)
    ensures Read(xs) == Read(ys)
  {
    SameSeen(xs, ys, TAGS, Accepts);
    SameLast(xs, ys, VENDOR_ID, Accepts);
    SameLast(xs, ys, STATIC_STS_IV, Accepts);
    SameOnePerTag(xs, ys, Accepts);
    VectorOfLast(xs);
    VectorOfLast(ys);
    hide Last, VectorOf, TagsSeen, Accepts;
  }

  lemma {:induction false} VendorRoundTrip(n: nat)
    requires n < UINT16_LIMIT
    ensures ReadSizeT(Octets(n, 2)) % UINT16_LIMIT == n
  {
    assert Pow256(2) == UINT16_LIMIT;
    ReadBack(n, 2);
  }

  lemma {:induction false} RoundTrip(s: Info)
    requires Valid(s)
    ensures Read(ToDataObject(s).values) == Some(s)
  {
    var a, b := ToDataObject(s).values[0], ToDataObject(s).values[1];
    var children := [a] + [b];
    assert ToDataObject(s).values == children;
    VendorRoundTrip(s.vendorId);
    hide Octets, ReadSizeT;
    assert Overlaid(VectorOf([a]), s.vector) == s.vector;
    assert children[..1] == [a];
    forall t <- TAGS ensures Last(children, t, Accepts) == Some(if t == VENDOR_ID then a else b) {
      OneMoreLast([], a, t, Accepts);
      OneMoreLast([a], b, t, Accepts);
      assert [] + [a] == [a];
    }
  }

  lemma {:induction false} DataObjectWellFormed(s: Info)
    ensures WellFormed(ToDataObject(s))
  {
    LeafWellFormed(VENDOR_ID, Octets(s.vendorId, 2));
    LeafWellFormed(STATIC_STS_IV, s.vector);
    ObjectWellFormed(TAG, ToDataObject(s).values);
    hide WellFormed, Octets;
  }

  /** From object to octets and back, whatever follows. */
  lemma {:induction false} WireRoundTrip(s: Info, more: seq<byte>)
    requires Valid(s)
    ensures var r := Decode(Encode(ToDataObject(s)) + more);
            r.Some? && r.value.size == |Encode(ToDataObject(s))| && Read(r.value.tlv.values) == Some(s)
  {
    DataObjectWellFormed(s);
    ShortChildrenSize(ToDataObject(s).values);
    RoundTrip(s);
    hide Read, Encode, EncodeAll, WellFormed;
    TlvBer.RoundTrip(ToDataObject(s), more);
  }
}
