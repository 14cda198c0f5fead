/** What the object decoders have in common: they go through the children of a data object,
    ignore those they do not accept, and let the last accepted child of a tag decide. */
module TaggedChildren {
  import opened Bytes
  import opened TlvBer

  predicate HasTag(c: Tlv, tag: byte) {
    c.tag == [tag]
  }

  /** A flag is written as one octet and read as its being other than zero. */
  predicate IsTrue(value: seq<byte>) {
    value != [] && value[0] != 0
  }

  /** The last accepted child with the tag. */
  function Last(children: seq<Tlv>, tag: byte, accepts: Tlv -> bool): Option<Tlv> {
    if children == [] then None
    else
      var k := |children| - 1;
      if HasTag(children[k], tag) && accepts(children[k]) then Some(children[k])
      else Last(children[..k], tag, accepts)
  }

  /** The accepted children of both lists are the same ones, in any order and number. */
  ghost predicate SameAccepted(xs: seq<Tlv>, ys: seq<Tlv>, accepts: Tlv -> bool) {
    forall c: Tlv :: accepts(c) ==> (c in xs <==> c in ys)
  }

  /** No two different accepted children have the same tag. */
  ghost predicate OnePerTag(children: seq<Tlv>, accepts: Tlv -> bool) {
    forall c, d :: c in children && d in children && accepts(c) && accepts(d) && c.tag == d.tag ==> c == d
  }

  lemma {:induction false} LastIsAccepted(children: seq<Tlv>, tag: byte, accepts: Tlv -> bool)
    ensures match Last(children, tag, accepts)
            case Some(c) => c in children && HasTag(c, tag) && accepts(c)
            case None => forall c <- children :: !(HasTag(c, tag) && accepts(c))
  {
    if children != [] {
      var k := |children| - 1;
      LastIsAccepted(children[..k], tag, accepts);
      assert children == children[..k] + [children[k]];
    }
  }

  lemma {:induction false} OneMoreLast(children: seq<Tlv>, c: Tlv, tag: byte, accepts: Tlv -> bool)
    ensures Last(children + [c], tag, accepts)
         == if HasTag(c, tag) && accepts(c) then Some(c) else Last(children, tag, accepts)
  {
    assert (children + [c])[..|children|] == children;
  }

  /** The i-th child is accepted for the tag, and no later one is. */
  ghost predicate IsLast(children: seq<Tlv>, i: int, tag: byte, accepts: Tlv -> bool) {
    && 0 <= i < |children| && children[i].tag == [tag] && accepts(children[i])
    && forall j :: i < j < |children| ==> !(children[j].tag == [tag] && accepts(children[j]))
  }

  lemma {:induction false} LastAt(children: seq<Tlv>, i: int, tag: byte, accepts: Tlv -> bool)
    requires IsLast(children, i, tag, accepts)
    ensures Last(children, tag, accepts) == Some(children[i])
    decreases |children|
  {
    var k := |children| - 1;
    if i < k {
      LastAt(children[..k], i, tag, accepts);
    }
  }

  lemma {:induction false} NoLast(children: seq<Tlv>, tag: byte, accepts: Tlv -> bool)
    requires forall c <- children :: !(c.tag == [tag] && accepts(c))
    ensures Last(children, tag, accepts) == None
  {
    LastIsAccepted(children, tag, accepts);
  }

  /** A child whose tag no other child has is the last one with it. */
  lemma {:induction false} LastIsIt(children: seq<Tlv>, k: nat, accepts: Tlv -> bool)
    requires k < |children| && |children[k].tag| == 1 && accepts(children[k])
    requires forall i :: 0 <= i < |children| && i != k ==> children[i].tag != children[k].tag
    ensures Last(children, children[k].tag[0], accepts) == Some(children[k])
  {
    LastIsAccepted(children, children[k].tag[0], accepts);
    hide Last;
    assert children[k].tag == [children[k].tag[0]];
    assert children[k] in children;
  }

  lemma {:induction false} SameLast(xs: seq<Tlv>, ys: seq<Tlv>, tag: byte, accepts: Tlv -> bool)
    requires SameAccepted(xs, ys, accepts) && OnePerTag(xs, accepts)
    ensures Last(xs, tag, accepts) == Last(ys, tag, accepts)
  {
    LastIsAccepted(xs, tag, accepts);
    LastIsAccepted(ys, tag, accepts);
    hide Last;
  }

  lemma {:induction false} SameOnePerTag(xs: seq<Tlv>, ys: seq<Tlv>, accepts: Tlv -> bool)
    requires SameAccepted(xs, ys, accepts) && OnePerTag(xs, accepts)
    ensures OnePerTag(ys, accepts)
  {
  }

  /** A permutation has the same accepted children, */
  lemma {:induction false} PermutationIsSame(xs: seq<Tlv>, ys: seq<Tlv>, accepts: Tlv -> bool)
    requires multiset(xs) == multiset(ys)
    ensures SameAccepted(xs, ys, accepts)
  {
    forall c: Tlv ensures c in xs <==> c in ys {
      assert c in xs <==> c in multiset(xs);
      assert c in ys <==> c in multiset(ys);
    }
  }

  /** and so has a list with a child put in anywhere that is not accepted. */
  lemma {:induction false} InsertionIsSame(before: seq<Tlv>, unknown: Tlv, after: seq<Tlv>, accepts: Tlv -> bool)
    requires !accepts(unknown)
    ensures SameAccepted(before + [unknown] + after, before + after, accepts)
  {
  }

  /** The known tags for which some child was accepted. */
  function TagsSeen(children: seq<Tlv>, tags: set<byte>, accepts: Tlv -> bool): set<byte> {
    set t | t in tags && Last(children, t, accepts).Some?
  }

  lemma {:induction false} OneMoreSeen(children: seq<Tlv>, c: Tlv, tags: set<byte>, accepts: Tlv -> bool)
    ensures TagsSeen(children + [c], tags, accepts)
         == TagsSeen(children, tags, accepts) + (if accepts(c) && |c.tag| == 1 && c.tag[0] in tags then {c.tag[0]} else {})
  {
    forall t: byte ensures Last(children + [c], t, accepts).Some?
                <==> Last(children, t, accepts).Some? || (accepts(c) && c.tag == [t])
    {
      OneMoreLast(children, c, t, accepts);
    }
  }

  lemma {:induction false} SameSeen(xs: seq<Tlv>, ys: seq<Tlv>, tags: set<byte>, accepts: Tlv -> bool)
    requires SameAccepted(xs, ys, accepts) && OnePerTag(xs, accepts)
    ensures TagsSeen(xs, tags, accepts) == TagsSeen(ys, tags, accepts)
  {
    forall t: byte ensures Last(xs, t, accepts) == Last(ys, t, accepts) {
      SameLast(xs, ys, t, accepts);
    }
  }

  /** Comparing sizes is comparing sets. */
  lemma {:induction false} AllSeenIff(seen: set<byte>, tags: set<byte>)
    requires seen <= tags
    ensures |seen| < |tags| <==> seen != tags
  {
    assert tags == seen + (tags - seen);
    assert |tags| == |seen| + |tags - seen|;
    assert |tags - seen| == 0 <==> tags - seen == {};
  }

  // ---- Making objects

  /** An object with a tag of one octet. */
  function Object(tag: byte, value: seq<byte>, values: seq<Tlv>): Tlv {
    Tlv(ClassOf(tag), TypeOf(tag), tag % 32, [tag], value, values)
  }

  function Leaf(tag: byte, value: seq<byte>): Tlv {
    Object(tag, value, [])
  }

  lemma {:induction false} LeafWellFormed(tag: byte, value: seq<byte>)
    requires tag % 32 != 31 && TypeOf(tag) == Primitive
    ensures WellFormed(Leaf(tag, value))
  {
    assert [tag][..1] == [tag];
  }

  lemma {:induction false} ObjectWellFormed(tag: byte, values: seq<Tlv>)
    requires tag % 32 != 31 && TypeOf(tag) == Constructed && forall c <- values :: WellFormed(c)
    ensures WellFormed(Object(tag, [], values))
  {
    assert [tag][..1] == [tag];
  }

  /** A tag of one octet, the length, the content. */
  function Field(tag: byte, content: seq<byte>): seq<byte> {
    [tag] + LengthOctets(|content|) + content
  }

  lemma {:induction false} LeafIsField(tag: byte, value: seq<byte>)
    requires TypeOf(tag) == Primitive
    ensures Encode(Leaf(tag, value)) == Field(tag, value)
  {
    hide LengthOctets;
  }

  lemma {:induction false} ObjectIsField(tag: byte, values: seq<Tlv>)
    requires TypeOf(tag) == Constructed
    ensures Encode(Object(tag, [], values)) == Field(tag, EncodeAll(values))
  {
    hide LengthOctets, EncodeAll;
  }

  lemma {:induction false} EncodedFrom(children: seq<Tlv>, k: nat)
    requires k <= |children|
    ensures EncodeAll(children[k..])
         == if k == |children| then [] else Encode(children[k]) + EncodeAll(children[k + 1..])
  {
    if k < |children| {
      assert children[k..][1..] == children[k + 1..];
    }
    hide Encode;
  }

  const SHORT_CONTENT: nat := 8

  lemma {:induction false} ShortChildSize(c: Tlv)
    requires |c.tag| == 1 && |Content(c)| <= SHORT_CONTENT
    ensures |Encode(c)| <= SHORT_CONTENT + 2
  {
    hide Content;
  }

  /** A bound on the octets of children with little content. */
  lemma {:induction false} ShortChildrenSize(children: seq<Tlv>)
    requires forall c <- children :: |c.tag| == 1 && |Content(c)| <= SHORT_CONTENT
    ensures |EncodeAll(children)| <= (SHORT_CONTENT + 2) * |children|
  {
    if children != [] {
      ShortChildrenSize(children[1..]);
      ShortChildSize(children[0]);
      hide Encode, Content;
    }
  }
}
