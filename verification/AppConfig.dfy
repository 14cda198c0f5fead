/** A session's application configuration: an ordered set that compares entries by type only. */
module AppConfig {
  import opened Bytes

  type ParameterType = nat

  datatype Parameter = Parameter(typ: ParameterType, value: seq<byte>)

  /** The set's order: one entry per type, ascending. */
  predicate Ordered(ps: seq<Parameter>) {
    forall i, j :: 0 <= i < j < |ps| ==> ps[i].typ < ps[j].typ
  }

  function Lookup(ps: seq<Parameter>, t: ParameterType): Option<seq<byte>> {
    if ps == [] then None
    else if ps[0].typ == t then Some(ps[0].value)
    else Lookup(ps[1..], t)
  }

  /** The set without the entry equivalent to one of type t, if there is one. */
  function Extracted(ps: seq<Parameter>, t: ParameterType): (r: seq<Parameter>)
    ensures forall p <- r :: p in ps && p.typ != t
  {
    if ps == [] then []
    else (if ps[0].typ == t then [] else [ps[0]]) + Extracted(ps[1..], t)
  }

  /** Insertion does nothing when an equivalent entry is present. */
  function Inserted(ps: seq<Parameter>, p: Parameter): (r: seq<Parameter>)
    ensures forall q <- r :: q in ps || q == p
  {
    if ps == [] || p.typ < ps[0].typ then [p] + ps
    else if p.typ == ps[0].typ then ps
    else [ps[0]] + Inserted(ps[1..], p)
  }

  /** Take the old entry out, put the new value in. */
  function Updated(ps: seq<Parameter>, p: Parameter): seq<Parameter> {
    Inserted(Extracted(ps, p.typ), p)
  }

  function UpdatedAll(ps: seq<Parameter>, changes: seq<Parameter>): seq<Parameter> {
    if changes == [] then ps
    else
      var k := |changes| - 1;
      Updated(UpdatedAll(ps, changes[..k]), changes[k])
  }

  /** The value of type t that comes last among the changes. */
  function LastOf(changes: seq<Parameter>, t: ParameterType): Option<seq<byte>> {
    if changes == [] then None
    else
      var k := |changes| - 1;
      if changes[k].typ == t then Some(changes[k].value) else LastOf(changes[..k], t)
  }

  /** The entries whose type is asked for, in the set's order. */
  function Selected(ps: seq<Parameter>, types: seq<ParameterType>): seq<Parameter> {
    if ps == [] then []
    else
      var k := |ps| - 1;
      Selected(ps[..k], types) + (if ps[k].typ in types then [ps[k]] else [])
  }

  lemma {:induction false} ExtractedOrdered(ps: seq<Parameter>, t: ParameterType)
    requires Ordered(ps)
    ensures Ordered(Extracted(ps, t))
  {
    if ps != [] {
      ExtractedOrdered(ps[1..], t);
      var r := Extracted(ps[1..], t);
      forall p <- r ensures ps[0].typ < p.typ { }
      InFront(ps[0], r);
      hide Ordered;
    }
  }

  lemma {:induction false} InFront(p: Parameter, ps: seq<Parameter>)
    requires Ordered(ps) && forall q <- ps :: p.typ < q.typ
    ensures Ordered([p] + ps)
  {
    assert forall i :: 0 <= i < |ps| ==> ps[i] in ps;
  }

  lemma {:induction false} InsertedOrdered(ps: seq<Parameter>, p: Parameter)
    requires Ordered(ps)
    ensures Ordered(Inserted(ps, p))
  {
    if ps != [] && p.typ > ps[0].typ {
      InsertedOrdered(ps[1..], p);
      var r := Inserted(ps[1..], p);
      assert forall i :: 0 <= i < |r| ==> r[i] in r;
    }
  }

  lemma {:induction false} LookupExtracted(ps: seq<Parameter>, t: ParameterType, u: ParameterType)
    ensures Lookup(Extracted(ps, t), u) == if u == t then None else Lookup(ps, u)
  {
    if ps != [] {
      LookupExtracted(ps[1..], t, u);
      var r := Extracted(ps[1..], t);
      if ps[0].typ != t {
        assert ([ps[0]] + r)[1..] == r;
      } else {
        assert [] + r == r;
      }
    }
  }

  lemma {:induction false} LookupAbsent(ps: seq<Parameter>, t: ParameterType)
    requires Ordered(ps) && (ps == [] || t < ps[0].typ)
    ensures Lookup(ps, t) == None
  {
    if ps != [] {
      LookupAbsent(ps[1..], t);
    }
  }

  lemma {:induction false} LookupInserted(ps: seq<Parameter>, p: Parameter, u: ParameterType)
    requires Ordered(ps)
    ensures Lookup(Inserted(ps, p), u)
         == if u == p.typ && Lookup(ps, u) == None then Some(p.value) else Lookup(ps, u)
  {
    if ps == [] || p.typ < ps[0].typ {
      LookupAbsent(ps, p.typ);
      assert ([p] + ps)[1..] == ps;
    } else if p.typ > ps[0].typ {
      LookupInserted(ps[1..], p, u);
      var r := Inserted(ps[1..], p);
      assert ([ps[0]] + r)[1..] == r;
    }
  }

  /** Setting a type changes the entry of that type and no other. */
  lemma {:induction false} LookupUpdated(ps: seq<Parameter>, p: Parameter, u: ParameterType)
    requires Ordered(ps)
    ensures Ordered(Updated(ps, p))
    ensures Lookup(Updated(ps, p), u) == if u == p.typ then Some(p.value) else Lookup(ps, u)
  {
    ExtractedOrdered(ps, p.typ);
    InsertedOrdered(Extracted(ps, p.typ), p);
    LookupInserted(Extracted(ps, p.typ), p, u);
    LookupExtracted(ps, p.typ, u);
  }

  lemma {:induction false} UpdatedAllOrdered(ps: seq<Parameter>, changes: seq<Parameter>)
    requires Ordered(ps)
    ensures Ordered(UpdatedAll(ps, changes))
  {
    if changes != [] {
      var k := |changes| - 1;
      UpdatedAllOrdered(ps, changes[..k]);
      LookupUpdated(UpdatedAll(ps, changes[..k]), changes[k], 0);
    }
  }

  /** A list of changes gives each of its types its last value and leaves the others alone. */
  lemma {:induction false} LookupUpdatedAll(ps: seq<Parameter>, changes: seq<Parameter>, u: ParameterType)
    requires Ordered(ps)
    ensures Lookup(UpdatedAll(ps, changes), u)
         == match LastOf(changes, u) case Some(v) => Some(v) case None => Lookup(ps, u)
  {
    if changes != [] {
      var k := |changes| - 1;
      UpdatedAllOrdered(ps, changes[..k]);
      LookupUpdatedAll(ps, changes[..k], u);
      LookupUpdated(UpdatedAll(ps, changes[..k]), changes[k], u);
    }
  }

  lemma {:induction false} LastOfIsRequested(changes: seq<Parameter>, t: ParameterType)
    ensures match LastOf(changes, t)
            case Some(v) => Parameter(t, v) in changes
            case None => forall p <- changes :: p.typ != t
  {
    if changes != [] {
      var k := |changes| - 1;
      LastOfIsRequested(changes[..k], t);
      assert changes == changes[..k] + [changes[k]];
    }
  }

  lemma {:induction false} FirstIsLeast(ps: seq<Parameter>, p: Parameter)
    requires ps != [] && Ordered(ps) && p in ps[1..]
    ensures ps[0].typ < p.typ
  {
    var i :| 0 <= i < |ps[1..]| && ps[1..][i] == p;
    assert ps[i + 1] == p;
  }

  lemma {:induction false} LookupIsMember(ps: seq<Parameter>, t: ParameterType, v: seq<byte>)
    requires Ordered(ps)
    ensures Lookup(ps, t) == Some(v) <==> Parameter(t, v) in ps
  {
    if ps != [] {
      LookupIsMember(ps[1..], t, v);
      assert Parameter(t, v) in ps <==> Parameter(t, v) == ps[0] || Parameter(t, v) in ps[1..] by {
        assert ps == [ps[0]] + ps[1..];
      }
      if Parameter(t, v) in ps[1..] {
        FirstIsLeast(ps, Parameter(t, v));
      }
    }
  }

  /** A query returns exactly the entries of the types asked for, each once, in order. */
  lemma {:induction false} SelectedExactly(ps: seq<Parameter>, types: seq<ParameterType>)
    requires Ordered(ps)
    ensures Ordered(Selected(ps, types))
    ensures forall p :: p in Selected(ps, types) <==> p in ps && p.typ in types
  {
    if ps != [] {
      var k := |ps| - 1;
      var front, r := ps[..k], Selected(ps[..k], types);
      SelectedExactly(front, types);
      assert ps == front + [ps[k]];
      forall i | 0 <= i < |r| ensures r[i].typ < ps[k].typ {
        assert r[i] in front;
      }
    }
  }

  /** Asking for a type finds what the set holds for it. */
  lemma {:induction false} LookupSelected(ps: seq<Parameter>, types: seq<ParameterType>, t: ParameterType)
    requires Ordered(ps)
    ensures Lookup(Selected(ps, types), t) == if t in types then Lookup(ps, t) else None
  {
    SelectedExactly(ps, types);
    var found := Selected(ps, types);
    hide Lookup, Selected, Ordered;
    match Lookup(found, t) {
      case Some(v) =>
        LookupIsMember(found, t, v);
        LookupIsMember(ps, t, v);
      case None =>
        match Lookup(ps, t) {
          case Some(v) =>
            LookupIsMember(ps, t, v);
            LookupIsMember(found, t, v);
          case None =>
        }
    }
  }

  // ---- Setting a list of parameters on a session

  datatype SetStatus = Accepted | RefusedWhileActive

  datatype ParameterStatus = ParameterStatus(status: SetStatus, typ: ParameterType)

  const BLOCK_STRIDE_LENGTH: ParameterType := 0x2D
  const RANGING_INTERVAL: ParameterType := 0x09
  const RANGE_DATA_NTF_CONFIG: ParameterType := 0x0E
  const RANGE_DATA_NTF_PROXIMITY_NEAR: ParameterType := 0x0F
  const RANGE_DATA_NTF_PROXIMITY_FAR: ParameterType := 0x10

  predicate ChangeableWhileActive(t: ParameterType) {
    t in {BLOCK_STRIDE_LENGTH, RANGING_INTERVAL, RANGE_DATA_NTF_CONFIG,
          RANGE_DATA_NTF_PROXIMITY_NEAR, RANGE_DATA_NTF_PROXIMITY_FAR}
  }

  predicate Allowed(active: bool, p: Parameter) {
    active ==> ChangeableWhileActive(p.typ)
  }

  /** What a partition promises: the allowed ones in front, in no particular order. */
  ghost predicate IsPartition(active: bool, requested: seq<Parameter>, allowed: seq<Parameter>,
                              refused: seq<Parameter>) {
    && multiset(allowed + refused) == multiset(requested)
    && (forall p <- allowed :: Allowed(active, p))
    && (forall p <- refused :: !Allowed(active, p))
  }

  function StatusesOf(ps: seq<Parameter>, status: SetStatus): (r: seq<ParameterStatus>)
    ensures |r| == |ps|
    ensures forall i :: 0 <= i < |ps| ==> r[i] == ParameterStatus(status, ps[i].typ)
  {
    seq(|ps|, i requires 0 <= i < |ps| => ParameterStatus(status, ps[i].typ))
  }

  /** The refused ones are reported first. */
  function Statuses(allowed: seq<Parameter>, refused: seq<Parameter>): seq<ParameterStatus> {
    StatusesOf(refused, RefusedWhileActive) + StatusesOf(allowed, Accepted)
  }

  lemma {:induction false} OneMoreChange(ps: seq<Parameter>, changes: seq<Parameter>, i: nat)
    requires i < |changes|
    ensures UpdatedAll(ps, changes[..i + 1]) == Updated(UpdatedAll(ps, changes[..i]), changes[i])
  {
    hide Updated;
    assert changes[..i + 1][..i] == changes[..i];
  }

  lemma {:induction false} OneMoreStatus(changes: seq<Parameter>, i: nat)
    requires i < |changes|
    ensures StatusesOf(changes[..i + 1], Accepted)
         == StatusesOf(changes[..i], Accepted) + [ParameterStatus(Accepted, changes[i].typ)]
  {
  }

  function StatusTypes(ss: seq<ParameterStatus>): (r: seq<ParameterType>)
    ensures |r| == |ss| && forall i :: 0 <= i < |ss| ==> r[i] == ss[i].typ
  {
    seq(|ss|, i requires 0 <= i < |ss| => ss[i].typ)
  }

  function Types(ps: seq<Parameter>): (r: seq<ParameterType>)
    ensures |r| == |ps| && forall i :: 0 <= i < |ps| ==> r[i] == ps[i].typ
  {
    seq(|ps|, i requires 0 <= i < |ps| => ps[i].typ)
  }

  /** All but one. */
  function Rest<T>(xs: seq<T>, k: nat): (r: seq<T>)
    requires k < |xs|
    ensures |r| == |xs| - 1
  {
    xs[..k] + xs[k + 1..]
  }

  lemma {:induction false} TakenOut<T>(xs: seq<T>, k: nat)
    requires k < |xs|
    ensures multiset(xs) == multiset(Rest(xs, k)) + multiset{xs[k]}
  {
    assert xs == xs[..k] + [xs[k]] + xs[k + 1..];
  }

  lemma {:induction false} TypesTakenOut(ps: seq<Parameter>, k: nat)
    requires k < |ps|
    ensures multiset(Types(ps)) == multiset(Types(Rest(ps, k))) + multiset{ps[k].typ}
  {
    TakenOut(Types(ps), k);
    assert Types(Rest(ps, k)) == Rest(Types(ps), k);
  }

  lemma {:induction false} SameRest<T>(xs: seq<T>, i: nat, ys: seq<T>, k: nat)
    requires i < |xs| && k < |ys| && xs[i] == ys[k]
    requires multiset(xs) == multiset(ys)
    ensures multiset(Rest(xs, i)) == multiset(Rest(ys, k))
  {
    TakenOut(xs, i);
    TakenOut(ys, k);
    hide Rest;
    var m, n := multiset(Rest(xs, i)), multiset(Rest(ys, k));
    assert m == multiset(xs) - multiset{xs[i]};
    assert n == multiset(ys) - multiset{ys[k]};
  }

  lemma {:induction false} SamePlace<T>(xs: seq<T>, ys: seq<T>) returns (k: nat)
    requires xs != [] && multiset(xs) == multiset(ys)
    ensures k < |ys| && ys[k] == xs[0]
  {
    assert xs[0] in multiset(xs);
    assert xs[0] in ys;
    k :| 0 <= k < |ys| && ys[k] == xs[0];
  }

  lemma {:induction false} EmptyBag<T>(xs: seq<T>)
    requires multiset(xs) == multiset{}
    ensures xs == []
  {
    assert |multiset(xs)| == 0;
  }

  lemma {:induction false} TypesOfSameBag(xs: seq<Parameter>, ys: seq<Parameter>)
    requires multiset(xs) == multiset(ys)
    ensures multiset(Types(xs)) == multiset(Types(ys))
    decreases |xs|
  {
    if xs == [] {
      EmptyBag(ys);
    } else {
      hide *;
      var k := SamePlace(xs, ys);
      SameRest(xs, 0, ys, k);
      TypesTakenOut(xs, 0);
      TypesTakenOut(ys, k);
      TypesOfSameBag(Rest(xs, 0), Rest(ys, k));
    }
  }

  lemma {:induction false} PartitionMembers(active: bool, requested: seq<Parameter>, allowed: seq<Parameter>,
                                            refused: seq<Parameter>, p: Parameter)
    requires IsPartition(active, requested, allowed, refused)
    ensures p in allowed <==> p in requested && Allowed(active, p)
  {
    assert p in requested <==> p in multiset(requested);
    assert p in multiset(allowed + refused) <==> p in allowed + refused;
  }

  /** One status per requested parameter, whatever order the partition chose. */
  lemma {:induction false} OneStatusEach(active: bool, requested: seq<Parameter>, allowed: seq<Parameter>,
                                         refused: seq<Parameter>)
    requires IsPartition(active, requested, allowed, refused)
    ensures multiset(StatusTypes(Statuses(allowed, refused))) == multiset(Types(requested))
    ensures forall s <- Statuses(allowed, refused) ::
              s.status == Accepted <==> (active ==> ChangeableWhileActive(s.typ))
  {
    TypesOfSameBag(allowed + refused, requested);
    assert Types(allowed + refused) == Types(allowed) + Types(refused);
    assert StatusTypes(Statuses(allowed, refused)) == Types(refused) + Types(allowed);
    forall s <- Statuses(allowed, refused)
      ensures s.status == Accepted <==> (active ==> ChangeableWhileActive(s.typ))
    {
      var i :| 0 <= i < |Statuses(allowed, refused)| && Statuses(allowed, refused)[i] == s;
      if i < |refused| {
        assert refused[i] in refused;
      } else {
        assert allowed[i - |refused|] in allowed;
      }
    }
  }

  /** Whatever order the partition chose: refused types and types not mentioned keep their
      entries, every accepted type ends up with one of the values requested for it, and
      there is still one entry per type. */
  lemma {:induction false} SetEffect(active: bool, ps: seq<Parameter>, requested: seq<Parameter>,
                                     allowed: seq<Parameter>, refused: seq<Parameter>, t: ParameterType)
    requires Ordered(ps) && IsPartition(active, requested, allowed, refused)
    ensures var ps' := UpdatedAll(ps, allowed);
            && Ordered(ps')
            && (t !in Types(requested) || (active && !ChangeableWhileActive(t)) ==> Lookup(ps', t) == Lookup(ps, t))
            && (t in Types(requested) && (active ==> ChangeableWhileActive(t)) ==>
                  Lookup(ps', t).Some? && Parameter(t, Lookup(ps', t).value) in requested)
  {
    UpdatedAllOrdered(ps, allowed);
    LookupUpdatedAll(ps, allowed, t);
    LastOfIsRequested(allowed, t);
    hide UpdatedAll, LastOf, Ordered, Lookup, IsPartition;
    match LastOf(allowed, t) {
      case Some(v) =>
        PartitionMembers(active, requested, allowed, refused, Parameter(t, v));
        TypesMember(requested, Parameter(t, v));
      case None =>
        if t in Types(requested) {
          var i :| 0 <= i < |requested| && requested[i].typ == t;
          PartitionMembers(active, requested, allowed, refused, requested[i]);
        }
    }
  }

  lemma {:induction false} TypesMember(ps: seq<Parameter>, p: Parameter)
    requires p in ps
    ensures p.typ in Types(ps)
  {
    var i :| 0 <= i < |ps| && ps[i] == p;
    assert Types(ps)[i] == p.typ;
  }

  /** A partition in place, from both ends. */
  method Partition(active: bool, requested: seq<Parameter>) returns (allowed: seq<Parameter>, refused: seq<Parameter>)
    ensures IsPartition(active, requested, allowed, refused)
    ensures !active ==> allowed == requested && refused == []
  {
    var ps, lo, hi := requested, 0, |requested|;
    while lo < hi
      invariant 0 <= lo <= hi <= |ps| == |requested|
      invariant multiset(ps) == multiset(requested)
      invariant forall i :: 0 <= i < lo ==> Allowed(active, ps[i])
      invariant forall i :: hi <= i < |ps| ==> !Allowed(active, ps[i])
      invariant !active ==> ps == requested && hi == |requested|
    {
      if Allowed(active, ps[lo]) {
        lo := lo + 1;
      } else {
        hi := hi - 1;
        ps := ps[lo := ps[hi]][hi := ps[lo]];
      }
    }
    allowed, refused := ps[..lo], ps[lo..];
    assert ps == allowed + refused;
  }
}
