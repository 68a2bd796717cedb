/** Chord identifiers as 20-byte big-endian strings, the node list, and the inferred finger links
    (frontend/src/topology.rs). */
module Chord {
  import opened Wrappers
  import opened Text

  newtype u8 = x: int | 0 <= x < 256

  const CHORD_ID_BYTES: nat := 20
  const CHORD_ID_BITS: nat := 160

  // -------------------------------------------------------------------------
  // Values
  // -------------------------------------------------------------------------

  function Pow(base: nat, exponent: nat): (power: nat)
    ensures base > 0 ==> power > 0
  {
    if exponent == 0 then 1 else base * Pow(base, exponent - 1)
  }

  // The size of the identifier ring, 2^160.
  function Ring(): (size: nat)
    ensures size > 0
  {
    PowPositive(256, CHORD_ID_BYTES);
    Pow(256, CHORD_ID_BYTES)
  }

  /** The integer that `bytes` encodes, most significant byte first. */
  function Value(bytes: seq<u8>): nat {
    if bytes == [] then 0 else 256 * Value(bytes[..|bytes| - 1]) + bytes[|bytes| - 1] as nat
  }

  lemma {:induction false} PowAdds(base: nat, a: nat, b: nat)
    ensures Pow(base, a + b) == Pow(base, a) * Pow(base, b)
  {
    if a > 0 {
      PowStep(base, a - 1);
      PowStep(base, a - 1 + b);
      hide Pow;
      PowAdds(base, a - 1, b);
      Associate(base, Pow(base, a - 1), Pow(base, b));
    }
  }

  lemma Associate(x: nat, y: nat, z: nat)
    ensures x * (y * z) == (x * y) * z
  {}

  lemma {:induction false} PowPositive(base: nat, exponent: nat)
    requires base > 0
    ensures Pow(base, exponent) > 0
  {
    if exponent > 0 {
      PowPositive(base, exponent - 1);
    }
  }

  lemma {:induction false} PowOf256(exponent: nat)
    ensures Pow(256, exponent) == Pow(2, 8 * exponent)
  {
    if exponent > 0 {
      PowOf256(exponent - 1);
      PowAdds(2, 8, 8 * (exponent - 1));
      assert Pow(2, 8) == 256 by {
        assert Pow(2, 4) == 16;
        PowAdds(2, 4, 4);
      }
    }
  }

  lemma {:induction false} ValueBound(bytes: seq<u8>)
    ensures Value(bytes) < Pow(256, |bytes|)
  {
    if bytes != [] {
      ValueBound(bytes[..|bytes| - 1]);
    }
  }

  function Scale(factor: int, weight: int): int {
    factor * weight
  }

  lemma {:induction false} ValueOfUpdate(bytes: seq<u8>, at: nat, b: u8)
    requires at < |bytes|
    ensures Value(bytes[at := b]) == Value(bytes) + Scale(b as int - bytes[at] as int, Pow(256, |bytes| - 1 - at))
  {
    var n := |bytes| - 1;
    if at == n {
      assert bytes[at := b][..n] == bytes[..n];
    } else {
      assert bytes[at := b][..n] == bytes[..n][at := b];
      ValueOfUpdate(bytes[..n], at, b);
      assert Pow(256, n - at) == 256 * Pow(256, n - 1 - at);
      hide Pow;
      ScaleBy256(b as int - bytes[at] as int, Pow(256, n - 1 - at));
    }
  }

  lemma ScaleBy256(factor: int, weight: nat)
    ensures 256 * (factor * weight) == factor * (256 * weight)
  {}

  // -------------------------------------------------------------------------
  // id + 2^e modulo 2^160, by carry propagation
  // -------------------------------------------------------------------------

  lemma PowerSplit(exponent: nat)
    ensures Pow(2, exponent) == Pow(2, exponent % 8) * Pow(256, exponent / 8)
    ensures 1 <= Pow(2, exponent % 8) <= 128
  {
    PowAdds(2, exponent % 8, 8 * (exponent / 8));
    PowOf256(exponent / 8);
    SmallPower(exponent % 8);
  }

  lemma {:induction false} SmallPower(r: nat)
    requires r < 8
    ensures 1 <= Pow(2, r) <= 128
    decreases 8 - r
  {
    if r == 7 {
      assert Pow(2, 3) == 8 && Pow(2, 4) == 16;
      PowAdds(2, 3, 4);
    } else {
      SmallPower(r + 1);
      PowPositive(2, r);
    }
  }

  // Storing the low byte and carrying the rest keeps the sum of the value and the pending carry.
  lemma CarryStep(bytes: seq<u8>, index: nat, carry: nat)
    requires index < |bytes|
    ensures var sum := bytes[index] as nat + carry;
            Value(bytes[index := (sum % 256) as u8]) + Scale(sum / 256, Pow(256, |bytes| - index))
            == Value(bytes) + Scale(carry, Pow(256, |bytes| - 1 - index))
  {
    hide Pow, Value, Scale;
    var sum := bytes[index] as nat + carry;
    StoreDigit(bytes, index, carry, (sum % 256) as u8, sum / 256);
  }

  lemma StoreDigit(bytes: seq<u8>, index: nat, carry: nat, low: u8, high: nat)
    requires index < |bytes| && bytes[index] as nat + carry == 256 * high + low as nat
    ensures Value(bytes[index := low]) + Scale(high, Pow(256, |bytes| - index))
            == Value(bytes) + Scale(carry, Pow(256, |bytes| - 1 - index))
  {
    hide Pow, Value, Scale;
    var digit, weight := bytes[index], Pow(256, |bytes| - 1 - index);
    ValueOfUpdate(bytes, index, low);
    PowStep(256, |bytes| - 1 - index);
    CarrySplit(low as int - digit as int, high, carry, weight);
  }

  lemma PowStep(base: nat, exponent: nat)
    ensures Pow(base, exponent + 1) == base * Pow(base, exponent)
  {}

  lemma CarrySplit(change: int, high: nat, carry: nat, weight: nat)
    requires carry == change + 256 * high
    ensures Scale(change, weight) + Scale(high, 256 * weight) == Scale(carry, weight)
  {
    Distribute(change, high, weight);
  }

  lemma Distribute(change: int, high: nat, weight: nat)
    ensures (change + 256 * high) * weight == change * weight + high * (256 * weight)
  {}

  lemma RemainderIs(value: nat, turns: nat, total: nat, modulus: nat)
    requires value < modulus && value + turns * modulus == total
    ensures total % modulus == value
  {
    var q, r := total / modulus, total % modulus;
    assert total == q * modulus + r;
    assert (q - turns) * modulus == value - r;
    NoSmallMultiple(q - turns, modulus);
  }

  lemma NoSmallMultiple(k: int, modulus: int)
    requires 0 - modulus < k * modulus < modulus
    ensures k == 0
  {}

  // From 160 on, 2^e is a whole number of turns of the ring.
  lemma WholeTurns(value: nat, exponent: nat)
    requires value < Ring() && exponent >= CHORD_ID_BITS
    ensures (value + Pow(2, exponent)) % Ring() == value
  {
    hide Pow;
    PowAdds(2, exponent - CHORD_ID_BITS, CHORD_ID_BITS);
    PowOf256(CHORD_ID_BYTES);
    RemainderIs(value, Pow(2, exponent - CHORD_ID_BITS), value + Pow(2, exponent), Ring());
  }

  /** The identifier 2^exponent clockwise of `id`. */
  method ChordAddPowerOfTwo(id: seq<u8>, exponent: nat) returns (sum: seq<u8>)
    requires |id| == CHORD_ID_BYTES
    ensures |sum| == CHORD_ID_BYTES && Value(sum) == (Value(id) + Pow(2, exponent)) % Ring()
  {
    hide Pow, Value;
    ValueBound(id);
    if exponent >= CHORD_ID_BITS {
      WholeTurns(Value(id), exponent);
      return id;
    }
    ghost var total := Value(id) + Pow(2, exponent);
    ghost var turns := 0;
    var out := new u8[CHORD_ID_BYTES](k requires 0 <= k < CHORD_ID_BYTES => id[k]);
    assert out[..] == id;
    var index := CHORD_ID_BYTES - 1 - exponent / 8;
    var carry := Pow(2, exponent % 8);
    PowerSplit(exponent);
    while carry > 0
      invariant 0 <= index < CHORD_ID_BYTES && turns == 0
      invariant 0 <= carry <= 128
      invariant Value(out[..]) + Scale(carry, Pow(256, CHORD_ID_BYTES - 1 - index)) == total
      decreases index
    {
      var value := out[index] as nat + carry;
      CarryStep(out[..], index, carry);
      ghost var updated := out[..][index := (value % 256) as u8];
      out[index] := (value % 256) as u8;
      assert out[..] == updated;
      carry := value / 256;
      if index == 0 {
        turns := carry;
        assert Value(out[..]) + turns * Ring() == total;
        break;
      }
      index := index - 1;
    }
    sum := out[..];
    if turns == 0 {
      assert Scale(carry, Pow(256, CHORD_ID_BYTES - 1 - index)) == 0;
    }
    ValueBound(sum);
    RemainderIs(Value(sum), turns, total, Ring());
  }

  // -------------------------------------------------------------------------
  // The first node at or after a point of the ring
  // -------------------------------------------------------------------------

  /** The order of byte arrays: lexicographic. */
  predicate Less(a: seq<u8>, b: seq<u8>)
    requires |a| == |b|
  {
    a != [] && (a[0] < b[0] || (a[0] == b[0] && Less(a[1..], b[1..])))
  }

  lemma {:induction false} ValueFromFront(bytes: seq<u8>)
    requires bytes != []
    ensures Value(bytes) == bytes[0] as nat * Pow(256, |bytes| - 1) + Value(bytes[1..])
  {
    var n := |bytes| - 1;
    if n > 0 {
      ValueFromFront(bytes[..n]);
      assert bytes[..n][1..] == bytes[1..][..n - 1];
      assert Pow(256, n) == 256 * Pow(256, n - 1);
      hide Pow;
      ScaleBy256(bytes[0] as nat, Pow(256, n - 1));
    }
  }

  lemma {:induction false} LessIsNumeric(a: seq<u8>, b: seq<u8>)
    requires |a| == |b|
    ensures Less(a, b) <==> Value(a) < Value(b)
  {
    if a != [] {
      ValueFromFront(a);
      ValueFromFront(b);
      LessIsNumeric(a[1..], b[1..]);
      ValueBound(a[1..]);
      ValueBound(b[1..]);
      DigitDecides(a[0] as nat, b[0] as nat, Value(a[1..]), Value(b[1..]), Pow(256, |a| - 1));
    }
  }

  datatype Node = Node(did: string, state: string, id: seq<u8>, isLocal: bool)

  /** A peer: its textual identifier and connection state. */
  datatype Peer = Peer(did: string, state: string)

  ghost predicate ValidNodes(nodes: seq<Node>) {
    forall k | 0 <= k < |nodes| :: |nodes[k].id| == CHORD_ID_BYTES
  }

  ghost predicate Sorted(nodes: seq<Node>) {
    forall i, j | 0 <= i < j < |nodes| :: Value(nodes[i].id) <= Value(nodes[j].id)
  }

  /** The first index from `from` on whose identifier is at least `point`; 0 if there is none. */
  function SuccessorFrom(nodes: seq<Node>, point: nat, from: nat): nat
    requires from <= |nodes|
    decreases |nodes| - from
  {
    if from == |nodes| then 0
    else if Value(nodes[from].id) >= point then from
    else SuccessorFrom(nodes, point, from + 1)
  }

  method FirstSuccessorIndex(nodes: seq<Node>, targetId: seq<u8>) returns (index: nat)
    requires ValidNodes(nodes) && |targetId| == CHORD_ID_BYTES
    ensures index == SuccessorFrom(nodes, Value(targetId), 0)
  {
    hide Value, Less;
    for k := 0 to |nodes|
      invariant SuccessorFrom(nodes, Value(targetId), 0) == SuccessorFrom(nodes, Value(targetId), k)
    {
      LessIsNumeric(nodes[k].id, targetId);
      if !Less(nodes[k].id, targetId) {
        return k;
      }
    }
    index := 0;
  }

  /** The clockwise distance from one point of the ring to another. */
  function Distance(from: nat, to: nat): nat {
    (to - from) % Ring()
  }

  lemma DistanceIs(from: nat, to: nat)
    requires from < Ring() && to < Ring()
    ensures Distance(from, to) == if from <= to then to - from else to - from + Ring()
  {
    hide Ring;
    var size := Ring();
    if from > to {
      ModTurn(to - from, size);
    }
  }

  lemma ModTurn(x: int, size: int)
    requires 0 - size < x < 0
    ensures x % size == x + size
  {
    var q := x / size;
    assert x == q * size + x % size;
    NoSmallMultiple(q + 1, size);
  }

  lemma {:induction false} SuccessorProperty(nodes: seq<Node>, point: nat, from: nat)
    requires from <= |nodes|
    ensures var r := SuccessorFrom(nodes, point, from);
            if exists k :: from <= k < |nodes| && Value(nodes[k].id) >= point
            then from <= r < |nodes| && Value(nodes[r].id) >= point
                 && forall k | from <= k < r :: Value(nodes[k].id) < point
            else r == 0
    decreases |nodes| - from
  {
    hide Value;
    if from < |nodes| && Value(nodes[from].id) < point {
      SuccessorProperty(nodes, point, from + 1);
    }
  }

  // The successor is the nearest node clockwise, and the first of the nearest ones.
  lemma SuccessorIsNearest(nodes: seq<Node>, point: nat, k: nat)
    requires ValidNodes(nodes) && Sorted(nodes) && k < |nodes| && point < Ring()
    ensures var r := SuccessorFrom(nodes, point, 0);
            && r < |nodes|
            && Distance(point, Value(nodes[r].id)) <= Distance(point, Value(nodes[k].id))
            && (Distance(point, Value(nodes[r].id)) == Distance(point, Value(nodes[k].id)) ==> r <= k)
  {
    hide Value, Ring, Distance;
    var r := SuccessorFrom(nodes, point, 0);
    SuccessorProperty(nodes, point, 0);
    ValueBound(nodes[r].id);
    ValueBound(nodes[k].id);
    assert Ring() == Pow(256, CHORD_ID_BYTES) by { RingIs(); }
    DistanceIs(point, Value(nodes[r].id));
    DistanceIs(point, Value(nodes[k].id));
  }

  lemma RingIs()
    ensures Ring() == Pow(256, CHORD_ID_BYTES)
  {}

  // -------------------------------------------------------------------------
  // Inferred finger links
  // -------------------------------------------------------------------------

  datatype Finger = Finger(source: nat, target: nat, exponent: nat)

  function Exponents(nodeCount: nat): seq<nat> {
    if nodeCount >= 8 then [159, 158, 157, 156] else [159, 158, 157]
  }

  /** The point of the ring that the finger of `exponent` at `source` aims at. */
  function FingerPoint(nodes: seq<Node>, source: nat, exponent: nat): (point: nat)
    requires source < |nodes|
    ensures point < Ring()
  {
    (Value(nodes[source].id) + Pow(2, exponent)) % Ring()
  }

  function Resolve(nodes: seq<Node>, source: nat, exponent: nat): nat
    requires source < |nodes|
  {
    SuccessorFrom(nodes, FingerPoint(nodes, source, exponent), 0)
  }

  function Targets(links: seq<Finger>): set<nat> {
    set link | link in links :: link.target
  }

  /** The links of one source, in the order of `exponents`. */
  function LinksFrom(nodes: seq<Node>, source: nat, exponents: seq<nat>): seq<Finger>
    requires source < |nodes|
  {
    if exponents == [] then []
    else
      var last := |exponents| - 1;
      var links := LinksFrom(nodes, source, exponents[..last]);
      var target := Resolve(nodes, source, exponents[last]);
      if target == source || target in Targets(links) then links
      else links + [Finger(source, target, exponents[last])]
  }

  /** The links of the first `count` sources. */
  function LinksUpTo(nodes: seq<Node>, count: nat): seq<Finger>
    requires count <= |nodes|
  {
    if count == 0 then []
    else LinksUpTo(nodes, count - 1) + LinksFrom(nodes, count - 1, Exponents(|nodes|))
  }

  function FingerLinks(nodes: seq<Node>): seq<Finger> {
    if |nodes| < 4 then [] else LinksUpTo(nodes, |nodes|)
  }

  method InferredFingerLinks(nodes: seq<Node>) returns (links: seq<Finger>)
    requires ValidNodes(nodes)
    ensures links == FingerLinks(nodes)
  {
    hide Value, Pow, Ring, SuccessorFrom, Targets;
    TargetsOfNone();
    links := [];
    if |nodes| < 4 {
      return;
    }
    var exponents := Exponents(|nodes|);
    for source := 0 to |nodes|
      invariant links == LinksUpTo(nodes, source)
    {
      ghost var before := links;
      ghost var added := [];
      var sourceTargets: seq<nat> := [];
      for k := 0 to |exponents|
        invariant added == LinksFrom(nodes, source, exponents[..k])
        invariant links == before + added
        invariant forall t :: t in sourceTargets <==> t in Targets(added)
      {
        var targetId := ChordAddPowerOfTwo(nodes[source].id, exponents[k]);
        var target := FirstSuccessorIndex(nodes, targetId);
        assert exponents[..k + 1][..k] == exponents[..k];
        if target != source && target !in sourceTargets {
          var link := Finger(source, target, exponents[k]);
          TargetsSnoc(added, link);
          links := links + [link];
          added := added + [link];
          sourceTargets := sourceTargets + [target];
        }
      }
      assert exponents[..|exponents|] == exponents;
    }
  }

  lemma TargetsOfNone()
    ensures Targets([]) == {}
  {}

  lemma TargetsSnoc(links: seq<Finger>, link: Finger)
    ensures Targets(links + [link]) == Targets(links) + {link.target}
  {
    assert link in links + [link];
    assert forall l | l in links :: l in links + [link];
  }

  // Each link of a source is what its exponent resolves to; targets are distinct and never the source.
  lemma {:induction false} LinksFromSound(nodes: seq<Node>, source: nat, exponents: seq<nat>)
    requires source < |nodes|
    ensures var links := LinksFrom(nodes, source, exponents);
            && (forall link | link in links ::
                  link.source == source != link.target && link.exponent in exponents
                  && link.target == Resolve(nodes, source, link.exponent))
            && (forall i, j | 0 <= i < j < |links| :: links[i].target != links[j].target)
  {
    hide Resolve;
    if exponents != [] {
      var last := |exponents| - 1;
      LinksFromSound(nodes, source, exponents[..last]);
      var init, links := LinksFrom(nodes, source, exponents[..last]), LinksFrom(nodes, source, exponents);
      forall i, j | 0 <= i < j < |links|
        ensures links[i].target != links[j].target
      {
        assert init[i] in init;
      }
    }
  }

  // Each exponent resolves to the source itself or to the target of a link.
  lemma {:induction false} LinksFromComplete(nodes: seq<Node>, source: nat, exponents: seq<nat>, exponent: nat)
    requires source < |nodes| && exponent in exponents
    ensures var target := Resolve(nodes, source, exponent);
            target == source || target in Targets(LinksFrom(nodes, source, exponents))
  {
    hide Resolve;
    var last := |exponents| - 1;
    var init := LinksFrom(nodes, source, exponents[..last]);
    TargetsSnoc(init, Finger(source, Resolve(nodes, source, exponents[last]), exponents[last]));
    if exponent != exponents[last] {
      assert exponent in exponents[..last];
      LinksFromComplete(nodes, source, exponents[..last], exponent);
    }
  }

  lemma {:induction false} LinksUpToSplit(nodes: seq<Node>, count: nat)
    requires count <= |nodes|
    ensures forall link :: link in LinksUpTo(nodes, count) <==> LinkOfSome(nodes, count, link)
  {
    hide LinksFrom;
    if count > 0 {
      LinksUpToSplit(nodes, count - 1);
      var own := LinksFrom(nodes, count - 1, Exponents(|nodes|));
      forall link
        ensures LinkOfSome(nodes, count, link) <==> LinkOfSome(nodes, count - 1, link) || link in own
      {
      }
    }
  }

  ghost predicate LinkOfSome(nodes: seq<Node>, count: nat, link: Finger)
    requires count <= |nodes|
  {
    exists source :: 0 <= source < count && link in LinksFrom(nodes, source, Exponents(|nodes|))
  }

  // The exponents whose fingers are drawn: the top three, and the next one from eight nodes on.
  predicate IsDrawn(nodeCount: nat, exponent: nat) {
    157 <= exponent <= 159 || (exponent == 156 && nodeCount >= 8)
  }

  lemma ExponentsAreDrawn(nodeCount: nat)
    ensures forall e: nat :: e in Exponents(nodeCount) <==> IsDrawn(nodeCount, e)
    ensures Falling(Exponents(nodeCount))
  {}

  ghost predicate Falling(exponents: seq<nat>) {
    forall i, j | 0 <= i < j < |exponents| :: exponents[i] > exponents[j]
  }

  // Of the fingers of a source that resolve to one target, the one of the greatest exponent is drawn.
  lemma {:induction false} LinksFromGreatest(nodes: seq<Node>, source: nat, exponents: seq<nat>)
    requires source < |nodes| && Falling(exponents)
    ensures forall link, e | link in LinksFrom(nodes, source, exponents) && e in exponents ::
              Resolve(nodes, source, e) == link.target ==> e <= link.exponent
  {
    hide Resolve, Targets;
    if exponents != [] {
      var last := |exponents| - 1;
      var init, e := exponents[..last], exponents[last];
      LinksFromGreatest(nodes, source, init);
      LinksFromSound(nodes, source, init);
      assert forall x | x in init :: x > e;
      assert forall x :: x in exponents <==> x in init || x == e;
      forall x | x in init
        ensures Resolve(nodes, source, x) == source
                || Resolve(nodes, source, x) in Targets(LinksFrom(nodes, source, init))
      {
        LinksFromComplete(nodes, source, init, x);
      }
    }
  }

  // From four nodes on, a finger is drawn exactly when it resolves to another node than its source and no drawn
  // finger of a greater exponent does so too; below four nodes none is.
  lemma FingerLinksExact(nodes: seq<Node>, link: Finger)
    requires ValidNodes(nodes)
    ensures link in FingerLinks(nodes) <==>
              && |nodes| >= 4 && link.source < |nodes| && IsDrawn(|nodes|, link.exponent)
              && Resolve(nodes, link.source, link.exponent) == link.target != link.source
              && forall e: nat | IsDrawn(|nodes|, e) && e > link.exponent :: Resolve(nodes, link.source, e) != link.target
  {
    hide Exponents, Resolve, IsDrawn, Falling, Targets;
    ExponentsAreDrawn(|nodes|);
    if |nodes| >= 4 {
      LinksUpToSplit(nodes, |nodes|);
      if link in FingerLinks(nodes) {
        var source :| 0 <= source < |nodes| && link in LinksFrom(nodes, source, Exponents(|nodes|));
        LinksFromSound(nodes, source, Exponents(|nodes|));
        LinksFromGreatest(nodes, source, Exponents(|nodes|));
      } else if link.source < |nodes| && IsDrawn(|nodes|, link.exponent)
                && Resolve(nodes, link.source, link.exponent) == link.target != link.source {
        var drawn := LinkTo(nodes, link.source, link.exponent);
        assert drawn in FingerLinks(nodes);
      }
    }
  }

  // The link of a source to what one of its exponents resolves to.
  lemma LinkTo(nodes: seq<Node>, source: nat, exponent: nat) returns (link: Finger)
    requires source < |nodes| && exponent in Exponents(|nodes|) && Resolve(nodes, source, exponent) != source
    ensures link in LinksFrom(nodes, source, Exponents(|nodes|))
    ensures link.source == source && link.target == Resolve(nodes, source, exponent) && exponent <= link.exponent
    ensures IsDrawn(|nodes|, link.exponent) && Resolve(nodes, source, link.exponent) == link.target
  {
    hide Exponents, Resolve, IsDrawn, Falling;
    ExponentsAreDrawn(|nodes|);
    LinksFromComplete(nodes, source, Exponents(|nodes|), exponent);
    LinksFromSound(nodes, source, Exponents(|nodes|));
    LinksFromGreatest(nodes, source, Exponents(|nodes|));
    link :| link in LinksFrom(nodes, source, Exponents(|nodes|)) && link.target == Resolve(nodes, source, exponent);
  }

  // The target of a link is nearest clockwise to the point its finger aims at, among all nodes.
  lemma FingerLinksNearest(nodes: seq<Node>, link: Finger, k: nat)
    requires ValidNodes(nodes) && Sorted(nodes) && link in FingerLinks(nodes) && k < |nodes|
    ensures link.source < |nodes| && link.target < |nodes|
    ensures var point := FingerPoint(nodes, link.source, link.exponent);
            Distance(point, Value(nodes[link.target].id)) <= Distance(point, Value(nodes[k].id))
  {
    hide Value, Distance, LinksFrom;
    LinksUpToSplit(nodes, |nodes|);
    var source :| 0 <= source < |nodes| && link in LinksFrom(nodes, source, Exponents(|nodes|));
    LinksFromSound(nodes, source, Exponents(|nodes|));
    SuccessorIsNearest(nodes, FingerPoint(nodes, source, link.exponent), k);
  }

  lemma {:induction false} LinksFromFall(nodes: seq<Node>, source: nat, exponents: seq<nat>)
    requires source < |nodes| && Falling(exponents)
    ensures var links := LinksFrom(nodes, source, exponents);
            forall i, j | 0 <= i < j < |links| :: links[i].exponent > links[j].exponent
  {
    hide Resolve, Targets;
    if exponents != [] {
      var last := |exponents| - 1;
      var init := LinksFrom(nodes, source, exponents[..last]);
      LinksFromFall(nodes, source, exponents[..last]);
      LinksFromSound(nodes, source, exponents[..last]);
      assert forall e | e in exponents[..last] :: e > exponents[last];
      assert forall i | 0 <= i < |init| :: init[i] in init;
    }
  }

  // The links come source by source, those of one source from the greatest exponent down.
  lemma FingerLinksOrdered(nodes: seq<Node>, i: nat, j: nat)
    requires i < j < |FingerLinks(nodes)|
    ensures var a, b := FingerLinks(nodes)[i], FingerLinks(nodes)[j];
            a.source < b.source || (a.source == b.source && a.exponent > b.exponent)
  {
    UpToOrdered(nodes, |nodes|, i, j);
  }

  lemma {:induction false} UpToOrdered(nodes: seq<Node>, count: nat, i: nat, j: nat)
    requires count <= |nodes| && i < j < |LinksUpTo(nodes, count)|
    ensures var a, b := LinksUpTo(nodes, count)[i], LinksUpTo(nodes, count)[j];
            a.source < b.source || (a.source == b.source && a.exponent > b.exponent)
  {
    hide Resolve, Targets, Falling, Exponents, LinksFrom;
    var init, own := LinksUpTo(nodes, count - 1), LinksFrom(nodes, count - 1, Exponents(|nodes|));
    ExponentsAreDrawn(|nodes|);
    LinksFromSound(nodes, count - 1, Exponents(|nodes|));
    LinksFromFall(nodes, count - 1, Exponents(|nodes|));
    if j < |init| {
      UpToOrdered(nodes, count - 1, i, j);
    } else {
      assert own[j - |init|] in own;
      if i < |init| {
        LinksUpToSplit(nodes, count - 1);
        assert init[i] in init;
        var source :| 0 <= source < count - 1 && init[i] in LinksFrom(nodes, source, Exponents(|nodes|));
        LinksFromSound(nodes, source, Exponents(|nodes|));
      } else {
        assert own[i - |init|] in own;
      }
    }
  }

  // No two links of one source share a target.
  lemma FingerTargetsDistinct(nodes: seq<Node>, i: nat, j: nat)
    requires i < j < |FingerLinks(nodes)|
    ensures FingerLinks(nodes)[i].source != FingerLinks(nodes)[j].source
         || FingerLinks(nodes)[i].target != FingerLinks(nodes)[j].target
  {
    UpToDistinct(nodes, |nodes|, i, j);
  }

  lemma {:induction false} UpToDistinct(nodes: seq<Node>, count: nat, i: nat, j: nat)
    requires count <= |nodes| && i < j < |LinksUpTo(nodes, count)|
    ensures var links := LinksUpTo(nodes, count);
            links[i].source != links[j].source || links[i].target != links[j].target
  {
    hide LinksFrom, Resolve;
    var init, own := LinksUpTo(nodes, count - 1), LinksFrom(nodes, count - 1, Exponents(|nodes|));
    LinksFromSound(nodes, count - 1, Exponents(|nodes|));
    if j < |init| {
      UpToDistinct(nodes, count - 1, i, j);
    } else if i < |init| {
      LinksUpToSplit(nodes, count - 1);
      assert init[i] in init;
      var source :| 0 <= source < count - 1 && init[i] in LinksFrom(nodes, source, Exponents(|nodes|));
      LinksFromSound(nodes, source, Exponents(|nodes|));
      assert own[j - |init|] in own;
    }
  }

  // -------------------------------------------------------------------------
  // Identifiers in hexadecimal
  // -------------------------------------------------------------------------

  // The code points with the Unicode property White_Space.
  predicate IsWhiteSpace(c: char) {
    || '\U{0009}' <= c <= '\U{000D}' || c == ' ' || c == '\U{0085}' || c == '\U{00A0}' || c == '\U{1680}'
    || '\U{2000}' <= c <= '\U{200A}' || c == '\U{2028}' || c == '\U{2029}' || c == '\U{202F}' || c == '\U{205F}' || c == '\U{3000}'
  }

  lemma WhiteSpaceIs(c: char)
    ensures IsWhiteSpace(c) <==>
              || c in "\t\n\U{000B}\U{000C}\r \U{0085}\U{00A0}\U{1680}"
              || c in "\U{2000}\U{2001}\U{2002}\U{2003}\U{2004}\U{2005}\U{2006}\U{2007}\U{2008}\U{2009}\U{200A}"
              || c in "\U{2028}\U{2029}\U{202F}\U{205F}\U{3000}"
  {}

  function HexNibble(c: char): Option<nat> {
    if '0' <= c <= '9' then Some(c as nat - '0' as nat)
    else if 'a' <= c <= 'f' then Some(c as nat - 'a' as nat + 10)
    else if 'A' <= c <= 'F' then Some(c as nat - 'A' as nat + 10)
    else None
  }

  lemma HexNibbleBound(c: char)
    ensures HexNibble(c).Some? ==> HexNibble(c).value < 16
  {}

  predicate IsHex(text: string) {
    forall c | c in text :: HexNibble(c).Some?
  }

  /** The digits of a textual identifier: trimmed, without an optional 0x. */
  function HexDigits(did: string): string {
    var trimmed := Trim(did, IsWhiteSpace);
    if "0x" <= trimmed then trimmed[2..] else trimmed
  }

  predicate IsIdentifier(did: string) {
    var hex := HexDigits(did);
    hex != [] && |hex| % 2 == 0 && IsHex(hex)
  }

  /** The integer that a hexadecimal numeral denotes. */
  function HexValue(hex: string): nat
    requires IsHex(hex)
  {
    if hex == [] then 0 else 16 * HexValue(hex[..|hex| - 1]) + HexNibble(hex[|hex| - 1]).value
  }

  /** `value` modulo 256^count as a big-endian string of `count` bytes. */
  function Encode(value: nat, count: nat): (bytes: seq<u8>)
    ensures |bytes| == count
  {
    if count == 0 then [] else Encode(value / 256, count - 1) + [(value % 256) as u8]
  }

  lemma {:induction false} EncodeOfValue(bytes: seq<u8>)
    ensures Encode(Value(bytes), |bytes|) == bytes
  {
    if bytes != [] {
      EncodeOfValue(bytes[..|bytes| - 1]);
    }
  }

  lemma {:induction false} ValueOfEncode(value: nat, count: nat)
    requires value < Pow(256, count)
    ensures Value(Encode(value, count)) == value
  {
    if count > 0 {
      ValueOfEncode(value / 256, count - 1);
      AppendByte(Encode(value / 256, count - 1), (value % 256) as u8);
    }
  }

  /** The identifier a text denotes: its numeral modulo 2^160 in 20 bytes. */
  function Identifier(did: string): Option<seq<u8>> {
    if IsIdentifier(did) then Some(Encode(HexValue(HexDigits(did)) % Ring(), CHORD_ID_BYTES)) else None
  }

  lemma IdentifierValue(did: string)
    requires IsIdentifier(did)
    ensures |Identifier(did).value| == CHORD_ID_BYTES
    ensures Value(Identifier(did).value) == HexValue(HexDigits(did)) % Ring()
  {
    hide Value, Encode, HexValue, HexDigits, Pow;
    ValueOfEncode(HexValue(HexDigits(did)) % Ring(), CHORD_ID_BYTES);
  }

  lemma HexNibbleIs(c: char, value: nat)
    ensures HexNibble(c) == Some(value)
       <==> value < 16 && (c == "0123456789abcdef"[value] || c == "0123456789ABCDEF"[value])
  {}

  lemma HexIsNotWhite(c: char)
    requires HexNibble(c).Some?
    ensures !IsWhiteSpace(c) && c != 'x'
  {}

  lemma RingIsTwoTo160()
    ensures Ring() == Pow(2, 160)
  {
    PowOf256(CHORD_ID_BYTES);
  }

  // `did` is the digits, possibly after 0x, possibly surrounded by white space.
  ghost predicate Writes(did: string, digits: string) {
    exists core, front, back ::
      (core == digits || core == "0x" + digits) && Surrounds(did, front, core, back, IsWhiteSpace)
  }

  ghost predicate EvenHex(digits: string) {
    digits != [] && |digits| % 2 == 0 && IsHex(digits)
  }

  lemma DigitsWritten(did: string)
    ensures Writes(did, HexDigits(did))
  {
    hide IsWhiteSpace;
    var core := Trim(did, IsWhiteSpace);
    TrimIs(did, core, IsWhiteSpace);
    var front, back :| Surrounds(did, front, core, back, IsWhiteSpace);
    if "0x" <= core {
      assert core == "0x" + core[2..];
    }
  }

  lemma DigitsRead(did: string, digits: string)
    requires Writes(did, digits) && EvenHex(digits)
    ensures HexDigits(did) == digits
  {
    var core, front, back :|
      (core == digits || core == "0x" + digits) && Surrounds(did, front, core, back, IsWhiteSpace);
    assert digits[0] in digits && digits[1] in digits && digits[|digits| - 1] in digits;
    HexIsNotWhite(digits[0]);
    HexIsNotWhite(digits[1]);
    HexIsNotWhite(digits[|digits| - 1]);
    HexIsNotWhite('0');
    hide IsWhiteSpace, IsHex, HexNibble;
    TrimIs(did, core, IsWhiteSpace);
    if core != digits {
      assert core[2..] == digits && core[..2] == "0x";
    }
  }

  // A text denotes an identifier exactly when it writes an even number of hexadecimal digits; the identifier is
  // their value modulo 2^160, in 20 bytes.
  lemma IdentifierIs(did: string, id: seq<u8>)
    ensures Identifier(did) == Some(id)
       <==> |id| == 20 && exists digits ::
              Writes(did, digits) && EvenHex(digits) && Value(id) == HexValue(digits) % Pow(2, 160)
  {
    hide Writes, HexDigits, HexValue, Value, Encode, Pow, Ring, IsHex;
    RingIsTwoTo160();
    DigitsWritten(did);
    if IsIdentifier(did) {
      IdentifierValue(did);
    }
    if digits :| |id| == 20 && Writes(did, digits) && EvenHex(digits) && Value(id) == HexValue(digits) % Pow(2, 160) {
      DigitsRead(did, digits);
      EncodeOfValue(id);
    }
  }

  /** Writes the bytes of the numeral at the end of 20 zero bytes. */
  method DecodeHex(hex: string) returns (id: seq<u8>)
    requires IsHex(hex) && |hex| % 2 == 0 && |hex| <= 2 * CHORD_ID_BYTES
    ensures |id| == CHORD_ID_BYTES && Value(id) == HexValue(hex)
  {
    hide Value, HexValue, HexNibble;
    var byteCount := |hex| / 2;
    var bytes := new u8[CHORD_ID_BYTES](_ => 0);
    var offset := CHORD_ID_BYTES - byteCount;
    ValueOfZeros(bytes[..offset]);
    EmptyValues();
    for k := 0 to byteCount
      invariant Value(bytes[..offset + k]) == HexValue(hex[..2 * k])
    {
      HexNibbleBound(hex[2 * k]);
      HexNibbleBound(hex[2 * k + 1]);
      var high, low := HexNibble(hex[2 * k]).value, HexNibble(hex[2 * k + 1]).value;
      ghost var before := bytes[..offset + k];
      bytes[offset + k] := (16 * high + low) as u8;
      AppendByte(before, bytes[offset + k]);
      AppendNibbles(hex, k);
      assert bytes[..offset + k + 1] == before + [bytes[offset + k]];
    }
    assert hex[..2 * byteCount] == hex && bytes[..offset + byteCount] == bytes[..];
    id := bytes[..];
  }

  /** The last 20 bytes of the numeral, zero-extended on the left. */
  method DidIdentifier(did: string) returns (id: Option<seq<u8>>)
    ensures id == Identifier(did)
  {
    var hex := HexDigits(did);
    if hex == [] || |hex| % 2 != 0 || !IsHex(hex) {
      return None;
    }
    hide HexDigits, Ring, Value, HexValue, IsHex;
    var start := if |hex| <= 2 * CHORD_ID_BYTES then 0 else |hex| - 2 * CHORD_ID_BYTES;
    IsHexSlice(hex, 0, start);
    IsHexSlice(hex, start, |hex|);
    HexTail(hex[0..start], hex[start..|hex|]);
    assert hex[0..start] + hex[start..|hex|] == hex;
    var bytes := DecodeHex(hex[start..|hex|]);
    ValueBound(bytes);
    EncodeOfValue(bytes);
    id := Some(bytes);
  }

  lemma EmptyValues()
    ensures HexValue("") == 0
  {}

  lemma {:induction false} ValueOfZeros(bytes: seq<u8>)
    requires forall k | 0 <= k < |bytes| :: bytes[k] == 0
    ensures Value(bytes) == 0
  {
    if bytes != [] {
      ValueOfZeros(bytes[..|bytes| - 1]);
    }
  }

  lemma AppendByte(bytes: seq<u8>, b: u8)
    ensures Value(bytes + [b]) == 256 * Value(bytes) + b as nat
  {
    assert (bytes + [b])[..|bytes|] == bytes;
  }

  lemma AppendNibbles(hex: string, k: nat)
    requires IsHex(hex) && 2 * k + 2 <= |hex|
    ensures HexValue(hex[..2 * k + 2])
         == 256 * HexValue(hex[..2 * k]) + 16 * HexNibble(hex[2 * k]).value + HexNibble(hex[2 * k + 1]).value
  {
    assert hex[..2 * k + 2][..2 * k + 1] == hex[..2 * k + 1];
    assert hex[..2 * k + 1][..2 * k] == hex[..2 * k];
  }

  lemma IsHexSlice(hex: string, a: nat, b: nat)
    requires IsHex(hex) && a <= b <= |hex|
    ensures IsHex(hex[a..b])
  {}

  lemma IsHexConcat(front: string, back: string)
    requires IsHex(front) && IsHex(back)
    ensures IsHex(front + back)
  {}

  lemma HexSnoc(init: string, last: char)
    requires IsHex(init) && HexNibble(last).Some?
    ensures IsHex(init + [last]) && HexValue(init + [last]) == 16 * HexValue(init) + HexNibble(last).value
  {
    assert (init + [last])[..|init|] == init;
  }

  lemma {:induction false} HexSplit(front: string, back: string)
    requires IsHex(front) && IsHex(back)
    ensures IsHex(front + back)
    ensures HexValue(front + back) == HexValue(front) * Pow(16, |back|) + HexValue(back)
    ensures HexValue(back) < Pow(16, |back|)
    decreases |back|
  {
    IsHexConcat(front, back);
    if back == [] {
      assert front + back == front;
      EmptyValues();
      hide HexValue;
    } else {
      var n := |back| - 1;
      var init, last := back[..n], back[n];
      assert HexNibble(last).Some? && IsHex(init);
      assert Pow(16, |back|) == 16 * Pow(16, n);
      hide IsHex, HexValue, HexNibble, Pow;
      HexSplit(front, init);
      HexNibbleBound(last);
      HexSnoc(front + init, last);
      HexSnoc(init, last);
      assert (front + init) + [last] == front + back && init + [last] == back;
      AppendDigit(HexValue(front), Pow(16, n), HexValue(init), HexNibble(last).value);
    }
  }

  lemma AppendDigit(value: nat, weight: nat, low: nat, digit: nat)
    requires low < weight && digit < 16
    ensures 16 * (value * weight + low) + digit == value * (16 * weight) + (16 * low + digit)
    ensures 16 * low + digit < 16 * weight
  {}

  // Keeping the last 40 digits of a numeral reduces its value modulo 2^160.
  lemma HexTail(front: string, back: string)
    requires IsHex(front) && IsHex(back) && (front == [] || |back| == 40) && |back| <= 40
    ensures IsHex(front + back) && HexValue(back) == HexValue(front + back) % Ring()
  {
    hide IsHex, HexValue, Pow;
    HexSplit(front, back);
    RingIsHex();
    if |back| == 40 {
      RemainderIs(HexValue(back), HexValue(front), HexValue(front + back), Ring());
    } else {
      assert front + back == back;
      PowMonotone(|back|, 40);
      RemainderIs(HexValue(back), 0, HexValue(back), Ring());
    }
  }

  lemma RingIsHex()
    ensures Ring() == Pow(16, 40)
  {
    PowSquare(20);
  }

  lemma {:induction false} PowSquare(n: nat)
    ensures Pow(256, n) == Pow(16, 2 * n)
  {
    if n > 0 {
      PowSquare(n - 1);
      assert Pow(16, 2 * n) == 16 * (16 * Pow(16, 2 * n - 2));
    }
  }

  lemma {:induction false} PowMonotone(a: nat, b: nat)
    requires a <= b
    ensures Pow(16, a) <= Pow(16, b)
    decreases b - a
  {
    if a < b {
      PowMonotone(a + 1, b);
    }
  }

  // -------------------------------------------------------------------------
  // The node list
  // -------------------------------------------------------------------------

  predicate Knows(nodes: seq<Node>, did: string) {
    exists k | 0 <= k < |nodes| :: nodes[k].did == did
  }

  function Push(nodes: seq<Node>, did: string, state: string, isLocal: bool): seq<Node> {
    match Identifier(did)
    case Some(id) => nodes + [Node(did, state, id, isLocal)]
    case None => nodes
  }

  /** The local node and the peers with distinct, well-formed identifiers, in the order given. */
  function Collect(did: string, peers: seq<Peer>): seq<Node> {
    if peers == [] then Push([], did, "local", true)
    else
      var last := |peers| - 1;
      var nodes := Collect(did, peers[..last]);
      if Knows(nodes, peers[last].did) then nodes else Push(nodes, peers[last].did, peers[last].state, false)
  }

  function Insert(node: Node, nodes: seq<Node>): seq<Node> {
    if nodes == [] || Value(node.id) <= Value(nodes[0].id) then [node] + nodes
    else [nodes[0]] + Insert(node, nodes[1..])
  }

  /** The stable sort by identifier. */
  function SortById(nodes: seq<Node>): seq<Node> {
    if nodes == [] then [] else Insert(nodes[0], SortById(nodes[1..]))
  }

  /** The nodes of one identifier, in order. */
  function WithValue(nodes: seq<Node>, value: nat): seq<Node> {
    if nodes == [] then []
    else (if Value(nodes[0].id) == value then [nodes[0]] else []) + WithValue(nodes[1..], value)
  }

  lemma {:induction false} InsertKeepsNodes(node: Node, nodes: seq<Node>)
    ensures multiset(Insert(node, nodes)) == multiset{node} + multiset(nodes)
  {
    hide Value;
    if nodes != [] {
      InsertKeepsNodes(node, nodes[1..]);
      assert nodes == [nodes[0]] + nodes[1..];
    }
  }

  lemma {:induction false} InsertKeepsOrder(node: Node, nodes: seq<Node>)
    requires Sorted(nodes)
    ensures Sorted(Insert(node, nodes))
  {
    hide Value;
    if nodes != [] && Value(node.id) > Value(nodes[0].id) {
      var rest := Insert(node, nodes[1..]);
      InsertKeepsOrder(node, nodes[1..]);
      InsertKeepsNodes(node, nodes[1..]);
      forall k | 0 <= k < |rest|
        ensures Value(nodes[0].id) <= Value(rest[k].id)
      {
        assert rest[k] in multiset(rest);
      }
    }
  }

  lemma WithValueCons(node: Node, nodes: seq<Node>, value: nat)
    ensures WithValue([node] + nodes, value)
         == (if Value(node.id) == value then [node] else []) + WithValue(nodes, value)
  {
    assert ([node] + nodes)[1..] == nodes;
  }

  lemma {:induction false} InsertIsStable(node: Node, nodes: seq<Node>, value: nat)
    ensures WithValue(Insert(node, nodes), value)
         == (if Value(node.id) == value then [node] else []) + WithValue(nodes, value)
  {
    hide Value, WithValue;
    if nodes == [] || Value(node.id) <= Value(nodes[0].id) {
      WithValueCons(node, nodes, value);
    } else {
      InsertIsStable(node, nodes[1..], value);
      WithValueCons(nodes[0], Insert(node, nodes[1..]), value);
      WithValueCons(nodes[0], nodes[1..], value);
      assert nodes == [nodes[0]] + nodes[1..];
    }
  }

  // Sorting orders the nodes by identifier, keeps them, and keeps the order of equal identifiers.
  lemma {:induction false} SortIsStable(nodes: seq<Node>, value: nat)
    ensures Sorted(SortById(nodes))
    ensures multiset(SortById(nodes)) == multiset(nodes)
    ensures WithValue(SortById(nodes), value) == WithValue(nodes, value)
  {
    hide Value, Insert, WithValue;
    if nodes != [] {
      WithValueCons(nodes[0], nodes[1..], value);
      SortIsStable(nodes[1..], value);
      InsertKeepsNodes(nodes[0], SortById(nodes[1..]));
      InsertKeepsOrder(nodes[0], SortById(nodes[1..]));
      InsertIsStable(nodes[0], SortById(nodes[1..]), value);
      assert nodes == [nodes[0]] + nodes[1..];
    }
  }

  ghost predicate Mentions(peers: seq<Peer>, did: string) {
    exists k :: 0 <= k < |peers| && peers[k].did == did
  }

  // The node carries the state of the first peer of its text.
  ghost predicate FromFirstPeer(peers: seq<Peer>, node: Node) {
    exists k :: 0 <= k < |peers| && peers[k] == Peer(node.did, node.state)
      && forall j | 0 <= j < k :: peers[j].did != node.did
  }

  ghost predicate WellFormed(node: Node, did: string, peers: seq<Peer>) {
    && Identifier(node.did) == Some(node.id)
    && (node.isLocal <==> node.did == did)
    && if node.isLocal then node.state == "local" else FromFirstPeer(peers, node)
  }

  lemma {:induction false} CollectKnows(did: string, peers: seq<Peer>)
    ensures forall d: string ::
              Knows(Collect(did, peers), d) <==> (d == did || Mentions(peers, d)) && IsIdentifier(d)
  {
    hide Knows, IsIdentifier, Push, Mentions;
    if peers == [] {
      NoneKnown();
      KnowsPush([], did, "local", true);
    } else {
      var last := |peers| - 1;
      CollectKnows(did, peers[..last]);
      MentionsLast(peers);
      KnowsPush(Collect(did, peers[..last]), peers[last].did, peers[last].state, false);
    }
  }

  lemma NoneKnown()
    ensures forall d: string :: !Knows([], d) && !Mentions([], d)
  {}

  lemma {:induction false} CollectWellFormed(did: string, peers: seq<Peer>)
    ensures forall k | 0 <= k < |Collect(did, peers)| :: WellFormed(Collect(did, peers)[k], did, peers)
  {
    hide Knows, IsIdentifier, WellFormed, Mentions;
    if peers == [] {
      LocalWellFormed(did);
    } else {
      var last := |peers| - 1;
      var before := Collect(did, peers[..last]);
      CollectWellFormed(did, peers[..last]);
      CollectKnows(did, peers[..last]);
      forall k | 0 <= k < |before|
        ensures WellFormed(before[k], did, peers)
      {
        WellFormedAfter(before[k], did, peers);
      }
      if !Knows(before, peers[last].did) && Identifier(peers[last].did).Some? {
        IdentifierIff(peers[last].did);
        PeerWellFormed(did, peers);
      }
    }
  }

  lemma LocalWellFormed(did: string)
    ensures Identifier(did).Some? ==> WellFormed(Node(did, "local", Identifier(did).value, true), did, [])
  {
    hide Identifier;
  }

  lemma PeerWellFormed(did: string, peers: seq<Peer>)
    requires peers != [] && var last := peers[|peers| - 1];
             Identifier(last.did).Some? && last.did != did && !Mentions(peers[..|peers| - 1], last.did)
    ensures var last := peers[|peers| - 1];
            WellFormed(Node(last.did, last.state, Identifier(last.did).value, false), did, peers)
  {
    hide Identifier;
    var last := |peers| - 1;
    assert forall j | 0 <= j < last :: peers[..last][j].did != peers[last].did;
    assert forall j | 0 <= j < last :: peers[j] == peers[..last][j];
  }

  ghost predicate DistinctTexts(nodes: seq<Node>) {
    forall i, j | 0 <= i < j < |nodes| :: nodes[i].did != nodes[j].did
  }

  lemma PushDistinct(nodes: seq<Node>, did: string, state: string, isLocal: bool)
    requires DistinctTexts(nodes) && !Knows(nodes, did)
    ensures DistinctTexts(Push(nodes, did, state, isLocal))
  {
    hide Identifier;
  }

  lemma {:induction false} CollectDistinct(did: string, peers: seq<Peer>)
    ensures DistinctTexts(Collect(did, peers))
  {
    hide Push, Knows, DistinctTexts;
    NoneKnown();
    if peers == [] {
      NoneDistinct();
      PushDistinct([], did, "local", true);
    } else {
      var last := |peers| - 1;
      var before := Collect(did, peers[..last]);
      CollectDistinct(did, peers[..last]);
      if !Knows(before, peers[last].did) {
        PushDistinct(before, peers[last].did, peers[last].state, false);
      }
    }
  }

  lemma NoneDistinct()
    ensures DistinctTexts([])
  {}

  /** The place of a text: the local one first, then the peers by the first that has it. */
  function Place(did: string, peers: seq<Peer>, text: string): nat {
    if text == did then 0 else 1 + FirstWith(peers, text)
  }

  function FirstWith(peers: seq<Peer>, text: string): nat {
    if peers == [] || peers[0].did == text then 0 else 1 + FirstWith(peers[1..], text)
  }

  ghost predicate InPlace(nodes: seq<Node>, did: string, peers: seq<Peer>) {
    forall i, j | 0 <= i < j < |nodes| :: Place(did, peers, nodes[i].did) < Place(did, peers, nodes[j].did)
  }

  lemma {:induction false} FirstWithInit(peers: seq<Peer>, text: string)
    requires peers != []
    ensures var init := peers[..|peers| - 1];
            && FirstWith(init, text) <= |init|
            && (Mentions(init, text) <==> FirstWith(init, text) < |init|)
            && (Mentions(init, text) ==> FirstWith(peers, text) == FirstWith(init, text))
            && (!Mentions(init, text) ==> FirstWith(peers, text) >= |init|)
  {
    var init := peers[..|peers| - 1];
    if init != [] {
      FirstWithInit(peers[1..], text);
      assert peers[1..][..|peers| - 2] == init[1..];
      assert peers[0] == init[0];
      MentionsFirst(init, text);
    }
  }

  lemma MentionsFirst(peers: seq<Peer>, text: string)
    requires peers != []
    ensures Mentions(peers, text) <==> peers[0].did == text || Mentions(peers[1..], text)
  {
    if k :| 0 <= k < |peers| && peers[k].did == text && k > 0 {
      assert peers[1..][k - 1].did == text;
    }
    if k :| 0 <= k < |peers[1..]| && peers[1..][k].did == text {
      assert peers[k + 1].did == text;
    }
  }

  lemma {:induction false} CollectInPlace(did: string, peers: seq<Peer>)
    ensures InPlace(Collect(did, peers), did, peers)
  {
    hide Identifier, Knows, FirstWith, IsIdentifier, Mentions;
    if peers != [] {
      var last := |peers| - 1;
      var before, nodes, d := Collect(did, peers[..last]), Collect(did, peers), peers[last].did;
      CollectInPlace(did, peers[..last]);
      CollectKnows(did, peers[..last]);
      forall k | 0 <= k < |before|
        ensures Place(did, peers, before[k].did) == Place(did, peers[..last], before[k].did) <= last
      {
        KnownAt(before, k);
        FirstWithInit(peers, before[k].did);
      }
      FirstWithInit(peers, d);
      if nodes != before {
        IdentifierIff(d);
        assert d != did && !Mentions(peers[..last], d);
      }
    }
  }

  lemma KnownAt(nodes: seq<Node>, k: nat)
    requires k < |nodes|
    ensures Knows(nodes, nodes[k].did)
  {}

  // Every well-formed text among the local one and the peers has one node, and there are no others; the local
  // node comes first and is marked, and the others follow in the order of the peers, each with the state of the
  // first peer of its text.
  lemma CollectExact(did: string, peers: seq<Peer>)
    ensures var nodes := Collect(did, peers);
            && (forall d: string :: Knows(nodes, d) <==> (d == did || Mentions(peers, d)) && IsIdentifier(d))
            && (forall k | 0 <= k < |nodes| :: WellFormed(nodes[k], did, peers))
            && DistinctTexts(nodes)
            && InPlace(nodes, did, peers)
  {
    CollectKnows(did, peers);
    CollectWellFormed(did, peers);
    CollectDistinct(did, peers);
    CollectInPlace(did, peers);
  }

  lemma IdentifierIff(did: string)
    ensures Identifier(did).Some? <==> IsIdentifier(did)
  {}

  lemma MentionsLast(peers: seq<Peer>)
    requires peers != []
    ensures forall d: string :: Mentions(peers, d) <==> Mentions(peers[..|peers| - 1], d) || d == peers[|peers| - 1].did
  {
    var last := |peers| - 1;
    forall d: string
      ensures Mentions(peers, d) <==> Mentions(peers[..last], d) || d == peers[last].did
    {
      assert forall k | 0 <= k < last :: peers[..last][k] == peers[k];
    }
  }

  lemma WellFormedAfter(node: Node, did: string, peers: seq<Peer>)
    requires peers != [] && WellFormed(node, did, peers[..|peers| - 1])
    ensures WellFormed(node, did, peers)
  {
    var init := peers[..|peers| - 1];
    if k :| 0 <= k < |init| && init[k] == Peer(node.did, node.state)
            && forall j | 0 <= j < k :: init[j].did != node.did {
      assert peers[k] == init[k] && forall j | 0 <= j < k :: peers[j] == init[j];
    }
  }

  lemma KnowsPush(nodes: seq<Node>, did: string, state: string, isLocal: bool)
    ensures forall d: string ::
              Knows(Push(nodes, did, state, isLocal), d) <==> Knows(nodes, d) || (d == did && IsIdentifier(did))
  {
    hide IsIdentifier, Encode, HexValue, HexDigits;
    var pushed := Push(nodes, did, state, isLocal);
    forall d: string
      ensures Knows(pushed, d) <==> Knows(nodes, d) || (d == did && IsIdentifier(did))
    {
      if IsIdentifier(did) {
        assert pushed[|nodes|].did == did;
        assert forall k | 0 <= k < |nodes| :: pushed[k] == nodes[k];
      }
    }
  }

  method ChordNodes(did: string, peers: seq<Peer>) returns (nodes: seq<Node>)
    ensures nodes == SortById(Collect(did, peers))
    ensures Sorted(nodes) && ValidNodes(nodes)
  {
    hide Identifier, Value, Insert, WithValue;
    var collected: seq<Node> := [];
    var local := DidIdentifier(did);
    if local.Some? {
      collected := [Node(did, "local", local.value, true)];
    }
    for k := 0 to |peers|
      invariant collected == Collect(did, peers[..k])
    {
      assert peers[..k + 1][..k] == peers[..k];
      if !Knows(collected, peers[k].did) {
        var id := DidIdentifier(peers[k].did);
        if id.Some? {
          collected := collected + [Node(peers[k].did, peers[k].state, id.value, false)];
        }
      }
    }
    assert peers[..|peers|] == peers;
    nodes := SortById(collected);
    SortIsStable(collected, 0);
    ValidAfterSort(did, peers);
  }

  lemma ValidAfterSort(did: string, peers: seq<Peer>)
    ensures ValidNodes(SortById(Collect(did, peers)))
  {
    var collected := Collect(did, peers);
    var nodes := SortById(collected);
    CollectExact(did, peers);
    SortIsStable(collected, 0);
    hide Identifier, SortById, Collect;
    forall k | 0 <= k < |nodes|
      ensures |nodes[k].id| == CHORD_ID_BYTES
    {
      assert nodes[k] in multiset(nodes);
      var i :| 0 <= i < |collected| && collected[i] == nodes[k];
      IdentifierLength(collected[i].did);
    }
  }

  lemma IdentifierLength(did: string)
    ensures Identifier(did).Some? ==> |Identifier(did).value| == CHORD_ID_BYTES
  {
    hide IsIdentifier, HexValue, HexDigits;
  }
}
