/** Wiring compute units to sequencer ports by a running counter, and to translation buffers by division. */
module GpuPorts {
  import opened Arithmetic
  import opened Options

  function CeilDiv(n: nat, g: nat): nat
    requires g > 0
  {
    (n + g - 1) / g
  }

  /** Stepping from `i` to `i + 1`, the group number grows exactly at multiples of the group size. */
  lemma GroupStep(i: nat, g: nat)
    requires g > 0
    ensures (i + 1) / g == i / g + if (i + 1) % g == 0 then 1 else 0
  {
    var q, r := i / g, i % g;
    if r + 1 < g {
      DivUnique(i + 1, g, q, r + 1);
    } else {
      DivUnique(i + 1, g, q + 1, 0);
    }
  }

  /** The groups of `n` units are numbered from 0 and there are exactly CeilDiv(n, g) of them. */
  lemma GroupCount(n: nat, g: nat)
    requires g > 0 && n > 0
    ensures (n - 1) / g + 1 == CeilDiv(n, g)
  {
    var q, r := (n - 1) / g, (n - 1) % g;
    DivUnique(n + g - 1, g, q + 1, r);
  }

  /** Unit `i` has the port of its group. */
  ghost predicate ByGroup(ports: seq<nat>, n: nat, g: nat, first: nat)
    requires g > 0
  {
    |ports| == n && forall i: nat :: i < n ==> ports[i] == first + SharedTlb(i, g).0
  }

  lemma NextOfGroup(ports: seq<nat>, i: nat, g: nat, first: nat)
    requires g > 0 && ByGroup(ports, i, g, first)
    ensures var port := if i == 0 then first else if i % g == 0 then ports[i - 1] + 1 else ports[i - 1];
            ByGroup(ports + [port], i + 1, g, first)
  {
    if i == 0 {
      DivUnique(0, g, 0, 0);
    } else {
      GroupStep(i - 1, g);
      assert ports[i - 1] == first + SharedTlb(i - 1, g).0;
    }
  }

  /** One walk over the units of a shared cache: the counter moves on at the start of each new group. */
  method SharedPorts(n: nat, g: nat, first: nat) returns (ports: seq<nat>, next: nat)
    requires n > 0 && g > 0
    ensures ByGroup(ports, n, g, first)
    ensures next == first + CeilDiv(n, g)
  {
    var idx := first;
    ports := [];
    for i := 0 to n
      invariant ByGroup(ports, i, g, first) && idx == if i == 0 then first else ports[i - 1]
    {
      NextOfGroup(ports, i, g, first);
      if i > 0 && i % g == 0 {
        idx := idx + 1;
      }
      ports := ports + [idx];
    }
    GroupCount(n, g);
    next := idx + 1;
  }

  datatype Ports = Ports(memory: seq<nat>, sqc: seq<nat>, scalar: seq<nat>, cpData: seq<nat>, cpInst: seq<nat>)

  /**
    The whole walk: four consecutive blocks that end exactly at the last port. The shared ports of unit `i` are those
    of its group, the same group that the division picks for its translation buffer.
   */
  method AssignPorts(n: nat, perSqc: nat, perScalar: nat, cps: nat, total: nat) returns (p: Ports, base: nat)
    requires n > 0 && perSqc > 0 && perScalar > 0
    requires total >= n + CeilDiv(n, perSqc) + CeilDiv(n, perScalar) + 2 * cps
    ensures base + n + CeilDiv(n, perSqc) + CeilDiv(n, perScalar) + 2 * cps == total
    ensures |p.memory| == |p.sqc| == |p.scalar| == n && |p.cpData| == |p.cpInst| == cps
    ensures forall i :: 0 <= i < n ==> p.memory[i] == base + i
    ensures ByGroup(p.sqc, n, perSqc, base + n)
    ensures ByGroup(p.scalar, n, perScalar, base + n + CeilDiv(n, perSqc))
    ensures forall i :: 0 <= i < cps ==> p.cpData[i] == total - 2 * cps + 2 * i && p.cpInst[i] == p.cpData[i] + 1
  {
    base := total - n - CeilDiv(n, perSqc) - CeilDiv(n, perScalar) - cps * 2;
    var idx := base;
    var memory: seq<nat> := [];
    for i := 0 to n
      invariant idx == base + i && |memory| == i && forall j :: 0 <= j < i ==> memory[j] == base + j
    {
      memory := memory + [idx];
      idx := idx + 1;
    }
    var sqc, scalar;
    sqc, idx := SharedPorts(n, perSqc, idx);
    scalar, idx := SharedPorts(n, perScalar, idx);
    var cpData: seq<nat>, cpInst: seq<nat> := [], [];
    for i := 0 to cps
      invariant |cpData| == |cpInst| == i
      invariant forall j :: 0 <= j < i ==> cpData[j] == idx + 2 * j && cpInst[j] == cpData[j] + 1
    {
      cpData, cpInst := cpData + [idx + i * 2], cpInst + [idx + i * 2 + 1];
    }
    p := Ports(memory, sqc, scalar, cpData, cpInst);
  }

  /** The coalescer and its port that the division picks for unit `i` of a cache shared by `g` units. */
  function SharedTlb(i: nat, g: nat): (nat, nat)
    requires g > 0
  {
    (i / g, i % g)
  }

  /** No two units share a port of a coalescer, and every coalescer picked exists. */
  lemma SharedTlbIsInjective(i: nat, j: nat, n: nat, g: nat)
    requires g > 0 && i < n && j < n && SharedTlb(i, g) == SharedTlb(j, g)
    ensures i == j && SharedTlb(i, g).0 < CeilDiv(n, g) && SharedTlb(i, g).1 < g
  {
    GroupCount(n, g);
    QuotientAndRest(i, g);
    QuotientAndRest(j, g);
    DivMono(i, n - 1, g);
  }

  datatype TlbConfig = PerLane | Mono | PerCu | PerTwoCus

  function NumTlbs(c: TlbConfig, n: nat): nat {
    match c
    case PerLane => 64 * n
    case Mono => 1
    case PerCu => n
    case PerTwoCus => n / 2
  }

  /** The first-level buffer of unit `cu` in lane `lane`: the exact quotients of the script's divisions, truncated. */
  function DataTlb(cu: nat, lane: nat, n: nat, tlbs: nat): (nat, nat)
    requires n > 0 && tlbs > 0
  {
    var per := Quotient(tlbs, n);
    if per > 0 then (Product(cu, per) + lane, 0)
    else (Quotient(Product(cu, tlbs), n), Quotient(Product(cu, tlbs) % n, tlbs))
  }

  function Product(x: nat, y: nat): nat {
    x * y
  }

  function Quotient(x: nat, y: nat): nat
    requires y > 0
  {
    x / y
  }

  /** The lanes of a unit that get a port of their own. */
  function Lanes(n: nat, tlbs: nat): (lanes: nat)
    requires n > 0
    ensures lanes > 0
  {
    if tlbs / n > 0 then tlbs / n else 1
  }

  datatype Wire = Wire(cu: nat, lane: nat, coalescer: nat, port: nat)

  /** The first-level wiring loop; fails, with a division by zero, exactly when one unit shares a buffer with nobody. */
  method WireDataTlbs(c: TlbConfig, n: nat) returns (r: Option<seq<Wire>>)
    requires n > 0
    ensures r.None? <==> c == PerTwoCus && n == 1
    ensures r.Some? ==> NumTlbs(c, n) > 0 && |r.value| == n * Lanes(n, NumTlbs(c, n))
    ensures r.Some? ==> AllWiredRight(r.value, n, NumTlbs(c, n), Lanes(n, NumTlbs(c, n)))
  {
    var tlbs := NumTlbs(c, n);
    if tlbs == 0 {
      return None;
    }
    var lanes := Lanes(n, tlbs);
    var wires: seq<Wire> := [];
    for cu := 0 to n
      invariant |wires| == cu * lanes && AllWiredRight(wires, n, tlbs, lanes)
    {
      for lane := 0 to lanes
        invariant |wires| == cu * lanes + lane && AllWiredRight(wires, n, tlbs, lanes)
      {
        var (coalescer, port) := DataTlb(cu, lane, n, tlbs);
        DivUnique(cu * lanes + lane, lanes, cu, lane);
        wires := wires + [Wire(cu, lane, coalescer, port)];
      }
      NextProduct(cu, lanes);
    }
    r := Some(wires);
  }

  ghost predicate WiredRight(w: Wire, k: nat, n: nat, tlbs: nat, lanes: nat)
    requires n > 0 && tlbs > 0 && lanes > 0
  {
    w.cu == k / lanes < n && w.lane == k % lanes && (w.coalescer, w.port) == DataTlb(w.cu, w.lane, n, tlbs)
  }

  ghost predicate AllWiredRight(wires: seq<Wire>, n: nat, tlbs: nat, lanes: nat)
    requires n > 0 && tlbs > 0 && lanes > 0
  {
    forall k: nat :: k < |wires| ==> WiredRight(wires[k], k, n, tlbs, lanes)
  }

  /**
    Every pair of coalescer and port is used at most once, every coalescer picked exists, and it has no more ports in
    use than units that share it, for any number of units and buffers.
   */
  lemma DataTlbIsInjective(cu: nat, lane: nat, cu': nat, lane': nat, n: nat, tlbs: nat)
    requires n > 0 && tlbs > 0 && cu < n && cu' < n && lane < Lanes(n, tlbs) && lane' < Lanes(n, tlbs)
    requires DataTlb(cu, lane, n, tlbs) == DataTlb(cu', lane', n, tlbs)
    ensures cu == cu' && lane == lane'
    ensures DataTlb(cu, lane, n, tlbs).0 < tlbs && DataTlb(cu, lane, n, tlbs).1 < CeilDiv(n, tlbs)
  {
    GroupCount(n, tlbs);
    if tlbs / n > 0 {
      OwnInjective(cu, lane, cu', lane', n, tlbs);
    } else {
      SharedInjective(cu, cu', n, tlbs);
      SharedInRange(cu, n, tlbs);
      DivMono(cu * tlbs % n, n - 1, tlbs);
    }
  }

  /** When the units divide evenly, each buffer serves a block of neighbouring units, in order. */
  lemma EvenlyShared(cu: nat, n: nat, tlbs: nat, g: nat)
    requires tlbs > 0 && n == g * tlbs && g > 1 && cu < n
    ensures DataTlb(cu, 0, n, tlbs) == SharedTlb(cu, g)
  {
    QuotientAndRest(cu, g);
    FewerThanUnits(n, tlbs, g);
    BlockOf(cu, cu / g, cu % g, g, tlbs);
    DivUnique(cu % g * tlbs, tlbs, cu % g, 0);
    SharedByDivision(cu, n, tlbs, cu / g, cu % g);
  }

  lemma FewerThanUnits(n: nat, tlbs: nat, g: nat)
    requires tlbs > 0 && n == g * tlbs && g > 1
    ensures n > 0 && Quotient(tlbs, n) == 0
  {
    MulMono(1, g, tlbs);
    DivUnique(tlbs, n, 0, tlbs);
  }

  lemma SharedByDivision(cu: nat, n: nat, tlbs: nat, q: nat, r: nat)
    requires n > 0 && tlbs > 0 && Quotient(tlbs, n) == 0
    requires cu * tlbs / n == q && cu * tlbs % n == r * tlbs && r * tlbs / tlbs == r
    ensures DataTlb(cu, 0, n, tlbs) == (q, r)
  {
  }

  lemma BlockOf(cu: nat, q: nat, r: nat, g: nat, tlbs: nat)
    requires tlbs > 0 && cu == q * g + r && r < g
    ensures g * tlbs > 0 && cu * tlbs / (g * tlbs) == q && cu * tlbs % (g * tlbs) == r * tlbs
  {
    MulMono(r, g, tlbs);
    assert cu * tlbs == q * (g * tlbs) + r * tlbs;
    DivUnique(cu * tlbs, g * tlbs, q, r * tlbs);
  }

  /**
    The four configurations: a buffer for each of the 64 lanes of each unit, one for all units, one per unit, and one
    per pair of units.
   */
  lemma ConfigurationsMean(n: nat, cu: nat, lane: nat)
    requires cu < n
    ensures Lanes(n, NumTlbs(PerLane, n)) == 64
    ensures lane < 64 ==> NumTlbs(PerLane, n) > 0 && DataTlb(cu, lane, n, NumTlbs(PerLane, n)) == (64 * cu + lane, 0)
    ensures n > 1 ==> DataTlb(cu, 0, n, NumTlbs(Mono, n)) == (0, cu)
    ensures Lanes(n, NumTlbs(PerCu, n)) == 1 && DataTlb(cu, 0, n, NumTlbs(PerCu, n)) == (cu, 0)
    ensures n % 2 == 0 ==> NumTlbs(PerTwoCus, n) > 0 && DataTlb(cu, 0, n, NumTlbs(PerTwoCus, n)) == (cu / 2, cu % 2)
  {
    DivUnique(64 * n, n, 64, 0);
    DivUnique(n, n, 1, 0);
    if n > 1 {
      EvenlyShared(cu, n, 1, n);
      DivUnique(cu, n, 0, cu);
    }
    if n % 2 == 0 {
      EvenlyShared(cu, n, n / 2, 2);
    }
  }

  lemma OwnInjective(cu: nat, lane: nat, cu': nat, lane': nat, n: nat, tlbs: nat)
    requires n > 0 && cu < n && cu' < n && lane < tlbs / n && lane' < tlbs / n
    requires cu * (tlbs / n) + lane == cu' * (tlbs / n) + lane'
    ensures cu == cu' && lane == lane' && cu * (tlbs / n) + lane < tlbs
  {
    var per := tlbs / n;
    DivUnique(cu * per + lane, per, cu, lane);
    DivUnique(cu' * per + lane', per, cu', lane');
    MulMono(cu, n, per);
    DivBounds(tlbs, n);
    Commute(n, per);
  }

  lemma SharedInRange(cu: nat, n: nat, tlbs: nat)
    requires n > 0 && tlbs > 0 && cu < n
    ensures cu * tlbs / n < tlbs
  {
    MulMono(cu, n, tlbs);
    var q := cu * tlbs / n;
    if q > tlbs {
      MulMono(tlbs, q, n);
    }
  }

  lemma SharedInjective(a: nat, b: nat, n: nat, tlbs: nat)
    requires n > 0 && tlbs > 0
    requires a * tlbs / n == b * tlbs / n && a * tlbs % n / tlbs == b * tlbs % n / tlbs
    ensures a == b
  {
    var q := a * tlbs / n;
    var r, s := a * tlbs % n, b * tlbs % n;
    assert a * tlbs == q * n + r && b * tlbs == q * n + s;
    if a < b {
      MulMono(a, b, tlbs);
      Apart(r, s, tlbs);
    } else if b < a {
      MulMono(b, a, tlbs);
      Apart(s, r, tlbs);
    }
  }

  lemma Apart(r: nat, s: nat, d: nat)
    requires d > 0 && r + d <= s
    ensures r / d < s / d
  {
    DivUnique(r + d, d, r / d + 1, r % d);
    if s / d < r / d + 1 {
      MulMono(s / d, r / d + 1, d);
    }
  }
}
