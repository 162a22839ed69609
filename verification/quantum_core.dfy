/**
 The deterministic parts of `LinuxOctaBitQuantumCore`: the seed-derived
 timestamp and LCG, the recursive 8×8×8 lattice, the three armor layers and
 the report of `run`. The SHA-256 digest of the seed is an input here: any
 64-character lower-case hex string.
 */
module QuantumCore {
  import opened Wrappers
  import opened Bytes

  const SphereCompression: int := 8
  const QuantumNodes: int := 4096

  /** 2^32, the LCG's modulus. */
  const TwoTo32: nat := 4294967296

  /** 2^53 - 1, the modulus of the timestamp. */
  const MaxSafeInteger: nat := 9007199254740991

  /** What `hashlib.sha256(...).hexdigest()` returns: 64 lower-case hex digits. */
  predicate IsDigest(d: string) {
    |d| == 64 && forall i :: 0 <= i < |d| ==> d[i] in HexDigits
  }

  function Pow16(n: nat): (p: nat)
    ensures p >= 1
  {
    if n == 0 then 1 else 16 * Pow16(n - 1)
  }

  /** `int(s, 16)` on a string of hex digits: most significant digit first. */
  function HexNumber(s: string): (n: nat)
    requires forall i :: 0 <= i < |s| ==> IsHexDigit(s[i])
    ensures n < Pow16(|s|)
    decreases |s|
  {
    if s == [] then 0
    else
      var init := s[..|s| - 1];
      var high := HexNumber(init);
      assert IsHexDigit(s[|s| - 1]);
      var low := HexValue(s[|s| - 1]).value;
      assert high * 16 + low < Pow16(|s|) by {
        assert high <= Pow16(|init|) - 1;
        assert high * 16 <= (Pow16(|init|) - 1) * 16;
      }
      high * 16 + low
  }

  lemma Pow16Values()
    ensures Pow16(8) == TwoTo32
    ensures Pow16(13) == 4503599627370496
  {
    assert Pow16(4) == 65536;
    assert Pow16(8) == 65536 * 65536;
    assert Pow16(12) == 65536 * 65536 * 65536;
  }

  lemma DigestDigits(d: string, n: nat)
    requires IsDigest(d) && n <= 64
    ensures forall i :: 0 <= i < n ==> IsHexDigit(d[..n][i])
  {
    forall i | 0 <= i < n
      ensures IsHexDigit(d[..n][i])
    {
      assert d[i] in HexDigits;
    }
  }

  // ---------------------------------------------------------------------
  // Seeded timestamp and LCG
  // ---------------------------------------------------------------------

  /**
   `get_seeded_timestamp`: the first 13 hex digits modulo 2^53 - 1. Thirteen
   digits stay below 2^52, so the modulus never changes the value.
   */
  function SeededTimestamp(digest: string): (t: nat)
    requires IsDigest(digest)
    ensures t < 4503599627370496
    ensures t == HexNumber(digest[..13])
  {
    DigestDigits(digest, 13);
    Pow16Values();
    var t := HexNumber(digest[..13]);
    ModBelow(t, MaxSafeInteger);
    t % MaxSafeInteger
  }

  /** `init_prng`: the first 8 hex digits of the digest. */
  function InitPrng(digest: string): (state: nat)
    requires IsDigest(digest)
    ensures state < TwoTo32
    ensures state == HexNumber(digest[..8])
  {
    DigestDigits(digest, 8);
    Pow16Values();
    HexNumber(digest[..8])
  }

  /** One step of the LCG `state·1664525 + 1013904223 mod 2^32`. */
  function LcgStep(state: nat): (next: nat)
    ensures next < TwoTo32
  {
    (state * 1664525 + 1013904223) % TwoTo32
  }

  /**
   `seeded_random`: initialise the state from the digest if there is none,
   step it, and return the new state over 2^32. The state is below 2^32, so
   the float division is exact and the value lies in [0, 1).
   */
  function SeededRandom(state: Option<nat>, digest: string): (res: (nat, real))
    requires IsDigest(digest)
    ensures res.0 < TwoTo32
    ensures 0.0 <= res.1 < 1.0
    ensures res.1 * TwoTo32 as real == res.0 as real
    ensures state.None? ==> res.0 == LcgStep(InitPrng(digest))
    ensures state.Some? ==> res.0 == LcgStep(state.value)
  {
    var current := if state.Some? then state.value else InitPrng(digest);
    var next := LcgStep(current);
    (next, next as real / TwoTo32 as real)
  }

  // ---------------------------------------------------------------------
  // The recursive lattice
  // ---------------------------------------------------------------------

  /** One node of the sphere topology. */
  datatype Node = Node(compressed: bool, density: int, neuralConnections: int, quantumState: string)

  /** A lattice; `innerLattice` is absent at depth zero and below. */
  datatype Lattice = Lattice(
    sphereTopology: seq<seq<seq<Node>>>,
    recursionLevel: int,
    neuralMultiplexing: bool,
    innerLattice: Option<Lattice>)

  /** The node every position of the topology holds. */
  const StandardNode: Node := Node(true, SphereCompression, 64, "entangled")

  /** The 8×8×8 topology, the same node everywhere. */
  function SphereTopology(): (t: seq<seq<seq<Node>>>)
    ensures IsSphere(t)
  {
    seq(8, i => seq(8, j => seq(8, k => StandardNode)))
  }

  /** Eight planes of eight rows of eight standard nodes. */
  predicate IsSphere(t: seq<seq<seq<Node>>>) {
    && |t| == 8
    && (forall i :: 0 <= i < 8 ==> |t[i]| == 8)
    && (forall i, j :: 0 <= i < 8 && 0 <= j < 8 ==> |t[i][j]| == 8)
    && (forall i, j, k :: 0 <= i < 8 && 0 <= j < 8 && 0 <= k < 8 ==> t[i][j][k] == StandardNode)
  }

  /** `generate_recursive_lattice(depth)`. */
  function GenerateRecursiveLattice(depth: int): (l: Lattice)
    ensures l.recursionLevel == depth
    ensures l.innerLattice.Some? <==> depth > 0
    ensures depth > 0 ==> l.innerLattice.value.recursionLevel == depth - 1
    decreases if depth > 0 then depth else 0
  {
    var inner := if depth > 0 then Some(GenerateRecursiveLattice(depth - 1)) else None;
    Lattice(SphereTopology(), depth, true, inner)
  }

  /** How many lattices are nested inside `l`. */
  function NestingDepth(l: Lattice): nat
    decreases l
  {
    match l.innerLattice
    case None => 0
    case Some(inner) => 1 + NestingDepth(inner)
  }

  /** Every lattice of the chain has the standard topology, and each inner level is one less. */
  predicate WellFormedChain(l: Lattice)
    decreases l
  {
    && IsSphere(l.sphereTopology)
    && l.neuralMultiplexing
    && match l.innerLattice
       case None => true
       case Some(inner) => inner.recursionLevel == l.recursionLevel - 1 && WellFormedChain(inner)
  }

  /** A lattice generated at depth `d >= 0` nests exactly `d` lattices, all well formed. */
  lemma {:induction false} GeneratedChain(depth: int)
    ensures WellFormedChain(GenerateRecursiveLattice(depth))
    ensures NestingDepth(GenerateRecursiveLattice(depth)) == if depth > 0 then depth else 0
    decreases if depth > 0 then depth else 0
  {
    if depth > 0 {
      GeneratedChain(depth - 1);
    }
  }

  /** `activate_triple_lattice_armor`: lattices of depth 0, 1 and 2. */
  function TripleLatticeArmor(): (layers: seq<Lattice>)
    ensures |layers| == 3
    ensures forall i :: 0 <= i < 3 ==>
      layers[i].recursionLevel == i && NestingDepth(layers[i]) == i && WellFormedChain(layers[i])
  {
    ArmorChains();
    seq(3, i requires 0 <= i < 3 => GenerateRecursiveLattice(i))
  }

  lemma ArmorChains()
    ensures forall i :: 0 <= i < 3 ==>
      NestingDepth(GenerateRecursiveLattice(i)) == i && WellFormedChain(GenerateRecursiveLattice(i))
  {
    forall i | 0 <= i < 3
      ensures NestingDepth(GenerateRecursiveLattice(i)) == i && WellFormedChain(GenerateRecursiveLattice(i))
    {
      GeneratedChain(i);
    }
  }

  // ---------------------------------------------------------------------
  // The core object and `run`
  // ---------------------------------------------------------------------

  /** The fields the deterministic operations read and write. */
  datatype Core = Core(digest: string, prngState: Option<nat>, armorLayers: seq<Lattice>, deceptionActive: bool)

  /**
   The constructor with `initialize_quantum_entanglement`: the PRNG state from
   the digest, the three armor layers, and the stealth layer's deception flag
   copied from `linux_stealth`, which is always set.
   */
  function NewCore(digest: string): (c: Core)
    requires IsDigest(digest)
    ensures c.prngState == Some(InitPrng(digest))
    ensures |c.armorLayers| == 3 && c.deceptionActive
  {
    Core(digest, Some(InitPrng(digest)), TripleLatticeArmor(), true)
  }

  /** The dictionary `generate_quantum_inbot_code` returns. */
  datatype InbotCode = InbotCode(
    timestamp: nat,
    randomSignature: real,
    quantumState: string,
    missionProtocol: string,
    compressionRatio: int,
    neuralDensity: int)

  /** `generate_quantum_inbot_code`: the timestamp and one LCG draw. */
  function GenerateQuantumInbotCode(c: Core): (res: (Core, InbotCode))
    requires IsDigest(c.digest)
    ensures res.0 == c.(prngState := Some(SeededRandom(c.prngState, c.digest).0))
    ensures res.1.timestamp == SeededTimestamp(c.digest)
    ensures 0.0 <= res.1.randomSignature < 1.0
  {
    var (state, value) := SeededRandom(c.prngState, c.digest);
    (c.(prngState := Some(state)),
     InbotCode(SeededTimestamp(c.digest), value, "entangled", "divine_guardian_angel", SphereCompression, QuantumNodes))
  }

  /** The dictionary `run` returns. */
  datatype RunReport = RunReport(status: string, inbotCode: InbotCode, armorLayers: nat, stealthActive: bool)

  /** `run`: one inbot code and a summary of the core. */
  function Run(c: Core): (res: (Core, RunReport))
    requires IsDigest(c.digest)
    ensures res.0 == c.(prngState := Some(SeededRandom(c.prngState, c.digest).0))
    ensures res.1.status == "operational" && res.1.stealthActive == c.deceptionActive
    ensures res.1.armorLayers == |c.armorLayers|
    ensures res.1.inbotCode.timestamp == SeededTimestamp(c.digest)
    ensures res.1.inbotCode.randomSignature * TwoTo32 as real == res.0.prngState.value as real
  {
    var (c', code) := GenerateQuantumInbotCode(c);
    (c', RunReport("operational", code, |c.armorLayers|, c.deceptionActive))
  }

  /**
   A freshly built core reports three armor layers with stealth active, and
   its first random signature is the LCG step after the digest's first eight
   digits.
   */
  lemma RunFresh(digest: string)
    requires IsDigest(digest)
    ensures Run(NewCore(digest)).1.armorLayers == 3
    ensures Run(NewCore(digest)).1.stealthActive
    ensures Run(NewCore(digest)).1.inbotCode.randomSignature * TwoTo32 as real
      == LcgStep(InitPrng(digest)) as real
  {
  }

  /**
   Running twice draws twice: the second report keeps the timestamp, and its
   signature is the LCG step of the state the first run stored.
   */
  lemma RunTwice(c: Core)
    requires IsDigest(c.digest)
    ensures var (c1, r1) := Run(c); var (c2, r2) := Run(c1);
      && r2.inbotCode.timestamp == r1.inbotCode.timestamp
      && c2.prngState == Some(LcgStep(c1.prngState.value))
      && r2.inbotCode.randomSignature * TwoTo32 as real == LcgStep(c1.prngState.value) as real
  {
  }
}
