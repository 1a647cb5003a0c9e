/**
 * Bytes to bit atoms, and bit atoms to the three particle ledgers. The inverses are this model's own:
 * the repository has none.
 */
module BitSharder {
  import opened Particles

  datatype Atom = Atom(bit: bv8, particle: Particle, frequency: nat, associatedToken: string)

  const PARTICLES := [Proton, Neutron, Electron]

  // ----- bytes to bits and back -----

  /** Bit `i` of a byte, the most significant first. */
  function BitOf(b: bv8, i: nat): (bit: bv8)
    requires i < 8
    ensures bit == 0 || bit == 1
  {
    (b >> (7 - i)) & 1
  }

  function ColourOf(i: nat): (p: Particle)
    ensures p == Proton <==> i % 3 == 0
    ensures p == Neutron <==> i % 3 == 1
    ensures p == Electron <==> i % 3 == 2
  {
    PARTICLES[i % 3]
  }

  /** Bit 0 is the most significant: the bits are the binary digits of the byte in the usual order. */
  lemma BitsAreBinaryDigits(b: bv8)
    ensures b == 128 * BitOf(b, 0) + 64 * BitOf(b, 1) + 32 * BitOf(b, 2) + 16 * BitOf(b, 3)
               + 8 * BitOf(b, 4) + 4 * BitOf(b, 5) + 2 * BitOf(b, 6) + BitOf(b, 7)
  {
    assert BitOf(b, 0) == (b >> 7) & 1 && BitOf(b, 1) == (b >> 6) & 1 && BitOf(b, 2) == (b >> 5) & 1;
    assert BitOf(b, 3) == (b >> 4) & 1 && BitOf(b, 4) == (b >> 3) & 1 && BitOf(b, 5) == (b >> 2) & 1;
    assert BitOf(b, 6) == (b >> 1) & 1 && BitOf(b, 7) == b & 1;
    BinaryDigits(b);
  }

  lemma BinaryDigits(b: bv8)
    ensures b == 128 * ((b >> 7) & 1) + 64 * ((b >> 6) & 1) + 32 * ((b >> 5) & 1) + 16 * ((b >> 4) & 1)
               + 8 * ((b >> 3) & 1) + 4 * ((b >> 2) & 1) + 2 * ((b >> 1) & 1) + (b & 1)
  {
  }

  /** The eight atoms of one byte; `draws` are the eight random frequencies drawn for it. */
  function AtomsOfByte(b: bv8, draws: seq<nat>, token: string): (atoms: seq<Atom>)
    requires |draws| == 8
    ensures |atoms| == 8
    ensures forall i | 0 <= i < 8 :: atoms[i] == Atom(BitOf(b, i), ColourOf(i), draws[i], token)
  {
    seq(8, i requires 0 <= i < 8 => Atom(BitOf(b, i), ColourOf(i), draws[i], token))
  }

  /** The `flatMap` over the bytes of the buffer, drawing frequencies as it goes. */
  function BitAtoms(bytes: seq<bv8>, draws: seq<nat>, token: string): (atoms: seq<Atom>)
    requires |draws| == 8 * |bytes|
  {
    if bytes == [] then []
    else AtomsOfByte(bytes[0], draws[..8], token) + BitAtoms(bytes[1..], draws[8..], token)
  }

  function Bits(atoms: seq<Atom>): (bits: seq<bv8>)
    ensures |bits| == |atoms|
    ensures forall k | 0 <= k < |bits| :: bits[k] == atoms[k].bit
  {
    seq(|atoms|, k requires 0 <= k < |atoms| => atoms[k].bit)
  }

  function Frequencies(atoms: seq<Atom>): (draws: seq<nat>)
    ensures |draws| == |atoms|
    ensures forall k | 0 <= k < |draws| :: draws[k] == atoms[k].frequency
  {
    seq(|atoms|, k requires 0 <= k < |atoms| => atoms[k].frequency)
  }

  /** Atom `8 i + j` carries bit `j` of byte `i`, the colour of `j`, and the draw at its own position. */
  lemma {:induction false} AtomAt(bytes: seq<bv8>, draws: seq<nat>, token: string, i: nat, j: nat)
    requires |draws| == 8 * |bytes| && i < |bytes| && j < 8
    ensures |BitAtoms(bytes, draws, token)| == 8 * |bytes|
    ensures BitAtoms(bytes, draws, token)[8 * i + j] == Atom(BitOf(bytes[i], j), ColourOf(j), draws[8 * i + j], token)
  {
    AtomCount(bytes, draws, token);
    var first, rest := AtomsOfByte(bytes[0], draws[..8], token), BitAtoms(bytes[1..], draws[8..], token);
    if i == 0 {
      InFirst(first, rest, j);
    } else {
      AtomAt(bytes[1..], draws[8..], token, i - 1, j);
      InRest(first, rest, i, j);
      LaterDraw(draws, i, j);
    }
  }

  lemma InFirst<T>(first: seq<T>, rest: seq<T>, j: nat)
    requires |first| == 8 && j < 8
    ensures (first + rest)[8 * 0 + j] == first[j]
  {
  }

  lemma InRest<T>(first: seq<T>, rest: seq<T>, i: nat, j: nat)
    requires |first| == 8 && i > 0 && 8 * i + j < 8 + |rest|
    ensures (first + rest)[8 * i + j] == rest[8 * (i - 1) + j]
  {
    assert 8 * i + j == 8 + (8 * (i - 1) + j);
  }

  lemma {:induction false} AtomCount(bytes: seq<bv8>, draws: seq<nat>, token: string)
    requires |draws| == 8 * |bytes|
    ensures |BitAtoms(bytes, draws, token)| == 8 * |bytes|
  {
    if bytes != [] {
      AtomCount(bytes[1..], draws[8..], token);
    }
  }

  function PackByte(bits: seq<bv8>): bv8
    requires |bits| == 8
  {
    (bits[0] << 7) | (bits[1] << 6) | (bits[2] << 5) | (bits[3] << 4)
    | (bits[4] << 3) | (bits[5] << 2) | (bits[6] << 1) | bits[7]
  }

  function Pack(bits: seq<bv8>): (bytes: seq<bv8>)
    requires |bits| % 8 == 0
    ensures |bytes| == |bits| / 8
  {
    if bits == [] then [] else [PackByte(bits[..8])] + Pack(bits[8..])
  }

  function UnpackByte(b: bv8): (bits: seq<bv8>)
    ensures |bits| == 8 && forall i | 0 <= i < 8 :: bits[i] == BitOf(b, i)
  {
    seq(8, i requires 0 <= i < 8 => BitOf(b, i))
  }

  function Unpack(bytes: seq<bv8>): (bits: seq<bv8>)
    ensures |bits| == 8 * |bytes|
  {
    if bytes == [] then [] else UnpackByte(bytes[0]) + Unpack(bytes[1..])
  }

  lemma PackUnpackByte(b: bv8)
    ensures PackByte(UnpackByte(b)) == b
  {
    var bits := UnpackByte(b);
    assert bits[0] == (b >> 7) & 1 && bits[1] == (b >> 6) & 1 && bits[2] == (b >> 5) & 1 && bits[3] == (b >> 4) & 1;
    assert bits[4] == (b >> 3) & 1 && bits[5] == (b >> 2) & 1 && bits[6] == (b >> 1) & 1 && bits[7] == b & 1;
    BitsOfByte(b);
  }

  lemma BitsOfByte(b: bv8)
    ensures (((b >> 7) & 1) << 7) | (((b >> 6) & 1) << 6) | (((b >> 5) & 1) << 5) | (((b >> 4) & 1) << 4)
          | (((b >> 3) & 1) << 3) | (((b >> 2) & 1) << 2) | (((b >> 1) & 1) << 1) | (b & 1) == b
  {
  }

  lemma UnpackPackByte(bits: seq<bv8>)
    requires |bits| == 8 && forall i | 0 <= i < 8 :: bits[i] == 0 || bits[i] == 1
    ensures UnpackByte(PackByte(bits)) == bits
  {
    PackedBits(bits[0], bits[1], bits[2], bits[3], bits[4], bits[5], bits[6], bits[7]);
    forall i | 0 <= i < 8
      ensures BitOf(PackByte(bits), i) == bits[i]
    {
    }
  }

  lemma PackedBits(a: bv8, b: bv8, c: bv8, d: bv8, e: bv8, f: bv8, g: bv8, h: bv8)
    requires a <= 1 && b <= 1 && c <= 1 && d <= 1 && e <= 1 && f <= 1 && g <= 1 && h <= 1
    ensures var x := (a << 7) | (b << 6) | (c << 5) | (d << 4) | (e << 3) | (f << 2) | (g << 1) | h;
            && (x >> 7) & 1 == a && (x >> 6) & 1 == b && (x >> 5) & 1 == c && (x >> 4) & 1 == d
            && (x >> 3) & 1 == e && (x >> 2) & 1 == f && (x >> 1) & 1 == g && x & 1 == h
  {
  }

  lemma PackOneMore(first: seq<bv8>, rest: seq<bv8>)
    requires |first| == 8 && |rest| % 8 == 0
    ensures Pack(first + rest) == [PackByte(first)] + Pack(rest)
  {
    assert (first + rest)[..8] == first && (first + rest)[8..] == rest;
  }

  lemma {:induction false} PackUnpack(bytes: seq<bv8>)
    ensures Pack(Unpack(bytes)) == bytes
  {
    if bytes != [] {
      PackUnpackByte(bytes[0]);
      PackUnpack(bytes[1..]);
      PackOneMore(UnpackByte(bytes[0]), Unpack(bytes[1..]));
    }
  }

  ghost predicate AllBits(bits: seq<bv8>) {
    forall k | 0 <= k < |bits| :: bits[k] == 0 || bits[k] == 1
  }

  lemma {:induction false} UnpackPack(bits: seq<bv8>)
    requires |bits| % 8 == 0 && AllBits(bits)
    ensures Unpack(Pack(bits)) == bits
  {
    if bits != [] {
      UnpackPackByte(bits[..8]);
      UnpackPack(bits[8..]);
      assert bits == bits[..8] + bits[8..];
    }
  }

  /** Sharding loses no byte: the atoms' bits, packed eight by eight, are the buffer again. */
  lemma {:induction false} ShardingInverts(bytes: seq<bv8>, draws: seq<nat>, token: string)
    requires |draws| == 8 * |bytes|
    ensures var atoms := BitAtoms(bytes, draws, token);
            && |atoms| == 8 * |bytes| && AllBits(Bits(atoms))
            && Bits(atoms) == Unpack(bytes) && Pack(Bits(atoms)) == bytes
            && Frequencies(atoms) == draws
  {
    var atoms := BitAtoms(bytes, draws, token);
    AtomCount(bytes, draws, token);
    PackUnpack(bytes);
    forall k | 0 <= k < |atoms|
      ensures atoms[k].bit == Unpack(bytes)[k] && atoms[k].frequency == draws[k] && atoms[k].bit <= 1
    {
      AtomAt(bytes, draws, token, k / 8, k % 8);
      UnpackAt(bytes, k / 8, k % 8);
    }
  }

  lemma {:induction false} UnpackAt(bytes: seq<bv8>, i: nat, j: nat)
    requires i < |bytes| && j < 8
    ensures Unpack(bytes)[8 * i + j] == BitOf(bytes[i], j)
  {
    var first, rest := UnpackByte(bytes[0]), Unpack(bytes[1..]);
    if i == 0 {
      InFirst(first, rest, j);
    } else {
      UnpackAt(bytes[1..], i - 1, j);
      InRest(first, rest, i, j);
    }
  }

  lemma LaterDraw(draws: seq<nat>, i: nat, j: nat)
    requires i > 0 && 8 * i + j < |draws|
    ensures draws[8..][8 * (i - 1) + j] == draws[8 * i + j]
  {
  }

  // ----- the particle ledgers -----

  /** The frequencies of the atoms of one colour, in order. */
  function Ledger(atoms: seq<Atom>, p: Particle): seq<nat> {
    if atoms == [] then []
    else
      var n := |atoms| - 1;
      Ledger(atoms[..n], p) + if atoms[n].particle == p then [atoms[n].frequency] else []
  }

  predicate HasColour(atoms: seq<Atom>, p: Particle) {
    exists k | 0 <= k < |atoms| :: atoms[k].particle == p
  }

  /** One ledger for each colour that occurs, holding the frequencies of that colour in order. */
  ghost predicate Grouped(particles: map<Particle, seq<nat>>, atoms: seq<Atom>) {
    forall p ::
      && (p in particles <==> HasColour(atoms, p))
      && (if p in particles then particles[p] else []) == Ledger(atoms, p)
  }

  /** The grouping loop of `logShardFrequencies`: a ledger is created when its first atom comes. */
  method GroupByParticle(atoms: seq<Atom>) returns (particles: map<Particle, seq<nat>>)
    ensures Grouped(particles, atoms)
  {
    particles := map[];
    assert Grouped(particles, atoms[..0]);
    for k := 0 to |atoms|
      invariant Grouped(particles, atoms[..k])
    {
      var Atom(_, particle, frequency, _) := atoms[k];
      GroupNext(particles, atoms, k);
      particles := particles[particle := (if particle in particles then particles[particle] else []) + [frequency]];
    }
    assert atoms[..|atoms|] == atoms;
  }

  lemma GroupNext(particles: map<Particle, seq<nat>>, atoms: seq<Atom>, k: nat)
    requires k < |atoms| && Grouped(particles, atoms[..k])
    ensures var c := atoms[k].particle;
            var entries := (if c in particles then particles[c] else []) + [atoms[k].frequency];
            Grouped(particles[c := entries], atoms[..k + 1])
  {
    var c := atoms[k].particle;
    var after := particles[c := (if c in particles then particles[c] else []) + [atoms[k].frequency]];
    forall p: Particle
      ensures p in after <==> HasColour(atoms[..k + 1], p)
      ensures (if p in after then after[p] else []) == Ledger(atoms[..k + 1], p)
    {
      ColoursGrow(atoms, k, p);
      LedgerGrows(atoms, k, p);
    }
  }

  lemma LedgerGrows(atoms: seq<Atom>, k: nat, p: Particle)
    requires k < |atoms|
    ensures Ledger(atoms[..k + 1], p)
         == Ledger(atoms[..k], p) + if atoms[k].particle == p then [atoms[k].frequency] else []
  {
    assert atoms[..k + 1][..k] == atoms[..k];
  }

  lemma ColoursGrow(atoms: seq<Atom>, k: nat, p: Particle)
    requires k < |atoms|
    ensures HasColour(atoms[..k + 1], p) <==> HasColour(atoms[..k], p) || p == atoms[k].particle
  {
    var before, after := atoms[..k], atoms[..k + 1];
    assert after[k] == atoms[k];
    if HasColour(before, p) {
      var j :| 0 <= j < k && before[j].particle == p;
      assert after[j].particle == p;
    }
    if HasColour(after, p) && p != atoms[k].particle {
      var j :| 0 <= j < k + 1 && after[j].particle == p;
      assert before[j].particle == p;
    }
  }

  /** The residue modulo 3 of the bit indices of a colour. */
  function Residue(p: Particle): nat {
    match p
    case Proton => 0
    case Neutron => 1
    case Electron => 2
  }

  lemma ColourResidue(p: Particle, j: nat)
    ensures ColourOf(j) == p <==> j % 3 == Residue(p)
    ensures ColourOf(j) == p <==> j == 3 * (j / 3) + Residue(p)
  {
  }

  /** Number of ledger entries of a colour that `n` bytes give. */
  function LedgerLength(p: Particle, n: nat): nat {
    if p == Electron then 2 * n else 3 * n
  }

  /** Where the frequency of bit `j` of byte `i` stands in the ledger of its colour `p`. */
  function PlaceInLedger(p: Particle, i: nat, j: nat): nat {
    LedgerLength(p, i) + j / 3
  }

  /** Atoms in groups of eight, coloured by their index in the group, with the given frequencies. */
  ghost predicate Shaped(atoms: seq<Atom>, draws: seq<nat>, n: nat) {
    |atoms| == |draws| == 8 * n
    && forall k | 0 <= k < 8 * n :: atoms[k].particle == ColourOf(k % 8) && atoms[k].frequency == draws[k]
  }

  lemma AtomNumber(bytes: seq<bv8>, draws: seq<nat>, token: string, k: nat)
    requires |draws| == 8 * |bytes| && k < 8 * |bytes|
    ensures |BitAtoms(bytes, draws, token)| == 8 * |bytes|
    ensures BitAtoms(bytes, draws, token)[k].particle == ColourOf(k % 8)
    ensures BitAtoms(bytes, draws, token)[k].frequency == draws[k]
  {
    var i, j := k / 8, k % 8;
    assert k == 8 * i + j;
    AtomAt(bytes, draws, token, i, j);
  }

  lemma BitAtomsShaped(bytes: seq<bv8>, draws: seq<nat>, token: string)
    requires |draws| == 8 * |bytes|
    ensures Shaped(BitAtoms(bytes, draws, token), draws, |bytes|)
  {
    AtomCount(bytes, draws, token);
    forall k: nat | k < 8 * |bytes|
      ensures BitAtoms(bytes, draws, token)[k].particle == ColourOf(k % 8)
      ensures BitAtoms(bytes, draws, token)[k].frequency == draws[k]
    {
      AtomNumber(bytes, draws, token, k);
    }
  }

  /** Number of ledger entries that the first `k` atoms give. */
  function EntriesBefore(p: Particle, k: nat): nat {
    LedgerLength(p, k / 8) + (k % 8 + 2 - Residue(p)) / 3
  }

  lemma EntriesGrow(p: Particle, k: nat)
    ensures EntriesBefore(p, k + 1) == EntriesBefore(p, k) + if ColourOf(k % 8) == p then 1 else 0
  {
    ColourResidue(p, k % 8);
    if k % 8 == 7 {
      assert (k + 1) / 8 == k / 8 + 1 && (k + 1) % 8 == 0;
    } else {
      assert (k + 1) / 8 == k / 8 && (k + 1) % 8 == k % 8 + 1;
    }
  }

  lemma {:induction false} LedgerCount(atoms: seq<Atom>, draws: seq<nat>, n: nat, p: Particle, k: nat)
    requires Shaped(atoms, draws, n) && k <= 8 * n
    ensures |Ledger(atoms[..k], p)| == EntriesBefore(p, k)
  {
    if k > 0 {
      LedgerCount(atoms, draws, n, p, k - 1);
      LedgerGrows(atoms, k - 1, p);
      EntriesGrow(p, k - 1);
    }
  }

  lemma LedgerLengths(atoms: seq<Atom>, draws: seq<nat>, n: nat, p: Particle)
    requires Shaped(atoms, draws, n)
    ensures |Ledger(atoms, p)| == LedgerLength(p, n)
  {
    LedgerCount(atoms, draws, n, p, 8 * n);
    assert atoms[..8 * n] == atoms && (8 * n) / 8 == n;
  }

  /** The frequency of an atom stands in its ledger after those of the atoms before it. */
  lemma {:induction false} LedgerEntry(atoms: seq<Atom>, p: Particle, k: nat)
    requires k < |atoms| && atoms[k].particle == p
    ensures var at := |Ledger(atoms[..k], p)|;
            at < |Ledger(atoms, p)| && Ledger(atoms, p)[at] == atoms[k].frequency
  {
    var n := |atoms| - 1;
    if k < n {
      LedgerEntry(atoms[..n], p, k);
      assert atoms[..n][..k] == atoms[..k];
    }
  }

  /** Entry for bit `j` of byte `i` in the ledger of colour `p`. */
  ghost predicate HoldsAt(ledger: seq<nat>, p: Particle, i: nat, j: nat, frequency: nat) {
    PlaceInLedger(p, i, j) < |ledger| && ledger[PlaceInLedger(p, i, j)] == frequency
  }

  lemma PlaceIsCount(p: Particle, i: nat, j: nat)
    requires j < 8 && j % 3 == Residue(p)
    ensures EntriesBefore(p, 8 * i + j) == PlaceInLedger(p, i, j)
  {
    assert (8 * i + j) / 8 == i && (8 * i + j) % 8 == j;
  }

  /** For n bytes each atom's frequency is at its place in the ledger of its colour. */
  lemma LedgersHold(atoms: seq<Atom>, draws: seq<nat>, n: nat, p: Particle, i: nat, j: nat)
    requires Shaped(atoms, draws, n) && i < n && j < 8 && j % 3 == Residue(p)
    ensures HoldsAt(Ledger(atoms, p), p, i, j, draws[8 * i + j])
  {
    var k := 8 * i + j;
    assert k % 8 == j && atoms[k].particle == ColourOf(k % 8);
    ColourResidue(p, j);
    LedgerCount(atoms, draws, n, p, k);
    LedgerEntry(atoms, p, k);
    PlaceIsCount(p, i, j);
  }

  function LedgerOf(proton: seq<nat>, neutron: seq<nat>, electron: seq<nat>, p: Particle): seq<nat> {
    match p
    case Proton => proton
    case Neutron => neutron
    case Electron => electron
  }

  ghost predicate LedgerSizes(proton: seq<nat>, neutron: seq<nat>, electron: seq<nat>, n: nat) {
    forall p :: |LedgerOf(proton, neutron, electron, p)| == LedgerLength(p, n)
  }

  lemma PlaceFits(i: nat, j: nat, n: nat)
    requires i < n && j < 8
    ensures PlaceInLedger(ColourOf(j), i, j) < LedgerLength(ColourOf(j), n)
  {
  }

  /** The entry for bit `j` of byte `i`, read from the ledger of its colour. */
  function EntryFor(proton: seq<nat>, neutron: seq<nat>, electron: seq<nat>, n: nat, i: nat, j: nat): nat
    requires LedgerSizes(proton, neutron, electron, n) && i < n && j < 8
  {
    PlaceFits(i, j, n);
    LedgerOf(proton, neutron, electron, ColourOf(j))[PlaceInLedger(ColourOf(j), i, j)]
  }

  /** The inverse of the grouping: the ledgers are read entry by entry in the order of the bits. */
  function Interleave(proton: seq<nat>, neutron: seq<nat>, electron: seq<nat>, n: nat): (draws: seq<nat>)
    requires LedgerSizes(proton, neutron, electron, n)
    ensures |draws| == 8 * n
  {
    seq(8 * n, k requires 0 <= k < 8 * n => EntryFor(proton, neutron, electron, n, k / 8, k % 8))
  }

  lemma InterleaveAt(proton: seq<nat>, neutron: seq<nat>, electron: seq<nat>, n: nat, i: nat, j: nat)
    requires LedgerSizes(proton, neutron, electron, n) && i < n && j < 8
    ensures Interleave(proton, neutron, electron, n)[8 * i + j] == EntryFor(proton, neutron, electron, n, i, j)
  {
    assert (8 * i + j) / 8 == i && (8 * i + j) % 8 == j;
  }

  /** The three ledgers lose nothing: interleaving them gives back every frequency in its place. */
  lemma LedgersInvert(bytes: seq<bv8>, draws: seq<nat>, token: string)
    requires |draws| == 8 * |bytes|
    ensures var atoms := BitAtoms(bytes, draws, token);
            && LedgerSizes(Ledger(atoms, Proton), Ledger(atoms, Neutron), Ledger(atoms, Electron), |bytes|)
            && Interleave(Ledger(atoms, Proton), Ledger(atoms, Neutron), Ledger(atoms, Electron), |bytes|) == draws
  {
    var atoms := BitAtoms(bytes, draws, token);
    BitAtomsShaped(bytes, draws, token);
    AllLedgerLengths(atoms, draws, |bytes|);
    var proton, neutron, electron := Ledger(atoms, Proton), Ledger(atoms, Neutron), Ledger(atoms, Electron);
    var back := Interleave(proton, neutron, electron, |bytes|);
    forall k: nat | k < 8 * |bytes|
      ensures back[k] == draws[k]
    {
      var i, j := k / 8, k % 8;
      assert k == 8 * i + j;
      EntryBack(atoms, draws, |bytes|, proton, neutron, electron, i, j);
    }
  }

  lemma AllLedgerLengths(atoms: seq<Atom>, draws: seq<nat>, n: nat)
    requires Shaped(atoms, draws, n)
    ensures LedgerSizes(Ledger(atoms, Proton), Ledger(atoms, Neutron), Ledger(atoms, Electron), n)
  {
    LedgerLengths(atoms, draws, n, Proton);
    LedgerLengths(atoms, draws, n, Neutron);
    LedgerLengths(atoms, draws, n, Electron);
  }

  lemma EntryBack(atoms: seq<Atom>, draws: seq<nat>, n: nat, proton: seq<nat>, neutron: seq<nat>, electron: seq<nat>,
                  i: nat, j: nat)
    requires Shaped(atoms, draws, n) && LedgerSizes(proton, neutron, electron, n) && i < n && j < 8
    requires proton == Ledger(atoms, Proton) && neutron == Ledger(atoms, Neutron) && electron == Ledger(atoms, Electron)
    ensures Interleave(proton, neutron, electron, n)[8 * i + j] == draws[8 * i + j]
  {
    ColourResidue(ColourOf(j), j);
    LedgersHold(atoms, draws, n, ColourOf(j), i, j);
    SameEntry(proton, neutron, electron, atoms, ColourOf(j));
    InterleaveAt(proton, neutron, electron, n, i, j);
  }

  lemma SameEntry(proton: seq<nat>, neutron: seq<nat>, electron: seq<nat>, atoms: seq<Atom>, p: Particle)
    requires proton == Ledger(atoms, Proton) && neutron == Ledger(atoms, Neutron) && electron == Ledger(atoms, Electron)
    ensures LedgerOf(proton, neutron, electron, p) == Ledger(atoms, p)
  {
  }

  /** Every triple of ledgers of the right lengths is what sharding some draws produces. */
  lemma LedgersSurject(bytes: seq<bv8>, proton: seq<nat>, neutron: seq<nat>, electron: seq<nat>,
                                          token: string, p: Particle)
    requires LedgerSizes(proton, neutron, electron, |bytes|)
    ensures Ledger(BitAtoms(bytes, Interleave(proton, neutron, electron, |bytes|), token), p)
         == LedgerOf(proton, neutron, electron, p)
  {
    var draws := Interleave(proton, neutron, electron, |bytes|);
    var atoms := BitAtoms(bytes, draws, token);
    BitAtomsShaped(bytes, draws, token);
    LedgerLengths(atoms, draws, |bytes|, p);
    forall m | 0 <= m < LedgerLength(p, |bytes|)
      ensures Ledger(atoms, p)[m] == LedgerOf(proton, neutron, electron, p)[m]
    {
      var i, j := AtomOf(p, m, |bytes|);
      ColourResidue(p, j);
      LedgersHold(atoms, draws, |bytes|, p, i, j);
      InterleaveAt(proton, neutron, electron, |bytes|, i, j);
    }
  }

  /** The atom whose frequency is entry `m` of the ledger of `p`. */
  lemma AtomOf(p: Particle, m: nat, n: nat) returns (i: nat, j: nat)
    requires m < LedgerLength(p, n)
    ensures i < n && j < 8 && ColourOf(j) == p && PlaceInLedger(ColourOf(j), i, j) == m
  {
    var d := if p == Electron then 2 else 3;
    i, j := m / d, 3 * (m % d) + Residue(p);
    assert j / 3 == m % d;
  }
}
