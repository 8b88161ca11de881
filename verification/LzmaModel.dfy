// The symbol layer of LZMA: which binary decisions stand for a literal, a repeated match
// or a match, what a symbol does to the history, and why no two symbols can be confused.

module LzmaModel {
  import opened Bytes
  import opened RangeCoding
  import opened Bits
  import opened BitTrees

  // ----- layout of the probability slots, as in LzmaDec.c

  const NUM_STATES := 12
  const NUM_LIT_STATES := 7
  const IS_MATCH := 0
  const IS_REP := 192
  const IS_REP_G0 := 204
  const IS_REP_G1 := 216
  const IS_REP_G2 := 228
  const IS_REP0_LONG := 240
  const POS_SLOT := 432
  const SPEC_POS := 688
  const ALIGN := 802
  const LEN_CODER := 818
  const REP_LEN_CODER := 1332
  const LITERAL := 1846
  const LEN_CHOICE2 := 1
  const LEN_LOW := 2
  const LEN_MID := 130
  const LEN_HIGH := 258

  const MATCH_MIN_LEN := 2
  const MATCH_MAX_LEN := 273
  const END_MARKER := 0xFFFF_FFFF
  const MIN_DICTIONARY := 4096
  const MAX_DICTIONARY := 0x800_0000
  /** Up to here the decoder's 32-bit sums of a place in the dictionary and a length do not wrap. */
  const LARGEST_DICTIONARY := WORD - MATCH_MAX_LEN

  datatype Props = Props(lc: nat, lp: nat, pb: nat)

  predicate ValidProps(p: Props) {
    p.lc <= 8 && p.lp <= 4 && p.pb <= 4
  }

  function NumProbs(p: Props): (n: nat)
    ensures n >= LITERAL + 768
  {
    ShlTimes(768, p.lc + p.lp);
    LITERAL + Shl(768, p.lc + p.lp)
  }

  // ----- symbols and what they mean

  datatype Symbol =
    | Literal(byte: Byte)
    | ShortRep
    | Rep(index: nat, len: nat)
    | Match(distance: nat, len: nat)

  predicate ValidSymbol(s: Symbol) {
    match s
    case Literal(_) => true
    case ShortRep => true
    case Rep(i, len) => i < 4 && MATCH_MIN_LEN <= len <= MATCH_MAX_LEN
    case Match(d, len) => d < WORD && MATCH_MIN_LEN <= len <= MATCH_MAX_LEN
  }

  /** The state shared by coder and decoder between symbols; distances are 0-based. */
  datatype Lz = Lz(state: nat, reps: seq<nat>, hist: seq<Byte>)

  const START := Lz(0, [0, 0, 0, 0], [])

  predicate ValidLz(z: Lz) {
    && z.state < NUM_STATES && |z.reps| == 4
    && (forall i :: 0 <= i < 4 ==> z.reps[i] == 0 || z.reps[i] < |z.hist|)
    && (z.state >= NUM_LIT_STATES ==> z.hist != [])
  }

  /** The symbol refers only to history that exists. */
  predicate Refers(z: Lz, s: Symbol) {
    match s
    case Literal(_) => true
    case ShortRep => z.hist != []
    case Rep(_, _) => z.hist != []
    case Match(d, _) => d < |z.hist| && d != END_MARKER
  }

  function LiteralState(state: nat): nat {
    if state < 4 then 0 else if state < 10 then state - 3 else state - 6
  }

  function MatchState(state: nat): nat { if state < NUM_LIT_STATES then 7 else 10 }
  function RepState(state: nat): nat { if state < NUM_LIT_STATES then 8 else 11 }
  function ShortRepState(state: nat): nat { if state < NUM_LIT_STATES then 9 else 11 }

  function ToFront(reps: seq<nat>, i: nat): seq<nat>
    requires |reps| == 4 && i < 4
  {
    [reps[i]] + reps[..i] + reps[i + 1..]
  }

  function Apply(z: Lz, s: Symbol): (r: Lz)
    requires ValidLz(z) && ValidSymbol(s) && Refers(z, s)
    ensures ValidLz(r) && |r.hist| == |z.hist| + Length(s)
  {
    match s
    case Literal(b) => Lz(LiteralState(z.state), z.reps, z.hist + [b])
    case ShortRep => Lz(ShortRepState(z.state), z.reps, Copy(z.hist, z.reps[0], 1))
    case Rep(i, len) => Lz(RepState(z.state), ToFront(z.reps, i), Copy(z.hist, z.reps[i], len))
    case Match(d, len) => Lz(MatchState(z.state), [d] + z.reps[..3], Copy(z.hist, d, len))
  }

  function Length(s: Symbol): nat {
    if s.Rep? || s.Match? then s.len else 1
  }

  // ----- the decisions that stand for a symbol

  function PosState(p: Props, z: Lz): nat { |z.hist| % Pow2(p.pb) }

  /** The literal coder chosen by the low bits of the position and the high bits of the last byte. */
  function LiteralBase(p: Props, hist: seq<Byte>): nat
    requires ValidProps(p)
  {
    if hist == [] then LITERAL
    else LITERAL + 768 * (|hist| % Pow2(p.lp) * Pow2(p.lc) + Shr(hist[|hist| - 1], 8 - p.lc))
  }

  function LiteralTree(p: Props, z: Lz): Tree
    requires ValidProps(p) && ValidLz(z)
  {
    var base := LiteralBase(p, z.hist);
    if z.state < NUM_LIT_STATES then Plain(base)
    else Matched(base, z.hist[|z.hist| - 1 - z.reps[0]])
  }

  function LenOps(base: nat, posState: nat, l: nat): seq<Op> {
    if l < 8 then
      [Model(base, 0)] + Path(Plain(base + LEN_LOW + posState * 8), 8 + l)
    else if l < 16 then
      [Model(base, 1), Model(base + LEN_CHOICE2, 0)] + Path(Plain(base + LEN_MID + posState * 8), l)
    else
      [Model(base, 1), Model(base + LEN_CHOICE2, 1)] + Path(Plain(base + LEN_HIGH), 240 + l)
  }

  /** The six-bit code for the size class of a distance: its top two bits and their place. */
  function DistSlot(d: nat): nat {
    if d < 4 then d else 2 + DistSlot(d / 2)
  }

  function FooterBits(slot: nat): nat { if slot < 4 then 0 else slot / 2 - 1 }
  function SlotBase(slot: nat): nat { if slot < 4 then slot else (2 + slot % 2) * Pow2(FooterBits(slot)) }

  function FooterOps(slot: nat, reduced: nat): seq<Op> {
    if slot < 4 then []
    else if slot < 14 then
      Path(Plain(SPEC_POS + SlotBase(slot) - slot - 1), ReverseNode(FooterBits(slot), reduced))
    else
      DirectPath(FooterBits(slot) - 4, reduced / 16) + Path(Plain(ALIGN), ReverseNode(4, reduced % 16))
  }

  function LenState(l: nat): nat { if l < 4 then l else 3 }

  function DistanceOps(l: nat, d: nat): seq<Op>
    requires d < WORD
  {
    SlotInterval(d);
    var slot := DistSlot(d);
    Path(Plain(POS_SLOT + LenState(l) * 64), 64 + slot) + FooterOps(slot, d - SlotBase(slot))
  }

  function RepOps(state: nat, posState: nat, i: nat): seq<Op> {
    if i == 0 then [Model(IS_REP_G0 + state, 0), Model(IS_REP0_LONG + state * 16 + posState, 1)]
    else if i == 1 then [Model(IS_REP_G0 + state, 1), Model(IS_REP_G1 + state, 0)]
    else [Model(IS_REP_G0 + state, 1), Model(IS_REP_G1 + state, 1), Model(IS_REP_G2 + state, if i == 2 then 0 else 1)]
  }

  function ShortOps(state: nat, posState: nat): seq<Op> {
    [Model(IS_REP_G0 + state, 0), Model(IS_REP0_LONG + state * 16 + posState, 0)]
  }

  /** What follows the two decisions that announce a match or a repeat. */
  function Body(p: Props, z: Lz, s: Symbol): seq<Op>
    requires ValidSymbol(s)
  {
    var posState := PosState(p, z);
    match s
    case Literal(_) => []
    case ShortRep => ShortOps(z.state, posState)
    case Rep(i, len) => RepOps(z.state, posState, i) + LenOps(REP_LEN_CODER, posState, len - 2)
    case Match(d, len) => LenOps(LEN_CODER, posState, len - 2) + DistanceOps(len - 2, d)
  }

  function SymbolOps(p: Props, z: Lz, s: Symbol): seq<Op>
    requires ValidProps(p) && ValidLz(z) && ValidSymbol(s)
  {
    var isMatch := IS_MATCH + z.state * 16 + PosState(p, z);
    if s.Literal? then [Model(isMatch, 0)] + Path(LiteralTree(p, z), 256 + s.byte)
    else [Model(isMatch, 1), Model(IS_REP + z.state, if s.Match? then 0 else 1)] + Body(p, z, s)
  }

  /** A match reaches back only into what a dictionary of this size still holds. */
  predicate Reaches(size: nat, z: Lz, s: Symbol) {
    s.Match? ==> s.distance < |z.hist| && s.distance < size
  }

  /**
   * Why a decoder refuses a symbol: a repeat before any output, seen after two decisions,
   * or a match that reaches too far.
   */
  predicate Refused(p: Props, size: nat, z: Lz, s: Symbol, trace: seq<Op>)
    requires ValidProps(p) && ValidLz(z)
  {
    if s.Match? then
      ValidSymbol(s) && s.distance != END_MARKER && !Reaches(size, z, s) && trace == SymbolOps(p, z, s)
    else
      s.ShortRep? && z.hist == [] && trace == SymbolOps(p, z, s)[..2]
  }

  // ----- sequences of symbols

  /** Every symbol is well formed and refers to history that the symbols before it made. */
  predicate Playable(z: Lz, syms: seq<Symbol>)
    requires ValidLz(z)
    decreases |syms|, 0
  {
    syms == [] ||
    var n := |syms| - 1;
    Playable(z, syms[..n]) && ValidSymbol(syms[n]) && Refers(Run(z, syms[..n]), syms[n])
  }

  function Run(z: Lz, syms: seq<Symbol>): (r: Lz)
    requires ValidLz(z) && Playable(z, syms)
    ensures ValidLz(r)
    decreases |syms|, 1
  {
    if syms == [] then z else Apply(Run(z, syms[..|syms| - 1]), syms[|syms| - 1])
  }

  function AllOps(p: Props, z: Lz, syms: seq<Symbol>): seq<Op>
    requires ValidProps(p) && ValidLz(z) && Playable(z, syms)
  {
    if syms == [] then [] else
      var n := |syms| - 1;
      AllOps(p, z, syms[..n]) + SymbolOps(p, Run(z, syms[..n]), syms[n])
  }

  lemma RunSnoc(p: Props, z: Lz, syms: seq<Symbol>, s: Symbol)
    requires ValidProps(p) && ValidLz(z) && Playable(z, syms)
    requires ValidSymbol(s) && Refers(Run(z, syms), s)
    ensures Playable(z, syms + [s])
    ensures Run(z, syms + [s]) == Apply(Run(z, syms), s)
    ensures AllOps(p, z, syms + [s]) == AllOps(p, z, syms) + SymbolOps(p, Run(z, syms), s)
  {
    assert (syms + [s])[..|syms|] == syms;
  }

  /** The decisions of some symbols and of one more, if any, that is not played. */
  function RunOps(p: Props, z: Lz, syms: seq<Symbol>, last: seq<Symbol>): seq<Op>
    requires ValidProps(p) && ValidLz(z) && Playable(z, syms) && (last != [] ==> ValidSymbol(last[0]))
  {
    AllOps(p, z, syms) + if last == [] then [] else SymbolOps(p, Run(z, syms), last[0])
  }

  /** What follows the last symbol of a stream: a match with the reserved distance. */
  const MARKER := Match(END_MARKER, MATCH_MIN_LEN)

  /** All decisions of a complete stream. */
  function StreamOps(p: Props, syms: seq<Symbol>): seq<Op>
    requires ValidProps(p) && Playable(START, syms)
  {
    RunOps(p, START, syms, [MARKER])
  }

  const INIT_RANGE := 0xFFFF_FFFF

  function StartInterval(p: Props): Interval
    requires ValidProps(p)
  {
    Interval(0, INIT_RANGE, 0, seq(NumProbs(p), i => 1024))
  }

  /** The bytes that a coder with these probabilities writes for these decisions, once flushed. */
  ghost predicate IsCoded(probs: seq<int>, ops: seq<Op>, stream: seq<Byte>)
    requires ValidProbs(probs)
  {
    var e := CodeAll(Interval(0, INIT_RANGE, 0, probs), ops);
    BigEndian(stream) == e.low && |stream| == 5 + e.shifts
  }

  /** The bytes that a coder of these symbols writes. */
  ghost predicate IsStream(p: Props, syms: seq<Symbol>, stream: seq<Byte>)
    requires ValidProps(p) && Playable(START, syms)
  {
    IsCoded(seq(NumProbs(p), i => 1024), StreamOps(p, syms), stream)
  }

  // ----- distance slots

  lemma {:induction false} SlotInterval(d: nat)
    ensures var slot := DistSlot(d);
            SlotBase(slot) <= d < SlotBase(slot) + Pow2(FooterBits(slot))
    ensures d >= 2 ==> DistSlot(d) >= 2
  {
    if d >= 4 {
      SlotInterval(d / 2);
      var slot := DistSlot(d / 2);
      assert FooterBits(slot + 2) == (if slot < 4 then 1 else FooterBits(slot) + 1);
      if slot < 4 {
        assert Pow2(1) == 2;
      } else {
        SlotBaseDoubles(slot);
      }
    }
  }

  lemma SlotBaseDoubles(slot: nat)
    requires slot >= 4
    ensures SlotBase(slot + 2) == 2 * SlotBase(slot)
    ensures Pow2(FooterBits(slot + 2)) == 2 * Pow2(FooterBits(slot))
  {
    var b := Pow2(FooterBits(slot));
    assert (slot + 2) % 2 == slot % 2;
    if slot % 2 == 0 {
      assert SlotBase(slot) == 2 * b;
    } else {
      assert SlotBase(slot) == 3 * b;
    }
  }
}
