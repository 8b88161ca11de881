// The compressors of fastlz.c, both levels: literals are written behind a count byte that
// is filled in later, matches come from a hash table of earlier positions or from runs.

module FastLzCompressors {
  import opened Bits
  import opened Bytes
  import opened FastLzFormat

  const HASH_LOG := 13
  const MAX_DISTANCE_1 := 8192
  const MAX_FARDISTANCE := 73725

  // ----- the space that is needed

  /** The output size the header asks for: 5% more than the input, at least 66 bytes. */
  predicate Documented(n: nat, size: nat) {
    size >= 66 && 20 * size >= 21 * n
  }

  /** What is ever written for n bytes of input. */
  function MostWritten(n: nat): nat { n + n / 32 + 1 }

  lemma DocumentedSuffices(n: nat, size: nat)
    requires Documented(n, size)
    ensures MostWritten(n) <= size
  {
  }

  /** 32 bytes of input pay for 33 bytes of output, and one byte is lent. */
  predicate Paid(op: nat, pos: nat, credit: int) {
    32 * op <= 33 * pos + 32 - credit
  }

  lemma PaidFits(op: nat, pos: nat, n: nat)
    requires 32 * op <= 33 * pos + 32 && pos <= n
    ensures op <= MostWritten(n)
  {
  }

  // ----- what is in the output

  /** Tokens, then a count byte and the literals that it will count. */
  ghost predicate Open(level: Level, input: seq<Byte>, out: seq<Byte>, ts: seq<Token>, pos: nat, copy: nat) {
    && copy < MAX_COPY && copy <= pos <= |input| && AllExpressible(level, ts) && Playable(ts)
    && Play(ts) == input[..pos - copy] && out == Body(level, ts) + [MAX_COPY - 1] + input[pos - copy..pos]
    && Paid(|out|, pos, copy) && (if ts == [] then copy > 0 else ts[0].Literals?)
  }

  /** Tokens only. */
  ghost predicate Closed(level: Level, input: seq<Byte>, out: seq<Byte>, ts: seq<Token>, pos: nat) {
    && pos <= |input| && WellFormed(level, ts) && Play(ts) == input[..pos] && out == Body(level, ts)
    && Paid(|out|, pos, 1)
  }

  /** A counted run of literals is one more token. */
  lemma Counted(level: Level, input: seq<Byte>, ts: seq<Token>, from: nat, to: nat) returns (us: seq<Token>)
    requires AllExpressible(level, ts) && Playable(ts) && from < to <= |input| && to - from <= MAX_COPY
    requires Play(ts) == input[..from] && (ts != [] ==> ts[0].Literals?)
    ensures us != [] && us[0].Literals? && AllExpressible(level, us) && Playable(us) && Play(us) == input[..to]
    ensures Body(level, us) == Body(level, ts) + ([to - from - 1] + input[from..to])
  {
    hide Body, Play, Playable;
    var t := Literals(input[from..to]);
    us := ts + [t];
    Snoc(level, ts, t);
    assert input[..to] == input[..from] + input[from..to];
  }

  lemma OneLiteral(level: Level, input: seq<Byte>, out: seq<Byte>, ts: seq<Token>, pos: nat, copy: nat) returns (us: seq<Token>)
    requires Open(level, input, out, ts, pos, copy) && pos < |input|
    ensures if copy + 1 < MAX_COPY then us == ts && Open(level, input, out + [input[pos]], ts, pos + 1, copy + 1)
            else Open(level, input, out + [input[pos]] + [MAX_COPY - 1], us, pos + 1, 0)
  {
    hide Body, Play, Playable, AllExpressible;
    var lits := input[pos - copy..pos];
    assert input[pos - copy..pos + 1] == lits + [input[pos]];
    us := ts;
    if copy + 1 == MAX_COPY {
      us := Counted(level, input, ts, pos - copy, pos + 1);
      assert input[pos + 1..pos + 1] == [];
    }
  }

  /** Filling in the count, or taking an unused count byte back. */
  lemma Closing(level: Level, input: seq<Byte>, out: seq<Byte>, ts: seq<Token>, pos: nat, copy: nat) returns (us: seq<Token>)
    requires Open(level, input, out, ts, pos, copy)
    ensures copy > 0 ==> |out| > copy && Closed(level, input, out[|out| - copy - 1 := copy - 1], us, pos)
    ensures copy == 0 ==> out != [] && Closed(level, input, out[..|out| - 1], us, pos)
  {
    hide Body, Play, Playable, AllExpressible;
    var lits, body := input[pos - copy..pos], Body(level, ts);
    us := ts;
    if copy > 0 {
      us := Counted(level, input, ts, pos - copy, pos);
      assert out[|body| := copy - 1] == body + ([copy - 1] + lits);
    } else {
      assert lits == [];
      assert out[..|out| - 1] == body;
    }
  }

  // ----- literals

  /** `*op++ = *anchor++`, with a new count byte after every 32. */
  method PutLiteral(ghost level: Level, input: seq<Byte>, output: array<Byte>, op0: nat, pos: nat, copy0: nat, ghost ts: seq<Token>)
    returns (op: nat, copy: nat, ghost us: seq<Token>)
    requires MostWritten(|input|) <= output.Length && op0 <= output.Length && pos < |input|
    requires Open(level, input, output[..op0], ts, pos, copy0)
    modifies output
    ensures op <= output.Length && Open(level, input, output[..op], us, pos + 1, copy)
    ensures if copy0 + 1 < MAX_COPY then op == op0 + 1 && copy == copy0 + 1 else op == op0 + 2 && copy == 0
  {
    hide Body, Play, Playable, AllExpressible;
    us := OneLiteral(level, input, output[..op0], ts, pos, copy0);
    PaidFits(if copy0 + 1 < MAX_COPY then op0 + 1 else op0 + 2, pos + 1, |input|);
    op, copy := op0, copy0;
    ghost var out := output[..op];
    output[op] := input[pos];
    op := op + 1;
    assert output[..op] == out + [input[pos]];
    copy := copy + 1;
    if copy == MAX_COPY {
      copy := 0;
      output[op] := MAX_COPY - 1;
      op := op + 1;
      assert output[..op] == out + [input[pos]] + [MAX_COPY - 1];
    }
  }

  /** Adjusts the count of the literals copied, or overwrites it when there are none. */
  method Close(ghost level: Level, ghost input: seq<Byte>, output: array<Byte>, op0: nat, ghost pos: nat, copy: nat, ghost ts: seq<Token>)
    returns (op: nat, ghost us: seq<Token>)
    requires op0 <= output.Length && Open(level, input, output[..op0], ts, pos, copy)
    modifies output
    ensures op <= op0 && Closed(level, input, output[..op], us, pos)
  {
    hide Body, Play, Playable, AllExpressible;
    us := Closing(level, input, output[..op0], ts, pos, copy);
    ghost var out := output[..op0];
    op := op0;
    if copy != 0 {
      assert |out| > copy;
      output[op - copy - 1] := copy - 1;
      assert output[..op] == out[op - copy - 1 := copy - 1];
    } else {
      op := op - 1;
      assert output[..op] == out[..op];
    }
  }

  // ----- matches

  /** The next `len` bytes also occur distance + 1 positions earlier. */
  ghost predicate Repeats(input: seq<Byte>, pos: nat, distance: nat, len: nat) {
    distance < pos && pos + len <= |input| && forall i :: pos <= i < pos + len ==> input[i] == input[i - 1 - distance]
  }

  lemma OneMatch(level: Level, input: seq<Byte>, out: seq<Byte>, ts: seq<Token>, pos: nat, d: nat, len: nat)
    returns (us: seq<Token>)
    requires Closed(level, input, out, ts, pos) && Repeats(input, pos, d, len) && Expressible(level, Match(d, len))
    ensures WellFormed(level, us) && Play(us) == input[..pos + len] && Body(level, us) == out + MatchBytes(level, d, len)
  {
    us := ts + [Match(d, len)];
    Snoc(level, ts, Match(d, len));
    CopyIsText(input, pos, d, len);
  }

  lemma {:induction false} LengthBytesSize(x: nat)
    ensures |LengthBytes(x)| == x / 255 + 1
  {
    if x >= 255 {
      LengthBytesSize(x - 255);
    }
  }

  /** A match pays for itself and for the next count byte; a far one must be longer. */
  lemma MatchPays(level: Level, d: nat, len: nat)
    requires Expressible(level, Match(d, len)) && (d >= NEAR_LIMIT ==> len >= 5)
    ensures 32 * |MatchBytes(level, d, len)| + 31 <= 33 * len
  {
    if len >= 9 {
      LengthBytesSize(len - 9);
    }
  }

  /** The most bytes that a match of len + 2 bytes is put out in. */
  function MatchCost(level: Level, len: nat): nat {
    if level == 1 then 3 * (len / 262 + 1) else 5 + len / 255
  }

  lemma OneCost(level: Level, d: nat, len: nat)
    requires len >= 1 && Expressible(level, Match(d, len + 2))
    ensures |MatchBytes(level, d, len + 2)| <= MatchCost(level, len)
  {
    if level == 2 && len >= 7 {
      LengthBytesSize(len - 7);
    }
  }

  /** for (; len >= 255; len -= 255) *op++ = 255; *op++ = len; */
  method PutLength(output: array<Byte>, op0: nat, x: nat) returns (op: nat)
    requires op0 + |LengthBytes(x)| <= output.Length
    modifies output
    ensures op == op0 + |LengthBytes(x)| && output[..op] == old(output[..op0]) + LengthBytes(x)
  {
    op := op0;
    var len := x;
    while len >= 255
      invariant op0 <= op && op + |LengthBytes(len)| == op0 + |LengthBytes(x)|
      invariant output[..op] + LengthBytes(len) == old(output[..op0]) + LengthBytes(x)
    {
      ghost var out := output[..op];
      output[op] := 255;
      op := op + 1;
      assert output[..op] == out + [255];
      len := len - 255;
      assert out + ([255] + LengthBytes(len)) == output[..op] + LengthBytes(len);
    }
    ghost var out := output[..op];
    output[op] := len;
    op := op + 1;
    assert output[..op] == out + [len];
  }

  /** The bytes of one match at level 2, near or far, short or long. */
  method PutMatch2(output: array<Byte>, op0: nat, distance: nat, len: nat) returns (op: nat)
    requires Expressible(2, Match(distance, len + 2)) && op0 + |MatchBytes(2, distance, len + 2)| <= output.Length
    modifies output
    ensures op == op0 + |MatchBytes(2, distance, len + 2)|
    ensures output[..op] == old(output[..op0]) + MatchBytes(2, distance, len + 2)
  {
    hide LengthBytes;
    ghost var out := output[..op0];
    if distance < NEAR_LIMIT {
      op := PutHead(output, op0, distance / 256, len);
      ghost var head := output[..op];
      output[op] := distance % 256;
      op := op + 1;
      assert output[..op] == head + [distance % 256];
    } else {
      var far := distance - NEAR_LIMIT;
      op := PutHead(output, op0, 31, len);
      ghost var head := output[..op];
      output[op] := 255;
      output[op + 1] := far / 256;
      output[op + 2] := far % 256;
      op := op + 3;
      assert output[..op] == head + [255, far / 256, far % 256];
    }
  }

  function HeadBytes(high: nat, len: nat): seq<Byte>
    requires high < 32 && len >= 1
  {
    if len < 7 then [len * 32 + high] else [7 * 32 + high] + LengthBytes(len - 7)
  }

  /** The length of a match at level 2, with the top bits of the distance. */
  method PutHead(output: array<Byte>, op0: nat, high: nat, len: nat) returns (op: nat)
    requires high < 32 && len >= 1 && op0 + |HeadBytes(high, len)| <= output.Length
    modifies output
    ensures op == op0 + |HeadBytes(high, len)| && output[..op] == old(output[..op0]) + HeadBytes(high, len)
  {
    hide LengthBytes;
    ghost var out := output[..op0];
    if len < 7 {
      output[op0] := len * 32 + high;
      op := op0 + 1;
      assert output[..op] == out + [len * 32 + high];
    } else {
      output[op0] := 7 * 32 + high;
      assert output[..op0 + 1] == out + [7 * 32 + high];
      op := PutLength(output, op0 + 1, len - 7);
      assert (out + [7 * 32 + high]) + LengthBytes(len - 7) == out + ([7 * 32 + high] + LengthBytes(len - 7));
    }
  }

  /** The bytes of one match at level 1. */
  method PutMatch1(output: array<Byte>, op0: nat, distance: nat, len: nat) returns (op: nat)
    requires Expressible(1, Match(distance, len + 2)) && op0 + |MatchBytes(1, distance, len + 2)| <= output.Length
    modifies output
    ensures op == op0 + |MatchBytes(1, distance, len + 2)|
    ensures output[..op] == old(output[..op0]) + MatchBytes(1, distance, len + 2)
  {
    op := op0;
    if len < 7 {
      output[op] := len * 32 + distance / 256;
      output[op + 1] := distance % 256;
      op := op + 2;
    } else {
      output[op] := 7 * 32 + distance / 256;
      output[op + 1] := len - 7;
      output[op + 2] := distance % 256;
      op := op + 3;
    }
  }

  /** The pieces of 262 bytes of a long match at level 1. */
  method PutPieces(ghost input: seq<Byte>, output: array<Byte>, op0: nat, ghost pos: nat, distance: nat, len0: nat,
                   ghost ts: seq<Token>)
    returns (op: nat, len: nat, ghost p: nat, ghost us: seq<Token>)
    requires MostWritten(|input|) <= output.Length && op0 <= output.Length && distance < NEAR_LIMIT
    requires Closed(1, input, output[..op0], ts, pos) && len0 >= 1 && Repeats(input, pos, distance, len0 + 2)
    modifies output
    ensures op <= output.Length && Closed(1, input, output[..op], us, p) && 1 <= len <= MAX_LEN - 2
    ensures p + len == pos + len0 && Repeats(input, p, distance, len + 2)
    ensures op + MatchCost(1, len) == op0 + MatchCost(1, len0)
  {
    hide Body, Play, Playable, AllExpressible, MatchBytes, WellFormed;
    op, len, p, us := op0, len0, pos, ts;
    while len > MAX_LEN - 2
      invariant op <= output.Length && Closed(1, input, output[..op], us, p) && len >= 1
      invariant p + len == pos + len0 && Repeats(input, p, distance, len + 2)
      invariant op + MatchCost(1, len) == op0 + MatchCost(1, len0)
    {
      us := OneMatch(1, input, output[..op], us, p, distance, MAX_LEN - 2);
      PieceSize(distance, len);
      MatchPays(1, distance, MAX_LEN - 2);
      PaidFits(op + |MatchBytes(1, distance, MAX_LEN - 2)|, p + MAX_LEN - 2, |input|);
      op := PutMatch1(output, op, distance, MAX_LEN - 4);
      len := len - (MAX_LEN - 2);
      p := p + (MAX_LEN - 2);
    }
  }

  lemma PieceSize(d: nat, len: nat)
    requires d < NEAR_LIMIT && len > MAX_LEN - 2
    ensures |MatchBytes(1, d, MAX_LEN - 2)| == 3 && MatchCost(1, len) == MatchCost(1, len - (MAX_LEN - 2)) + 3
  {
  }

  /** Encodes a match; at level 1 a long one goes out in pieces of 262 bytes. */
  method PutMatch(level: Level, ghost input: seq<Byte>, output: array<Byte>, op0: nat, ghost pos: nat,
                  distance: nat, len0: nat, ghost ts: seq<Token>)
    returns (op: nat, ghost us: seq<Token>)
    requires MostWritten(|input|) <= output.Length && op0 <= output.Length
    requires Closed(level, input, output[..op0], ts, pos) && len0 >= 1 && Repeats(input, pos, distance, len0 + 2)
    requires if level == 1 then distance < NEAR_LIMIT
             else distance < NEAR_LIMIT + FAR_LIMIT && (distance >= NEAR_LIMIT ==> len0 >= 3)
    modifies output
    ensures op <= output.Length && Closed(level, input, output[..op], us, pos + len0 + 2) && Paid(op, pos + len0 + 2, 32)
    ensures op <= op0 + MatchCost(level, len0)
  {
    hide Body, Play, Playable, AllExpressible, MatchBytes, WellFormed, MatchCost;
    op, us := op0, ts;
    var len: nat := len0;
    ghost var p: nat := pos;
    if level == 1 {
      op, len, p, us := PutPieces(input, output, op, pos, distance, len, us);
    }
    us := OneMatch(level, input, output[..op], us, p, distance, len + 2);
    MatchPays(level, distance, len + 2);
    OneCost(level, distance, len);
    PaidFits(op + |MatchBytes(level, distance, len + 2)|, p + len + 2, |input|);
    if level == 2 {
      op := PutMatch2(output, op, distance, len);
    } else {
      op := PutMatch1(output, op, distance, len);
    }
  }

  // ----- finding matches

  /** A byte behind the input, which only HashPast asks for, counts as 0. */
  function ReadU16(input: seq<Byte>, i: nat): nat {
    (if i < |input| then input[i] else 0) as int + (if i + 1 < |input| then input[i + 1] else 0) as int * 0x100
  }

  /** HASH_FUNCTION */
  function HashValue(input: seq<Byte>, i: nat): (h: nat)
    ensures h < Pow2(HASH_LOG)
  {
    var v := ReadU16(input, i);
    LowBelow(Xor(v, Xor(ReadU16(input, i + 1), v / 8)), HASH_LOG);
    Low(Xor(v, Xor(ReadU16(input, i + 1), v / 8)), HASH_LOG)
  }

  /**
   * The hash depends on all three bytes: where the first two are equal, equal hashes mean
   * that the third bytes agree in their low five bits.
   */
  lemma HashTells(input: seq<Byte>, i: nat, j: nat)
    requires i + 2 < |input| && j + 2 < |input| && input[i] == input[j] && input[i + 1] == input[j + 1]
    requires HashValue(input, i) == HashValue(input, j)
    ensures input[i + 2] % 32 == input[j + 2] % 32
  {
    hide Xor, Low, Pow2;
    var v, u, u' := ReadU16(input, i), ReadU16(input, i + 1), ReadU16(input, j + 1);
    XorSame(v, Xor(u, v / 8), Xor(u', v / 8), HASH_LOG);
    XorSwaps(u, v / 8);
    XorSwaps(u', v / 8);
    XorSame(v / 8, u, u', HASH_LOG);
    var q := LowRest(u, HASH_LOG);
    var q' := LowRest(u', HASH_LOG);
    TableSize();
    SameLow(input[i + 1], input[i + 2], input[j + 2], q, q');
  }

  lemma TableSize()
    ensures Pow2(HASH_LOG) == 8192
  {
    PowersOfTwo();
    assert Pow2(10) == 4 * Pow2(8);
  }

  lemma SameLow(low: Byte, a: Byte, b: Byte, q: int, q': int)
    requires low + 256 * a - 8192 * q == low + 256 * b - 8192 * q'
    ensures a % 32 == b % 32
  {
    assert a - 32 * q == b - 32 * q';
  }

  /** The three bytes hashed at i are not all in the input. */
  predicate HashPast(input: seq<Byte>, i: nat) { i + 2 >= |input| }

  /** A far match at the last place where one is looked for, of which the last byte alone may differ. */
  ghost predicate FarToTheEnd(level: Level, input: seq<Byte>, anchor: nat, distance: nat) {
    level == 2 && distance > NEAR_LIMIT - 1 && anchor + 13 == |input| && Repeats(input, anchor, distance - 1, 12)
  }

  function Nulls(n: nat): (r: seq<Byte>)
    ensures |r| == n
  {
    seq(n, i => 0)
  }

  /** Twelve bytes, zeros, the same twelve bytes far enough away, and one byte more. */
  lemma FarExample(head: seq<Byte>, last: Byte)
    requires |head| == 12
    ensures FarToTheEnd(2, head + Nulls(8179) + head + [last], 8191, 8191)
  {
    var input := head + Nulls(8179) + head + [last];
    forall i | 8191 <= i < 8203
      ensures input[i] == input[i - 8191]
    {
      assert input[i] == head[i - 8191] && input[i - 8191] == head[i - 8191];
    }
  }

  ghost predicate Table(htab: array<nat>, bound: nat)
    reads htab
  {
    htab.Length == Pow2(HASH_LOG) && forall h :: 0 <= h < htab.Length ==> htab[h] <= bound
  }

  method SetSlot(input: seq<Byte>, htab: array<nat>, i: nat, ghost bound: nat)
    requires Table(htab, bound) && i <= bound
    modifies htab
    ensures Table(htab, bound) && htab[..] == old(htab[..])[HashValue(input, i) := i]
  {
    hide HashValue, Pow2;
    htab[HashValue(input, i)] := i;
  }

  method GetSlot(input: seq<Byte>, htab: array<nat>, i: nat, ghost bound: nat) returns (ref: nat)
    requires Table(htab, bound)
    ensures ref <= bound && ref == htab[HashValue(input, i)]
  {
    hide HashValue, Pow2;
    ref := htab[HashValue(input, i)];
  }

  /** Two bytes compared at once, after one: three bytes of a run. */
  lemma RunStart(input: seq<Byte>, anchor: nat)
    requires 2 <= anchor < |input| - 12
    ensures input[anchor] == input[anchor - 1] && ReadU16(input, anchor - 1) == ReadU16(input, anchor + 1)
            <==> Repeats(input, anchor, 0, 3)
  {
    hide ReadU16;
    TwoBytes(input, anchor - 1, anchor + 1);
    if Repeats(input, anchor, 0, 3) {
      assert input[anchor + 2] == input[anchor + 1] == input[anchor] == input[anchor - 1];
    }
  }

  lemma TwoBytes(input: seq<Byte>, i: nat, j: nat)
    requires i + 1 < |input| && j + 1 < |input|
    ensures ReadU16(input, i) == ReadU16(input, j) <==> input[i] == input[j] && input[i + 1] == input[j + 1]
  {
  }

  /** The first bytes of a match that are compared before it is taken: a far one must be worth more. */
  function FirstBytes(level: Level, distance: nat): nat {
    if level == 2 && distance >= NEAR_LIMIT then 5 else 3
  }

  /** What is at an earlier place is a match, near enough for the level. */
  ghost predicate Offers(level: Level, input: seq<Byte>, ref: nat, anchor: nat) {
    && ref < anchor && anchor - ref < (if level == 1 then MAX_DISTANCE_1 else MAX_FARDISTANCE)
    && Repeats(input, anchor, anchor - ref - 1, FirstBytes(level, anchor - ref))
  }

  /**
   * A run, at level 2, or what the hash table offers: found exactly if one of them is a match.
   * Unless it is a run, the place goes into the table.
   */
  method TryMatch(level: Level, input: seq<Byte>, htab: array<nat>, anchor: nat) returns (found: bool, distance: nat, len: nat)
    requires 2 <= anchor < |input| - 12 && Table(htab, anchor)
    modifies htab
    ensures Table(htab, anchor)
    ensures var run, ref := level == 2 && Repeats(input, anchor, 0, 3), old(htab[HashValue(input, anchor)]);
            && (found <==> run || Offers(level, input, ref, anchor))
            && (found ==> distance == if run then 1 else anchor - ref)
            && htab[..] == if run then old(htab[..]) else old(htab[..])[HashValue(input, anchor) := anchor]
    ensures found ==> distance >= 1 && len == FirstBytes(level, distance) && Repeats(input, anchor, distance - 1, len)
    ensures found ==> if level == 1 then distance < MAX_DISTANCE_1 else distance < MAX_FARDISTANCE
  {
    hide Pow2, Low, Xor, Table, ReadU16, HashValue;
    len := 3;
    RunStart(input, anchor);
    if level == 2 && input[anchor] == input[anchor - 1] && ReadU16(input, anchor - 1) == ReadU16(input, anchor + 1) {
      found, distance := true, 1;
      return;
    }
    var ref := GetSlot(input, htab, anchor, anchor);
    distance := anchor - ref;
    SetSlot(input, htab, anchor, anchor);
    found := distance != 0 && distance < (if level == 1 then MAX_DISTANCE_1 else MAX_FARDISTANCE)
             && input[ref] == input[anchor] && input[ref + 1] == input[anchor + 1] && input[ref + 2] == input[anchor + 2];
    FirstThree(input, ref, anchor);
    if found && level == 2 && distance >= NEAR_LIMIT {
      found := input[ref + 3] == input[anchor + 3] && input[ref + 4] == input[anchor + 4];
      len := 5;
    }
  }

  /** Comparing the first bytes one by one. */
  lemma FirstThree(input: seq<Byte>, ref: nat, anchor: nat)
    requires ref <= anchor < |input| - 12
    ensures ref < anchor ==>
              (Repeats(input, anchor, anchor - ref - 1, 3) <==>
               input[ref] == input[anchor] && input[ref + 1] == input[anchor + 1] && input[ref + 2] == input[anchor + 2])
    ensures ref < anchor ==>
              (Repeats(input, anchor, anchor - ref - 1, 5) <==>
               && Repeats(input, anchor, anchor - ref - 1, 3)
               && input[ref + 3] == input[anchor + 3] && input[ref + 4] == input[anchor + 4])
  {
    if ref < anchor {
      var d := anchor - ref - 1;
      if Repeats(input, anchor, d, 3) {
        assert input[anchor] == input[anchor - 1 - d] && input[anchor + 1] == input[anchor + 1 - 1 - d];
        assert input[anchor + 2] == input[anchor + 2 - 1 - d];
      }
      if Repeats(input, anchor, d, 5) {
        assert input[anchor + 3] == input[anchor + 3 - 1 - d] && input[anchor + 4] == input[anchor + 4 - 1 - d];
        assert input[anchor] == input[anchor - 1 - d] && input[anchor + 1] == input[anchor + 1 - 1 - d];
        assert input[anchor + 2] == input[anchor + 2 - 1 - d];
      }
    }
  }

  /** A match goes on to the first byte that differs, which is passed, or nearly to the end. */
  ghost predicate Longest(input: seq<Byte>, anchor: nat, distance: nat, end: nat) {
    && distance >= 1 && anchor < end <= |input| && Repeats(input, anchor, distance - 1, end - 1 - anchor)
    && (end < |input| - 2 ==> input[end - 1] != input[end - 1 - distance])
  }

  /** How far a match goes on: all but the last byte passed are known to agree. */
  method Extend(input: seq<Byte>, anchor: nat, distance: nat, len: nat) returns (ip: nat)
    requires 2 <= anchor < |input| - 12 && distance >= 1 && Repeats(input, anchor, distance - 1, len)
    requires len == 3 || (len == 5 && distance > 1)
    ensures anchor + len < ip <= |input| && Longest(input, anchor, distance, ip)
    ensures ip == |input| <==> len == 5 && anchor + 13 == |input| && Repeats(input, anchor, distance - 1, 12)
  {
    var ipBound := |input| - 2;
    ip := anchor + len;
    if distance - 1 == 0 {
      ip := ExtendRun(input, anchor, ip, ipBound);
    } else {
      var ref := anchor - distance + len;
      var tries := 0;
      var going := true;
      while tries < 8 && going
        invariant 0 <= tries <= 8 && anchor + len <= ip == anchor + len + tries && ref == ip - distance
        invariant if going then Repeats(input, anchor, distance - 1, ip - anchor)
                  else tries > 0 && Repeats(input, anchor, distance - 1, ip - 1 - anchor)
                       && input[ip - 1] != input[ip - 1 - distance]
        decreases 8 - tries
      {
        going := input[ref] == input[ip];
        ref, ip, tries := ref + 1, ip + 1, tries + 1;
      }
      while ip < ipBound && going
        invariant anchor + len < ip <= |input| && ref == ip - distance
        invariant ip <= ipBound || ip <= anchor + len + 8
        invariant going ==> ip >= anchor + len + 8
        invariant !going ==> input[ip - 1] != input[ip - 1 - distance]
        invariant Repeats(input, anchor, distance - 1, if going then ip - anchor else ip - 1 - anchor)
        decreases ipBound - ip
      {
        going := input[ref] == input[ip];
        ref, ip := ref + 1, ip + 1;
      }
    }
  }

  /** For a run only the value is compared, one byte behind. */
  method ExtendRun(input: seq<Byte>, anchor: nat, start: nat, ipBound: int) returns (ip: nat)
    requires 1 <= anchor && start == anchor + 3 < ipBound == |input| - 2 && Repeats(input, anchor, 0, 3)
    ensures start < ip <= ipBound && Longest(input, anchor, 1, ip)
  {
    ip := start;
    var x := input[ip - 1];
    assert input[anchor + 2] == input[anchor + 1] == input[anchor] == input[anchor - 1];
    var ref := ip - 1;
    while ip < ipBound
      invariant start <= ip <= ipBound && ref == ip - 1
      invariant forall i :: anchor - 1 <= i < ref ==> input[i] == x
      invariant input[anchor + 2] == x && (ip == start ==> ip < ipBound)
    {
      var same := input[ref] == x;
      ref := ref + 1;
      if !same {
        break;
      }
      ip := ip + 1;
    }
  }

  // ----- the compressors

  /** One turn of the main loop that found a match: literals closed, match written, count byte for the next. */
  method TakeMatch(level: Level, input: seq<Byte>, output: array<Byte>, op0: nat, anchor: nat, copy: nat,
                   distance: nat, len: nat, ghost ts: seq<Token>)
    returns (op: nat, end: nat, ghost us: seq<Token>)
    requires MostWritten(|input|) <= output.Length && op0 <= output.Length
    requires Open(level, input, output[..op0], ts, anchor, copy)
    requires 2 <= anchor < |input| - 12 && distance >= 1 && Repeats(input, anchor, distance - 1, len)
    requires len == FirstBytes(level, distance)
    requires if level == 1 then distance < MAX_DISTANCE_1 else distance < MAX_FARDISTANCE
    modifies output
    ensures op <= output.Length && anchor + 3 < end <= |input| && Open(level, input, output[..op], us, end - 1, 0)
    ensures Longest(input, anchor, distance, end) && op <= op0 + MatchCost(level, end - 3 - anchor) + 1
    ensures !HashPast(input, end - 3) && (HashPast(input, end - 2) <==> FarToTheEnd(level, input, anchor, distance))
  {
    hide Body, Play, Playable, AllExpressible, Repeats, MatchCost;
    end := Extend(input, anchor, distance, len);
    op, us := Close(level, input, output, op0, anchor, copy, ts);
    op, us := PutMatch(level, input, output, op, anchor, distance - 1, end - 3 - anchor, us);
    PaidFits(op + 1, end - 1, |input|);
    ghost var out := output[..op];
    output[op] := MAX_COPY - 1;
    op := op + 1;
    assert output[..op] == out + [MAX_COPY - 1];
    assert input[end - 1..end - 1] == [];
  }

  /** Short input: one run of literals, whatever the level. */
  method CompressShort(input: seq<Byte>, output: array<Byte>) returns (size: nat, ghost ts: seq<Token>)
    requires 1 <= |input| < 4 && |input| < output.Length
    modifies output
    ensures size == |input| + 1 && IsBlock(1, ts, output[..size]) && Play(ts) == input
  {
    output[0] := |input| - 1;
    for i := 0 to |input|
      invariant output[..i + 1] == [|input| - 1] + input[..i]
    {
      output[i + 1] := input[i];
    }
    size := |input| + 1;
    assert output[..size] == [|input| - 1] + input;
    ts := [Literals(input)];
    assert ts[..0] == [];
    assert Body(1, ts) == [] + TokenBytes(1, ts[0]);
  }

  /** The literals that start a block. */
  method Begin(level: Level, input: seq<Byte>, output: array<Byte>) returns (op: nat, ghost ts: seq<Token>)
    requires 4 <= |input| && MostWritten(|input|) <= output.Length
    modifies output
    ensures op == 3 <= output.Length && Open(level, input, output[..op], ts, 2, 2)
  {
    output[0] := MAX_COPY - 1;
    output[1] := input[0];
    output[2] := input[1];
    op, ts := 3, [];
    assert input[0..2] == [input[0], input[1]] && input[..0] == [];
  }

  /** The last literals and the tag of the level. */
  method Finish(level: Level, input: seq<Byte>, output: array<Byte>, op0: nat, pos: nat, copy0: nat, ghost ts: seq<Token>)
    returns (op: nat, ghost us: seq<Token>)
    requires MostWritten(|input|) <= output.Length && op0 <= output.Length && pos <= |input|
    requires Open(level, input, output[..op0], ts, pos, copy0)
    modifies output
    ensures op <= output.Length && op <= MostWritten(|input|) && IsBlock(level, us, output[..op]) && Play(us) == input
    ensures copy0 + |input| - pos < MAX_COPY ==> op <= op0 + |input| - pos
  {
    hide Open, Closed, Play, Playable, IsBlock, Body;
    var copy := copy0;
    op, us := op0, ts;
    for ip := pos to |input|
      invariant op <= output.Length && Open(level, input, output[..op], us, ip, copy)
      invariant copy0 + |input| - pos < MAX_COPY ==> op == op0 + ip - pos && copy == copy0 + ip - pos
    {
      op, copy, us := PutLiteral(level, input, output, op, ip, copy, us);
    }
    op, us := Close(level, input, output, op, |input|, copy, us);
    ghost var out := output[..op];
    MarkedBlock(level, input, out, us);
    if level == 2 {
      output[0] := output[0] + 32;
      assert output[..op] == out[0 := out[0] + 32];
    }
  }

  /** Tokens for the whole input, with the level put into the first byte, are a block. */
  lemma MarkedBlock(level: Level, input: seq<Byte>, out: seq<Byte>, us: seq<Token>)
    requires Closed(level, input, out, us, |input|)
    ensures 1 <= |out| <= MostWritten(|input|) && out[0] < 32
    ensures IsBlock(level, us, if level == 2 then out[0 := out[0] + 32] else out) && Play(us) == input
  {
    hide Play, Playable, Expressible, TokenBytes;
    assert input[..|input|] == input;
    FirstByte(level, us);
    PaidFits(|out|, |input|, |input|);
  }

  /** What one turn of the main loop does to the table: the place, unless it is a run, and both places at the end of a match. */
  ghost predicate Entered(input: seq<Byte>, before: seq<nat>, after: seq<nat>, run: bool, anchor: nat, ip: nat)
    requires |before| == Pow2(HASH_LOG) && ip > anchor
  {
    var searched := if run then before else before[HashValue(input, anchor) := anchor];
    after == if ip == anchor + 1 then searched
             else searched[HashValue(input, ip - 2) := ip - 2][HashValue(input, ip - 1) := ip - 1]
  }

  /**
   * One turn of the main loop.  A match is taken exactly if there is a run, at level 2, or the
   * table offers one; it goes on as far as it can, and else one literal is written.
   */
  method Turn(level: Level, input: seq<Byte>, output: array<Byte>, htab: array<nat>, op0: nat, anchor: nat, copy0: nat,
              ghost ts: seq<Token>)
    returns (op: nat, ip: nat, copy: nat, ghost us: seq<Token>)
    requires MostWritten(|input|) <= output.Length && op0 <= output.Length && 2 <= anchor < |input| - 12
    requires Open(level, input, output[..op0], ts, anchor, copy0) && Table(htab, anchor)
    modifies output, htab
    ensures op <= output.Length && anchor < ip <= |input| && Open(level, input, output[..op], us, ip, copy) && Table(htab, ip)
    ensures var run, ref := level == 2 && Repeats(input, anchor, 0, 3), old(htab[HashValue(input, anchor)]);
            && Entered(input, old(htab[..]), htab[..], run, anchor, ip)
            && if run || Offers(level, input, ref, anchor) then
                 && Longest(input, anchor, if run then 1 else anchor - ref, ip + 1) && copy == 0
                 && op <= op0 + MatchCost(level, ip - 2 - anchor) + 1
               else ip == anchor + 1
  {
    hide Body, Play, Playable, AllExpressible, Open, Pow2, Repeats, HashValue, MatchCost;
    var found, distance, len := TryMatch(level, input, htab, anchor);
    if found {
      var end;
      op, end, us := TakeMatch(level, input, output, op0, anchor, copy0, distance, len, ts);
      copy := 0;
      ip := end - 3;
      SetSlot(input, htab, ip, ip + 2);
      SetSlot(input, htab, ip + 1, ip + 2);
      ip := ip + 2;
    } else {
      op, copy, us := PutLiteral(level, input, output, op0, anchor, copy0, ts);
      ip := anchor + 1;
    }
  }

  /** fastlz1_compress and fastlz2_compress for four bytes or more. */
  method CompressLong(level: Level, input: seq<Byte>, output: array<Byte>) returns (size: nat, ghost ts: seq<Token>)
    requires 4 <= |input| && MostWritten(|input|) <= output.Length
    modifies output
    ensures size <= MostWritten(|input|) && size <= output.Length && IsBlock(level, ts, output[..size]) && Play(ts) == input
    ensures AllSame(input) ==> size <= SameCost(level, |input|)
  {
    hide Body, Play, Playable, AllExpressible, Open, IsBlock, Pow2, Repeats, Offers, Longest, Entered, HashValue, AllSame, MatchCost, SameCost;
    var htab := new nat[Pow2(HASH_LOG)](i => 0);
    var op: nat, copy: nat, ip: nat := 0, 2, 2;
    op, ts := Begin(level, input, output);
    while ip < |input| - 12
      invariant 2 <= ip <= |input| && op <= output.Length && Table(htab, ip)
      invariant Open(level, input, output[..op], ts, ip, copy)
      invariant ip == 2 ==> op == 3 && copy == 2 && forall h :: 0 <= h < htab.Length ==> htab[h] == 0
      invariant ip > 2 && AllSame(input) ==> Swallowed(level, |input|, op, ip, copy)
    {
      if AllSame(input) {
        SameTurn(level, input);
        SameFits(level, |input|);
      }
      op, ip, copy, ts := Turn(level, input, output, htab, op, ip, copy, ts);
    }
    SameFits(level, |input|);
    size, ts := Finish(level, input, output, op, ip, copy, ts);
  }

  // ----- what repetition costs

  ghost predicate AllSame(input: seq<Byte>) {
    forall i :: 0 < i < |input| ==> input[i] == input[0]
  }

  /** The most that n equal bytes are compressed to: a match of the longest kind for each 262 bytes, or a byte for each 255. */
  function SameCost(level: Level, n: nat): nat {
    if level == 1 then 12 + 3 * (n / 262 + 1) else 15 + n / 255
  }

  /** One match has taken all but the last bytes. */
  predicate Swallowed(level: Level, n: nat, op: nat, ip: nat, copy: nat) {
    ip + 3 >= n && copy == 0 && op + 3 <= SameCost(level, n)
  }

  /** At the first place there is a match, and it is as long as the input allows. */
  lemma SameTurn(level: Level, input: seq<Byte>)
    requires AllSame(input) && |input| >= 15
    ensures Repeats(input, 2, 0, 3) && Offers(level, input, 0, 2)
    ensures forall distance: nat, end: nat :: Longest(input, 2, distance, end) ==> end >= |input| - 2
  {
  }

  lemma SameFits(level: Level, n: nat)
    ensures forall len: nat :: len <= n ==> MatchCost(level, len) + 7 <= SameCost(level, n)
    ensures n <= 14 ==> n + 1 <= SameCost(level, n)
  {
  }
  /** The level whose decoder the block asks for. */
  function BlockLevel(level: Level, n: nat): Level { if n < 4 then 1 else level }

  /**
   * fastlz_compress_level: a block of tokens that play back the input, in no more than the
   * documented space.
   */
  method CompressLevel(level: Level, input: seq<Byte>, output: array<Byte>) returns (size: nat, ghost ts: seq<Token>)
    requires |input| >= 1 && Documented(|input|, output.Length)
    modifies output
    ensures size <= MostWritten(|input|) <= output.Length
    ensures IsBlock(BlockLevel(level, |input|), ts, output[..size]) && Play(ts) == input
    ensures AllSame(input) ==> size <= SameCost(level, |input|)
  {
    DocumentedSuffices(|input|, output.Length);
    if |input| < 4 {
      size, ts := CompressShort(input, output);
    } else {
      size, ts := CompressLong(level, input, output);
    }
  }

  /** fastlz_compress chooses level 1 for short input. */
  method Compress(input: seq<Byte>, output: array<Byte>) returns (size: nat, ghost level: Level, ghost ts: seq<Token>)
    requires |input| >= 1 && Documented(|input|, output.Length)
    modifies output
    ensures size <= MostWritten(|input|) <= output.Length
    ensures level == BlockLevel(if |input| < 65536 then 1 else 2, |input|)
    ensures IsBlock(level, ts, output[..size]) && Play(ts) == input
    ensures AllSame(input) ==> size <= SameCost(if |input| < 65536 then 1 else 2, |input|)
  {
    level := BlockLevel(if |input| < 65536 then 1 else 2, |input|);
    size, ts := CompressLevel(if |input| < 65536 then 1 else 2, input, output);
  }
}
