// The decompressors of fastlz.c, with their bounds checks, the choice of the level, and the
// round trip.

module FastLzDecompressors {
  import opened Bytes
  import opened FastLzFormat
  import opened FastLzCompressors

  /** A read past the end of a damaged block gives 0 here. */
  function At(input: seq<Byte>, i: nat): Byte {
    if i < |input| then input[i] else 0
  }

  predicate Follows(input: seq<Byte>, i: nat, bytes: seq<Byte>) {
    i + |bytes| <= |input| && input[i..i + |bytes|] == bytes
  }

  lemma FollowsSplit(input: seq<Byte>, i: nat, a: seq<Byte>, b: seq<Byte>)
    requires Follows(input, i, a + b)
    ensures Follows(input, i, a) && Follows(input, i + |a|, b)
    ensures a != [] ==> At(input, i) == a[0]
    ensures b != [] ==> At(input, i + |a|) == b[0]
  {
    var s := input[i..i + |a + b|];
    assert input[i..i + |a|] == s[..|a|];
    assert input[i + |a|..i + |a| + |b|] == s[|a|..];
    assert a != [] ==> s[0] == a[0];
    assert b != [] ==> s[|a|] == b[0];
  }

  /** The token t comes next: its first byte was read already. */
  ghost predicate Next(level: Level, input: seq<Byte>, ip: nat, ctrl: Byte, t: Token) {
    && Expressible(level, t)
    && ctrl == TokenBytes(level, t)[0] && Follows(input, ip, TokenBytes(level, t)[1..])
  }

  /** Where a long length ends: at the first byte that is not 255. */
  function LengthEnd(input: seq<Byte>, ip: nat): (end: nat)
    ensures ip < end
    decreases |input| - ip
  {
    if At(input, ip) == 255 then LengthEnd(input, ip + 1) else ip + 1
  }

  /** Where the bytes of a match end; it is truncated when that is past the input, and only then is anything read there. */
  function MatchEnd(level: Level, input: seq<Byte>, ip: nat, ctrl: Byte): nat {
    var p := if ctrl / 32 < 7 then ip else if level == 1 then ip + 1 else LengthEnd(input, ip);
    p + if level == 2 && ctrl % 32 == 31 && At(input, p) == 255 then 3 else 1
  }

  lemma {:induction false} LengthFollows(input: seq<Byte>, ip: nat, x: nat)
    requires Follows(input, ip, LengthBytes(x))
    ensures LengthEnd(input, ip) == ip + |LengthBytes(x)|
    decreases x
  {
    if x >= 255 {
      FollowsSplit(input, ip, [255], LengthBytes(x - 255));
      LengthFollows(input, ip + 1, x - 255);
    } else {
      FollowsSplit(input, ip, [x], []);
    }
  }

  /** No match of a genuine block is truncated. */
  lemma MatchInside(level: Level, input: seq<Byte>, ip: nat, ctrl: Byte, t: Token)
    requires Next(level, input, ip, ctrl, t) && ctrl >= 32
    ensures MatchEnd(level, input, ip, ctrl) == ip + |TokenBytes(level, t)| - 1 <= |input|
  {
    hide LengthBytes, LengthEnd, MatchBytes;
    if level == 1 {
      Layout1(input, ip, ctrl, t);
    } else {
      Layout2(input, ip, ctrl, t);
      var p := if t.len < 9 then ip else ip + |LengthBytes(t.len - 9)|;
      if t.len >= 9 {
        LengthFollows(input, ip, t.len - 9);
      }
      FollowsSplit(input, p, [Tail2(t.distance)[0]], Tail2(t.distance)[1..]);
    }
  }

  /** do { code = *ip++; len += code; } while (code == 255); */
  method ReadLength(input: seq<Byte>, ip0: nat, len0: nat, ghost x: nat) returns (ip: nat, len: nat)
    ensures len0 <= len && ip0 < ip
    ensures Follows(input, ip0, LengthBytes(x)) ==> ip == ip0 + |LengthBytes(x)| && len == len0 + x
    ensures ip == LengthEnd(input, ip0)
  {
    ghost var rest := x;
    ghost var right := Follows(input, ip0, LengthBytes(x));
    var code;
    ip, len := ip0, len0;
    while true
      invariant len0 <= len && ip0 <= ip && LengthEnd(input, ip) == LengthEnd(input, ip0)
      invariant right ==> Follows(input, ip, LengthBytes(rest)) && len + rest == len0 + x
                          && ip + |LengthBytes(rest)| == ip0 + |LengthBytes(x)|
      decreases |input| - ip
    {
      if right {
        FollowsSplit(input, ip, [LengthBytes(rest)[0]], LengthBytes(rest)[1..]);
      }
      code := At(input, ip);
      ip := ip + 1;
      len := len + code;
      if code != 255 {
        break;
      }
      rest := if rest >= 255 then rest - 255 else 0;
    }
  }

  /** How a match token lies in the input at level 1. */
  lemma Layout1(input: seq<Byte>, ip: nat, ctrl: Byte, t: Token)
    requires Next(1, input, ip, ctrl, t) && ctrl >= 32
    ensures t.Match? && t.len >= 3 && ctrl % 32 == t.distance / 256
    ensures if t.len < 9 then
              ctrl / 32 == t.len - 2 && At(input, ip) == t.distance % 256 && |TokenBytes(1, t)| == 2
            else
              && ctrl / 32 == 7 && At(input, ip) == t.len - 9 && At(input, ip + 1) == t.distance % 256
              && |TokenBytes(1, t)| == 3
  {
    hide LengthBytes, Follows;
    var bytes := TokenBytes(1, t);
    if t.Match? {
      if t.len >= 9 {
        assert bytes[1..] == [t.len - 9] + [t.distance % 256];
        FollowsSplit(input, ip, [t.len - 9], [t.distance % 256]);
      } else {
        assert bytes[1..] == [t.distance % 256] + [];
        FollowsSplit(input, ip, [t.distance % 256], []);
      }
    }
  }

  /** The length and the place of a match at level 1. */
  method ReadMatch1(input: seq<Byte>, ip0: nat, ctrl: Byte, op: nat, ghost t: Token) returns (ip: nat, len: nat, ref: int)
    requires ctrl >= 32
    ensures Next(1, input, ip0, ctrl, t) ==>
              t.Match? && ip == ip0 + |TokenBytes(1, t)| - 1 && len + 3 == t.len && ref == op - t.distance
    ensures ref <= op && ip0 < ip == MatchEnd(1, input, ip0, ctrl)
  {
    hide Next, TokenBytes;
    if Next(1, input, ip0, ctrl, t) {
      Layout1(input, ip0, ctrl, t);
    }
    ip := ip0;
    len := ctrl as int / 32 - 1;
    ref := op - ctrl % 32 * 256;
    if len == 7 - 1 {
      len := len + At(input, ip);
      ip := ip + 1;
    }
    ref := ref - At(input, ip);
    ip := ip + 1;
  }

  /** The parts of a match at level 2: the head, perhaps a long length, and the low bits. */
  lemma Parts2(d: nat, len: nat)
    requires Expressible(2, Match(d, len))
    ensures var tail := if d < NEAR_LIMIT then [d % 256] else [255, (d - NEAR_LIMIT) / 256, (d - NEAR_LIMIT) % 256];
            var high := if d < NEAR_LIMIT then d / 256 else 31;
            MatchBytes(2, d, len)[1..] == (if len - 2 < 7 then [] else LengthBytes(len - 9)) + tail
            && |MatchBytes(2, d, len)| >= 1 && high < 32 && !(d < NEAR_LIMIT && high == 31 && d % 256 == 255)
            && MatchBytes(2, d, len)[0] == (if len - 2 < 7 then (len - 2) * 32 else 7 * 32) + high
  {
  }

  function Tail2(d: nat): seq<Byte>
    requires d < NEAR_LIMIT + FAR_LIMIT
  {
    if d < NEAR_LIMIT then [d % 256] else [255, (d - NEAR_LIMIT) / 256, (d - NEAR_LIMIT) % 256]
  }

  /** How a match token lies in the input at level 2. */
  lemma Layout2(input: seq<Byte>, ip: nat, ctrl: Byte, t: Token)
    requires Next(2, input, ip, ctrl, t) && ctrl >= 32
    ensures t.Match? && t.distance < NEAR_LIMIT + FAR_LIMIT && t.len >= 3
    ensures var high := if t.distance < NEAR_LIMIT then t.distance / 256 else 31;
            && ctrl % 32 == high && !(t.distance < NEAR_LIMIT && high == 31 && t.distance % 256 == 255)
    ensures if t.len < 9 then
              ctrl / 32 == t.len - 2 && Follows(input, ip, Tail2(t.distance))
              && |TokenBytes(2, t)| == 1 + |Tail2(t.distance)|
            else
              && ctrl / 32 == 7 && Follows(input, ip, LengthBytes(t.len - 9))
              && Follows(input, ip + |LengthBytes(t.len - 9)|, Tail2(t.distance))
              && |TokenBytes(2, t)| == 1 + |LengthBytes(t.len - 9)| + |Tail2(t.distance)|
  {
    hide MatchBytes, Follows, LengthBytes;
    Parts2(t.distance, t.len);
    if t.len >= 9 {
      FollowsSplit(input, ip, LengthBytes(t.len - 9), Tail2(t.distance));
    } else {
      assert [] + Tail2(t.distance) == Tail2(t.distance);
    }
  }

  /** The length and the place of a match at level 2; 255 under a full head means a far one. */
  method ReadMatch2(input: seq<Byte>, ip0: nat, ctrl: Byte, op: nat, ghost t: Token) returns (ip: nat, len: nat, ref: int)
    requires ctrl >= 32
    ensures Next(2, input, ip0, ctrl, t) ==>
              t.Match? && ip == ip0 + |TokenBytes(2, t)| - 1 && len + 3 == t.len && ref == op - t.distance
    ensures ref <= op && ip0 < ip == MatchEnd(2, input, ip0, ctrl)
  {
    hide MatchBytes, Follows, LengthBytes;
    ghost var right := Next(2, input, ip0, ctrl, t);
    if right {
      Layout2(input, ip0, ctrl, t);
    }
    ip := ip0;
    len := ctrl as int / 32 - 1;
    var ofs: nat := ctrl % 32 * 256;
    if len == 7 - 1 {
      ip, len := ReadLength(input, ip, len, if right then t.len - 9 else 0);
    }
    ip, ref := ReadPlace(input, ip, ofs, op, if right then Tail2(t.distance) else []);
  }

  /** The low bits of a distance, or the 16 bits of a far one. */
  method ReadPlace(input: seq<Byte>, ip0: nat, ofs0: nat, op: nat, ghost tail: seq<Byte>) returns (ip: nat, ref: int)
    ensures Follows(input, ip0, tail) && |tail| == 1 && !(ofs0 == 31 * 256 && tail[0] == 255) ==>
              ip == ip0 + 1 && ref == op - ofs0 - tail[0]
    ensures Follows(input, ip0, tail) && |tail| == 3 && ofs0 == 31 * 256 && tail[0] == 255 ==>
              ip == ip0 + 3 && ref == op - (tail[1] as int * 256 + tail[2]) - NEAR_LIMIT
    ensures ref <= op && ip == ip0 + if ofs0 == 31 * 256 && At(input, ip0) == 255 then 3 else 1
  {
    ghost var s := if Follows(input, ip0, tail) then input[ip0..ip0 + |tail|] else [];
    assert |s| >= 1 ==> s[0] == At(input, ip0);
    assert |s| >= 3 ==> s[1] == At(input, ip0 + 1) && s[2] == At(input, ip0 + 2);
    ip := ip0;
    var code := At(input, ip);
    ip := ip + 1;
    ref := op - ofs0 - code;
    if code == 255 {
      if ofs0 == 31 * 256 {
        var ofs := At(input, ip) as int * 256;
        ip := ip + 1;
        ofs := ofs + At(input, ip);
        ip := ip + 1;
        ref := op - ofs - NEAR_LIMIT;
      }
    }
  }

  /** len + 3 bytes from ref - 1 on, where the bytes just written are read again if need be. */
  method CopyBack(output: array<Byte>, op0: nat, ref0: nat, len: nat) returns (op: nat)
    requires 1 <= ref0 <= op0 && op0 + len + 3 <= output.Length
    modifies output
    ensures op == op0 + len + 3 && output[..op] == Copy(old(output[..op0]), op0 - ref0, len + 3)
    ensures forall i :: op <= i < output.Length ==> output[i] == old(output[i])
  {
    op := op0;
    if ref0 == op {
      var b := output[ref0 - 1];
      for k := 0 to len + 3
        invariant op == op0 + k && output[..op] == Copy(old(output[..op0]), 0, k) && output[op - 1] == b
        invariant forall i :: op <= i < output.Length ==> output[i] == old(output[i])
      {
        ghost var out := output[..op];
        output[op] := b;
        op := op + 1;
        assert output[..op] == out + [out[op0 + k - 1]];
      }
    } else {
      var ref := ref0 - 1;
      for k := 0 to len + 3
        invariant op == op0 + k && ref == ref0 - 1 + k && output[..op] == Copy(old(output[..op0]), op0 - ref0, k)
        invariant forall i :: op <= i < output.Length ==> output[i] == old(output[i])
      {
        ghost var out := output[..op];
        output[op] := output[ref];
        op, ref := op + 1, ref + 1;
        assert output[..op] == out + [out[op0 + k - 1 - (op0 - ref0)]];
      }
    }
  }

  /** `count` literals. */
  method CopyLiterals(input: seq<Byte>, ip0: nat, output: array<Byte>, op0: nat, count: nat) returns (ip: nat, op: nat)
    requires ip0 + count <= |input| && op0 + count <= output.Length
    modifies output
    ensures ip == ip0 + count && op == op0 + count && output[..op] == old(output[..op0]) + input[ip0..ip]
    ensures forall i :: op <= i < output.Length ==> output[i] == old(output[i])
  {
    ip, op := ip0, op0;
    for k := 0 to count
      invariant ip == ip0 + k && op == op0 + k && output[..op] == old(output[..op0]) + input[ip0..ip]
      invariant forall i :: op <= i < output.Length ==> output[i] == old(output[i])
    {
      ghost var out := output[..op];
      output[op] := input[ip];
      op, ip := op + 1, ip + 1;
      assert output[..op] == out + [input[ip - 1]];
    }
  }

  /** Where the decompressor stands: k tokens done, and the first byte of the next one read. */
  ghost predicate Reached(level: Level, ts: seq<Token>, input: seq<Byte>, k: nat, ip: nat, ctrl: Byte, loop: bool) {
    && IsBlock(level, ts, input) && k <= |ts|
    && if loop then k < |ts| && Next(level, input, ip, ctrl, ts[k]) && ip == |Body(level, ts[..k])| + 1 else k == |ts|
  }

  lemma {:induction false} BodyGrows(level: Level, ts: seq<Token>, k: nat)
    requires AllExpressible(level, ts) && k < |ts|
    ensures AllExpressible(level, ts[..k]) && |TokenBytes(level, ts[k])| >= 2
    ensures Body(level, ts[..k + 1]) == Body(level, ts[..k]) + TokenBytes(level, ts[k]) <= Body(level, ts)
  {
    BodyPrefix(level, ts, k + 1);
    BodyPrefix(level, ts, k);
    assert ts[..k + 1][..k] == ts[..k];
  }

  /** The first byte of token k, and what follows it. */
  lemma TokenPlace(level: Level, ts: seq<Token>, input: seq<Byte>, k: nat, o: nat, ctrl: Byte)
    requires AllExpressible(level, ts) && k < |ts| && AllExpressible(level, ts[..k]) && o == |Body(level, ts[..k])|
    requires o < |Body(level, ts)| && ctrl == Body(level, ts)[o] && IsBlock(level, ts, input)
    ensures Next(level, input, o + 1, ctrl, ts[k])
  {
    hide TokenBytes, Body, Play, Playable, Expressible;
    BodyGrows(level, ts, k);
    var body, bytes := Body(level, ts), TokenBytes(level, ts[k]);
    var upto := Body(level, ts[..k + 1]);
    assert body[o] == upto[o] == bytes[0];
    forall q | o + 1 <= q < o + |bytes|
      ensures input[q] == bytes[q - o]
    {
      assert input[1..][q - 1] == body[1..][q - 1] && body[q] == upto[q];
    }
    assert input[o + 1..o + 1 + (|bytes| - 1)] == bytes[1..];
  }

  /** After a token: the next one starts there, unless the block ends there. */
  lemma NextPlace(level: Level, ts: seq<Token>, input: seq<Byte>, k: nat, ip: nat, ctrl: Byte)
    requires Reached(level, ts, input, k, ip, ctrl, true)
    ensures var end := ip + |TokenBytes(level, ts[k])| - 1;
            && end == |Body(level, ts[..k + 1])| <= |input|
            && if end < |input| then Reached(level, ts, input, k + 1, end + 1, input[end], true)
               else Reached(level, ts, input, k + 1, end, ctrl, false)
  {
    hide TokenBytes, Body, Play, Playable, Expressible;
    BodyGrows(level, ts, k);
    var end := |Body(level, ts[..k + 1])|;
    if k + 1 < |ts| {
      BodyGrows(level, ts, k + 1);
      assert input[end] == input[1..][end - 1] == Body(level, ts)[1..][end - 1] == Body(level, ts)[end];
      TokenPlace(level, ts, input, k + 1, end, input[end]);
    } else {
      assert ts[..k + 1] == ts;
    }
  }

  /** What token k adds to the output. */
  lemma PlayStep(level: Level, ts: seq<Token>, k: nat)
    requires WellFormed(level, ts) && k < |ts|
    ensures Playable(ts[..k]) && Playable(ts[..k + 1]) && |Play(ts[..k + 1])| <= |Play(ts)|
    ensures match ts[k]
            case Literals(bytes) => Play(ts[..k + 1]) == Play(ts[..k]) + bytes
            case Match(d, len) => d < |Play(ts[..k])| && Play(ts[..k + 1]) == Copy(Play(ts[..k]), d, len)
  {
    PlayPrefix(ts, k + 1);
    PlayPrefix(ts, k);
    assert ts[..k + 1][..k] == ts[..k];
  }

  /** k tokens are done and their bytes put out. */
  ghost predicate Stands(level: Level, ts: seq<Token>, input: seq<Byte>, k: nat, ip: nat, ctrl: Byte, loop: bool, out: seq<Byte>) {
    Reached(level, ts, input, k, ip, ctrl, loop) && Playable(ts[..k]) && out == Play(ts[..k])
  }

  ghost predicate Fits(ts: seq<Token>, k: nat, maxout: nat) {
    k <= |ts| && Playable(ts[..k]) && |Play(ts[..k])| <= maxout
  }

  /** A match: false when it does not fit or reaches back before the output. */
  method MatchTurn(level: Level, input: seq<Byte>, ip0: nat, ctrl0: Byte, output: array<Byte>, op0: nat, maxout: nat,
                   ghost ts: seq<Token>, ghost k: nat)
    returns (ok: bool, ip: nat, ctrl: Byte, op: nat, loop: bool)
    requires ctrl0 >= 32 && op0 <= maxout <= output.Length && ip0 <= |input|
    modifies output
    ensures op <= maxout && (forall i :: maxout <= i < output.Length ==> output[i] == old(output[i]))
    ensures ok && loop ==> ip0 < ip <= |input|
    ensures old(Stands(level, ts, input, k, ip0, ctrl0, true, output[..op0])) ==>
              ok == Fits(ts, k + 1, maxout) && (ok ==> Stands(level, ts, input, k + 1, ip, ctrl, loop, output[..op]))
  {
    hide Stands, Fits, Next, TokenBytes, Copy, Expressible;
    ghost var right := Stands(level, ts, input, k, ip0, ctrl0, true, output[..op0]);
    ghost var out := output[..op0];
    if right {
      MatchHere(level, ts, input, k, ip0, ctrl0, out, maxout);
    }
    ghost var t := if right then ts[k] else Literals([]);
    var len, ref;
    if level == 1 {
      ip, len, ref := ReadMatch1(input, ip0, ctrl0, op0, t);
    } else {
      ip, len, ref := ReadMatch2(input, ip0, ctrl0, op0, t);
    }
    ok, ctrl, op, loop := false, ctrl0, op0, true;
    if op0 + len + 3 > maxout || ref - 1 < 0 {
      return;
    }
    if right {
      MatchDone(level, ts, input, k, ip0, ctrl0, out);
    }
    if ip < |input| {
      ctrl := input[ip];
      ip := ip + 1;
    } else {
      loop := false;
    }
    op := CopyBack(output, op0, ref, len);
    ok := true;
  }

  /** What a match that comes next must be, and when it fits. */
  lemma MatchHere(level: Level, ts: seq<Token>, input: seq<Byte>, k: nat, ip: nat, ctrl: Byte, out: seq<Byte>, maxout: nat)
    requires Stands(level, ts, input, k, ip, ctrl, true, out) && ctrl >= 32
    ensures k < |ts| && Next(level, input, ip, ctrl, ts[k]) && ts[k].Match? && Expressible(level, ts[k])
    ensures ts[k].distance < |out| && (Fits(ts, k + 1, maxout) <==> |out| + ts[k].len <= maxout)
  {
    hide Body, Play, Playable, MatchBytes, LengthBytes, IsBlock, Follows;
    Formed(level, ts, input);
    PlayStep(level, ts, k);
  }

  lemma MatchDone(level: Level, ts: seq<Token>, input: seq<Byte>, k: nat, ip: nat, ctrl: Byte, out: seq<Byte>)
    requires Stands(level, ts, input, k, ip, ctrl, true, out) && k < |ts| && ts[k].Match? && Expressible(level, ts[k])
    requires ts[k].distance < |out|
    ensures var end := ip + |TokenBytes(level, ts[k])| - 1;
            var after := Copy(out, ts[k].distance, ts[k].len);
            && end <= |input|
            && if end < |input| then Stands(level, ts, input, k + 1, end + 1, input[end], true, after)
               else Stands(level, ts, input, k + 1, end, ctrl, false, after)
  {
    hide Body, Play, Playable, MatchBytes, LengthBytes, IsBlock, Follows, TokenBytes;
    Formed(level, ts, input);
    PlayStep(level, ts, k);
    NextPlace(level, ts, input, k, ip, ctrl);
  }

  lemma Formed(level: Level, ts: seq<Token>, input: seq<Byte>)
    requires IsBlock(level, ts, input)
    ensures WellFormed(level, ts)
  {
  }

  /** A run of literals: false when it does not fit or is longer than the input left. */
  method LiteralTurn(level: Level, input: seq<Byte>, ip0: nat, ctrl0: Byte, output: array<Byte>, op0: nat, maxout: nat,
                     ghost ts: seq<Token>, ghost k: nat)
    returns (ok: bool, ip: nat, ctrl: Byte, op: nat, loop: bool)
    requires ctrl0 < 32 && op0 <= maxout <= output.Length && ip0 <= |input|
    modifies output
    ensures op <= maxout && (forall i :: maxout <= i < output.Length ==> output[i] == old(output[i]))
    ensures ok && loop ==> ip0 < ip <= |input|
    ensures ok <==> op0 + ctrl0 + 1 <= maxout && ip0 + ctrl0 + 1 <= |input|
    ensures ok ==> (loop <==> ip0 + ctrl0 + 1 < |input|) && op == op0 + ctrl0 + 1
    ensures ok && loop ==> ip == ip0 + ctrl0 + 2 && ctrl == input[ip - 1]
    ensures old(Stands(level, ts, input, k, ip0, ctrl0, true, output[..op0])) ==>
              ok == Fits(ts, k + 1, maxout) && (ok ==> Stands(level, ts, input, k + 1, ip, ctrl, loop, output[..op]))
  {
    hide Body, Play, Playable, IsBlock, AllExpressible, Reached, TokenBytes, Expressible;
    ghost var right := Stands(level, ts, input, k, ip0, ctrl0, true, output[..op0]);
    if right {
      LiteralLayout(level, ts, input, k, ip0, ctrl0);
      Formed(level, ts, input);
      PlayStep(level, ts, k);
      NextPlace(level, ts, input, k, ip0, ctrl0);
    }
    var count := ctrl0 + 1;
    ok, ip, ctrl, op, loop := false, ip0, ctrl0, op0, true;
    if op0 + count > maxout || ip0 + count > |input| {
      return;
    }
    ip, op := CopyLiterals(input, ip0, output, op0, count);
    loop := ip < |input|;
    if loop {
      ctrl := input[ip];
      ip := ip + 1;
    }
    ok := true;
  }

  /** A block of one literal and the head of a match. */
  const TRUNCATED: seq<Byte> := [0, 65, 32]

  /**
   * The first two turns of the decompressor on three bytes that end in the middle of a match:
   * the first one succeeds, and the second reads a fourth byte, although there is none.
   */
  method TruncatedMatch(output: array<Byte>) returns (next: nat)
    requires output.Length >= 1
    modifies output
    ensures next == 4 > |TRUNCATED|
  {
    hide Stands, Next, TokenBytes;
    var ok, ip, ctrl, op, loop := LiteralTurn(1, TRUNCATED, 1, TRUNCATED[0] % 32, output, 0, output.Length, [], 0);
    assert ok && loop && ip == 3 && ctrl == 32;
    var len, ref;
    next, len, ref := ReadMatch1(TRUNCATED, ip, ctrl, op, Literals([]));
  }

  lemma LiteralLayout(level: Level, ts: seq<Token>, input: seq<Byte>, k: nat, ip: nat, ctrl: Byte)
    requires Reached(level, ts, input, k, ip, ctrl, true) && ctrl < 32
    ensures IsBlock(level, ts, input) && k < |ts| && ts[k].Literals? && Expressible(level, ts[k]) && |TokenBytes(level, ts[k])| == ctrl + 2
    ensures ip + ctrl + 1 <= |input| && input[ip..ip + ctrl + 1] == ts[k].bytes && |ts[k].bytes| == ctrl + 1
  {
    hide Body, Play, Playable, IsBlock, LengthBytes, AllExpressible;
    var bytes := TokenBytes(level, ts[k]);
    if ts[k].Literals? {
      assert bytes[1..] == ts[k].bytes;
    }
  }

  lemma BlockStart(level: Level, ts: seq<Token>, input: seq<Byte>)
    requires IsBlock(level, ts, input)
    ensures |input| >= 1 && Stands(level, ts, input, 0, 1, input[0] % 32, true, []) && input[0] / 32 + 1 == level
  {
    hide TokenBytes, LengthBytes, MatchBytes, Next;
    assert ts[..0] == [];
    TokenPlace(level, ts, input, 0, 0, input[0] % 32);
  }

  /**
   * fastlz1_decompress and fastlz2_decompress.  Whatever the input, nothing is written from
   * maxout on; a block whose output fits is decompressed exactly, one that does not gives 0.
   */
  method DecompressLevel(level: Level, input: seq<Byte>, output: array<Byte>, maxout: nat, ghost ts: seq<Token>)
    returns (size: nat)
    requires |input| >= 1 && maxout <= output.Length
    modifies output
    ensures size <= maxout && forall i :: maxout <= i < output.Length ==> output[i] == old(output[i])
    ensures IsBlock(level, ts, input) ==>
              Playable(ts) && if |Play(ts)| <= maxout then output[..size] == Play(ts) else size == 0
  {
    hide Body, Play, Playable, IsBlock, Reached, AllExpressible;
    ghost var right, k := IsBlock(level, ts, input), 0;
    if right {
      Formed(level, ts, input);
      BlockStart(level, ts, input);
    }
    var ip: nat, ctrl: Byte, op: nat, loop := 1, input[0] % 32, 0, true;
    assert output[..0] == [];
    while loop
      invariant op <= maxout && (loop ==> ip <= |input|)
      invariant forall i :: maxout <= i < output.Length ==> output[i] == old(output[i])
      invariant right ==> Stands(level, ts, input, k, ip, ctrl, loop, output[..op])
      decreases if loop then 1 + |input| - ip else 0
    {
      var ok;
      if right {
        Doomed(level, ts, input, k, ip, ctrl, output[..op], maxout);
      }
      if ctrl >= 32 {
        ok, ip, ctrl, op, loop := MatchTurn(level, input, ip, ctrl, output, op, maxout, ts, k);
      } else {
        ok, ip, ctrl, op, loop := LiteralTurn(level, input, ip, ctrl, output, op, maxout, ts, k);
      }
      if !ok {
        return 0;
      }
      k := k + 1;
    }
    if right {
      Done(level, ts, input, k, ip, ctrl, output[..op]);
    }
    return op;
  }

  /** If the next token does not fit, neither does the whole. */
  lemma Doomed(level: Level, ts: seq<Token>, input: seq<Byte>, k: nat, ip: nat, ctrl: Byte, out: seq<Byte>, maxout: nat)
    requires Stands(level, ts, input, k, ip, ctrl, true, out)
    ensures Playable(ts) && (!Fits(ts, k + 1, maxout) ==> |Play(ts)| > maxout)
  {
    hide Body, Play, Playable, AllExpressible, Next;
    PlayStep(level, ts, k);
  }

  lemma Done(level: Level, ts: seq<Token>, input: seq<Byte>, k: nat, ip: nat, ctrl: Byte, out: seq<Byte>)
    requires Stands(level, ts, input, k, ip, ctrl, false, out)
    ensures Playable(ts) && out == Play(ts)
  {
    assert ts[..k] == ts;
  }

  /** fastlz_decompress: the level comes from the first byte; an unknown one gives 0. */
  method Decompress(input: seq<Byte>, output: array<Byte>, maxout: nat, ghost level: Level, ghost ts: seq<Token>)
    returns (size: nat)
    requires |input| >= 1 && maxout <= output.Length
    modifies output
    ensures size <= maxout && forall i :: maxout <= i < output.Length ==> output[i] == old(output[i])
    ensures IsBlock(level, ts, input) ==>
              Playable(ts) && if |Play(ts)| <= maxout then output[..size] == Play(ts) else size == 0
  {
    hide Body, Play, Playable, IsBlock, Stands;
    if IsBlock(level, ts, input) {
      BlockStart(level, ts, input);
    }
    size := 0;
    var found: int := input[0] / 32 + 1;
    if found == 1 {
      size := DecompressLevel(1, input, output, maxout, ts);
    } else if found == 2 {
      size := DecompressLevel(2, input, output, maxout, ts);
    }
  }

  /**
   * FastLZ round trip: at either level, a non-empty input that is compressed into the
   * documented space and decompressed into exactly its own length comes back.
   */
  method RoundTrip(level: Level, input: seq<Byte>, output: array<Byte>, back: array<Byte>)
    returns (packed: nat, size: nat)
    requires |input| >= 1 && Documented(|input|, output.Length) && back.Length == |input| && back != output
    modifies output, back
    ensures packed <= MostWritten(|input|) <= output.Length
    ensures size == |input| && back[..] == input
  {
    hide IsBlock, Play;
    ghost var ts;
    packed, ts := CompressLevel(level, input, output);
    FirstByteThere(BlockLevel(level, |input|), ts, output[..packed]);
    size := Decompress(output[..packed], back, |input|, BlockLevel(level, |input|), ts);
    assert back[..] == back[..size];
  }

  lemma FirstByteThere(level: Level, ts: seq<Token>, block: seq<Byte>)
    requires IsBlock(level, ts, block)
    ensures |block| >= 1
  {
  }
}
