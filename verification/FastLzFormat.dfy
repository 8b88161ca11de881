// The byte format of fastlz.c at both levels: literal runs and copies from earlier output.

module FastLzFormat {
  import opened Bytes

  const MAX_COPY := 32
  const MAX_LEN := 264
  const NEAR_LIMIT := 8191
  const FAR_LIMIT := 65536

  type Level = l: int | 1 <= l <= 2 witness 1

  /** 1..32 bytes as they are, or `len` bytes from `distance`+1 back. */
  datatype Token = Literals(bytes: seq<Byte>) | Match(distance: nat, len: nat)

  /** What a level can express.  At level 2 a far match must be longer to be worth its bytes. */
  predicate Expressible(level: Level, t: Token) {
    match t
    case Literals(bytes) => 1 <= |bytes| <= MAX_COPY
    case Match(d, len) =>
      if level == 1 then d < NEAR_LIMIT && 3 <= len <= MAX_LEN else d < NEAR_LIMIT + FAR_LIMIT && len >= 3
  }

  /** The rest of a long length at level 2: bytes of 255 and a smaller one. */
  function LengthBytes(x: nat): seq<Byte> {
    if x >= 255 then [255] + LengthBytes(x - 255) else [x]
  }

  function MatchBytes(level: Level, d: nat, len: nat): seq<Byte>
    requires Expressible(level, Match(d, len))
  {
    var l := len - 2;
    if d < NEAR_LIMIT then
      (if l < 7 then [l * 32 + d / 256]
       else [7 * 32 + d / 256] + if level == 1 then [l - 7] else LengthBytes(l - 7))
      + [d % 256]
    else
      var e := d - NEAR_LIMIT;
      (if l < 7 then [l * 32 + 31] else [7 * 32 + 31] + LengthBytes(l - 7))
      + [255, e / 256, e % 256]
  }

  function TokenBytes(level: Level, t: Token): seq<Byte>
    requires Expressible(level, t)
  {
    match t
    case Literals(bytes) => [|bytes| - 1] + bytes
    case Match(d, len) => MatchBytes(level, d, len)
  }

  predicate AllExpressible(level: Level, ts: seq<Token>) {
    forall i :: 0 <= i < |ts| ==> Expressible(level, ts[i])
  }

  function Body(level: Level, ts: seq<Token>): seq<Byte>
    requires AllExpressible(level, ts)
  {
    if ts == [] then [] else Body(level, ts[..|ts| - 1]) + TokenBytes(level, ts[|ts| - 1])
  }

  /** Every match reaches back only into output that is there. */
  predicate Playable(ts: seq<Token>)
    decreases |ts|, 0
  {
    ts == [] ||
    var n := |ts| - 1;
    Playable(ts[..n]) && (ts[n].Match? ==> ts[n].distance < |Play(ts[..n])|)
  }

  /** The bytes that tokens stand for. */
  function Play(ts: seq<Token>): seq<Byte>
    requires Playable(ts)
    decreases |ts|, 1
  {
    if ts == [] then [] else
      var before := Play(ts[..|ts| - 1]);
      match ts[|ts| - 1]
      case Literals(bytes) => before + bytes
      case Match(d, len) => Copy(before, d, len)
  }

  /** A compressed block starts with literals; its first byte also names the level. */
  predicate WellFormed(level: Level, ts: seq<Token>) {
    AllExpressible(level, ts) && Playable(ts) && ts != [] && ts[0].Literals?
  }

  /** The tag in the first byte. */
  function Mark(level: Level): int { if level == 1 then 0 else 32 }

  ghost predicate IsBlock(level: Level, ts: seq<Token>, block: seq<Byte>) {
    && WellFormed(level, ts)
    && |block| == |Body(level, ts)| >= 2
    && Body(level, ts)[0] < 32 && block[0] == Body(level, ts)[0] + Mark(level) && block[1..] == Body(level, ts)[1..]
  }

  lemma Snoc(level: Level, ts: seq<Token>, t: Token)
    requires AllExpressible(level, ts) && Expressible(level, t)
    ensures AllExpressible(level, ts + [t]) && Body(level, ts + [t]) == Body(level, ts) + TokenBytes(level, t)
    ensures Playable(ts) && (t.Match? ==> t.distance < |Play(ts)|) ==>
              && Playable(ts + [t])
              && Play(ts + [t]) == if t.Literals? then Play(ts) + t.bytes else Copy(Play(ts), t.distance, t.len)
  {
    assert (ts + [t])[..|ts|] == ts;
  }

  lemma {:induction false} FirstByte(level: Level, ts: seq<Token>)
    requires AllExpressible(level, ts) && ts != [] && ts[0].Literals?
    ensures |Body(level, ts)| >= 2 && Body(level, ts)[0] == |ts[0].bytes| - 1 < 32
    decreases |ts|
  {
    if |ts| > 1 {
      FirstByte(level, ts[..|ts| - 1]);
    } else {
      assert ts[..0] == [];
      assert Body(level, ts) == [] + TokenBytes(level, ts[0]);
    }
  }

  lemma {:induction false} BodyPrefix(level: Level, ts: seq<Token>, k: nat)
    requires AllExpressible(level, ts) && k <= |ts|
    ensures AllExpressible(level, ts[..k]) && Body(level, ts[..k]) <= Body(level, ts)
    decreases |ts|
  {
    if k == |ts| {
      assert ts[..k] == ts;
    } else {
      BodyPrefix(level, ts[..|ts| - 1], k);
      assert ts[..|ts| - 1][..k] == ts[..k];
    }
  }

  lemma {:induction false} PlayPrefix(ts: seq<Token>, k: nat)
    requires Playable(ts) && k <= |ts|
    ensures Playable(ts[..k]) && Play(ts[..k]) <= Play(ts)
    decreases |ts|
  {
    var n := |ts| - 1;
    if k == |ts| {
      assert ts[..k] == ts;
    } else {
      PlayPrefix(ts[..n], k);
      assert ts[..n][..k] == ts[..k];
      if ts[n].Match? {
        CopyExtends(Play(ts[..n]), ts[n].distance, ts[n].len);
      }
    }
  }
}
