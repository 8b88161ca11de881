// The data encoding of G-Kermit (encode and decode in gkermit.c): run lengths, an 8th-bit
// prefix and a control prefix, for binary files.

module KermitQuoting {
  import opened Bytes

  datatype Option<T> = None | Some(value: T)

  /** The prefix characters in use, and whether 8th-bit and repeat prefixes were agreed on. */
  datatype Quoting = Quoting(ctlq: Byte, ebq: Byte, rptq: Byte, ebqflg: bool, rptflg: bool)

  /** What spar accepts as a prefix. */
  predicate Prefix(x: Byte) {
    32 < x < 63 || 95 < x < 127
  }

  predicate ValidQuoting(q: Quoting) {
    && Prefix(q.ctlq)
    && (q.ebqflg ==> Prefix(q.ebq) && q.ebq != q.ctlq)
    && (q.rptflg ==> Prefix(q.rptq) && q.rptq != q.ctlq && (q.ebqflg ==> q.rptq != q.ebq))
  }

  const MAX_RUN := 94

  function Ctl(a: Byte): Byte {
    if a / 64 % 2 == 1 then a - 64 else a + 64
  }

  // ----- encoding

  function CharBytes(q: Quoting, a: Byte): seq<Byte> {
    var a7: Byte := a % 128;
    var high := q.ebqflg && a >= 128;
    var body: Byte := if high then a7 else a;
    (if high then [q.ebq] else [])
    + if a7 < 32 || a7 == 127 then [q.ctlq, Ctl(body)]
      else if a7 == q.ctlq || (q.ebqflg && a7 == q.ebq) || (q.rptflg && a7 == q.rptq) then [q.ctlq, body]
      else [body]
  }

  /** `count` equal bytes that are coded together. */
  datatype Group = Group(count: nat, byte: Byte)

  predicate ValidGroup(q: Quoting, g: Group) {
    g.count == 1 || (q.rptflg && 3 <= g.count <= MAX_RUN)
  }

  predicate AllValid(q: Quoting, gs: seq<Group>) {
    forall i :: 0 <= i < |gs| ==> ValidGroup(q, gs[i])
  }

  function GroupBytes(q: Quoting, g: Group): seq<Byte>
    requires ValidGroup(q, g)
  {
    (if g.count > 1 then [q.rptq, g.count + 32] else []) + CharBytes(q, g.byte)
  }

  function Encoded(q: Quoting, gs: seq<Group>): seq<Byte>
    requires AllValid(q, gs)
  {
    if gs == [] then [] else GroupBytes(q, gs[0]) + Encoded(q, gs[1..])
  }

  function Repeat(n: int, b: Byte): (r: seq<Byte>)
    ensures |r| == if n > 0 then n else 0
    ensures forall i :: 0 <= i < |r| ==> r[i] == b
  {
    if n <= 0 then [] else [b] + Repeat(n - 1, b)
  }

  function Plain(gs: seq<Group>): seq<Byte> {
    if gs == [] then [] else Repeat(gs[0].count, gs[0].byte) + Plain(gs[1..])
  }

  lemma {:induction false} EncodedConcat(q: Quoting, a: seq<Group>, b: seq<Group>)
    requires AllValid(q, a) && AllValid(q, b)
    ensures AllValid(q, a + b) && Encoded(q, a + b) == Encoded(q, a) + Encoded(q, b)
    ensures Plain(a + b) == Plain(a) + Plain(b)
  {
    hide Repeat, GroupBytes, ValidGroup;
    if a == [] {
      assert a + b == b;
    } else {
      EncodedConcat(q, a[1..], b);
      assert (a + b)[1..] == a[1..] + b;
      assert GroupBytes(q, a[0]) + (Encoded(q, a[1..]) + Encoded(q, b)) == Encoded(q, a) + Encoded(q, b);
      assert Repeat(a[0].count, a[0].byte) + (Plain(a[1..]) + Plain(b)) == Plain(a) + Plain(b);
    }
  }

  lemma EncodedOne(q: Quoting, g: Group)
    requires ValidGroup(q, g)
    ensures AllValid(q, [g]) && Encoded(q, [g]) == GroupBytes(q, g) && Plain([g]) == Repeat(g.count, g.byte)
  {
  }

  /** The most bytes one character can take. */
  function MaxChar(q: Quoting): nat {
    if q.ebqflg then 3 else 2
  }

  /** What may stand in a packet: no control character, and where 8th-bit prefixes are used no 8th bit. */
  predicate Printable(q: Quoting, b: Byte) {
    32 <= b % 128 < 127 && (q.ebqflg ==> b < 128)
  }

  predicate AllPrintable(q: Quoting, data: seq<Byte>) {
    forall i :: 0 <= i < |data| ==> Printable(q, data[i])
  }

  /** Encoded data is printable, and a group has at most two bytes more than its character. */
  lemma GroupShape(q: Quoting, g: Group)
    requires ValidQuoting(q) && ValidGroup(q, g)
    ensures 1 <= |CharBytes(q, g.byte)| <= MaxChar(q)
    ensures |GroupBytes(q, g)| == if g.count == 1 then |CharBytes(q, g.byte)| else |CharBytes(q, g.byte)| + 2
    ensures AllPrintable(q, GroupBytes(q, g))
  {
    CharPrintable(q, g.byte);
    hide CharBytes;
  }

  /** No control character, and in particular no NUL and no packet terminator, gets into a field. */
  lemma {:induction false} FieldPrintable(q: Quoting, gs: seq<Group>)
    requires ValidQuoting(q) && AllValid(q, gs)
    ensures AllPrintable(q, Encoded(q, gs))
    ensures gs != [] ==> Encoded(q, gs) != []
  {
    hide GroupBytes, ValidGroup;
    if gs != [] {
      GroupShape(q, gs[0]);
      FieldPrintable(q, gs[1..]);
    }
  }

  // ----- decoding

  /** A character of data as a signed number. */
  function Signed(b: Byte): int {
    if b < 128 then b else b - 256
  }

  /** One character with its 8th-bit and control prefixes, and how many bytes of data it took. */
  function CharAt(q: Quoting, data: seq<Byte>): (r: Option<(Byte, nat)>)
    ensures r.Some? ==> 1 <= r.value.1 <= |data|
  {
    var high := q.ebqflg && data != [] && data[0] == q.ebq;
    var i := if high then 1 else 0;
    var quoted := i < |data| && data[i] == q.ctlq;
    var k := if quoted then i + 1 else i;
    if k >= |data| then None
    else
      var a := data[k];
      var b := if quoted && 62 < a % 128 < 96 then Ctl(a) else a;
      Some((if high && b < 128 then b + 128 else b, k + 1))
  }

  /** A character with its repeat count. */
  datatype Unit = Unit(rpt: int, byte: Byte, used: nat)

  function UnitAt(q: Quoting, data: seq<Byte>, rpt0: int): (r: Option<Unit>)
    ensures r.Some? ==> 1 <= r.value.used <= |data|
  {
    if data != [] && q.rptflg && data[0] == q.rptq then
      var c := if |data| >= 2 then CharAt(q, data[2..]) else None;
      if c.None? then None
      else
        var rpt := Signed(data[1]) - 32;
        Some(Unit(if rpt == 0 then 1 else rpt, c.value.0, c.value.1 + 2))
    else
      var c := CharAt(q, data);
      if c.None? then None else Some(Unit(if rpt0 == 0 then 1 else rpt0, c.value.0, c.value.1))
  }

  /** All the bytes a data field stands for.  A negative count stays until the next one. */
  function Decoded(q: Quoting, data: seq<Byte>, rpt: int): Option<seq<Byte>> {
    if data == [] then Some([])
    else
      var u := UnitAt(q, data, rpt);
      if u.None? then None
      else
        var rest := Decoded(q, data[u.value.used..], if u.value.rpt > 0 then 0 else u.value.rpt);
        if rest.None? then None else Some(Repeat(u.value.rpt, u.value.byte) + rest.value)
  }

  /** A control character survives the round trip through its printable form. */
  lemma CtlInverse(a: Byte)
    ensures Ctl(Ctl(a)) == a
    ensures a % 128 < 32 || a % 128 == 127 ==> 62 < Ctl(a) % 128 < 96
  {
  }

  /** One character is read back whatever follows it, and does not look like a repeat prefix. */
  lemma CharRead(q: Quoting, a: Byte, rest: seq<Byte>)
    requires ValidQuoting(q)
    ensures CharAt(q, CharBytes(q, a) + rest) == Some((a, |CharBytes(q, a)|))
    ensures |CharBytes(q, a)| >= 1 && (q.rptflg ==> CharBytes(q, a)[0] != q.rptq)
  {
    hide Ctl;
    CtlInverse(a);
    CtlInverse(a % 128);
    var bytes, data := CharBytes(q, a), CharBytes(q, a) + rest;
    var i := if q.ebqflg && a >= 128 then 1 else 0;
    assert data[0] == bytes[0] && data[i] == bytes[i];
    assert |bytes| > i + 1 ==> data[i + 1] == bytes[i + 1];
  }

  /** Any of the prefixes in use, with or without an 8th bit. */
  predicate InUse(q: Quoting, b: Byte) {
    var b7 := b % 128;
    b7 == q.ctlq || (q.ebqflg && b7 == q.ebq) || (q.rptflg && b7 == q.rptq)
  }

  /** Printable bytes with which a character may be written: 8th-bit prefix, control prefix, and a byte that is no bare prefix. */
  predicate Writing(q: Quoting, data: seq<Byte>) {
    && AllPrintable(q, data) && data != []
    && var i := if q.ebqflg && data[0] == q.ebq then 1 else 0;
       i < |data| && if data[i] == q.ctlq then |data| == i + 2 else |data| == i + 1 && !InUse(q, data[i])
  }

  lemma CharParts(q: Quoting, a: Byte)
    ensures var head := if q.ebqflg && a >= 128 then [q.ebq] else [];
            var body: Byte := if q.ebqflg then a % 128 else a;
            CharBytes(q, a) == head + if a % 128 < 32 || a % 128 == 127 then [q.ctlq, Ctl(body)]
                                      else if InUse(q, a) then [q.ctlq, body] else [body]
  {
  }

  /**
   * Nothing is prefixed without need: the bytes chosen for a character are one of its
   * writings, and every other writing that decode reads as this character is longer.
   */
  lemma Shortest(q: Quoting, a: Byte, data: seq<Byte>)
    requires ValidQuoting(q)
    ensures Writing(q, CharBytes(q, a))
    ensures Writing(q, data) && CharAt(q, data) == Some((a, |data|)) && data != CharBytes(q, a) ==> |CharBytes(q, a)| < |data|
  {
    hide CharBytes, CharAt, Writing;
    CharPrintable(q, a);
    if Writing(q, data) && CharAt(q, data) == Some((a, |data|)) {
      WritingUnique(q, a, data);
    }
  }

  lemma CharPrintable(q: Quoting, a: Byte)
    requires ValidQuoting(q)
    ensures AllPrintable(q, CharBytes(q, a)) && 1 <= |CharBytes(q, a)| <= MaxChar(q) && Writing(q, CharBytes(q, a))
  {
    hide CharBytes, Ctl;
    CharParts(q, a);
    CtlPrints(a);
    CtlPrints(a % 128);
  }

  /** The printable form of a control character, with the same 8th bit. */
  lemma CtlPrints(x: Byte)
    ensures x % 128 < 32 || x % 128 == 127 ==> 63 <= Ctl(x) % 128 < 96 && (Ctl(x) < 128 <==> x < 128)
  {
  }

  lemma WritingUnique(q: Quoting, a: Byte, data: seq<Byte>)
    requires ValidQuoting(q) && Writing(q, data) && CharAt(q, data) == Some((a, |data|))
    ensures data != CharBytes(q, a) ==> |CharBytes(q, a)| < |data|
  {
    hide AllPrintable, Printable, Ctl, CharBytes;
    var i := if q.ebqflg && data[0] == q.ebq then 1 else 0;
    PrintableAt(q, data, i);
    PrintableAt(q, data, |data| - 1);
    CharParts(q, a);
    var x := data[|data| - 1];
    if data[i] == q.ctlq {
      CtlInverse(x);
      CtlPlain(x);
      assert data == (if i == 1 then [q.ebq] else []) + [q.ctlq, x];
    } else {
      assert data == (if i == 1 then [q.ebq] else []) + [x];
    }
  }

  /** A printable character that control quoting takes apart stands for a control character with the same 8th bit. */
  lemma CtlPlain(x: Byte)
    ensures 62 < x % 128 < 96 ==> (Ctl(x) % 128 < 32 || Ctl(x) % 128 == 127) && (Ctl(x) < 128 <==> x < 128)
  {
  }

  lemma PrintableAt(q: Quoting, data: seq<Byte>, i: nat)
    requires AllPrintable(q, data) && i < |data|
    ensures 32 <= data[i] % 128 < 127 && (q.ebqflg ==> data[i] < 128)
  {
    assert Printable(q, data[i]);
  }

  /** One group is read back whatever follows it. */
  lemma UnitOfGroup(q: Quoting, g: Group, rest: seq<Byte>)
    requires ValidQuoting(q) && ValidGroup(q, g)
    ensures |GroupBytes(q, g)| >= 1
    ensures UnitAt(q, GroupBytes(q, g) + rest, 0) == Some(Unit(g.count, g.byte, |GroupBytes(q, g)|))
  {
    hide CharBytes, CharAt;
    CharRead(q, g.byte, rest);
    var data := GroupBytes(q, g) + rest;
    if g.count > 1 {
      assert data == [q.rptq, g.count + 32] + (CharBytes(q, g.byte) + rest);
      assert data[2..] == CharBytes(q, g.byte) + rest;
    } else {
      assert data == CharBytes(q, g.byte) + rest;
    }
  }

  /** Decoding undoes encoding, for every sequence of groups. */
  lemma {:induction false} DecodedEncoded(q: Quoting, gs: seq<Group>)
    requires ValidQuoting(q) && AllValid(q, gs)
    ensures Decoded(q, Encoded(q, gs), 0) == Some(Plain(gs))
  {
    hide UnitAt, GroupBytes;
    if gs != [] {
      UnitOfGroup(q, gs[0], Encoded(q, gs[1..]));
      var data := Encoded(q, gs);
      assert data[|GroupBytes(q, gs[0])|..] == Encoded(q, gs[1..]);
      DecodedEncoded(q, gs[1..]);
    }
  }

  /** The part of decode that reads one character with its prefixes. */
  method ReadUnit(q: Quoting, data: seq<Byte>, p0: nat, rpt0: int) returns (ok: bool, p: nat, rpt: int, a: Byte)
    requires p0 < |data|
    ensures ok <==> UnitAt(q, data[p0..], rpt0).Some?
    ensures ok ==> p0 < p <= |data| && UnitAt(q, data[p0..], rpt0).value == Unit(rpt, a, p - p0)
  {
    ok, rpt, a, p := false, rpt0, data[p0], p0 + 1;
    var len := |data| - p;
    ghost var from := p0;
    if q.rptflg && a == q.rptq {
      if len < 2 {
        return;
      }
      rpt := Signed(data[p]) - 32;
      a := data[p + 1];
      from := p0 + 2;
      p, len := p + 2, len - 2;
    }
    assert from > p0 ==> data[p0..][2..] == data[from..];
    var b8: Byte := 0;
    if q.ebqflg && a == q.ebq {
      b8 := 128;
      if len < 1 {
        return;
      }
      a := data[p];
      p, len := p + 1, len - 1;
    }
    if a == q.ctlq {
      if len < 1 {
        return;
      }
      a := data[p];
      p, len := p + 1, len - 1;
      if 62 < a % 128 < 96 {
        a := Ctl(a);
      }
    }
    if rpt == 0 {
      rpt := 1;
    }
    if a < 128 {
      a := a + b8;
    }
    ok := true;
    assert CharAt(q, data[from..]) == Some((a, p - from));
  }

  /** The loop that puts a character out as often as its count says. */
  method PutRepeated(output0: seq<Byte>, rpt0: int, a: Byte) returns (output: seq<Byte>, rpt: int)
    ensures output == output0 + Repeat(rpt0, a) && rpt == if rpt0 > 0 then 0 else rpt0
  {
    output, rpt := output0, rpt0;
    while rpt > 0
      invariant if rpt0 > 0 then 0 <= rpt else rpt == rpt0
      invariant output + Repeat(rpt, a) == output0 + Repeat(rpt0, a)
    {
      ghost var out := output;
      output := output + [a];
      rpt := rpt - 1;
      assert out + ([a] + Repeat(rpt, a)) == output + Repeat(rpt, a);
    }
  }

  /** decode: -1 on a prefix with nothing behind it, else 0 and the bytes for the output file. */
  method Decode(q: Quoting, data: seq<Byte>) returns (r: int, output: seq<Byte>)
    ensures r == -1 || r == 0
    ensures r == 0 <==> Decoded(q, data, 0).Some?
    ensures r == 0 ==> output == Decoded(q, data, 0).value
  {
    hide UnitAt, Repeat;
    var p: nat, rpt: int := 0, 0;
    output := [];
    assert data[0..] == data;
    assert Decoded(q, data, 0).Some? ==> [] + Decoded(q, data, 0).value == Decoded(q, data, 0).value;
    while p < |data|
      invariant p <= |data|
      invariant match Decoded(q, data[p..], rpt)
                case None => Decoded(q, data, 0).None?
                case Some(rest) => Decoded(q, data, 0) == Some(output + rest)
    {
      var ok, p', rpt', a := ReadUnit(q, data, p, rpt);
      if !ok {
        return -1, output;
      }
      assert data[p..][p' - p..] == data[p'..];
      ghost var out := output;
      output, rpt := PutRepeated(output, rpt', a);
      p := p';
      if Decoded(q, data[p..], rpt).Some? {
        var rest := Decoded(q, data[p..], rpt).value;
        assert out + (Repeat(rpt', a) + rest) == output + rest;
      }
    }
    return 0, output;
  }
}
