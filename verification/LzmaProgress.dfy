// How far into its input a decoder is, and which inputs it is right to refuse.

module LzmaProgress {
  import opened Bytes
  import opened RangeCoding
  import opened BitTrees
  import opened LzmaModel
  import opened LzmaPrefixCode
  import opened DryRun
  import opened LzmaStreams

  /** At most one symbol, and that one an end marker. */
  predicate EndMark(last: seq<Symbol>) {
    |last| <= 1 && (last != [] ==> ValidSymbol(last[0]) && last[0].Match? && last[0].distance == END_MARKER)
  }

  /** The bytes taken in so far are exactly those of some symbols and perhaps the marker. */
  ghost predicate Traced(p: Props, taken: seq<Byte>, syms: seq<Symbol>, last: seq<Symbol>, end: Reader)
    requires ValidProps(p)
  {
    && |taken| >= 5 && taken[0] == 0 && Playable(START, syms) && EndMark(last)
    && Reads(taken, FirstReader(p, taken), RunOps(p, START, syms, last))
    && TakeAll(taken, FirstReader(p, taken), RunOps(p, START, syms, last)) == end
    && end.pos == |taken|
  }

  lemma TracedStart(p: Props, taken: seq<Byte>)
    requires ValidProps(p) && |taken| == 5 && taken[0] == 0
    ensures Traced(p, taken, [], [], FirstReader(p, taken))
  {
    PlayEmpty(p, START);
  }

  lemma TracedPlays(p: Props, taken: seq<Byte>, syms: seq<Symbol>, last: seq<Symbol>, end: Reader)
    requires ValidProps(p) && Traced(p, taken, syms, last, end)
    ensures Playable(START, syms) && EndMark(last) && |taken| >= 5
  {
  }

  lemma SplitRun(p: Props, syms: seq<Symbol>, s: seq<Symbol>, l: seq<Symbol>)
    requires ValidProps(p) && Playable(START, syms) && Playable(Run(START, syms), s) && EndMark(l)
    ensures Playable(START, syms + s) && Run(START, syms + s) == Run(Run(START, syms), s)
    ensures AllOps(p, START, syms + s) == AllOps(p, START, syms) + AllOps(p, Run(START, syms), s)
    ensures RunOps(p, START, syms + s, l) == AllOps(p, START, syms) + RunOps(p, Run(START, syms), s, l)
    ensures RunOps(p, START, syms, []) == AllOps(p, START, syms)
  {
    hide Playable, Run, AllOps, SymbolOps;
    PlayConcat(p, START, syms, s);
    var a, b := AllOps(p, START, syms), AllOps(p, Run(START, syms), s);
    var c := if l == [] then [] else SymbolOps(p, Run(Run(START, syms), s), l[0]);
    assert (a + b) + c == a + (b + c);
    assert a + [] == a;
  }

  /** What is read first from `taken` and then, at the same registers, from `src`. */
  lemma TwoParts(p: Props, taken: seq<Byte>, src: seq<Byte>, ops: seq<Op>, more: seq<Op>, end: Reader, n: nat)
    requires ValidProps(p) && |taken| >= 5 && n <= |src|
    requires Reads(taken, FirstReader(p, taken), ops) && TakeAll(taken, FirstReader(p, taken), ops) == end
    requires end.pos == |taken| && ValidReader(end)
    requires TakeAll(src, end.(pos := 0), more).pos <= n
    ensures var t := taken + src[..n];
            && (Reads(src, end.(pos := 0), more) <==> Reads(t, FirstReader(p, t), ops + more))
            && TakeAll(t, FirstReader(p, t), ops + more)
               == TakeAll(src, end.(pos := 0), more).(pos := |taken| + TakeAll(src, end.(pos := 0), more).pos)
            && Reads(t, FirstReader(p, t), ops) && TakeAll(t, FirstReader(p, t), ops) == end
  {
    hide Reads, TakeAll;
    var t := taken + src[..n];
    var d := FirstReader(p, taken);
    assert t[1..5] == taken[1..5];
    Extends(taken, t, d, ops);
    assert src[0..0 + n] == t[|taken|..|taken| + n];
    Rebase(src, end.(pos := 0), t, |taken|, n, more);
    ReadsConcat(t, d, ops, more);
    TakeConcat(t, d, ops, more);
  }

  /** Reading on from other input makes the trace longer. */
  lemma TracedMore(p: Props, taken: seq<Byte>, syms: seq<Symbol>, end: Reader, src: seq<Byte>, s: seq<Symbol>, l: seq<Symbol>)
    requires ValidProps(p) && Traced(p, taken, syms, [], end) && Playable(Run(START, syms), s) && EndMark(l)
    requires Reads(src, end.(pos := 0), RunOps(p, Run(START, syms), s, l))
    requires TakeAll(src, end.(pos := 0), RunOps(p, Run(START, syms), s, l)).pos <= |src|
    ensures var r := TakeAll(src, end.(pos := 0), RunOps(p, Run(START, syms), s, l));
            && Playable(START, syms + s) && Run(START, syms + s) == Run(Run(START, syms), s)
            && Traced(p, taken + src[..r.pos], syms + s, l, r.(pos := |taken| + r.pos))
  {
    hide Reads, TakeAll, Playable, Run, RunOps, AllOps, SymbolOps, NumProbs, FirstReader;
    var more := RunOps(p, Run(START, syms), s, l);
    SplitRun(p, syms, s, l);
    TwoParts(p, taken, src, AllOps(p, START, syms), more, end, TakeAll(src, end.(pos := 0), more).pos);
  }

  // ----- refusals

  /** A place where the input cannot be what an encoder writes. */
  ghost predicate FaultAt(p: Props, size: nat, input: seq<Byte>, syms: seq<Symbol>, s: Symbol, ops: seq<Op>)
    requires ValidProps(p) && |input| >= 5
  {
    && Playable(START, syms) && ValidSymbol(s)
    && Reads(input, FirstReader(p, input), AllOps(p, START, syms) + ops)
    && var end := TakeAll(input, FirstReader(p, input), AllOps(p, START, syms) + ops);
    && end.pos <= |input|
    && (Refused(p, size, Run(START, syms), s, ops)
        || (s.Match? && s.distance == END_MARKER && ops == SymbolOps(p, Run(START, syms), s) && end.code != 0))
  }

  /** The input starts wrong, holds a symbol that must be refused, or a marker that leaves a code. */
  ghost predicate Fault(p: Props, size: nat, input: seq<Byte>)
    requires ValidProps(p)
  {
    |input| >= 5 && (input[0] != 0 || exists syms, s, ops :: FaultAt(p, size, input, syms, s, ops))
  }

  lemma FaultGrows(p: Props, size: nat, input: seq<Byte>, more: seq<Byte>)
    requires ValidProps(p) && Fault(p, size, input) && input <= more
    ensures Fault(p, size, more)
  {
    hide Reads, TakeAll, Playable, Run, AllOps, SymbolOps, Refused, NumProbs;
    if input[0] == 0 {
      var syms, s, ops :| FaultAt(p, size, input, syms, s, ops);
      assert more[1..5] == input[1..5];
      Extends(input, more, FirstReader(p, input), AllOps(p, START, syms) + ops);
      assert FaultAt(p, size, more, syms, s, ops);
    }
  }

  /** A refusal while reading on from other input. */
  lemma FaultMore(p: Props, size: nat, taken: seq<Byte>, syms: seq<Symbol>, end: Reader,
                  src: seq<Byte>, s: seq<Symbol>, t: Symbol, ops: seq<Op>)
    requires ValidProps(p) && Playable(START, syms) && Playable(Run(START, syms), s) && ValidReader(end)
    requires Refused(p, size, Run(Run(START, syms), s), t, ops)
    requires Reads(src, end.(pos := 0), AllOps(p, Run(START, syms), s) + ops)
    requires TakeAll(src, end.(pos := 0), AllOps(p, Run(START, syms), s) + ops).pos <= |src|
    requires Traced(p, taken, syms, [], end)
    ensures Fault(p, size, taken + src)
  {
    hide Reads, TakeAll, Playable, Run, AllOps, RunOps, NumProbs, Refused, SymbolOps;
    var a, b := AllOps(p, START, syms), AllOps(p, Run(START, syms), s);
    SplitRun(p, syms, s, []);
    RefusedValid(p, size, Run(START, syms + s), t, ops);
    TwoParts(p, taken, src, a, b + ops, end, |src|);
    assert src[..|src|] == src;
    assert a + (b + ops) == (a + b) + ops;
    assert FaultAt(p, size, taken + src, syms + s, t, ops);
  }

  lemma RefusedValid(p: Props, size: nat, z: Lz, t: Symbol, ops: seq<Op>)
    requires ValidProps(p) && ValidLz(z) && Refused(p, size, z, t, ops)
    ensures ValidSymbol(t)
  {
  }

  /** A marker that leaves a code other than 0. */
  lemma FaultMark(p: Props, size: nat, taken: seq<Byte>, syms: seq<Symbol>, last: seq<Symbol>, end: Reader)
    requires ValidProps(p) && Traced(p, taken, syms, last, end) && last != [] && end.code != 0
    ensures Fault(p, size, taken)
  {
    hide Reads, TakeAll, Playable, Run, AllOps, SymbolOps, NumProbs, Refused, FirstReader;
    assert FaultAt(p, size, taken, syms, last[0], SymbolOps(p, Run(START, syms), last[0]));
  }

  // ----- one symbol at a time

  lemma OneOps(p: Props, z: Lz, s: seq<Symbol>, l: seq<Symbol>)
    requires ValidProps(p) && ValidLz(z) && Playable(z, s) && EndMark(l) && |s| + |l| == 1
    ensures ValidSymbol((s + l)[0]) && RunOps(p, z, s, l) == SymbolOps(p, z, (s + l)[0])
  {
    hide SymbolOps;
    var ops := SymbolOps(p, z, (s + l)[0]);
    PlayEmpty(p, z);
    if l == [] {
      PlayLast(p, z, s);
      assert s[..0] == [] && ([] + ops) + [] == ops;
    } else {
      assert s == [] && [] + ops == ops;
    }
  }

  /** The first two decisions tell a repeat from everything else. */
  lemma RepeatHead(p: Props, z: Lz, input: seq<Byte>, d: Reader, t: Symbol)
    requires ValidProps(p) && ValidLz(z) && ValidReader(d) && ValidSymbol(t)
    requires Reads(input, d, SymbolOps(p, z, ShortRep)[..2]) && Reads(input, d, SymbolOps(p, z, t))
    ensures t.ShortRep? || t.Rep?
  {
    hide Reads, TakeAll, Path;
    var a, b := SymbolOps(p, z, ShortRep)[..2], SymbolOps(p, z, t);
    if t.Literal? {
      assert DivergeAt(a, b, 0);
      ReadsOne(input, d, a, b);
    } else if t.Match? {
      assert a[..1] == b[..1];
      assert DivergeAt(a, b, 1);
      ReadsOne(input, d, a, b);
    }
  }

  /** A refusal takes no more input than the symbol a dry run saw. */
  lemma WholeRefusal(p: Props, size: nat, z: Lz, src: seq<Byte>, d: Reader, t: Symbol, x: Symbol, ops: seq<Op>)
    requires ValidProps(p) && ValidLz(z) && ValidReader(d) && ValidSymbol(t)
    requires Reads(src, d, SymbolOps(p, z, t)) && Refused(p, size, z, x, ops) && Reads(src, d, ops)
    ensures TakeAll(src, d, ops).pos <= TakeAll(src, d, SymbolOps(p, z, t)).pos
  {
    hide Reads, TakeAll, Path, LenOps;
    if x.Match? {
      SymbolUnique(p, z, src, d, x, t);
    } else {
      RepeatHead(p, z, src, d, t);
      assert SymbolOps(p, z, t)[..2] == ops;
      TakeMonotone(src, d, SymbolOps(p, z, t), 2);
    }
  }

  // ----- genuine streams

  /** What a decoder reads of a genuine stream beyond its symbols is the next symbol. */
  lemma NextOfStream(p: Props, enc: seq<Symbol>, stream: seq<Byte>, input: seq<Byte>, syms: seq<Symbol>, ops: seq<Op>)
    requires ValidProps(p) && Playable(START, enc) && IsStream(p, enc, stream) && Playable(START, syms)
    requires Agrees(stream, input) && |input| >= 5
    requires Reads(input, FirstReader(p, input), AllOps(p, START, syms) + ops)
    requires TakeAll(input, FirstReader(p, input), AllOps(p, START, syms) + ops).pos <= |input|
    ensures syms <= enc && |stream| >= 5 && ValidSymbol(NextSymbol(enc, |syms|))
    ensures |syms| < |enc| ==> Refers(Run(START, syms), enc[|syms|])
    ensures var w := Longer(stream, input); var t := TakeAll(w, FirstReader(p, input), AllOps(p, START, syms));
            && FirstReader(p, input) == FirstReader(p, stream)
            && Reads(w, t, ops) && TakeAll(w, t, ops) == TakeAll(input, FirstReader(p, input), AllOps(p, START, syms) + ops)
            && Reads(w, t, SymbolOps(p, Run(START, syms), NextSymbol(enc, |syms|)))
            && TakeAll(w, t, SymbolOps(p, Run(START, syms), NextSymbol(enc, |syms|))).pos <= |stream|
            && (syms == enc ==> TakeAll(w, t, SymbolOps(p, Run(START, syms), MARKER)).pos == |stream|
                                && TakeAll(w, t, SymbolOps(p, Run(START, syms), MARKER)).code == 0)
  {
    hide Reads, TakeAll, Playable, Run, AllOps, SymbolOps, NumProbs, IsStream;
    var w, d := Longer(stream, input), FirstReader(p, input);
    var before := AllOps(p, START, syms);
    ReadFromLonger(p, enc, stream, input, before + ops);
    ReadsConcat(w, d, before, ops);
    TakeConcat(w, d, before, ops);
    SymbolsFollow(p, enc, w, d, syms);
    assert enc[..|syms|] == syms;
    NextReads(p, enc, w, d, |syms|);
    if syms == enc {
      TakeConcat(w, d, before, SymbolOps(p, Run(START, syms), MARKER));
    }
  }

  /** A genuine stream, whole or cut short or with bytes after it, is never refused. */
  lemma GenuineNoFault(p: Props, enc: seq<Symbol>, stream: seq<Byte>, size: nat, input: seq<Byte>)
    requires ValidProps(p) && Playable(START, enc) && IsStream(p, enc, stream)
    requires InDictionary(enc, size) && Agrees(stream, input)
    ensures !Fault(p, size, input)
  {
    hide Reads, TakeAll, Playable, Run, AllOps, SymbolOps, NumProbs, IsStream, StreamOps;
    if Fault(p, size, input) {
      StreamReads(p, enc, stream);
      assert stream[0] == input[0];
      var syms, s, ops :| FaultAt(p, size, input, syms, s, ops);
      NextOfStream(p, enc, stream, input, syms, ops);
      var z, next := Run(START, syms), NextSymbol(enc, |syms|);
      var w := Longer(stream, input);
      var t := TakeAll(w, FirstReader(p, input), AllOps(p, START, syms));
      if s.Match? {
        SymbolUnique(p, z, w, t, s, next);
      } else {
        RepeatHead(p, z, w, t, next);
      }
    }
  }

  /** A decoder fed a genuine stream never takes more than the stream, and at the marker it has it all. */
  lemma GenuineTraced(p: Props, enc: seq<Symbol>, stream: seq<Byte>, taken: seq<Byte>,
                      syms: seq<Symbol>, last: seq<Symbol>, end: Reader)
    requires ValidProps(p) && Playable(START, enc) && IsStream(p, enc, stream)
    requires Traced(p, taken, syms, last, end) && Agrees(stream, taken)
    ensures |taken| <= |stream| && syms <= enc
    ensures last != [] ==> syms == enc && taken == stream && end.code == 0
  {
    hide Reads, TakeAll, Playable, Run, AllOps, SymbolOps, NumProbs, IsStream, StreamOps;
    var ops := if last == [] then [] else SymbolOps(p, Run(START, syms), last[0]);
    NextOfStream(p, enc, stream, taken, syms, ops);
    var w := Longer(stream, taken);
    var t := TakeAll(w, FirstReader(p, taken), AllOps(p, START, syms));
    if last == [] {
      TakeNone(w, t);
    } else {
      SymbolUnique(p, Run(START, syms), w, t, last[0], NextSymbol(enc, |syms|));
    }
  }

  lemma TakeNone(s: seq<Byte>, d: Reader)
    requires ValidReader(d)
    ensures TakeAll(s, d, []) == d
  {
  }

  /** A decoder that asks for more has not been given the whole stream. */
  lemma GenuineShort(p: Props, enc: seq<Symbol>, stream: seq<Byte>, taken: seq<Byte>, syms: seq<Symbol>, end: Reader,
                     held: seq<Byte>)
    requires ValidProps(p) && Playable(START, enc) && IsStream(p, enc, stream)
    requires Traced(p, taken, syms, [], end) && Agrees(stream, taken + held)
    requires Short(p, Run(START, syms), end.(pos := 0), held)
    ensures |taken + held| < |stream|
  {
    hide Reads, TakeAll, Playable, Run, AllOps, SymbolOps, NumProbs, IsStream, StreamOps, Short;
    var input := taken + held;
    if |stream| <= |input| {
      var ops, z := AllOps(p, START, syms), Run(START, syms);
      PlayEmpty(p, z);
      SplitRun(p, syms, [], []);
      assert held[..|held|] == held && ops + [] == ops;
      TakeNone(held, end.(pos := 0));
      TwoParts(p, taken, held, ops, [], end, |held|);
      NextOfStream(p, enc, stream, input, syms, []);
      var next := NextSymbol(enc, |syms|);
      var more := SymbolOps(p, z, next);
      assert input[|taken|..|taken| + |held|] == held[0..0 + |held|];
      Rebase(input, end, held, 0, |held|, more);
      ShortMeansShort(p, z, end.(pos := 0), held, held, next);
    }
  }
}
