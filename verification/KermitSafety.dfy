// A sender and a receiver joined by two channels that keep the order of packets but may
// lose, repeat or damage them: why numbers modulo 64 are enough, and what has been written.

module KermitSafety {
  import opened Bytes
  import opened KermitQuoting
  import opened KermitPacking
  import opened KermitStations

  // ----- channels

  /** A packet that no station takes for the one it waits for, or that only makes it give up. */
  predicate Harmless(w: Wire) {
    w.Damaged? || w.packet.kind in {'E', 'N'}
  }

  /** Every packet is `p` or harmless. */
  predicate Only(ch: seq<Wire>, p: Option<Packet>) {
    forall i :: 0 <= i < |ch| ==> Harmless(ch[i]) || (p.Some? && ch[i] == Good(p.value))
  }

  /** First copies of `prev`, then copies of `cur`. */
  predicate InOrder(ch: seq<Wire>, prev: Option<Packet>, cur: Option<Packet>) {
    exists k :: 0 <= k <= |ch| && Only(ch[..k], prev) && Only(ch[k..], cur)
  }

  lemma AppendCurrent(ch: seq<Wire>, more: seq<Wire>, prev: Option<Packet>, cur: Option<Packet>)
    requires InOrder(ch, prev, cur) && Only(more, cur)
    ensures InOrder(ch + more, prev, cur)
  {
    var k :| 0 <= k <= |ch| && Only(ch[..k], prev) && Only(ch[k..], cur);
    assert (ch + more)[..k] == ch[..k] && (ch + more)[k..] == ch[k..] + more;
  }

  /** With no current packet about, the channel holds only the previous one, and more of it may follow. */
  lemma AppendPrevious(ch: seq<Wire>, more: seq<Wire>, prev: Option<Packet>)
    requires InOrder(ch, prev, None) && Only(more, prev)
    ensures InOrder(ch + more, prev, None)
  {
    OnlyPrevious(ch, prev);
    assert (ch + more)[..|ch + more|] == ch + more && (ch + more)[|ch + more|..] == [];
  }

  lemma OnlyPrevious(ch: seq<Wire>, prev: Option<Packet>)
    requires InOrder(ch, prev, None)
    ensures Only(ch, prev)
  {
    var k :| 0 <= k <= |ch| && Only(ch[..k], prev) && Only(ch[k..], None);
    forall i | 0 <= i < |ch|
      ensures Harmless(ch[i]) || (prev.Some? && ch[i] == Good(prev.value))
    {
      if i < k {
        assert ch[i] == ch[..k][i];
      } else {
        assert ch[i] == ch[k..][i - k];
      }
    }
  }

  /** A new packet becomes the current one. */
  lemma Renew(ch: seq<Wire>, prev: Option<Packet>, cur: Option<Packet>)
    requires Only(ch, prev)
    ensures InOrder(ch, prev, cur)
  {
    assert ch[..|ch|] == ch && ch[|ch|..] == [];
  }

  /** What the head of a channel can be, and what is left behind it. */
  lemma TakeHead(ch: seq<Wire>, prev: Option<Packet>, cur: Option<Packet>)
    requires ch != [] && InOrder(ch, prev, cur)
    ensures InOrder(ch[1..], prev, cur)
    ensures Harmless(ch[0]) || (prev.Some? && ch[0] == Good(prev.value)) || (cur.Some? && ch[0] == Good(cur.value))
    ensures !Harmless(ch[0]) && !(prev.Some? && ch[0] == Good(prev.value)) ==> Only(ch[1..], cur)
  {
    var k :| 0 <= k <= |ch| && Only(ch[..k], prev) && Only(ch[k..], cur);
    if k > 0 {
      assert ch[0] == ch[..k][0];
      assert ch[1..][..k - 1] == ch[..k][1..] && ch[1..][k - 1..] == ch[k..];
    } else {
      assert ch[0] == ch[k..][0];
      assert ch[1..] == ch[k..][1..];
      Only0(ch[1..], prev);
    }
  }

  lemma Only0(ch: seq<Wire>, prev: Option<Packet>)
    ensures ch[..0] == [] && Only(ch[..0], prev) && ch[0..] == ch
  {
  }

  // ----- faults of a channel

  datatype Fault = Lose(at: nat) | Double(at: nat) | Damage(at: nat)

  predicate Possible(ch: seq<Wire>, f: Fault) { f.at < |ch| }

  function Suffer(ch: seq<Wire>, f: Fault): seq<Wire>
    requires Possible(ch, f)
  {
    match f
    case Lose(i) => Spliced(ch, i, [], i + 1)
    case Double(i) => Spliced(ch, i + 1, [], i)
    case Damage(i) => Spliced(ch, i, [Damaged], i + 1)
  }

  function Spliced(ch: seq<Wire>, i: nat, mid: seq<Wire>, j: nat): seq<Wire>
    requires i <= |ch| && j <= |ch|
  {
    ch[..i] + mid + ch[j..]
  }

  lemma SufferOnly(ch: seq<Wire>, f: Fault, p: Option<Packet>)
    requires Possible(ch, f) && Only(ch, p)
    ensures Only(Suffer(ch, f), p)
  {
  }

  lemma Join(a: seq<Wire>, b: seq<Wire>, prev: Option<Packet>, cur: Option<Packet>)
    requires Only(a, prev) && Only(b, cur)
    ensures InOrder(a + b, prev, cur)
  {
    assert (a + b)[..|a|] == a && (a + b)[|a|..] == b;
  }

  lemma SufferLeft(a: seq<Wire>, b: seq<Wire>, f: Fault)
    requires Possible(a, f)
    ensures Suffer(a + b, f) == Suffer(a, f) + b
  {
    hide Spliced;
    match f
    case Lose(i) => SpliceLeft(a, b, i, [], i + 1);
    case Double(i) => SpliceLeft(a, b, i + 1, [], i);
    case Damage(i) => SpliceLeft(a, b, i, [Damaged], i + 1);
  }

  lemma SpliceLeft(a: seq<Wire>, b: seq<Wire>, i: nat, mid: seq<Wire>, j: nat)
    requires i <= |a| && j <= |a|
    ensures Spliced(a + b, i, mid, j) == Spliced(a, i, mid, j) + b
  {
    assert (a + b)[..i] == a[..i];
    assert (a + b)[j..] == a[j..] + b;
  }

  function Shifted(f: Fault, k: nat): Fault
    requires f.at >= k
  {
    match f case Lose(i) => Lose(i - k) case Double(i) => Double(i - k) case Damage(i) => Damage(i - k)
  }

  lemma SufferRight(a: seq<Wire>, b: seq<Wire>, f: Fault)
    requires Possible(a + b, f) && f.at >= |a|
    ensures Suffer(a + b, f) == a + Suffer(b, Shifted(f, |a|))
  {
    hide Spliced;
    var i := f.at - |a|;
    match f
    case Lose(_) => SpliceRight(a, b, i, [], i + 1);
    case Double(_) => SpliceRight(a, b, i + 1, [], i);
    case Damage(_) => SpliceRight(a, b, i, [Damaged], i + 1);
  }

  lemma SpliceRight(a: seq<Wire>, b: seq<Wire>, i: nat, mid: seq<Wire>, j: nat)
    requires i <= |b| && j <= |b|
    ensures Spliced(a + b, |a| + i, mid, |a| + j) == a + Spliced(b, i, mid, j)
  {
    assert (a + b)[..|a| + i] == a + b[..i];
    assert (a + b)[|a| + j..] == b[j..];
  }

  /** Faults keep the order. */
  lemma SufferInOrder(ch: seq<Wire>, f: Fault, prev: Option<Packet>, cur: Option<Packet>)
    requires Possible(ch, f) && InOrder(ch, prev, cur)
    ensures InOrder(Suffer(ch, f), prev, cur)
  {
    hide Suffer, Only;
    var k :| 0 <= k <= |ch| && Only(ch[..k], prev) && Only(ch[k..], cur);
    var a, b := ch[..k], ch[k..];
    assert ch == a + b;
    if f.at < k {
      SufferLeft(a, b, f);
      SufferOnly(a, f, prev);
      Join(Suffer(a, f), b, prev, cur);
    } else {
      SufferRight(a, b, f);
      SufferOnly(b, Shifted(f, k), cur);
      Join(a, Suffer(b, Shifted(f, k)), prev, cur);
    }
  }

  // ----- what is to be sent, and what it should leave behind

  datatype Item = Item(kind: char, data: seq<Byte>)

  function DataPlan(fields: seq<seq<Byte>>): seq<Item> {
    if fields == [] then [Item('Z', [])] else [Item('D', fields[0])] + DataPlan(fields[1..])
  }

  function FilesPlan(files: seq<Outgoing>): seq<Item> {
    if files == [] then [Item('B', [])]
    else [Item('F', files[0].name)] + (DataPlan(files[0].fields) + FilesPlan(files[1..]))
  }

  /** All packets of a transfer, in order. */
  function Plan(files: seq<Outgoing>): seq<Item> {
    [Item('S', [])] + FilesPlan(files)
  }

  predicate Sending(p: Phase) { p in {Ssini, Ssfil, Ssdat, Sseof, Sseot} }

  /** What a sender still has to send after its current packet. */
  function Rest(s: Station): seq<Item> {
    match s.phase
    case Ssini => FilesPlan(s.todo)
    case Sseof => FilesPlan(s.todo)
    case Ssfil => DataPlan(s.fields) + FilesPlan(s.todo)
    case Ssdat => DataPlan(s.fields) + FilesPlan(s.todo)
    case _ => []
  }

  /** What an acknowledgement makes a sender do while something is left: the next packet goes out. */
  predicate GoesOn(q: Quoting, s: Station) {
    var (t, out) := Act(q, s, 'Y', []);
    && Rest(s) != []
    && var p := Packet(Rest(s)[0].kind, (s.number + 1) % 64, Rest(s)[0].data);
    && t.status == s.status && Sending(t.phase) && t.sndpkt == Some(p) && out == [p]
    && t.number == (s.number + 1) % 64 && Rest(t) == Rest(s)[1..]
  }

  /** On an acknowledgement a sender goes on to the next item, or is done. */
  lemma SenderGoesOn(q: Quoting, s: Station)
    requires Sending(s.phase)
    ensures if Rest(s) == [] then Act(q, s, 'Y', []) == (s.(status := Succeeded), []) else GoesOn(q, s)
  {
    if s.phase in {Ssfil, Ssdat} {
      DataGoesOn(q, s);
    } else if s.phase in {Ssini, Sseof} {
      FileGoesOn(q, s);
    }
  }

  /** Inside a file: its next field, or its end. */
  lemma DataGoesOn(q: Quoting, s: Station)
    requires s.phase == Ssfil || s.phase == Ssdat
    ensures GoesOn(q, s)
  {
    hide Decoded, WriteData, CloseFile;
    var rest := FilesPlan(s.todo);
    if s.fields == [] {
      assert ([Item('Z', [])] + rest)[1..] == rest;
    } else {
      var d := Item('D', s.fields[0]);
      assert (([d] + DataPlan(s.fields[1..])) + rest)[1..] == DataPlan(s.fields[1..]) + rest;
    }
  }

  /** Between files: the next one's header, or the end of the batch. */
  lemma FileGoesOn(q: Quoting, s: Station)
    requires s.phase == Ssini || s.phase == Sseof
    ensures GoesOn(q, s)
  {
    hide Decoded, WriteData, CloseFile;
    if s.todo != [] {
      var f := Item('F', s.todo[0].name);
      assert ([f] + (DataPlan(s.todo[0].fields) + FilesPlan(s.todo[1..])))[1..] == DataPlan(s.todo[0].fields) + FilesPlan(s.todo[1..]);
    }
  }

  /** What a receiver has made of the packets so far. */
  datatype Content = Content(phase: Phase, done: seq<Incoming>, open: Incoming)

  const AT_START := Content(Srini, [], NOTHING)

  function ContentOf(s: Station): Content { Content(s.phase, s.done, s.open) }

  predicate Opened(c: Content) { c.phase == Sratt || c.phase == Srdat }

  predicate Acceptable(q: Quoting, c: Content, i: Item) {
    if c.phase == Srini then i.kind == 'S'
    else if c.phase == Srfil then i.kind == 'F' || i.kind == 'B'
    else Opened(c) && (i.kind == 'Z' || (i.kind == 'D' && Decoded(q, i.data, 0).Some?))
  }

  function TakeIn(q: Quoting, c: Content, i: Item): Content {
    if i.kind == 'S' then c.(phase := Srfil)
    else if i.kind == 'F' then c.(phase := Sratt, open := Incoming(i.data, []))
    else if i.kind == 'D' then c.(phase := Srdat, open := c.open.(text := c.open.text + TextOf(q, i.data)))
    else if i.kind == 'Z' then Content(Srfil, c.done + [c.open], NOTHING)
    else c
  }

  /** A receiver takes an acceptable item in and acknowledges it by number. */
  lemma ReceiverTakes(q: Quoting, s: Station, i: Item)
    requires Acceptable(q, ContentOf(s), i)
    ensures var (t, out) := Act(q, s, i.kind, i.data);
            var y := Packet('Y', s.number, []);
            && ContentOf(t) == TakeIn(q, ContentOf(s), i) && out == [y] && t.sndpkt == Some(y)
            && t.number == (s.number + 1) % 64 && t.status == if i.kind == 'B' then Succeeded else s.status
  {
  }

  function Continue(q: Quoting, c: Content, items: seq<Item>): Content
    decreases |items|
  {
    if items == [] then c else Continue(q, TakeIn(q, c, items[0]), items[1..])
  }

  predicate Smooth(q: Quoting, c: Content, items: seq<Item>)
    decreases |items|
  {
    items == [] || (Acceptable(q, c, items[0]) && Smooth(q, TakeIn(q, c, items[0]), items[1..]))
  }

  lemma {:induction false} ContinueSplit(q: Quoting, c: Content, items: seq<Item>, k: nat)
    requires k <= |items|
    ensures Continue(q, c, items) == Continue(q, Continue(q, c, items[..k]), items[k..])
    ensures Smooth(q, c, items) ==> Smooth(q, Continue(q, c, items[..k]), items[k..])
    decreases |items|
  {
    if k > 0 {
      ContinueSplit(q, TakeIn(q, c, items[0]), items[1..], k - 1);
      assert items[..k][1..] == items[1..][..k - 1] && items[1..][k - 1..] == items[k..];
    } else {
      assert items[..0] == [] && items[0..] == items;
    }
  }

  lemma ContinueOne(q: Quoting, c: Content, items: seq<Item>, k: nat)
    requires k < |items|
    ensures Continue(q, c, items[..k + 1]) == TakeIn(q, Continue(q, c, items[..k]), items[k])
  {
    ContinueSplit(q, c, items[..k + 1], k);
    assert items[..k + 1][..k] == items[..k] && items[..k + 1][k..] == [items[k]];
    var d := Continue(q, c, items[..k]);
    assert Continue(q, d, [items[k]]) == Continue(q, TakeIn(q, d, items[k]), []);
  }

  // ----- the outcome of a whole transfer

  predicate Decodable(q: Quoting, files: seq<Outgoing>) {
    forall f :: f in files ==> forall i :: 0 <= i < |f.fields| ==> Decoded(q, f.fields[i], 0).Some?
  }

  /** The files as they should arrive. */
  function Texts(q: Quoting, files: seq<Outgoing>): seq<Incoming> {
    if files == [] then [] else [Incoming(files[0].name, Joined(q, files[0].fields))] + Texts(q, files[1..])
  }

  lemma {:induction false} JoinedFront(q: Quoting, f: seq<Byte>, fields: seq<seq<Byte>>)
    ensures Joined(q, [f] + fields) == TextOf(q, f) + Joined(q, fields)
    decreases |fields|
  {
    hide TextOf;
    if fields == [] {
      JoinedOne(q, [], f);
      assert [] + [f] == [f] + fields;
      assert [] + TextOf(q, f) == TextOf(q, f) + [];
    } else {
      var front, last := fields[..|fields| - 1], fields[|fields| - 1];
      JoinedFront(q, f, front);
      JoinedOne(q, [f] + front, last);
      assert [f] + fields == ([f] + front) + [last];
      assert (TextOf(q, f) + Joined(q, front)) + TextOf(q, last) == TextOf(q, f) + (Joined(q, front) + TextOf(q, last));
    }
  }

  lemma JoinedNone(q: Quoting)
    ensures Joined(q, []) == []
  {
  }

  /** The data packets of one file, and its end. */
  lemma {:induction false} DataRun(q: Quoting, c: Content, fields: seq<seq<Byte>>, rest: seq<Item>)
    requires Opened(c) && forall i :: 0 <= i < |fields| ==> Decoded(q, fields[i], 0).Some?
    ensures var after := Content(Srfil, c.done + [Incoming(c.open.name, c.open.text + Joined(q, fields))], NOTHING);
            && (Smooth(q, after, rest) ==> Smooth(q, c, DataPlan(fields) + rest))
            && Continue(q, c, DataPlan(fields) + rest) == Continue(q, after, rest)
    decreases |fields|
  {
    hide Decoded, Joined, TextOf;
    var items := DataPlan(fields) + rest;
    if fields == [] {
      assert items[0] == Item('Z', []) && items[1..] == rest;
      JoinedNone(q);
      assert c.open.text + Joined(q, fields) == c.open.text;
    } else {
      assert items[0] == Item('D', fields[0]) && items[1..] == DataPlan(fields[1..]) + rest;
      DataRun(q, TakeIn(q, c, items[0]), fields[1..], rest);
      JoinedFront(q, fields[0], fields[1..]);
      assert [fields[0]] + fields[1..] == fields;
      var a, b, x := c.open.text, TextOf(q, fields[0]), Joined(q, fields[1..]);
      assert (a + b) + x == a + (b + x);
    }
  }

  /** All files and the end of the transmission. */
  lemma {:induction false} FilesRun(q: Quoting, done: seq<Incoming>, files: seq<Outgoing>)
    requires Decodable(q, files)
    ensures var c := Content(Srfil, done, NOTHING);
            && Smooth(q, c, FilesPlan(files))
            && Continue(q, c, FilesPlan(files)) == Content(Srfil, done + Texts(q, files), NOTHING)
    decreases |files|
  {
    var c, items := Content(Srfil, done, NOTHING), FilesPlan(files);
    if files == [] {
      assert done + [] == done && items[1..] == [];
    } else {
      var f, rest := files[0], FilesPlan(files[1..]);
      var begun := TakeIn(q, c, items[0]);
      assert f in files && items[1..] == DataPlan(f.fields) + rest;
      var one := Incoming(f.name, Joined(q, f.fields));
      assert [] + Joined(q, f.fields) == Joined(q, f.fields);
      FilesRun(q, done + [one], files[1..]);
      DataRun(q, begun, f.fields, rest);
      assert (done + [one]) + Texts(q, files[1..]) == done + ([one] + Texts(q, files[1..]));
    }
  }

  lemma PlanRun(q: Quoting, files: seq<Outgoing>)
    requires Decodable(q, files)
    ensures Smooth(q, AT_START, Plan(files))
    ensures Continue(q, AT_START, Plan(files)) == Content(Srfil, Texts(q, files), NOTHING)
  {
    FilesRun(q, [], files);
    assert Plan(files)[1..] == FilesPlan(files);
    assert [] + Texts(q, files) == Texts(q, files);
  }

  /** What is closed stays, and what is open only grows until it is closed. */
  lemma {:induction false} OnlyGrows(q: Quoting, c: Content, items: seq<Item>)
    requires Smooth(q, c, items)
    ensures var d := Continue(q, c, items);
            && c.done <= d.done
            && (Opened(c) ==>
                  if |d.done| > |c.done| then d.done[|c.done|].name == c.open.name && c.open.text <= d.done[|c.done|].text
                  else Opened(d) && d.open.name == c.open.name && c.open.text <= d.open.text)
    decreases |items|
  {
    if items != [] {
      OnlyGrows(q, TakeIn(q, c, items[0]), items[1..]);
    }
  }

  // ----- two stations and two channels

  /**
   * A state of the whole.  `put` counts the distinct packets that the sender has sent, `got`
   * those that the receiver has acted upon.
   */
  datatype World = World(snd: Station, rcv: Station, down: seq<Wire>, up: seq<Wire>, put: nat, got: nat)

  datatype Event =
    | SenderHears | SenderTimesOut | ReceiverHears | ReceiverTimesOut
    | DownFault(f: Fault) | UpFault(f: Fault)

  function Wires(ps: seq<Packet>): (ch: seq<Wire>)
    ensures |ch| == |ps| && forall i :: 0 <= i < |ps| ==> ch[i] == Good(ps[i])
  {
    if ps == [] then [] else [Good(ps[0])] + Wires(ps[1..])
  }

  predicate Enabled(w: World, e: Event) {
    match e
    case SenderHears => w.up != []
    case ReceiverHears => w.down != []
    case DownFault(f) => Possible(w.down, f)
    case UpFault(f) => Possible(w.up, f)
    case _ => true
  }

  function SenderStep(q: Quoting, w: World, x: Option<Wire>): World {
    var (t, out) := React(q, w.snd, x);
    var moved := w.snd.status == Running && Expected(w.snd, x) && t.status == Running;
    w.(snd := t, down := w.down + Wires(out), put := if moved then w.put + 1 else w.put)
  }

  function ReceiverStep(q: Quoting, w: World, x: Option<Wire>): World {
    var (t, out) := React(q, w.rcv, x);
    var moved := w.rcv.status == Running && Expected(w.rcv, x) && t.status != Failed;
    w.(rcv := t, up := w.up + Wires(out), got := if moved then w.got + 1 else w.got)
  }

  function Happens(q: Quoting, w: World, e: Event): World
    requires Enabled(w, e)
  {
    match e
    case SenderHears => SenderStep(q, w.(up := w.up[1..]), Some(w.up[0]))
    case SenderTimesOut => SenderStep(q, w, None)
    case ReceiverHears => ReceiverStep(q, w.(down := w.down[1..]), Some(w.down[0]))
    case ReceiverTimesOut => ReceiverStep(q, w, None)
    case DownFault(f) => w.(down := Suffer(w.down, f))
    case UpFault(f) => w.(up := Suffer(w.up, f))
  }

  function Beginning(files: seq<Outgoing>): World {
    World(StartSending(files), StartReceiving(), [Good(Packet('S', 0, []))], [], 1, 0)
  }

  /** A run: events that were possible, from the beginning. */
  predicate Run(q: Quoting, files: seq<Outgoing>, ws: seq<World>, es: seq<Event>) {
    && |ws| == |es| + 1 && ws[0] == Beginning(files)
    && forall i :: 0 <= i < |es| ==> Enabled(ws[i], es[i]) && ws[i + 1] == Happens(q, ws[i], es[i])
  }

  // ----- what every step keeps

  /** Number k of the plan as it goes over the line. */
  function Nth(plan: seq<Item>, k: int): Option<Packet> {
    if 0 <= k < |plan| then Some(Packet(plan[k].kind, k % 64, plan[k].data)) else None
  }

  function Acknowledgement(k: int): Option<Packet> {
    if k >= 0 then Some(Packet('Y', k % 64, [])) else None
  }

  function When<T>(b: bool, x: Option<T>): Option<T> { if b then x else None }

  predicate SenderInv(plan: seq<Item>, w: World) {
    && 1 <= w.put <= |plan| && (w.got == w.put || w.got + 1 == w.put)
    && (w.snd.status == Running ==>
          && Sending(w.snd.phase) && w.snd.number == (w.put - 1) % 64 && w.snd.sndpkt == Nth(plan, w.put - 1)
          && Rest(w.snd) == plan[w.put..])
    && (w.snd.status == Succeeded ==> w.put == w.got == |plan|)
  }

  predicate ReceiverInv(q: Quoting, plan: seq<Item>, w: World) {
    && w.got <= |plan| && ContentOf(w.rcv) == Continue(q, AT_START, plan[..w.got])
    && (w.rcv.status == Running ==>
          && w.rcv.number == w.got % 64 && w.got < |plan|
          && if w.got == 0 then w.rcv.sndpkt.None? || w.rcv.sndpkt.value.kind == 'N'
             else w.rcv.sndpkt == Acknowledgement(w.got - 1))
    && (w.rcv.status == Succeeded ==> w.got == |plan|)
  }

  predicate ChannelInv(plan: seq<Item>, w: World) {
    && InOrder(w.down, Nth(plan, w.got - 1), When(w.got < w.put, Nth(plan, w.got)))
    && InOrder(w.up, Acknowledgement(w.put - 2), When(w.got == w.put, Acknowledgement(w.put - 1)))
  }

  predicate Inv(q: Quoting, files: seq<Outgoing>, w: World) {
    var plan := Plan(files);
    SenderInv(plan, w) && ReceiverInv(q, plan, w) && ChannelInv(plan, w)
  }

  /** Only the plan's kinds are sent, and 'B' only at its end. */
  lemma {:induction false} PlanKinds(files: seq<Outgoing>)
    ensures forall k :: 0 <= k < |FilesPlan(files)| ==> FilesPlan(files)[k].kind in {'F', 'D', 'Z', 'B'}
    ensures forall k :: 0 <= k < |FilesPlan(files)| ==> (FilesPlan(files)[k].kind == 'B' <==> k == |FilesPlan(files)| - 1)
    ensures |FilesPlan(files)| >= 1
    decreases |files|
  {
    if files != [] {
      PlanKinds(files[1..]);
      DataKinds(files[0].fields);
      var items := FilesPlan(files);
      var data, rest := DataPlan(files[0].fields), FilesPlan(files[1..]);
      forall k | 0 <= k < |items|
        ensures items[k].kind in {'F', 'D', 'Z', 'B'} && (items[k].kind == 'B' <==> k == |items| - 1)
      {
        if 1 <= k <= |data| {
          assert items[k] == data[k - 1];
        } else if k > |data| {
          assert items[k] == rest[k - 1 - |data|];
        }
      }
    }
  }

  lemma {:induction false} DataKinds(fields: seq<seq<Byte>>)
    ensures forall k :: 0 <= k < |DataPlan(fields)| ==> DataPlan(fields)[k].kind in {'D', 'Z'}
    decreases |fields|
  {
    if fields != [] {
      DataKinds(fields[1..]);
    }
  }

  lemma KindsOf(files: seq<Outgoing>)
    ensures |Plan(files)| >= 2
    ensures forall k :: 0 <= k < |Plan(files)| ==> Plan(files)[k].kind in {'S', 'F', 'D', 'Z', 'B'}
    ensures forall k :: 0 <= k < |Plan(files)| ==> (Plan(files)[k].kind == 'B' <==> k == |Plan(files)| - 1)
  {
    PlanKinds(files);
    var rest := FilesPlan(files);
    forall k | 0 <= k < |Plan(files)|
      ensures k > 0 ==> Plan(files)[k] == rest[k - 1]
    {
    }
  }

  /** Neighbouring numbers differ modulo 64. */
  lemma NextDiffers(k: int)
    ensures k % 64 != (k + 1) % 64 && (k % 64 + 1) % 64 == (k + 1) % 64
  {
  }

  // ----- a station that repeats itself

  /** Sending again sends the same packet, or gives up. */
  lemma Repeats(s: Station)
    requires s.status == Running
    ensures var (t, out) := Resend(s);
            && t.phase == s.phase && t.number == s.number && t.todo == s.todo && t.fields == s.fields
            && t.done == s.done && t.open == s.open && t.status != Succeeded
            && (t.status == Running ==>
                  |out| == 1 && t.sndpkt == Some(out[0]) && if s.sndpkt.Some? then t.sndpkt == s.sndpkt else out[0].kind == 'N')
            && (t.status == Failed ==> |out| == 1 && out[0].kind == 'E')
  {
  }

  lemma WiresOne(p: Packet, kind: char, x: Option<Packet>)
    ensures p.kind in {'E', 'N'} ==> Only(Wires([p]), x)
    ensures x == Some(p) ==> Only(Wires([p]), x)
  {
  }

  /** The sender sends its packet again. */
  lemma SenderRepeats(q: Quoting, files: seq<Outgoing>, w: World)
    requires Inv(q, files, w) && w.snd.status == Running
    ensures var (t, out) := Resend(w.snd); Inv(q, files, w.(snd := t, down := w.down + Wires(out)))
  {
    hide InOrder, Only, Plan, Continue, ContentOf, Wires;
    var plan := Plan(files);
    Repeats(w.snd);
    var (t, out) := Resend(w.snd);
    var prev, cur := Nth(plan, w.got - 1), When(w.got < w.put, Nth(plan, w.got));
    if t.status == Failed || w.got < w.put {
      WiresOne(out[0], 'E', cur);
      AppendCurrent(w.down, Wires([out[0]]), prev, cur);
    } else {
      WiresOne(out[0], 'E', prev);
      AppendPrevious(w.down, Wires([out[0]]), prev);
    }
    assert out == [out[0]];
  }

  /** The sender takes the acknowledgement it waits for and goes on. */
  lemma SenderMoves(q: Quoting, files: seq<Outgoing>, w: World)
    requires Inv(q, files, w) && w.snd.status == Running && w.got == w.put && Only(w.up, Acknowledgement(w.put - 1))
    ensures var (t, out) := Act(q, w.snd, 'Y', []);
            var v := w.(snd := t, down := w.down + Wires(out));
            Inv(q, files, if t.status == Running then v.(put := w.put + 1) else v)
  {
    hide InOrder, Only, Plan, Continue, ContentOf, Rest, Act;
    var plan := Plan(files);
    SenderGoesOn(q, w.snd);
    var (t, out) := Act(q, w.snd, 'Y', []);
    if Rest(w.snd) == [] {
      assert w.down + Wires(out) == w.down;
    } else {
      NextDiffers(w.put - 1);
      var prev, next := Nth(plan, w.got - 1), Nth(plan, w.put);
      assert plan[w.put..][0] == plan[w.put] && plan[w.put..][1..] == plan[w.put + 1..];
      OnlyPrevious(w.down, prev);
      Renew(w.down, prev, next);
      WiresOne(out[0], 'E', next);
      AppendCurrent(w.down, Wires(out), prev, next);
      Renew(w.up, Acknowledgement(w.put - 1), None);
    }
  }

  /** The sender hears something or times out. */
  lemma SenderKeeps(q: Quoting, files: seq<Outgoing>, w: World, e: Event)
    requires Inv(q, files, w) && (e.SenderHears? || e.SenderTimesOut?) && Enabled(w, e)
    ensures Inv(q, files, Happens(q, w, e))
  {
    hide InOrder, Only, Plan, Continue, ContentOf, Rest, Act, Resend;
    var plan, v := Plan(files), w;
    var x: Option<Wire> := None;
    var prev, cur := Acknowledgement(w.put - 2), When(w.got == w.put, Acknowledgement(w.put - 1));
    if e.SenderHears? {
      TakeHead(w.up, prev, cur);
      v, x := w.(up := w.up[1..]), Some(w.up[0]);
    }
    assert Inv(q, files, v);
    if w.snd.status != Running {
      assert v.down + Wires([]) == v.down;
    } else if !Expected(w.snd, x) {
      SenderRepeats(q, files, v);
    } else if x.value.packet.kind == 'E' {
      GivesUp(q, w.snd, x.value.packet.data);
      assert v.down + Wires([]) == v.down;
    } else {
      NextDiffers(w.put - 2);
      SenderMoves(q, files, v);
    }
  }

  lemma GivesUp(q: Quoting, s: Station, data: seq<Byte>)
    ensures Act(q, s, 'E', data) == (s.(status := Failed), [])
  {
  }

  /** The receiver sends its last acknowledgement, or a request to repeat, again. */
  lemma ReceiverRepeats(q: Quoting, files: seq<Outgoing>, w: World)
    requires Inv(q, files, w) && w.rcv.status == Running
    ensures var (t, out) := Resend(w.rcv); Inv(q, files, w.(rcv := t, up := w.up + Wires(out)))
  {
    hide InOrder, Only, Plan, Continue, Wires, Rest;
    var plan := Plan(files);
    Repeats(w.rcv);
    var (t, out) := Resend(w.rcv);
    var prev, cur := Acknowledgement(w.put - 2), When(w.got == w.put, Acknowledgement(w.put - 1));
    if t.status == Failed || w.got == 0 || w.got == w.put {
      WiresOne(out[0], 'E', cur);
      AppendCurrent(w.up, Wires([out[0]]), prev, cur);
    } else {
      WiresOne(out[0], 'E', prev);
      AppendPrevious(w.up, Wires([out[0]]), prev);
    }
    assert out == [out[0]];
  }

  /** The next item of the plan is acceptable to a receiver that has taken in those before it. */
  lemma NextAcceptable(q: Quoting, files: seq<Outgoing>, k: nat)
    requires Decodable(q, files) && k < |Plan(files)|
    ensures Acceptable(q, Continue(q, AT_START, Plan(files)[..k]), Plan(files)[k])
    ensures Continue(q, AT_START, Plan(files)[..k + 1])
         == TakeIn(q, Continue(q, AT_START, Plan(files)[..k]), Plan(files)[k])
  {
    hide Continue, Acceptable, TakeIn, Plan;
    PlanRun(q, files);
    ContinueSplit(q, AT_START, Plan(files), k);
    ContinueOne(q, AT_START, Plan(files), k);
    assert Plan(files)[k..][0] == Plan(files)[k];
  }

  /** The receiver takes the packet it waits for. */
  lemma ReceiverMoves(q: Quoting, files: seq<Outgoing>, w: World)
    requires Inv(q, files, w) && Decodable(q, files) && w.rcv.status == Running && w.got < w.put
    requires Only(w.down, Nth(Plan(files), w.got))
    ensures var (t, out) := Act(q, w.rcv, Plan(files)[w.got].kind, Plan(files)[w.got].data);
            && t.status != Failed
            && Inv(q, files, w.(rcv := t, up := w.up + Wires(out), got := w.got + 1))
  {
    hide InOrder, Only, Plan, Continue, Rest, Act, Acceptable, TakeIn, Wires;
    var plan := Plan(files);
    var i := plan[w.got];
    NextAcceptable(q, files, w.got);
    ReceiverTakes(q, w.rcv, i);
    KindsOf(files);
    NextDiffers(w.got);
    var (t, out) := Act(q, w.rcv, i.kind, i.data);
    var prev, cur := Acknowledgement(w.put - 2), Acknowledgement(w.put - 1);
    OnlyPrevious(w.up, prev);
    Renew(w.up, prev, cur);
    WiresOne(out[0], 'E', cur);
    AppendCurrent(w.up, Wires([out[0]]), prev, cur);
    Renew(w.down, Nth(plan, w.got), None);
  }

  /** The receiver hears something or times out. */
  lemma ReceiverKeeps(q: Quoting, files: seq<Outgoing>, w: World, e: Event)
    requires Inv(q, files, w) && Decodable(q, files) && (e.ReceiverHears? || e.ReceiverTimesOut?) && Enabled(w, e)
    ensures Inv(q, files, Happens(q, w, e))
  {
    hide InOrder, Only, Plan, Continue, Rest, Act, Resend, ContentOf;
    var plan, v := Plan(files), w;
    var x: Option<Wire> := None;
    var prev, cur := Nth(plan, w.got - 1), When(w.got < w.put, Nth(plan, w.got));
    if e.ReceiverHears? {
      TakeHead(w.down, prev, cur);
      v, x := w.(down := w.down[1..]), Some(w.down[0]);
    }
    assert Inv(q, files, v);
    if w.rcv.status != Running {
      assert v.up + Wires([]) == v.up;
    } else if !Expected(w.rcv, x) {
      ReceiverRepeats(q, files, v);
    } else if x.value.packet.kind == 'E' {
      GivesUp(q, w.rcv, x.value.packet.data);
      SameContent(w.rcv);
      assert v.up + Wires([]) == v.up;
    } else {
      NextDiffers(w.got - 1);
      KindsOf(files);
      ReceiverMoves(q, files, v);
    }
  }

  lemma SameContent(s: Station)
    ensures ContentOf(s.(status := Failed)) == ContentOf(s)
  {
  }

  /** Every event keeps the invariant. */
  lemma EventKeeps(q: Quoting, files: seq<Outgoing>, w: World, e: Event)
    requires Inv(q, files, w) && Decodable(q, files) && Enabled(w, e)
    ensures Inv(q, files, Happens(q, w, e))
  {
    hide InOrder, Plan, Continue, Rest, Suffer;
    var plan := Plan(files);
    match e
    case SenderHears => SenderKeeps(q, files, w, e);
    case SenderTimesOut => SenderKeeps(q, files, w, e);
    case ReceiverHears => ReceiverKeeps(q, files, w, e);
    case ReceiverTimesOut => ReceiverKeeps(q, files, w, e);
    case DownFault(f) => SufferInOrder(w.down, f, Nth(plan, w.got - 1), When(w.got < w.put, Nth(plan, w.got)));
    case UpFault(f) =>
      SufferInOrder(w.up, f, Acknowledgement(w.put - 2), When(w.got == w.put, Acknowledgement(w.put - 1)));
  }

  lemma BeginningInv(q: Quoting, files: seq<Outgoing>)
    ensures Inv(q, files, Beginning(files))
  {
    KindsOf(files);
    var ch := Beginning(files).down;
    assert ch[..0] == [] && ch[0..] == ch;
    Renew([], None, None);
  }

  /** Sixty-four numbers are enough: a station only ever acts upon the one packet it should. */
  lemma NoConfusion(q: Quoting, files: seq<Outgoing>, w: World)
    requires Inv(q, files, w)
    ensures w.down != [] && w.rcv.status == Running && Expected(w.rcv, Some(w.down[0])) && w.down[0].packet.kind != 'E' ==>
              w.got < w.put && Some(w.down[0].packet) == Nth(Plan(files), w.got)
    ensures w.up != [] && w.snd.status == Running && Expected(w.snd, Some(w.up[0])) && w.up[0].packet.kind != 'E' ==>
              w.got == w.put && Some(w.up[0].packet) == Acknowledgement(w.put - 1)
  {
    hide InOrder, Plan, Continue, Rest;
    var plan := Plan(files);
    NextDiffers(w.got - 1);
    NextDiffers(w.put - 2);
    if w.down != [] {
      TakeHead(w.down, Nth(plan, w.got - 1), When(w.got < w.put, Nth(plan, w.got)));
    }
    if w.up != [] {
      TakeHead(w.up, Acknowledgement(w.put - 2), When(w.got == w.put, Acknowledgement(w.put - 1)));
    }
  }

  // ----- the theorem

  /**
   * What has been written is a prefix of what was sent, file by file and byte by byte; and
   * when the sender has succeeded, all of it is there.
   */
  predicate Safe(q: Quoting, files: seq<Outgoing>, w: World) {
    var texts := Texts(q, files);
    && w.rcv.done <= texts
    && (w.rcv.phase in {Sratt, Srdat} ==>
          |w.rcv.done| < |texts| && w.rcv.open.name == texts[|w.rcv.done|].name && w.rcv.open.text <= texts[|w.rcv.done|].text)
    && (w.snd.status == Succeeded || w.rcv.status == Succeeded ==> w.rcv.done == texts && w.rcv.phase == Srfil)
  }

  lemma InvSafe(q: Quoting, files: seq<Outgoing>, w: World)
    requires Inv(q, files, w) && Decodable(q, files)
    ensures Safe(q, files, w)
  {
    hide Continue, Plan, Smooth, Rest, InOrder, Texts;
    var plan := Plan(files);
    PlanRun(q, files);
    ContinueSplit(q, AT_START, plan, w.got);
    OnlyGrows(q, ContentOf(w.rcv), plan[w.got..]);
    assert plan[..|plan|] == plan;
  }

  /**
   * Kermit safety: in every run over channels that lose, repeat or damage packets, every
   * state is safe.
   */
  lemma {:induction false} RunSafe(q: Quoting, files: seq<Outgoing>, ws: seq<World>, es: seq<Event>)
    requires Decodable(q, files) && Run(q, files, ws, es)
    ensures forall i :: 0 <= i < |ws| ==> Inv(q, files, ws[i]) && Safe(q, files, ws[i])
    decreases |es|
  {
    hide Inv, Safe, Happens, Beginning;
    if es == [] {
      BeginningInv(q, files);
      InvSafe(q, files, ws[0]);
    } else {
      var n := |es| - 1;
      RunSafe(q, files, ws[..n + 1], es[..n]);
      assert ws[..n + 1][n] == ws[n];
      EventKeeps(q, files, ws[n], es[n]);
      InvSafe(q, files, ws[n + 1]);
      forall i | 0 <= i < |ws|
        ensures Inv(q, files, ws[i]) && Safe(q, files, ws[i])
      {
        if i <= n {
          assert ws[..n + 1][i] == ws[i];
        }
      }
    }
  }

  /**
   * Files cut into fields by getpkt meet the theorem's premise, and are what should arrive if
   * a field is larger than what can be kept.
   */
  method Prepare(q: Quoting, maxsiz: nat, originals: seq<Incoming>) returns (files: seq<Outgoing>)
    requires ValidQuoting(q) && maxsiz >= SMALLEST_FIELD
    ensures Decodable(q, files) && (maxsiz > MostLeft(q) ==> Texts(q, files) == originals)
  {
    hide Decoded, Joined;
    files := [];
    var k := |originals|;
    while k > 0
      invariant 0 <= k <= |originals| && Decodable(q, files)
      invariant maxsiz > MostLeft(q) ==> Texts(q, files) == originals[k..]
    {
      k := k - 1;
      var fields := PackFile(q, maxsiz, originals[k].text);
      var f := Outgoing(originals[k].name, fields);
      assert forall i :: 0 <= i < |fields| ==> GoodField(q, fields[i]);
      assert ([f] + files)[1..] == files;
      files := [f] + files;
    }
    assert originals[0..] == originals;
  }
}
