// What repeating packets is for: as long as neither station has used up its tries, whatever
// has been lost, there is a way to the end of the transfer.

module KermitProgress {
  import opened Bytes
  import opened KermitQuoting
  import opened KermitPacking
  import opened KermitStations
  import opened KermitSafety

  /** The state after some events, if they are possible. */
  function After(q: Quoting, w: World, es: seq<Event>): Option<World>
    decreases |es|
  {
    if es == [] then Some(w)
    else if Enabled(w, es[0]) then After(q, Happens(q, w, es[0]), es[1..]) else None
  }

  lemma {:induction false} AfterConcat(q: Quoting, w: World, a: seq<Event>, b: seq<Event>)
    requires After(q, w, a).Some?
    ensures After(q, w, a + b) == After(q, After(q, w, a).value, b)
    decreases |a|
  {
    if a == [] {
      assert a + b == b;
    } else {
      assert (a + b)[1..] == a[1..] + b;
      AfterConcat(q, Happens(q, w, a[0]), a[1..], b);
    }
  }

  lemma {:induction false} AfterInv(q: Quoting, files: seq<Outgoing>, w: World, es: seq<Event>)
    requires Inv(q, files, w) && Decodable(q, files) && After(q, w, es).Some?
    ensures Inv(q, files, After(q, w, es).value)
    decreases |es|
  {
    hide Inv, Happens, Enabled;
    if es != [] {
      EventKeeps(q, files, w, es[0]);
      AfterInv(q, files, Happens(q, w, es[0]), es[1..]);
    }
  }

  // ----- repeating, up to the limit

  /** A station after the time has run out n times, and what it has sent. */
  function TimedOut(q: Quoting, s: Station, n: nat): Outcome {
    if n == 0 then (s, [])
    else
      var (t, out) := TimedOut(q, s, n - 1);
      var (u, more) := React(q, t, None);
      (u, out + more)
  }

  /** What a station sends when it repeats itself: its last packet, or a request to repeat. */
  function Repeated(s: Station): Packet {
    if s.sndpkt.Some? then s.sndpkt.value else Packet('N', s.number, [])
  }

  /** The same packet goes out each time, until the tries are used up; then the station gives up and says so. */
  lemma {:induction false} TriesRunOut(q: Quoting, s: Station, n: nat)
    requires s.status == Running && s.retries <= MAX_TRY
    ensures var (t, out) := TimedOut(q, s, n);
            if s.retries + n <= MAX_TRY then
              && t == s.(retries := s.retries + n, sndpkt := if n == 0 then s.sndpkt else Some(Repeated(s)))
              && |out| == n && forall i :: 0 <= i < n ==> out[i] == Repeated(s)
            else t.status == Failed && |out| == MAX_TRY - s.retries + 1 && out[|out| - 1].kind == 'E'
  {
    if n > 0 {
      TriesRunOut(q, s, n - 1);
    }
  }

  // ----- one exchange

  /** The packet that is due is the only one on the way. */
  predicate Ready(q: Quoting, files: seq<Outgoing>, w: World) {
    && Inv(q, files, w) && w.snd.status == Running && w.rcv.status == Running && w.put == w.got + 1
    && w.down == [Good(Nth(Plan(files), w.got).value)] && w.up == []
  }

  lemma OneWire(p: Packet)
    ensures Wires([p]) == [Good(p)] && Wires([]) == [] && [] + [Good(p)] == [Good(p)]
  {
    assert Wires([p]) == [Good(p)] + Wires([]);
  }

  /** The packet is acted upon and acknowledged. */
  lemma Delivered(q: Quoting, files: seq<Outgoing>, w: World)
    requires Ready(q, files, w) && Decodable(q, files)
    ensures Enabled(w, ReceiverHears)
    ensures var v := Happens(q, w, ReceiverHears);
            && Inv(q, files, v) && v.snd == w.snd && v.put == w.put && v.got == w.put && v.down == []
            && v.up == [Good(Packet('Y', (w.put - 1) % 64, []))]
            && (w.put < |Plan(files)| ==> v.rcv.status == Running)
  {
    hide Plan, Continue, Rest, Act, Acceptable, TakeIn, InOrder, Wires;
    KindsOf(files);
    NextAcceptable(q, files, w.got);
    ReceiverTakes(q, w.rcv, Plan(files)[w.got]);
    OneWire(Packet('Y', w.rcv.number, []));
    EventKeeps(q, files, w, ReceiverHears);
  }

  /** The acknowledgement that is due makes the sender go on, or ends the transfer. */
  lemma Acknowledged(q: Quoting, files: seq<Outgoing>, w: World)
    requires Inv(q, files, w) && Decodable(q, files) && w.snd.status == Running && w.got == w.put && w.down == []
    requires w.up == [Good(Packet('Y', (w.put - 1) % 64, []))] && (w.put < |Plan(files)| ==> w.rcv.status == Running)
    ensures Enabled(w, SenderHears)
    ensures var v := Happens(q, w, SenderHears);
            if w.put == |Plan(files)| then Inv(q, files, v) && v.snd.status == Succeeded
            else Ready(q, files, v) && v.put == w.put + 1
  {
    hide Plan, Continue, Rest, Act, InOrder, Wires;
    var plan := Plan(files);
    EventKeeps(q, files, w, SenderHears);
    SenderGoesOn(q, w.snd);
    if w.put < |plan| {
      assert plan[w.put..][0] == plan[w.put];
      NextDiffers(w.put - 1);
      OneWire(Packet(plan[w.put].kind, w.put % 64, plan[w.put].data));
    }
  }

  /** From there on, without further faults, the transfer completes. */
  lemma {:induction false} Completes(q: Quoting, files: seq<Outgoing>, w: World) returns (es: seq<Event>)
    requires Ready(q, files, w) && Decodable(q, files)
    ensures After(q, w, es).Some? && After(q, w, es).value.snd.status == Succeeded
    decreases |Plan(files)| - w.put
  {
    hide Inv, Happens, Plan;
    PutInside(q, files, w);
    Delivered(q, files, w);
    var u := Happens(q, w, ReceiverHears);
    Acknowledged(q, files, u);
    var v := Happens(q, u, SenderHears);
    es := [ReceiverHears, SenderHears];
    Two(q, w, ReceiverHears, SenderHears);
    if w.put < |Plan(files)| {
      var more := Completes(q, files, v);
      AfterConcat(q, w, es, more);
      es := es + more;
    }
  }

  lemma PutInside(q: Quoting, files: seq<Outgoing>, w: World)
    requires Inv(q, files, w)
    ensures w.put <= |Plan(files)|
  {
  }

  lemma Two(q: Quoting, w: World, a: Event, b: Event)
    requires Enabled(w, a) && Enabled(Happens(q, w, a), b)
    ensures After(q, w, [a]) == Some(Happens(q, w, a))
    ensures After(q, w, [a, b]) == Some(Happens(q, Happens(q, w, a), b))
  {
    hide Enabled, Happens;
    var u := Happens(q, w, a);
    assert [a][1..] == [] && After(q, u, []) == Some(u);
    assert [a, b][1..] == [b] && [b][1..] == [];
    assert After(q, u, [b]) == After(q, Happens(q, u, b), []) == Some(Happens(q, u, b));
  }

  // ----- recovery

  /** Neither station has given up or used up the tries that it may need. */
  predicate TriesLeft(w: World) {
    && w.snd.status == Running && w.rcv.status == Running
    && w.snd.retries < MAX_TRY && (w.got == w.put ==> w.rcv.retries < MAX_TRY)
  }

  /** When everything on the way has been lost, the sender's time runs out and the exchange begins again. */
  lemma Recovers(q: Quoting, files: seq<Outgoing>, w: World) returns (es: seq<Event>)
    requires Inv(q, files, w) && Decodable(q, files) && TriesLeft(w) && w.down == w.up == []
    ensures After(q, w, es).Some? && Ready(q, files, After(q, w, es).value)
  {
    hide Plan, Continue, Rest, InOrder, ContentOf, Act, Wires, Inv;
    SentAgain(q, files, w);
    var u := Happens(q, w, SenderTimesOut);
    if w.got < w.put {
      es := [SenderTimesOut];
      Two(q, w, SenderTimesOut, SenderTimesOut);
    } else {
      AckedAgain(q, files, u);
      var v := Happens(q, u, ReceiverHears);
      Acknowledged(q, files, v);
      Two(q, w, SenderTimesOut, ReceiverHears);
      Two(q, v, SenderHears, SenderTimesOut);
      AfterConcat(q, w, [SenderTimesOut, ReceiverHears], [SenderHears]);
      es := [SenderTimesOut, ReceiverHears] + [SenderHears];
    }
  }

  lemma SentAgain(q: Quoting, files: seq<Outgoing>, w: World)
    requires Inv(q, files, w) && Decodable(q, files) && TriesLeft(w) && w.down == w.up == []
    ensures var u := Happens(q, w, SenderTimesOut);
            && Inv(q, files, u) && u == w.(snd := u.snd, down := [Good(Nth(Plan(files), w.put - 1).value)]) && u.snd.status == Running
            && (w.got < w.put || w.got == w.put) && (w.got < w.put ==> Ready(q, files, u)) && (w.got == w.put ==> w.put < |Plan(files)|)
  {
    hide Plan, Continue, Rest, InOrder, Act, Wires;
    EventKeeps(q, files, w, SenderTimesOut);
    OneWire(w.snd.sndpkt.value);
  }

  /** A packet acted upon already is acknowledged once more. */
  lemma AckedAgain(q: Quoting, files: seq<Outgoing>, w: World)
    requires Inv(q, files, w) && Decodable(q, files) && w.rcv.status == Running && w.rcv.retries < MAX_TRY
    requires w.got == w.put && w.up == [] && w.down == [Good(Nth(Plan(files), w.put - 1).value)]
    ensures Enabled(w, ReceiverHears)
    ensures var v := Happens(q, w, ReceiverHears);
            && Inv(q, files, v) && v.snd == w.snd && v.rcv.status == Running && v.put == v.got == w.put && v.down == []
            && v.up == [Good(Packet('Y', (w.put - 1) % 64, []))]
  {
    hide Plan, Continue, Rest, InOrder, Act, Wires;
    EventKeeps(q, files, w, ReceiverHears);
    NextDiffers(w.put - 1);
    OneWire(w.rcv.sndpkt.value);
  }

  /** Everything on the way can be lost. */
  lemma {:induction false} LoseAll(q: Quoting, w: World) returns (es: seq<Event>)
    ensures After(q, w, es) == Some(w.(down := [], up := []))
    decreases |w.down| + |w.up|
  {
    if w.down == [] && w.up == [] {
      es := [];
    } else {
      var e := if w.down != [] then DownFault(Lose(0)) else UpFault(Lose(0));
      var more := LoseAll(q, Happens(q, w, e));
      es := [e] + more;
      assert es[1..] == more;
    }
  }

  /**
   * Nothing that is lost is lost for good: from every state that the invariant allows, with
   * tries left, even if everything on the way is lost, the transfer can still succeed, with
   * all files written.
   */
  lemma CanSucceed(q: Quoting, files: seq<Outgoing>, w: World) returns (lost: seq<Event>, es: seq<Event>)
    requires Inv(q, files, w) && Decodable(q, files) && TriesLeft(w)
    ensures After(q, w, lost) == Some(w.(down := [], up := []))
    ensures After(q, w, lost + es).Some?
    ensures var v := After(q, w, lost + es).value; v.snd.status == Succeeded && v.rcv.done == Texts(q, files)
  {
    hide Inv, Happens, Plan, Texts, Safe;
    lost := LoseAll(q, w);
    AfterInv(q, files, w, lost);
    var u := w.(down := [], up := []);
    es := Recovers(q, files, u);
    AfterInv(q, files, u, es);
    var v := After(q, u, es).value;
    var more := Completes(q, files, v);
    AfterConcat(q, u, es, more);
    es := es + more;
    AfterConcat(q, w, lost, es);
    AfterInv(q, files, u, es);
    InvSafe(q, files, After(q, u, es).value);
    SafeDone(q, files, After(q, u, es).value);
  }

  lemma SafeDone(q: Quoting, files: seq<Outgoing>, w: World)
    requires Safe(q, files, w) && w.snd.status == Succeeded
    ensures w.rcv.done == Texts(q, files)
  {
    hide Texts;
  }

  /** A receiver that has heard nothing yet can start the exchange too, by its request to repeat. */
  lemma RequestHelps(q: Quoting, files: seq<Outgoing>, w: World)
    requires Inv(q, files, w) && Decodable(q, files) && TriesLeft(w) && w.down == w.up == []
    requires w.got == 0 && w.rcv.retries < MAX_TRY
    ensures After(q, w, [ReceiverTimesOut, SenderHears]).Some?
    ensures Ready(q, files, After(q, w, [ReceiverTimesOut, SenderHears]).value)
  {
    hide Plan, Continue, Rest, InOrder, Act, Wires;
    var u := Happens(q, w, ReceiverTimesOut);
    EventKeeps(q, files, w, ReceiverTimesOut);
    OneWire(Repeated(w.rcv));
    EventKeeps(q, files, u, SenderHears);
    OneWire(w.snd.sndpkt.value);
    Two(q, w, ReceiverTimesOut, SenderHears);
  }
}
