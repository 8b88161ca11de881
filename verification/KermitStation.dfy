// One end of a G-Kermit transfer: how packets are numbered, sent again and acted upon, as a
// function of its state and as the program that updates its variables.

module KermitStations {
  import opened Bytes
  import opened KermitQuoting

  const MAX_TRY := 10

  /** A packet whose block check was right.  `kind` is its type letter. */
  datatype Packet = Packet(kind: char, number: nat, data: seq<Byte>)

  /** What arrives: a good packet, or one whose block check fails. */
  datatype Wire = Good(packet: Packet) | Damaged

  datatype Phase =
    | Ssini | Ssfil | Ssdat | Sseof | Sseot
    | Srini | Srfil | Sratt | Srdat

  datatype Status = Running | Succeeded | Failed

  /** A file to send, already cut into data fields; and a file received. */
  datatype Outgoing = Outgoing(name: seq<Byte>, fields: seq<seq<Byte>>)
  datatype Incoming = Incoming(name: seq<Byte>, text: seq<Byte>)

  /**
   * The protocol variables of one program.  A sender has files to send and the fields left
   * of the current one, a receiver the files it has closed and the one it has open.
   */
  datatype Station = Station(phase: Phase, status: Status, number: nat, retries: nat, sndpkt: Option<Packet>,
                             todo: seq<Outgoing>, fields: seq<seq<Byte>>, done: seq<Incoming>, open: Incoming)

  const NOTHING := Incoming([], [])

  // ----- numbering and repeating

  function NextNumber(s: Station): Station {
    s.(retries := 0, number := (s.number + 1) % 64)
  }

  /** A station after an action, and what it sent. */
  type Outcome = (Station, seq<Packet>)

  function Send(s: Station, kind: char, data: seq<Byte>): Outcome {
    (s.(sndpkt := Some(Packet(kind, s.number, data))), [Packet(kind, s.number, data)])
  }

  function Fail(s: Station): Outcome {
    Send(s.(status := Failed), 'E', [])
  }

  function Nak(s: Station): Outcome {
    var t := s.(retries := s.retries + 1);
    if t.retries > MAX_TRY then Fail(t) else Send(t, 'N', [])
  }

  function Resend(s: Station): Outcome {
    if s.sndpkt.None? then Nak(s)
    else
      var t := s.(retries := s.retries + 1);
      if t.retries > MAX_TRY then Fail(t) else (t, [s.sndpkt.value])
  }

  /** ack: the number goes up after the packet is sent. */
  function Ack(s: Station): Outcome {
    var (t, out) := Send(s, 'Y', []);
    (NextNumber(t), out)
  }

  /** A sender's next packet has the next number. */
  function SendNext(s: Station, phase: Phase, kind: char, data: seq<Byte>): Outcome {
    Send(NextNumber(s).(phase := phase), kind, data)
  }

  // ----- actions of the protocol table

  /** The next file header, or the end of the transmission. */
  function SendFileOrEnd(s: Station): Outcome {
    if s.todo != [] then
      SendNext(s.(fields := s.todo[0].fields, todo := s.todo[1..]), Ssfil, 'F', s.todo[0].name)
    else SendNext(s, Sseot, 'B', [])
  }

  /** The next data field, or the end of the file. */
  function SendDataOrEnd(s: Station): Outcome {
    if s.fields != [] then SendNext(s.(fields := s.fields[1..]), Ssdat, 'D', s.fields[0])
    else SendNext(s, Sseof, 'Z', [])
  }

  function CloseFile(s: Station): Outcome {
    Ack(s.(done := s.done + [s.open], open := NOTHING, phase := Srfil))
  }

  function WriteData(q: Quoting, s: Station, data: seq<Byte>): Outcome {
    var text := Decoded(q, data, 0);
    if text.None? then Fail(s)
    else Ack(s.(open := s.open.(text := s.open.text + text.value), phase := Srdat))
  }

  /** What the table does with a packet of the right number. */
  function Act(q: Quoting, s: Station, kind: char, data: seq<Byte>): Outcome {
    if kind == 'E' then (s.(status := Failed), [])
    else
      match s.phase
      case Ssini => if kind == 'Y' then SendFileOrEnd(s) else Fail(s)
      case Ssfil => if kind == 'Y' then SendDataOrEnd(s) else Fail(s)
      case Ssdat => if kind == 'Y' then SendDataOrEnd(s) else Fail(s)
      case Sseof => if kind == 'Y' then SendFileOrEnd(s) else Fail(s)
      case Sseot => if kind == 'Y' then (s.(status := Succeeded), []) else Fail(s)
      case Srini => if kind == 'S' then Ack(s.(phase := Srfil)) else Fail(s)
      case Srfil =>
        if kind == 'B' then (var (t, out) := Ack(s); (t.(status := Succeeded), out))
        else if kind == 'F' then Ack(s.(open := Incoming(data, []), phase := Sratt))
        else Fail(s)
      case Sratt => if kind == 'D' then WriteData(q, s, data) else if kind == 'Z' then CloseFile(s) else Fail(s)
      case Srdat => if kind == 'D' then WriteData(q, s, data) else if kind == 'Z' then CloseFile(s) else Fail(s)
  }

  /** The packet that input() waits for: the current number, and not a request to repeat. */
  predicate Expected(s: Station, w: Option<Wire>) {
    w.Some? && w.value.Good? && w.value.packet.number == s.number && w.value.packet.kind !in {'T', 'Q', 'N'}
  }

  /** One event: a packet, or the time running out. */
  function React(q: Quoting, s: Station, w: Option<Wire>): Outcome {
    if s.status != Running then (s, [])
    else if Expected(s, w) then Act(q, s, w.value.packet.kind, w.value.packet.data)
    else Resend(s)
  }

  function StartSending(files: seq<Outgoing>): Station {
    Station(Ssini, Running, 0, 0, Some(Packet('S', 0, [])), files, [], [], NOTHING)
  }

  function StartReceiving(): Station {
    Station(Srini, Running, 0, 0, None, [], [], [], NOTHING)
  }

  // ----- the program

  /** The global variables of gkermit.c and gproto.c; `line` is what was written to the line. */
  class Kermit {
    const q: Quoting
    var state: Phase
    var status: Status
    var number: nat
    var retries: nat
    var sndpkt: Option<Packet>
    var cmlist: seq<Outgoing>
    var fields: seq<seq<Byte>>
    var received: seq<Incoming>
    var ofp: Incoming
    var line: seq<Packet>

    function View(): Station
      reads this
    {
      Station(state, status, number, retries, sndpkt, cmlist, fields, received, ofp)
    }

    /** From one state to another, with some packets written to the line. */
    twostate predicate Did(o: Outcome)
      reads this
    {
      View() == o.0 && line == old(line) + o.1
    }

    constructor Sender(q: Quoting, files: seq<Outgoing>)
      ensures View() == StartSending(files) && line == [Packet('S', 0, [])] && this.q == q
    {
      this.q, state, status, number, retries, sndpkt := q, Ssini, Running, 0, 0, Some(Packet('S', 0, []));
      cmlist, fields, received, ofp, line := files, [], [], NOTHING, [Packet('S', 0, [])];
    }

    constructor Receiver(q: Quoting)
      ensures View() == StartReceiving() && line == [] && this.q == q
    {
      this.q, state, status, number, retries, sndpkt := q, Srini, Running, 0, 0, None;
      cmlist, fields, received, ofp, line := [], [], [], NOTHING, [];
    }

    method NxtPkt()
      modifies this`number, this`retries
      ensures View() == NextNumber(old(View()))
    {
      retries := 0;
      number := (number + 1) % 64;
    }

    method SPacket(kind: char, data: seq<Byte>)
      modifies this`sndpkt, this`line
      ensures Did(Send(old(View()), kind, data))
    {
      sndpkt := Some(Packet(kind, number, data));
      line := line + [Packet(kind, number, data)];
    }

    method ErrPkt()
      modifies this`sndpkt, this`line, this`status
      ensures Did(Fail(old(View())))
    {
      status := Failed;
      SPacket('E', []);
    }

    method SendNak()
      modifies this`sndpkt, this`line, this`status, this`retries
      ensures Did(Nak(old(View())))
    {
      retries := retries + 1;
      if retries > MAX_TRY {
        ErrPkt();
      } else {
        SPacket('N', []);
      }
    }

    method ResendPacket()
      modifies this`sndpkt, this`line, this`status, this`retries
      ensures Did(Resend(old(View())))
    {
      if sndpkt.Some? {
        retries := retries + 1;
        if retries > MAX_TRY {
          ErrPkt();
        } else {
          line := line + [sndpkt.value];
        }
      } else {
        SendNak();
      }
    }

    method SendAck()
      modifies this`sndpkt, this`line, this`number, this`retries
      ensures Did(Ack(old(View())))
    {
      SPacket('Y', []);
      NxtPkt();
    }

    /** sfile or seot */
    method FileOrEnd()
      modifies this
      ensures Did(SendFileOrEnd(old(View())))
    {
      if cmlist != [] {
        var name := cmlist[0].name;
        fields, cmlist := cmlist[0].fields, cmlist[1..];
        NxtPkt();
        state := Ssfil;
        SPacket('F', name);
      } else {
        NxtPkt();
        state := Sseot;
        SPacket('B', []);
      }
    }

    /** sdata or seof */
    method DataOrEnd()
      modifies this
      ensures Did(SendDataOrEnd(old(View())))
    {
      if fields != [] {
        var x := fields[0];
        fields := fields[1..];
        NxtPkt();
        state := Ssdat;
        SPacket('D', x);
      } else {
        NxtPkt();
        state := Sseof;
        SPacket('Z', []);
      }
    }

    method Write(data: seq<Byte>)
      modifies this
      ensures Did(WriteData(q, old(View()), data))
    {
      var r, text := Decode(q, data);
      if r < 0 {
        ErrPkt();
      } else {
        ofp := ofp.(text := ofp.text + text);
        state := Srdat;
        SendAck();
      }
    }

    method Close()
      modifies this
      ensures Did(CloseFile(old(View())))
    {
      received := received + [ofp];
      ofp := NOTHING;
      state := Srfil;
      SendAck();
    }

    /** The action switch of gwart(). */
    method Gwart(kind: char, data: seq<Byte>)
      modifies this
      ensures Did(Act(q, old(View()), kind, data))
    {
      if kind == 'E' {
        status := Failed;
        return;
      }
      match state
      case Ssini | Sseof =>
        if kind == 'Y' {
          FileOrEnd();
        } else {
          ErrPkt();
        }
      case Ssfil | Ssdat =>
        if kind == 'Y' {
          DataOrEnd();
        } else {
          ErrPkt();
        }
      case Sseot =>
        if kind == 'Y' {
          status := Succeeded;
        } else {
          ErrPkt();
        }
      case Srini =>
        if kind == 'S' {
          state := Srfil;
          SendAck();
        } else {
          ErrPkt();
        }
      case Srfil =>
        if kind == 'B' {
          SendAck();
          status := Succeeded;
        } else if kind == 'F' {
          ofp := Incoming(data, []);
          state := Sratt;
          SendAck();
        } else {
          ErrPkt();
        }
      case Sratt | Srdat =>
        if kind == 'D' {
          Write(data);
        } else if kind == 'Z' {
          Close();
        } else {
          ErrPkt();
        }
    }

    /** One turn of input(): the packet waited for goes to the table, anything else makes it repeat. */
    method Input(w: Option<Wire>)
      requires status == Running
      modifies this
      ensures Did(React(q, old(View()), w))
    {
      if w.Some? && w.value.Good? && w.value.packet.number == number && w.value.packet.kind !in {'T', 'Q', 'N'} {
        Gwart(w.value.packet.kind, w.value.packet.data);
      } else {
        ResendPacket();
      }
    }
  }
}
