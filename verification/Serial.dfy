/** The serial writer: bytes go straight to the transmitter or wait in the ring until an interrupt. */
module Serial {
  import opened Ring

  const ROOM: nat := 32

  // ---------------------------------------------------------------- the line as a value

  /** Bytes handed to the transmitter so far, and bytes waiting. */
  datatype Line = Line(sent: seq<char>, queue: seq<char>) {
    /** All bytes kept so far, in the order in which they leave. */
    function Kept(): seq<char> {
      sent + queue
    }
  }

  /** What happens on the line: a call that writes a byte, or a transmitter-empty interrupt. In both,
      `ready` is what the status register says when it is read. */
  datatype Event =
    | Write(byte: char, ready: bool)
    | TxEmpty(ready: bool)

  /** The branch that sends an old byte in place of keeping the new one, and reports success. */
  predicate Drops(l: Line, e: Event) {
    e.Write? && e.ready && l.queue != []
  }

  predicate Accepts(l: Line, e: Event) {
    e.Write? && (e.ready || |l.queue| < ROOM)
  }

  function Send(l: Line): Line
    requires l.queue != []
  {
    Line(l.sent + [l.queue[0]], l.queue[1..])
  }

  function After(l: Line, e: Event): Line {
    match e
    case Write(c, ready) =>
      if l.queue == [] && ready then Line(l.sent + [c], l.queue)
      else if ready then Send(l)
      else if |l.queue| < ROOM then Line(l.sent, l.queue + [c])
      else l
    case TxEmpty(ready) =>
      if ready && l.queue != [] then Send(l) else l
  }

  // ---------------------------------------------------------------- runs

  function Run(l: Line, events: seq<Event>): Line
    decreases |events|
  {
    if events == [] then l else Run(After(l, events[0]), events[1..])
  }

  /** The bytes passed to the writer. */
  function Passed(events: seq<Event>): seq<char> {
    if events == [] then []
    else (if events[0].Write? then [events[0].byte] else []) + Passed(events[1..])
  }

  /** The bytes for which the writer reported success. */
  function Accepted(l: Line, events: seq<Event>): seq<char>
    decreases |events|
  {
    if events == [] then []
    else (if Accepts(l, events[0]) then [events[0].byte] else []) + Accepted(After(l, events[0]), events[1..])
  }

  /** The bytes that were neither refused nor dropped. */
  function Stored(l: Line, events: seq<Event>): seq<char>
    decreases |events|
  {
    if events == [] then []
    else (if Accepts(l, events[0]) && !Drops(l, events[0]) then [events[0].byte] else [])
         + Stored(After(l, events[0]), events[1..])
  }

  predicate EverDrops(l: Line, events: seq<Event>)
    decreases |events|
  {
    events != [] && (Drops(l, events[0]) || EverDrops(After(l, events[0]), events[1..]))
  }

  /** `a` is found in `b` at strictly increasing places. */
  ghost predicate Embeds(places: seq<nat>, a: seq<char>, b: seq<char>) {
    && |places| == |a|
    && (forall i :: 0 <= i < |a| ==> places[i] < |b| && b[places[i]] == a[i])
    && (forall i, j :: 0 <= i < j < |a| ==> places[i] < places[j])
  }

  /** One event keeps the order: what is kept grows by the stored byte at its end, or not at all. */
  lemma EventKeepsOrder(l: Line, e: Event)
    ensures After(l, e).Kept() == l.Kept() + (if Accepts(l, e) && !Drops(l, e) then [e.byte] else [])
    ensures |l.queue| <= ROOM ==> |After(l, e).queue| <= ROOM
  {
    if l.queue != [] {
      assert Send(l).Kept() == l.Kept();
    }
  }

  /** Under any interleaving, what was sent followed by what waits is exactly the stored bytes in the
      order in which they were passed in, and never more than 32 bytes wait. */
  lemma {:induction false} RunKeepsOrder(l: Line, events: seq<Event>)
    requires |l.queue| <= ROOM
    ensures Run(l, events).Kept() == l.Kept() + Stored(l, events)
    ensures |Run(l, events).queue| <= 32
    decreases |events|
  {
    if events != [] {
      EventKeepsOrder(l, events[0]);
      RunKeepsOrder(After(l, events[0]), events[1..]);
    }
  }

  /** How often the transmitter was ready. */
  function ReadyCount(events: seq<Event>): nat {
    if events == [] then 0 else (if events[0].ready then 1 else 0) + ReadyCount(events[1..])
  }

  /** Progress: whatever the events are, as many of the bytes that wait have been sent as the transmitter
      was ready, oldest first, until all of them have; and nothing that was sent is taken back. */
  lemma {:induction false} ReadyMeansSent(l: Line, events: seq<Event>)
    ensures var n := if ReadyCount(events) < |l.queue| then ReadyCount(events) else |l.queue|;
            l.sent + l.queue[..n] <= Run(l, events).sent
    decreases |events|
  {
    if events == [] {
      assert l.sent + l.queue[..0] == l.sent;
    } else {
      var next, rest := After(l, events[0]), ReadyCount(events[1..]);
      ReadyMeansSent(next, events[1..]);
      if l.queue != [] && events[0].ready {
        var n := if rest + 1 < |l.queue| then rest + 1 else |l.queue|;
        assert next.sent + next.queue[..n - 1] == l.sent + l.queue[..n];
      } else {
        var n := if rest < |l.queue| then rest else |l.queue|;
        assert events[0].ready ==> n == 0;
        assert l.sent + l.queue[..n] <= next.sent + next.queue[..if rest < |next.queue| then rest else |next.queue|];
      }
    }
  }

  /** Of ready interrupts alone, each sends exactly one of the bytes that wait, and nothing else is sent. */
  lemma {:induction false} InterruptsDrain(l: Line, events: seq<Event>)
    requires forall i :: 0 <= i < |events| ==> events[i] == TxEmpty(true)
    ensures var n := if |events| < |l.queue| then |events| else |l.queue|;
            Run(l, events) == Line(l.sent + l.queue[..n], l.queue[n..])
    decreases |events|
  {
    if events == [] {
      assert l.sent + l.queue[..0] == l.sent && l.queue[0..] == l.queue;
    } else {
      var next := After(l, events[0]);
      InterruptsDrain(next, events[1..]);
      if l.queue != [] {
        var n := if |events| < |l.queue| then |events| else |l.queue|;
        assert next.sent + next.queue[..n - 1] == l.sent + l.queue[..n] && next.queue[n - 1..] == l.queue[n..];
      }
    }
  }

  /** The stored bytes are an in-order, duplicate-free part of the bytes passed in. */
  lemma {:induction false} StoredIsSubsequence(l: Line, events: seq<Event>) returns (places: seq<nat>)
    ensures Embeds(places, Stored(l, events), Passed(events))
    decreases |events|
  {
    places := [];
    if events != [] {
      var rest := StoredIsSubsequence(After(l, events[0]), events[1..]);
      var shift := if events[0].Write? then 1 else 0;
      var first := if events[0].Write? then [events[0].byte] else [];
      var moved := MoveOn(rest, Stored(After(l, events[0]), events[1..]), first, Passed(events[1..]));
      places := if Accepts(l, events[0]) && !Drops(l, events[0]) then [0] + moved else moved;
    }
  }

  lemma MoveOn(places: seq<nat>, a: seq<char>, first: seq<char>, b: seq<char>) returns (moved: seq<nat>)
    requires Embeds(places, a, b)
    ensures Embeds(moved, a, first + b) && forall i :: 0 <= i < |moved| ==> |first| <= moved[i]
  {
    moved := seq(|places|, i requires 0 <= i < |places| => places[i] + |first|);
  }

  lemma {:induction false} AcceptedGrows(l: Line, events: seq<Event>)
    ensures |Stored(l, events)| <= |Accepted(l, events)|
    ensures EverDrops(l, events) ==> |Stored(l, events)| < |Accepted(l, events)|
    ensures !EverDrops(l, events) ==> Stored(l, events) == Accepted(l, events)
    decreases |events|
  {
    if events != [] {
      AcceptedGrows(After(l, events[0]), events[1..]);
    }
  }

  /** What is kept equals what was accepted exactly in the runs that never drop a byte. */
  lemma {:induction false} KeptIsAcceptedIff(l: Line, events: seq<Event>)
    requires |l.queue| <= ROOM
    ensures Run(l, events).Kept() == l.Kept() + Accepted(l, events) <==> !EverDrops(l, events)
  {
    RunKeepsOrder(l, events);
    AcceptedGrows(l, events);
    if EverDrops(l, events) {
      assert |l.Kept() + Stored(l, events)| < |l.Kept() + Accepted(l, events)|;
    }
  }

  /** A byte that is lost although the writer reported success: the message ends up with a hole. */
  lemma DropExample()
    ensures var events := [Write('a', false), Write('b', true), Write('c', true)];
            var l := Line([], []);
            Accepted(l, events) == ['a', 'b', 'c'] && Run(l, events).Kept() == ['a', 'c']
  {
    var l0 := Line([], []);
    var l1 := After(l0, Write('a', false));
    var l2 := After(l1, Write('b', true));
    var l3 := After(l2, Write('c', true));
    assert l1 == Line([], ['a']) && l2 == Line(['a'], []) && l3 == Line(['a', 'c'], []);
    var events := [Write('a', false), Write('b', true), Write('c', true)];
    assert events[1..] == [Write('b', true), Write('c', true)] && events[1..][1..] == [Write('c', true)];
    assert events[1..][1..][1..] == [];
    assert Accepted(l2, events[1..][1..]) == ['c'] && Accepted(l1, events[1..]) == ['b', 'c'];
    assert Run(l2, events[1..][1..]) == l3 && Run(l1, events[1..]) == l3;
  }

  // ---------------------------------------------------------------- the code

  class Writer {
    const buffer: Buffer
    /** What went out through the transmitter holding register. */
    var wire: seq<char>

    ghost predicate Valid()
      reads this, buffer
    {
      buffer.Valid()
    }

    ghost function State(): Line
      requires Valid()
      reads this, buffer, buffer.buff
    {
      Line(wire, buffer.Queue())
    }

    constructor ()
      ensures Valid() && State() == Line([], []) && fresh(buffer) && fresh(buffer.buff)
    {
      buffer := new Buffer();
      wire := [];
    }

    /** Takes one byte out of the ring and sends it. */
    method SendOld()
      requires Valid() && State().queue != []
      modifies this, buffer
      ensures Valid() && State() == Send(old(State()))
    {
      var byte := buffer.Consume();
      wire := wire + [byte.value];
    }

    /** Writes a byte; `ready` is the one reading of the status register. */
    method WriteC(c: char, ready: bool) returns (ok: bool)
      requires Valid()
      modifies this, buffer, buffer.buff
      ensures Valid() && State() == After(old(State()), Write(c, ready))
      ensures ok <==> Accepts(old(State()), Write(c, ready))
      ensures ok <==> ready || |old(buffer.Queue())| < 32
      ensures var waiting := old(buffer.Queue());
              if ready && waiting == [] then wire == old(wire) + [c] && buffer.Queue() == []
              else if ready then wire == old(wire) + [waiting[0]] && buffer.Queue() == waiting[1..]
              else wire == old(wire) && buffer.Queue() == if |waiting| < 32 then waiting + [c] else waiting
    {
      var waiting := buffer.Consumeable();
      if waiting == 0 && ready {
        wire := wire + [c];
        return true;
      }
      if waiting != 0 && ready {
        SendOld();
        return true;
      }
      var room := buffer.Produceable();
      if room != 0 {
        buffer.Produce(c);
        return true;
      }
      return false;
    }

    /** One event on the line. */
    method Handle(e: Event) returns (ok: bool)
      requires Valid()
      modifies this, buffer, buffer.buff
      ensures Valid() && State() == After(old(State()), e)
      ensures e.Write? ==> (ok <==> Accepts(old(State()), e))
    {
      match e {
        case Write(c, ready) => ok := WriteC(c, ready);
        case TxEmpty(ready) => ok := TriggerWrite(ready);
      }
    }

    /** Any interleaving of writes and interrupts: the line ends up as the run says, and the bytes whose
        writes reported success are the accepted ones, so all that was proved of runs holds of the code. */
    method HandleAll(events: seq<Event>) returns (accepted: seq<char>)
      requires Valid()
      modifies this, buffer, buffer.buff
      ensures Valid() && State() == Run(old(State()), events)
      ensures accepted == Accepted(old(State()), events)
      decreases |events|
    {
      accepted := [];
      if events != [] {
        var ok := Handle(events[0]);
        var rest := HandleAll(events[1..]);
        accepted := (if events[0].Write? && ok then [events[0].byte] else []) + rest;
      }
    }

    /** The transmitter-empty interrupt. */
    method TriggerWrite(ready: bool) returns (ok: bool)
      requires Valid()
      modifies this, buffer
      ensures Valid() && State() == After(old(State()), TxEmpty(ready))
      ensures var waiting := old(buffer.Queue());
              if ready && waiting != [] then ok && wire == old(wire) + [waiting[0]] && buffer.Queue() == waiting[1..]
              else !ok && wire == old(wire) && buffer.Queue() == waiting
    {
      var waiting := buffer.Consumeable();
      if ready && waiting != 0 {
        SendOld();
        return true;
      }
      return false;
    }
  }
}
