/** The protocol of device slots: a server thread for each slot sends Info, Reports and Destroy over one
    connection, and the client keeps what it knows of each slot (server.c, client.c). */
module Slots {
  import opened Collections

  /** How many absolute axes, relative axes and keys a device has. */
  datatype Counts = Counts(abs: nat, rel: nat, key: nat)

  datatype Message = Info(slot: nat, counts: Counts) | Report(slot: nat, counts: Counts) | Destroy(index: nat)

  // ----- the client

  /** Devices after a message. */
  function Handled(devices: seq<Option<Counts>>, m: Message): (r: seq<Option<Counts>>)
    ensures |r| == |devices|
  {
    match m
    case Info(slot, counts) => if slot < |devices| then devices[slot := Some(counts)] else devices
    case Report(_, _) => devices
    case Destroy(index) => if index < |devices| then devices[index := None] else devices
  }

  /** A report for a slot without a device, or with a device of another shape. */
  predicate Rejects(devices: seq<Option<Counts>>, m: Message) {
    m.Report? && !(m.slot < |devices| && devices[m.slot] == Some(m.counts))
  }

  class Client {
    var infos: array<Option<Counts>>

    /** setup_devices */
    constructor (slotCount: nat)
      ensures fresh(infos) && infos[..] == seq(slotCount, _ => None)
    {
      infos := new Option<Counts>[slotCount](_ => None);
    }

    method DeviceDestroy(slot: nat)
      modifies infos
      ensures infos[..] == Handled(old(infos[..]), Destroy(slot))
    {
      if slot >= infos.Length {
        return;
      }
      if infos[slot].Some? {
        infos[slot] := None;
      }
    }

    method DeviceInit(slot: nat, counts: Counts)
      modifies infos
      ensures infos[..] == Handled(old(infos[..]), Info(slot, counts))
    {
      if slot >= infos.Length {
        return;
      }
      DeviceDestroy(slot);
      infos[slot] := Some(counts);
    }

    /** Whether the report is passed on to the virtual device. */
    method DeviceHandleReport(slot: nat, counts: Counts) returns (accepted: bool)
      ensures accepted == !Rejects(infos[..], Report(slot, counts))
    {
      if slot >= infos.Length || infos[slot].None? {
        return false;
      }
      var info := infos[slot].value;
      accepted := counts.abs == info.abs && counts.rel == info.rel && counts.key == info.key;
    }

    /** One message in client_run. */
    method Receive(m: Message) returns (accepted: bool)
      modifies infos
      ensures infos[..] == Handled(old(infos[..]), m) && accepted == !Rejects(old(infos[..]), m)
    {
      accepted := true;
      match m {
        case Info(slot, counts) => DeviceInit(slot, counts);
        case Report(slot, counts) => accepted := DeviceHandleReport(slot, counts);
        case Destroy(index) => DeviceDestroy(index);
      }
    }

    /** destroy_devices, when the connection is lost */
    method DestroyDevices()
      modifies infos
      ensures infos[..] == seq(infos.Length, _ => None)
    {
      for i := 0 to infos.Length
        invariant forall j :: 0 <= j < i ==> infos[j] == None
      {
        if infos[i].Some? {
          infos[i] := None;
        }
      }
    }
  }

  // ----- the whole system

  /** A server thread looks for a device, holds one, or has ended. */
  datatype Thread = Waiting | Holding(counts: Counts) | Exited

  /** The threads of a connection, what is under way in it, and the client's devices. */
  datatype System = System(threads: seq<Thread>, stream: seq<Message>, devices: seq<Option<Counts>>)

  /** Steps of thread t; the delivery of a message; and a new connection. */
  datatype Event =
    | Acquire(t: nat, counts: Counts)
    | Send(t: nat)
    | Lose(t: nat)
    | Exit(t: nat)
    | Deliver
    | Reconnect

  /** The client asks for as many devices as it has slots, in a field of 16 bits; there is a thread for each. */
  function Start(slotCount: nat): System {
    System(seq(slotCount % 0x1_0000, _ => Waiting), [], seq(slotCount, _ => None))
  }

  /** Slots are sent in 8 bits, except when a device goes. */
  function InfoOf(t: nat, counts: Counts): Message {
    Info(t % 256, counts)
  }

  function ReportOf(t: nat, counts: Counts): Message {
    Report(t % 256, counts)
  }

  function DestroyOf(t: nat): Message {
    Destroy(t % 0x1_0000)
  }

  /** None if the event cannot happen. */
  function Step(s: System, e: Event): Option<System> {
    match e
    case Acquire(t, counts) =>
      if t < |s.threads| && s.threads[t].Waiting? then
        Some(s.(threads := s.threads[t := Holding(counts)], stream := s.stream + [InfoOf(t, counts)]))
      else None
    case Send(t) =>
      if t < |s.threads| && s.threads[t].Holding? then
        Some(s.(stream := s.stream + [ReportOf(t, s.threads[t].counts)]))
      else None
    case Lose(t) =>
      if t < |s.threads| && s.threads[t].Holding? then
        Some(s.(threads := s.threads[t := Waiting], stream := s.stream + [DestroyOf(t)]))
      else None
    case Exit(t) => if t < |s.threads| then Some(s.(threads := s.threads[t := Exited])) else None
    case Deliver =>
      if s.stream != [] then Some(s.(stream := s.stream[1..], devices := Handled(s.devices, s.stream[0]))) else None
    case Reconnect => Some(Start(|s.devices|))
  }

  function Run(s: System, es: seq<Event>): Option<System>
    decreases |es|
  {
    if es == [] then Some(s)
    else match Step(s, es[0])
      case None => None
      case Some(s') => Run(s', es[1..])
  }

  /** The message about to be delivered is a report that the client will not take. */
  predicate IsStuck(s: System) {
    s.stream != [] && Rejects(s.devices, s.stream[0])
  }

  ghost predicate IsSafe(slotCount: nat) {
    forall es: seq<Event> :: Run(Start(slotCount), es).Some? ==> !IsStuck(Run(Start(slotCount), es).value)
  }

  // ----- safety

  /** What the devices will be once everything under way is delivered. */
  function Replay(devices: seq<Option<Counts>>, stream: seq<Message>): (r: seq<Option<Counts>>)
    ensures |r| == |devices|
    decreases |stream|
  {
    if stream == [] then devices else Replay(Handled(devices, stream[0]), stream[1..])
  }

  predicate AllTaken(devices: seq<Option<Counts>>, stream: seq<Message>)
    decreases |stream|
  {
    stream == [] || (!Rejects(devices, stream[0]) && AllTaken(Handled(devices, stream[0]), stream[1..]))
  }

  /** In the end the client knows of exactly the devices that are held. */
  predicate Agrees(threads: seq<Thread>, devices: seq<Option<Counts>>) {
    && |threads| <= |devices|
    && forall t :: 0 <= t < |threads| ==>
         (threads[t].Holding? ==> devices[t] == Some(threads[t].counts)) && (threads[t].Waiting? ==> devices[t] == None)
  }

  /** What every step keeps, with no more than 256 threads. */
  predicate Invariant(s: System) {
    && |s.threads| == |s.devices| % 0x1_0000 <= 256
    && AllTaken(s.devices, s.stream) && Agrees(s.threads, Replay(s.devices, s.stream))
  }

  lemma {:induction false} OneMore(devices: seq<Option<Counts>>, stream: seq<Message>, m: Message)
    ensures Replay(devices, stream + [m]) == Handled(Replay(devices, stream), m)
    ensures AllTaken(devices, stream + [m]) <==> AllTaken(devices, stream) && !Rejects(Replay(devices, stream), m)
    decreases |stream|
  {
    hide Handled, Rejects;
    if stream == [] {
      assert [m][1..] == [] && [] + [m] == [m];
    } else {
      assert (stream + [m])[1..] == stream[1..] + [m];
      OneMore(Handled(devices, stream[0]), stream[1..], m);
    }
  }

  lemma Starts(slotCount: nat)
    requires slotCount % 0x1_0000 <= 256
    ensures Invariant(Start(slotCount))
  {
  }

  lemma AcquireAgrees(threads: seq<Thread>, devices: seq<Option<Counts>>, t: nat, counts: Counts)
    requires Agrees(threads, devices) && t < |threads| <= 256
    ensures Agrees(threads[t := Holding(counts)], Handled(devices, InfoOf(t, counts))) && !Rejects(devices, InfoOf(t, counts))
  {
  }

  lemma SendAgrees(threads: seq<Thread>, devices: seq<Option<Counts>>, t: nat)
    requires Agrees(threads, devices) && t < |threads| <= 256 && threads[t].Holding?
    ensures var m := ReportOf(t, threads[t].counts); Handled(devices, m) == devices && !Rejects(devices, m)
  {
  }

  lemma LoseAgrees(threads: seq<Thread>, devices: seq<Option<Counts>>, t: nat)
    requires Agrees(threads, devices) && t < |threads| <= 256
    ensures Agrees(threads[t := Waiting], Handled(devices, DestroyOf(t))) && !Rejects(devices, DestroyOf(t))
  {
  }

  lemma ExitAgrees(threads: seq<Thread>, devices: seq<Option<Counts>>, t: nat)
    requires Agrees(threads, devices) && t < |threads|
    ensures Agrees(threads[t := Exited], devices)
  {
  }

  lemma StepKeeps(s: System, e: Event)
    requires Invariant(s) && Step(s, e).Some?
    ensures Invariant(Step(s, e).value) && |Step(s, e).value.devices| == |s.devices|
  {
    hide Replay, AllTaken, Agrees, Handled, Rejects, InfoOf, ReportOf, DestroyOf;
    var threads, ahead := s.threads, Replay(s.devices, s.stream);
    match e {
      case Acquire(t, counts) =>
        OneMore(s.devices, s.stream, InfoOf(t, counts));
        AcquireAgrees(threads, ahead, t, counts);
      case Send(t) =>
        OneMore(s.devices, s.stream, ReportOf(t, threads[t].counts));
        SendAgrees(threads, ahead, t);
      case Lose(t) =>
        OneMore(s.devices, s.stream, DestroyOf(t));
        LoseAgrees(threads, ahead, t);
      case Exit(t) => ExitAgrees(threads, ahead, t);
      case Deliver => FirstTaken(s.devices, s.stream);
      case Reconnect => Starts(|s.devices|);
    }
  }

  lemma FirstTaken(devices: seq<Option<Counts>>, stream: seq<Message>)
    requires stream != [] && AllTaken(devices, stream)
    ensures !Rejects(devices, stream[0])
    ensures AllTaken(Handled(devices, stream[0]), stream[1..])
    ensures Replay(Handled(devices, stream[0]), stream[1..]) == Replay(devices, stream)
  {
  }

  lemma {:induction false} RunKeeps(s: System, es: seq<Event>)
    requires Invariant(s) && Run(s, es).Some?
    ensures Invariant(Run(s, es).value)
    decreases |es|
  {
    hide Invariant, Step;
    if es != [] {
      StepKeeps(s, es[0]);
      RunKeeps(Step(s, es[0]).value, es[1..]);
    }
  }

  // ----- more than 256 slots

  /** Slots 0 and 256 are taken for one another. */
  function Confusion(c: Counts, c': Counts): seq<Event> {
    [Acquire(0, c), Acquire(256, c'), Send(0), Deliver, Deliver]
  }

  lemma RunFirst(s: System, e: Event, es: seq<Event>)
    requires Step(s, e).Some?
    ensures Run(s, [e] + es) == Run(Step(s, e).value, es)
  {
    assert ([e] + es)[1..] == es;
  }

  /** A report is then rejected exactly if the two devices differ in the number of axes or of keys. */
  lemma Confuses(slotCount: nat, c: Counts, c': Counts)
    requires slotCount % 0x1_0000 > 256
    ensures Run(Start(slotCount), Confusion(c, c')).Some?
    ensures IsStuck(Run(Start(slotCount), Confusion(c, c')).value) <==> c.abs != c'.abs || c.rel != c'.rel || c.key != c'.key
  {
    hide Run;
    var s0 := Start(slotCount);
    var s1 := Step(s0, Acquire(0, c)).value;
    var s2 := Step(s1, Acquire(256, c')).value;
    var s3 := Step(s2, Send(0)).value;
    assert s3.stream == [Info(0, c), Info(0, c'), Report(0, c)];
    var s4 := Step(s3, Deliver).value;
    assert s4.stream == [Info(0, c'), Report(0, c)];
    var s5 := Step(s4, Deliver).value;
    assert s5.stream == [Report(0, c)] && s5.devices[0] == Some(c');
    RunsThrough(s0, Acquire(0, c), Acquire(256, c'), Send(0));
    Ends(s3);
    assert Confusion(c, c') == [Acquire(0, c), Acquire(256, c'), Send(0)] + [Deliver, Deliver];
  }

  lemma RunsThrough(s: System, e1: Event, e2: Event, e3: Event)
    requires Step(s, e1).Some? && Step(Step(s, e1).value, e2).Some?
    requires Step(Step(Step(s, e1).value, e2).value, e3).Some?
    ensures Run(s, [e1, e2, e3] + [Deliver, Deliver]) == Run(Step(Step(Step(s, e1).value, e2).value, e3).value, [Deliver, Deliver])
  {
    hide Step, Run;
    assert [e1, e2, e3] + [Deliver, Deliver] == [e1] + ([e2] + ([e3] + [Deliver, Deliver]));
    RunFirst(s, e1, [e2] + ([e3] + [Deliver, Deliver]));
    RunFirst(Step(s, e1).value, e2, [e3] + [Deliver, Deliver]);
    RunFirst(Step(Step(s, e1).value, e2).value, e3, [Deliver, Deliver]);
  }

  lemma Ends(s: System)
    requires Step(s, Deliver).Some? && Step(Step(s, Deliver).value, Deliver).Some?
    ensures Run(s, [Deliver, Deliver]) == Step(Step(s, Deliver).value, Deliver)
  {
    hide Step, Run;
    assert [Deliver, Deliver] == [Deliver] + ([Deliver] + []);
    RunFirst(s, Deliver, [Deliver] + []);
    RunFirst(Step(s, Deliver).value, Deliver, []);
    NoEvents(Step(Step(s, Deliver).value, Deliver).value);
  }

  lemma NoEvents(s: System)
    ensures Run(s, []) == Some(s)
  {
  }

  /** And a device of thread t is forgotten by no one: its slot was sent modulo 256, but its loss is told of as it is. */
  lemma StaysBehind(slotCount: nat, t: nat, c: Counts)
    requires 256 <= t < slotCount < 0x1_0000
    ensures var r := Run(Start(slotCount), [Acquire(t, c), Lose(t), Exit(t)] + [Deliver, Deliver]);
            && r.Some? && r.value.stream == [] && |r.value.threads| == |r.value.devices| == slotCount
            && r.value.threads[t] == Exited && r.value.devices[t % 256] == Some(c)
  {
    hide Run;
    var s0 := Start(slotCount);
    var s1 := Step(s0, Acquire(t, c)).value;
    var s2 := Step(s1, Lose(t)).value;
    var s3 := Step(s2, Exit(t)).value;
    assert s3.stream == [Info(t % 256, c), Destroy(t)];
    var s4 := Step(s3, Deliver).value;
    assert s4.stream == [Destroy(t)];
    RunsThrough(s0, Acquire(t, c), Lose(t), Exit(t));
    Ends(s3);
  }

  /** Over every run, with devices coming and going and connections renewed, no report is ever rejected,
      exactly if there are no more than 256 threads. */
  lemma SafeIffFits(slotCount: nat)
    ensures IsSafe(slotCount) <==> slotCount % 0x1_0000 <= 256
  {
    if slotCount % 0x1_0000 <= 256 {
      forall es: seq<Event> | Run(Start(slotCount), es).Some?
        ensures !IsStuck(Run(Start(slotCount), es).value)
      {
        Starts(slotCount);
        RunKeeps(Start(slotCount), es);
      }
    } else {
      Confuses(slotCount, Counts(0, 0, 0), Counts(1, 0, 0));
    }
  }
}
