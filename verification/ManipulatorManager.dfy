/** The manager of the manipulators between two queues, and the connector that runs a chain of them. */
module ManipulatorManager {
  import opened Types
  import opened ModifierFlags
  import opened QueueStates
  import opened EventQueue
  import opened Stages
  import opened Chains
  import Buttons = PointingButtons

  /** The two queues share nothing. */
  ghost predicate Apart(p: Queue, q: Queue) {
    p.Repr() !! q.Repr()
  }

  method Act(q: Queue, action: Action)
    requires q.Valid()
    modifies q.Repr()
    ensures q.Valid() && q.Value() == Acted(old(q.Value()), action)
  {
    match action
    case Post(e) => q.PushBack(e);
    case IncreaseDelay(value) => q.IncreaseTimeStampDelay(value);
    case ChangeFlags(op) => ActOnFlags(q, op);
  }

  method ActOnFlags(q: Queue, op: FlagOp)
    requires q.Valid()
    modifies q.flagManager
    ensures q.Valid() && q.Value() == old(q.Value()).(flags := Apply(op, old(q.flagManager.flags)))
  {
    match op
    case PushOp(typ, flag, device) => q.flagManager.PushBack(MakeToken(typ, flag, device));
    case EraseDeviceOp(device) => q.flagManager.EraseAll(device);
    case ErasePlainOfDeviceOp(device) => q.flagManager.EraseAllExceptLockAndSticky(device);
    case EraseStickyCapsLockOp => q.flagManager.EraseCapsLockSticky();
    case EraseStickyOp => q.flagManager.EraseAllSticky();
    case ResetOp => q.flagManager.Reset();
  }

  method ActAll(q: Queue, actions: seq<Action>)
    requires q.Valid()
    modifies q.Repr()
    ensures q.Valid() && q.Value() == ActedAll(old(q.Value()), actions)
  {
    assert actions[..|actions|] == actions;
    for i := 0 to |actions|
      invariant q.Valid() && q.Value() == ActedAll(old(q.Value()), actions[..i])
    {
      assert actions[..i + 1][..i] == actions[..i];
      Act(q, actions[i]);
    }
  }

  class Manager {
    var manipulators: seq<Manipulator>

    constructor ()
      ensures manipulators == []
    {
      manipulators := [];
    }

    method PushBackManipulator(m: Manipulator)
      modifies this
      ensures manipulators == old(manipulators) + [m]
    {
      manipulators := manipulators + [m];
    }

    method CallHandlers(handler: Handler, front: Entry, output: Queue)
      requires output.Valid()
      modifies this, output.Repr()
      ensures output.Valid()
      ensures (manipulators, output.Value()) == HandleAll(old(manipulators), 0, handler, front, old(output.Value()))
    {
      var i := 0;
      while i < |manipulators|
        invariant 0 <= i && output.Valid()
        invariant HandleAll(manipulators, i, handler, front, output.Value()) ==
                  HandleAll(old(manipulators), 0, handler, front, old(output.Value()))
        decreases |manipulators| - i
      {
        var m := manipulators[i];
        ghost var before := output.Value();
        match handler {
          case OnReleased =>
            var flags, buttons, events, delay := output.flagManager.flags, output.buttonManager.buttons, output.events,
              output.timeStampDelay;
            var (state, actions) := m.behaviour.onReleased(m.state, front, QueueState(events, flags, buttons, delay));
            manipulators := manipulators[i := m.(state := state)];
            ActAll(output, actions);
          case OnUngrabbed =>
            var flags, buttons, events, delay := output.flagManager.flags, output.buttonManager.buttons, output.events,
              output.timeStampDelay;
            var state := m.behaviour.onUngrabbed(m.state, front.device, QueueState(events, flags, buttons, delay),
              front.time.timeStamp);
            manipulators := manipulators[i := m.(state := state)];
            assert ActedAll(before, []) == before;
          case OnEventTap =>
            var flags, buttons, events, delay := output.flagManager.flags, output.buttonManager.buttons, output.events,
              output.timeStampDelay;
            var (state, actions) := m.behaviour.onEventTap(m.state, front, QueueState(events, flags, buttons, delay));
            manipulators := manipulators[i := m.(state := state)];
            ActAll(output, actions);
        }
        i := i + 1;
      }
    }

    method AskAlreadyManipulated(front: Entry) returns (already: bool)
      modifies this
      ensures (manipulators, already) == AskAll(old(manipulators), 0, front)
    {
      var i := 0;
      while i < |manipulators|
        invariant 0 <= i && AskAll(manipulators, i, front) == AskAll(old(manipulators), 0, front)
        decreases |manipulators| - i
      {
        var m := manipulators[i];
        var (yes, state) := m.behaviour.alreadyManipulated(m.state, front);
        manipulators := manipulators[i := m.(state := state)];
        if yes {
          return true;
        }
        i := i + 1;
      }
      return false;
    }

    /** Marks the front of the input and fills the output as the manipulators ask; stops when one of them
        has to wait. */
    method CallManipulators(input: Queue, output: Queue, now: int) returns (waits: bool)
      requires input.Valid() && output.Valid() && Apart(input, output) && input.events != []
      modifies this, input, output.Repr()
      ensures input.Valid() && output.Valid()
      ensures var o := ManipulateAll(old(manipulators), 0, old(input.events)[0], old(input.events)[1..],
              old(output.Value()), now);
              && manipulators == o.ms && output.Value() == o.output && waits == o.waits
              && input.Value() == old(input.Value()).(events := [o.front] + old(input.events)[1..])
    {
      hide ActedAll;
      ghost var all := ManipulateAll(manipulators, 0, input.events[0], input.events[1..], output.Value(), now);
      ghost var rest := input.events[1..];
      var i := 0;
      while i < |manipulators|
        invariant 0 <= i && input.Valid() && output.Valid() && input.events != []
        invariant input.Value() == old(input.Value()).(events := [input.events[0]] + rest)
        invariant ManipulateAll(manipulators, i, input.events[0], rest, output.Value(), now) == all
        decreases |manipulators| - i
      {
        var m := manipulators[i];
        var front := input.events[0];
        var flags, buttons, events, delay := output.flagManager.flags, output.buttonManager.buttons, output.events,
          output.timeStampDelay;
        var r := m.behaviour.manipulate(m.state, front, input.events, QueueState(events, flags, buttons, delay), now);
        manipulators := manipulators[i := m.(state := r.state)];
        input.SetFront(r.validity, r.inputDelay);
        ActAll(output, r.actions);
        if r.result == NeedsWaitUntilTimeStamp {
          return true;
        }
        i := i + 1;
      }
      return false;
    }

    /** Lets go of what the device of the front entry holds, and tells the manipulators. */
    method LetGo(handler: Handler, front: Entry, output: Queue)
      requires output.Valid() && handler != OnEventTap
      modifies this, output.Repr()
      ensures output.Valid()
      ensures (manipulators, output.Value()) ==
              HandleAll(old(manipulators), 0, handler, front, old(output.Value()).(
                flags := Filter(old(output.flagManager.flags),
                                if handler == OnReleased then NotPlainOfDevice(front.device)
                                  else NotOfDevice(front.device)),
                buttons := Buttons.WithoutDevice(old(output.buttonManager.buttons), front.device)))
    {
      if handler == OnReleased {
        output.flagManager.EraseAllExceptLockAndSticky(front.device);
      } else {
        output.flagManager.EraseAll(front.device);
      }
      output.buttonManager.EraseAll(front.device);
      CallHandlers(handler, front, output);
    }

    method TreatPlain(input: Queue, output: Queue, now: int) returns (waits: bool)
      requires input.Valid() && output.Valid() && Apart(input, output) && input.events != []
               && IsPlain(input.events[0].event)
      modifies this, input, output.Repr()
      ensures input.Valid() && output.Valid()
      ensures var o := Treat(old(manipulators), old(input.events)[0], old(input.events)[1..], old(output.Value()), now);
              && manipulators == o.ms && output.Value() == o.output && waits == o.waits
              && input.Value() == old(input.Value()).(events := [o.front] + old(input.events)[1..])
    {
      hide ManipulateAll, AskAll;
      var skip := false;
      if input.events[0].validity == Validity.Valid {
        skip := AskAlreadyManipulated(input.events[0]);
      }
      if skip {
        input.SetFront(Invalid, input.events[0].time.inputDelay);
        waits := false;
      } else {
        waits := CallManipulators(input, output, now);
      }
    }

    /** Everything up to the question whether the front entry is forwarded. */
    method TreatFront(input: Queue, output: Queue, now: int) returns (waits: bool)
      requires input.Valid() && output.Valid() && Apart(input, output) && input.events != []
      modifies this, input, output.Repr()
      ensures input.Valid() && output.Valid()
      ensures var o := Treat(old(manipulators), old(input.events)[0], old(input.events)[1..], old(output.Value()), now);
              && manipulators == o.ms && output.Value() == o.output && waits == o.waits
              && input.Value() == old(input.Value()).(events := [o.front] + old(input.events)[1..])
    {
      waits := false;
      var front := input.events[0];
      assert input.events == [front] + input.events[1..];
      match front.event {
        case DeviceKeysAndPointingButtonsAreReleased =>
          LetGo(OnReleased, front, output);

        case DeviceUngrabbed =>
          LetGo(OnUngrabbed, front, output);

        case PointingDeviceEventFromEventTap =>
          CallHandlers(OnEventTap, front, output);

        case NoEvent | DeviceGrabbed(_) | FrontmostApplicationChanged(_) | InputSourceChanged(_) | SetVariable(_)
          | VirtualHidDevicesStateChanged(_) =>

        case _ =>
          waits := TreatPlain(input, output, now);
      }
    }

    method Manipulate(input: Queue, output: Queue, now: int, reorder: bool) returns (processed: bool)
      requires input.Valid() && output.Valid() && Apart(input, output)
      modifies this, input, output.Repr()
      ensures input.Valid() && output.Valid()
      ensures (Stage(manipulators, input.Value(), output.Value()), processed) ==
              Step(Stage(old(manipulators), old(input.Value()), old(output.Value())), now, reorder)
    {
      if input.events != [] {
        var waits := TreatFront(input, output, now);
        if !waits {
          if input.events[0].validity == Validity.Valid {
            output.PushBack(input.events[0]);
          }
          if reorder {
            output.SortEvents();
          }
          input.EraseFront();
          return true;
        }
      }
      RemoveInvalidManipulators();
      return false;
    }

    method RemoveInvalidManipulators()
      modifies this
      ensures manipulators == Remaining(old(manipulators))
    {
      manipulators := Remaining(manipulators);
    }

    method InvalidateManipulators()
      modifies this
      ensures forall m :: m in manipulators ==> m.validity == Invalid && m.behaviour.active(m.state)
      ensures manipulators == Remaining(Invalidated(old(manipulators)))
    {
      InvalidatedAt(manipulators);
      for i := 0 to |manipulators|
        invariant |manipulators| == |old(manipulators)|
        invariant forall j :: 0 <= j < i ==> manipulators[j] == old(manipulators)[j].(validity := Invalid)
        invariant forall j :: i <= j < |manipulators| ==> manipulators[j] == old(manipulators)[j]
      {
        manipulators := manipulators[i := manipulators[i].(validity := Invalid)];
      }
      assert manipulators == Invalidated(old(manipulators));
      RemainingInvalidAreActive(old(manipulators));
      RemoveInvalidManipulators();
    }
  }

  function Invalidated(ms: seq<Manipulator>): seq<Manipulator> {
    if ms == [] then [] else Invalidated(ms[..|ms| - 1]) + [ms[|ms| - 1].(validity := Invalid)]
  }

  lemma {:induction false} InvalidatedAt(ms: seq<Manipulator>)
    ensures |Invalidated(ms)| == |ms|
    ensures forall j :: 0 <= j < |ms| ==> Invalidated(ms)[j] == ms[j].(validity := Invalid)
  {
    if ms != [] {
      InvalidatedAt(ms[..|ms| - 1]);
    }
  }

  lemma {:induction false} AllInvalid(ms: seq<Manipulator>)
    ensures |Invalidated(ms)| == |ms| && forall m :: m in Invalidated(ms) ==> m.validity == Invalid
  {
    if ms != [] {
      AllInvalid(ms[..|ms| - 1]);
    }
  }

  lemma {:induction false} InRemaining(ms: seq<Manipulator>)
    ensures forall m :: m in Remaining(ms) <==> m in ms && (m.validity == Validity.Valid || m.behaviour.active(m.state))
  {
    if ms != [] {
      InRemaining(ms[1..]);
    }
  }

  lemma RemainingInvalidAreActive(ms: seq<Manipulator>)
    ensures forall m :: m in Remaining(Invalidated(ms)) ==> m.validity == Invalid && m.behaviour.active(m.state)
  {
    AllInvalid(ms);
    InRemaining(Invalidated(ms));
  }

  datatype Connection = Connection(manager: Manager, input: Queue, output: Queue)

  /** The drain loop of one connection. */
  method DrainConnection(c: Connection, now: int, reorder: bool)
    requires c.input.Valid() && c.output.Valid() && Apart(c.input, c.output)
    modifies c.manager, c.input, c.output.Repr()
    ensures c.input.Valid() && c.output.Valid()
    ensures Stage(c.manager.manipulators, c.input.Value(), c.output.Value()) ==
            Drain(Stage(old(c.manager.manipulators), old(c.input.Value()), old(c.output.Value())), now, reorder)
  {
    ghost var all := Drain(Stage(c.manager.manipulators, c.input.Value(), c.output.Value()), now, reorder);
    var processed := true;
    while processed
      invariant c.input.Valid() && c.output.Valid()
      invariant var st := Stage(c.manager.manipulators, c.input.Value(), c.output.Value());
                (if processed then Drain(st, now, reorder) else st) == all
      decreases processed, |c.input.events|
    {
      StepShrinks(Stage(c.manager.manipulators, c.input.Value(), c.output.Value()), now, reorder);
      processed := c.manager.Manipulate(c.input, c.output, now, reorder);
    }
  }

  /** The managers are different objects, and the queues share nothing. */
  ghost predicate Separate(ms: seq<Manager>, qs: seq<Queue>) {
    && (forall i, j :: 0 <= i < |ms| && 0 <= j < |ms| && i != j ==> ms[i] != ms[j])
    && (forall i, j :: 0 <= i < |qs| && 0 <= j < |qs| && i != j ==> Apart(qs[i], qs[j]))
  }

  /** The connection has its manager, input and output at the places that the link tells. */
  ghost predicate Wired(c: Connection, l: Link, ms: seq<Manager>, qs: seq<Queue>) {
    && l.manager < |ms| && l.input < |qs| && l.output < |qs| && l.input != l.output
    && c == Connection(ms[l.manager], qs[l.input], qs[l.output])
  }

  ghost predicate AllWired(cs: seq<Connection>, links: seq<Link>, ms: seq<Manager>, qs: seq<Queue>) {
    |links| == |cs| && forall i :: 0 <= i < |cs| ==> Wired(cs[i], links[i], ms, qs)
  }

  ghost function QueueObjects(qs: seq<Queue>): set<object> {
    if qs == [] then {} else qs[0].Repr() + QueueObjects(qs[1..])
  }

  ghost function ManagerObjects(ms: seq<Manager>): set<object> {
    if ms == [] then {} else {ms[0]} + ManagerObjects(ms[1..])
  }

  ghost function Footprint(ms: seq<Manager>, qs: seq<Queue>): set<object> {
    ManagerObjects(ms) + QueueObjects(qs)
  }

  lemma {:induction false} InQueueObjects(qs: seq<Queue>, k: nat)
    requires k < |qs|
    ensures qs[k].Repr() <= QueueObjects(qs)
  {
    if k > 0 {
      InQueueObjects(qs[1..], k - 1);
    }
  }

  lemma {:induction false} InManagerObjects(ms: seq<Manager>, k: nat)
    requires k < |ms|
    ensures ms[k] in ManagerObjects(ms)
  {
    if k > 0 {
      InManagerObjects(ms[1..], k - 1);
    }
  }

  /** The managers and queues hold what `n` says. */
  ghost predicate Holds(ms: seq<Manager>, qs: seq<Queue>, n: Network)
    reads ms, set i, o | 0 <= i < |qs| && o in qs[i].Repr() :: o
  {
    && |n.mss| == |ms| && |n.qs| == |qs|
    && (forall i :: 0 <= i < |ms| ==> ms[i].manipulators == n.mss[i])
    && (forall j :: 0 <= j < |qs| ==> qs[j].Valid() && qs[j].Value() == n.qs[j])
  }

  method DrainWired(c: Connection, ghost l: Link, ghost ms: seq<Manager>, ghost qs: seq<Queue>, now: int,
                    reorder: bool, ghost n: Network)
    requires Separate(ms, qs) && Wired(c, l, ms, qs) && Holds(ms, qs, n)
    modifies c.manager, c.input.Repr(), c.output.Repr()
    ensures Fits(l, n) && Holds(ms, qs, LinkDrained(n, l, now, reorder))
  {
    hide Drain;
    assert Apart(qs[l.input], qs[l.output]);
    DrainConnection(c, now, reorder);
    ghost var r := LinkDrained(n, l, now, reorder);
    forall j | 0 <= j < |qs| ensures qs[j].Valid() && qs[j].Value() == r.qs[j] {
      if j != l.input && j != l.output {
        assert Apart(qs[j], qs[l.input]) && Apart(qs[j], qs[l.output]);
        assert {qs[j], qs[j].flagManager, qs[j].buttonManager} !! qs[l.input].Repr() + qs[l.output].Repr();
        assert unchanged(qs[j], qs[j].flagManager, qs[j].buttonManager);
      }
    }
  }

  lemma RunSnoc(n: Network, links: seq<Link>, k: nat, now: int, reorder: bool)
    requires k < |links| && forall i :: 0 <= i < |links| ==> Fits(links[i], n)
    ensures NetworkRun(n, links[..k + 1], now, reorder) ==
            LinkDrained(NetworkRun(n, links[..k], now, reorder), links[k], now, reorder)
  {
    assert links[..k + 1][..k] == links[..k];
  }

  /** Drains the connections in turn, whatever they connect: `ms` and `qs` are their managers and queues, each once,
      which may serve several connections, and `n` is what these hold. */
  method DrainAll(cs: seq<Connection>, ghost links: seq<Link>, ghost ms: seq<Manager>, ghost qs: seq<Queue>,
                  now: int, reorder: bool, ghost n: Network)
    requires Separate(ms, qs) && AllWired(cs, links, ms, qs) && Holds(ms, qs, n)
    modifies Footprint(ms, qs)
    ensures (forall l :: l in links ==> Fits(l, n)) && Holds(ms, qs, NetworkRun(n, links, now, reorder))
  {
    AllFit(cs, links, ms, qs, n);
    hide Holds, Separate, NetworkRun, LinkDrained, QueueObjects, ManagerObjects, Fits;
    assert NetworkRun(n, [], now, reorder) == n;
    for k := 0 to |cs|
      invariant Holds(ms, qs, NetworkRun(n, links[..k], now, reorder))
    {
      assert Wired(cs[k], links[k], ms, qs);
      InManagerObjects(ms, links[k].manager);
      InQueueObjects(qs, links[k].input);
      InQueueObjects(qs, links[k].output);
      DrainWired(cs[k], links[k], ms, qs, now, reorder, NetworkRun(n, links[..k], now, reorder));
      RunSnoc(n, links, k, now, reorder);
    }
    assert links[..|cs|] == links;
  }

  lemma AllFit(cs: seq<Connection>, links: seq<Link>, ms: seq<Manager>, qs: seq<Queue>, n: Network)
    requires AllWired(cs, links, ms, qs) && Holds(ms, qs, n)
    ensures forall l :: l in links ==> Fits(l, n)
  {
    forall l | l in links ensures Fits(l, n) {
      var i :| 0 <= i < |links| && links[i] == l;
      assert Wired(cs[i], l, ms, qs);
    }
  }

  class Connector {
    var connections: seq<Connection>

    constructor ()
      ensures connections == []
    {
      connections := [];
    }

    method EmplaceBack(manager: Manager, input: Queue, output: Queue)
      modifies this
      ensures connections == old(connections) + [Connection(manager, input, output)]
    {
      connections := connections + [Connection(manager, input, output)];
    }

    /** Continues the chain at the output of its last connection; refused while there is none. */
    method EmplaceBackNext(manager: Manager, output: Queue) returns (ok: bool)
      modifies this
      ensures ok <==> old(connections) != []
      ensures connections ==
              if ok then old(connections)
                + [Connection(manager, old(connections)[|old(connections)| - 1].output, output)]
              else old(connections)
    {
      if connections == [] {
        return false;
      }
      connections := connections + [Connection(manager, connections[|connections| - 1].output, output)];
      return true;
    }

    /** The earliest time at which the front of an input queue is due, if there is one. */
    method MinInputEventTimeStamp() returns (result: Option<int>)
      ensures result == None <==> forall i :: 0 <= i < |connections| ==> connections[i].input.events == []
      ensures result.Some? ==>
                exists i :: 0 <= i < |connections| && connections[i].input.events != []
                  && var t := connections[i].input.events[0].time; t.timeStamp + t.inputDelay == result.value
      ensures result.Some? ==>
                forall i :: 0 <= i < |connections| && connections[i].input.events != [] ==>
                  var t := connections[i].input.events[0].time; result.value <= t.timeStamp + t.inputDelay
    {
      result := None;
      for k := 0 to |connections|
        invariant result == None <==> forall i :: 0 <= i < k ==> connections[i].input.events == []
        invariant result.Some? ==>
                    exists i :: 0 <= i < k && connections[i].input.events != []
                      && var t := connections[i].input.events[0].time; t.timeStamp + t.inputDelay == result.value
        invariant result.Some? ==>
                    forall i :: 0 <= i < k && connections[i].input.events != [] ==>
                      var t := connections[i].input.events[0].time; result.value <= t.timeStamp + t.inputDelay
      {
        var events := connections[k].input.events;
        if events != [] {
          var t := events[0].time.timeStamp + events[0].time.inputDelay;
          if result == None || t < result.value {
            result := Some(t);
          }
        }
      }
    }

    /** Every two queues of the connections are the same or share nothing, and none is both input and output of one
        connection. */
    method Manipulate(now: int, reorder: bool, ghost links: seq<Link>, ghost ms: seq<Manager>, ghost qs: seq<Queue>,
                      ghost n: Network)
      requires Separate(ms, qs) && AllWired(connections, links, ms, qs) && Holds(ms, qs, n)
      modifies Footprint(ms, qs)
      ensures (forall l :: l in links ==> Fits(l, n)) && Holds(ms, qs, NetworkRun(n, links, now, reorder))
    {
      DrainAll(connections, links, ms, qs, now, reorder, n);
    }
  }
}
