/** How a stage calls its manipulators while it treats the front of its input: which are called, in which order, and
    what each of them finds. */
module Calls {
  import opened Types
  import opened ModifierFlags
  import opened EventOrder
  import opened QueueStates
  import opened Stages
  import Buttons = PointingButtons

  // ----- Actions

  /** What one action of a manipulator does to the output queue. */
  ghost predicate ActionDone(q: QueueState, action: Action, r: QueueState) {
    match action
    case Post(e) => r == QueueStep(q, AppendOp(e))
    case IncreaseDelay(value) =>
      r.delay == q.delay + value && r.events == q.events && r.flags == q.flags && r.buttons == q.buttons
    case ChangeFlags(op) =>
      r.flags == Apply(op, q.flags) && r.events == q.events && r.buttons == q.buttons && r.delay == q.delay
  }

  /** The actions of a manipulator are done one after the other. */
  lemma {:induction false} ActionsInTurn(q: QueueState, actions: seq<Action>) returns (qs: seq<QueueState>)
    ensures |qs| == |actions| + 1 && qs[0] == q && qs[|actions|] == ActedAll(q, actions)
    ensures forall k :: 0 <= k < |actions| ==> ActionDone(qs[k], actions[k], qs[k + 1])
  {
    hide Appended;
    if actions == [] {
      qs := [q];
    } else {
      qs := ActionsInTurn(q, actions[..|actions| - 1]);
      qs := qs + [ActedAll(q, actions)];
    }
  }

  // ----- Manipulating

  function Answer(m: Manipulator, front: Entry, rest: seq<Entry>, output: QueueState, now: int): Response {
    m.behaviour.manipulate(m.state, front, [front] + rest, output, now)
  }

  /** What the manipulators before `n` find and leave, each called once: the front entry and the output queue of one are
      those that the one before it left. */
  ghost predicate Trace(ms: seq<Manipulator>, n: nat, fronts: seq<Entry>, rest: seq<Entry>, outputs: seq<QueueState>,
                        now: int)
  {
    && n <= |ms| && |fronts| == |outputs| == n + 1
    && forall k :: 0 <= k < n ==>
         var r := Answer(ms[k], fronts[k], rest, outputs[k], now);
         && fronts[k + 1] == fronts[k].(validity := r.validity,
                                        time := EventTimeStamp(fronts[k].time.timeStamp, r.inputDelay))
         && outputs[k + 1] == ActedAll(outputs[k], r.actions)
  }

  /** None of the first `n` manipulators asks to wait. */
  ghost predicate NoneWaits(ms: seq<Manipulator>, n: nat, fronts: seq<Entry>, rest: seq<Entry>,
                            outputs: seq<QueueState>, now: int)
    requires n <= |ms| && n <= |fronts| && n <= |outputs|
  {
    forall k :: 0 <= k < n ==> Answer(ms[k], fronts[k], rest, outputs[k], now).result != NeedsWaitUntilTimeStamp
  }

  /** `called` are the manipulators after the first `n` were called. */
  ghost predicate Called(called: seq<Manipulator>, ms: seq<Manipulator>, n: nat, fronts: seq<Entry>, rest: seq<Entry>,
                         outputs: seq<QueueState>, now: int)
    requires n <= |ms| && n <= |fronts| && n <= |outputs|
  {
    && |called| == |ms|
    && forall k :: 0 <= k < |ms| ==>
         called[k] ==
         if k < n then ms[k].(state := Answer(ms[k], fronts[k], rest, outputs[k], now).state) else ms[k]
  }

  /** The calls go on until one asks to wait, and else to the last manipulator. */
  ghost predicate CallsEnd(ms: seq<Manipulator>, n: nat, fronts: seq<Entry>, rest: seq<Entry>,
                           outputs: seq<QueueState>, now: int, waits: bool)
    requires n <= |ms| && n <= |fronts| && n <= |outputs|
  {
    if waits then
      && n > 0 && NoneWaits(ms, n - 1, fronts, rest, outputs, now)
      && Answer(ms[n - 1], fronts[n - 1], rest, outputs[n - 1], now).result == NeedsWaitUntilTimeStamp
    else
      n == |ms| && NoneWaits(ms, n, fronts, rest, outputs, now)
  }

  lemma TraceOn(ms: seq<Manipulator>, called: seq<Manipulator>, i: nat, fronts: seq<Entry>, rest: seq<Entry>,
                outputs: seq<QueueState>, now: int)
    requires i < |ms| && Trace(ms, i, fronts, rest, outputs, now) && Called(called, ms, i, fronts, rest, outputs, now)
    ensures var r := Answer(ms[i], fronts[i], rest, outputs[i], now);
            var fronts', outputs' := fronts + [Touched(fronts[i], r.validity, r.inputDelay)],
              outputs + [ActedAll(outputs[i], r.actions)];
            && called[i] == ms[i] && Trace(ms, i + 1, fronts', rest, outputs', now)
            && Called(called[i := called[i].(state := r.state)], ms, i + 1, fronts', rest, outputs', now)
            && (NoneWaits(ms, i, fronts', rest, outputs', now) <==> NoneWaits(ms, i, fronts, rest, outputs, now))
  {
    hide ActedAll, Answer;
  }

  lemma {:induction false} CallsOn(ms: seq<Manipulator>, called: seq<Manipulator>, i: nat, fronts: seq<Entry>,
                                   rest: seq<Entry>, outputs: seq<QueueState>, now: int)
    returns (n: nat, fronts': seq<Entry>, outputs': seq<QueueState>)
    requires Trace(ms, i, fronts, rest, outputs, now) && Called(called, ms, i, fronts, rest, outputs, now)
    requires NoneWaits(ms, i, fronts, rest, outputs, now)
    ensures Trace(ms, n, fronts', rest, outputs', now) && fronts <= fronts' && outputs <= outputs'
    ensures var o := ManipulateAll(called, i, fronts[i], rest, outputs[i], now);
            && CallsEnd(ms, n, fronts', rest, outputs', now, o.waits)
            && Called(o.ms, ms, n, fronts', rest, outputs', now) && o.front == fronts'[n] && o.output == outputs'[n]
    decreases |ms| - i
  {
    hide ActedAll;
    if i == |ms| {
      n, fronts', outputs' := i, fronts, outputs;
    } else {
      var r := Answer(ms[i], fronts[i], rest, outputs[i], now);
      TraceOn(ms, called, i, fronts, rest, outputs, now);
      hide Trace, Called;
      var fs, os := fronts + [Touched(fronts[i], r.validity, r.inputDelay)],
        outputs + [ActedAll(outputs[i], r.actions)];
      if r.result == NeedsWaitUntilTimeStamp {
        n, fronts', outputs' := i + 1, fs, os;
      } else {
        n, fronts', outputs' := CallsOn(ms, called[i := called[i].(state := r.state)], i + 1, fs, rest, os, now);
      }
    }
  }

  /** The manipulators are called in turn, each once, up to the first that asks to wait, or all of them: one that passes
      and one that handles the entry do not keep the later ones from it. */
  lemma ManipulatedInTurn(ms: seq<Manipulator>, front: Entry, rest: seq<Entry>, output: QueueState, now: int)
    returns (n: nat, fronts: seq<Entry>, outputs: seq<QueueState>)
    ensures Trace(ms, n, fronts, rest, outputs, now) && fronts[0] == front && outputs[0] == output
    ensures var o := ManipulateAll(ms, 0, front, rest, output, now);
            && CallsEnd(ms, n, fronts, rest, outputs, now, o.waits)
            && Called(o.ms, ms, n, fronts, rest, outputs, now) && o.front == fronts[n] && o.output == outputs[n]
  {
    n, fronts, outputs := CallsOn(ms, ms, 0, [front], rest, [output], now);
  }

  // ----- Handling

  /** What a handler of `m` answers: its new state and its actions. */
  function Handled(m: Manipulator, handler: Handler, front: Entry, output: QueueState): (int, seq<Action>) {
    match handler
    case OnReleased => m.behaviour.onReleased(m.state, front, output)
    case OnUngrabbed => (m.behaviour.onUngrabbed(m.state, front.device, output, front.time.timeStamp), [])
    case OnEventTap => m.behaviour.onEventTap(m.state, front, output)
  }

  /** What the first `n` manipulators find and leave of the output. */
  ghost predicate HandledTrace(ms: seq<Manipulator>, n: nat, handler: Handler, front: Entry, outputs: seq<QueueState>)
  {
    && n <= |ms| && |outputs| == n + 1
    && forall k :: 0 <= k < n ==>
         outputs[k + 1] == ActedAll(outputs[k], Handled(ms[k], handler, front, outputs[k]).1)
  }

  /** `told` are the manipulators after the handlers of the first `n` were called. */
  ghost predicate Told(told: seq<Manipulator>, ms: seq<Manipulator>, n: nat, handler: Handler, front: Entry,
                       outputs: seq<QueueState>)
    requires n <= |ms| && n <= |outputs|
  {
    && |told| == |ms|
    && forall k :: 0 <= k < |ms| ==>
         told[k] == if k < n then ms[k].(state := Handled(ms[k], handler, front, outputs[k]).0) else ms[k]
  }

  lemma {:induction false} HandlersOn(ms: seq<Manipulator>, told: seq<Manipulator>, i: nat, handler: Handler,
                                      front: Entry, outputs: seq<QueueState>)
    returns (outputs': seq<QueueState>)
    requires HandledTrace(ms, i, handler, front, outputs) && Told(told, ms, i, handler, front, outputs)
    ensures HandledTrace(ms, |ms|, handler, front, outputs') && outputs <= outputs'
    ensures var (ms', output') := HandleAll(told, i, handler, front, outputs[i]);
            Told(ms', ms, |ms|, handler, front, outputs') && output' == outputs'[|ms|]
    decreases |ms| - i
  {
    hide ActedAll;
    if i == |ms| {
      outputs' := outputs;
    } else {
      var (state, actions) := Handled(ms[i], handler, front, outputs[i]);
      var os := outputs + [ActedAll(outputs[i], actions)];
      assert told[i] == ms[i];
      assert HandledTrace(ms, i + 1, handler, front, os);
      outputs' := HandlersOn(ms, told[i := told[i].(state := state)], i + 1, handler, front, os);
    }
  }

  /** Every manipulator is told, in turn and once. */
  lemma HandledInTurn(ms: seq<Manipulator>, handler: Handler, front: Entry, output: QueueState)
    returns (outputs: seq<QueueState>)
    ensures HandledTrace(ms, |ms|, handler, front, outputs) && outputs[0] == output
    ensures var (ms', output') := HandleAll(ms, 0, handler, front, output);
            Told(ms', ms, |ms|, handler, front, outputs) && output' == outputs[|ms|]
  {
    outputs := HandlersOn(ms, ms, 0, handler, front, [output]);
  }

  // ----- Asking

  /** The manipulators are asked up to the first that says yes, and keep the state that they answer with. */
  lemma {:induction false} AskedUpTo(ms: seq<Manipulator>, i: nat, front: Entry) returns (n: nat)
    requires i <= |ms|
    ensures i <= n <= |ms|
    ensures forall k :: i <= k < n ==> !ms[k].behaviour.alreadyManipulated(ms[k].state, front).0
    ensures var (asked, already) := AskAll(ms, i, front);
            && (already <==> n < |ms|)
            && (n < |ms| ==> ms[n].behaviour.alreadyManipulated(ms[n].state, front).0)
            && |asked| == |ms|
            && forall k :: 0 <= k < |ms| ==>
                 asked[k] == if i <= k <= n
                   then ms[k].(state := ms[k].behaviour.alreadyManipulated(ms[k].state, front).1)
                             else ms[k]
    decreases |ms| - i
  {
    if i == |ms| {
      n := i;
    } else {
      var (already, state) := ms[i].behaviour.alreadyManipulated(ms[i].state, front);
      if already {
        n := i;
      } else {
        var ms' := ms[i := ms[i].(state := state)];
        n := AskedUpTo(ms', i + 1, front);
        forall k | i <= k < n ensures !ms[k].behaviour.alreadyManipulated(ms[k].state, front).0 {
          assert k > i ==> ms'[k] == ms[k];
        }
      }
    }
  }

  // ----- Steps

  /** The kinds of event that are not offered to the manipulators for manipulation. */
  predicate NotOffered(e: Event) {
    || e.NoEvent? || e.SetVariable? || e.DeviceGrabbed? || e.DeviceUngrabbed? || e.FrontmostApplicationChanged?
    || e.InputSourceChanged? || e.VirtualHidDevicesStateChanged? || e.DeviceKeysAndPointingButtonsAreReleased?
    || e.PointingDeviceEventFromEventTap?
  }

  lemma OfferedIsPlain(e: Event)
    ensures IsPlain(e) <==> !NotOffered(e)
  {
  }

  /** `q'` is the output queue `q` to which the front was forwarded if it is valid. */
  ghost predicate ForwardedTo(q': QueueState, q: QueueState, front: Entry, reorder: bool) {
    var all := if front.validity == Valid then QueueStep(q, AppendOp(front)) else q;
    q' == if reorder then all.(events := Sort(all.events)) else all
  }

  /** `q'` is the input queue without its front. */
  ghost predicate UsedUp(q': QueueState, q: QueueState)
    requires q.events != []
  {
    && q'.events == q.events[1..] && q'.flags == q.flags && q'.buttons == q.buttons
    && q'.delay == if q'.events == [] then 0 else q.delay
  }

  /** The manipulators once they were asked whether they dealt with the front before, which is asked of a valid entry
      only. */
  ghost predicate AskedAll(asked: seq<Manipulator>, ms: seq<Manipulator>, front: Entry) {
    && |asked| == |ms|
    && forall k :: 0 <= k < |ms| ==>
         asked[k] == if front.validity == Valid
                     then ms[k].(state := ms[k].behaviour.alreadyManipulated(ms[k].state, front).1) else ms[k]
  }

  lemma AskedBeforehand(ms: seq<Manipulator>, front: Entry)
    requires front.validity == Valid ==>
               forall k :: 0 <= k < |ms| ==> !ms[k].behaviour.alreadyManipulated(ms[k].state, front).0
    ensures var (asked, already) := if front.validity == Valid then AskAll(ms, 0, front) else (ms, false);
            !already && AskedAll(asked, ms, front)
  {
    if front.validity == Valid {
      var n := AskedUpTo(ms, 0, front);
    }
  }

  /** The step on an entry that is offered to the manipulators and that none of them dealt with before. */
  lemma FrontIsManipulated(st: Stage, now: int, reorder: bool)
    returns (asked: seq<Manipulator>, called: seq<Manipulator>, n: nat, fronts: seq<Entry>, outputs: seq<QueueState>,
             waits: bool)
    requires st.input.events != [] && !NotOffered(st.input.events[0].event)
    requires var front := st.input.events[0];
             front.validity == Valid ==>
               forall k :: 0 <= k < |st.ms| ==> !st.ms[k].behaviour.alreadyManipulated(st.ms[k].state, front).0
    ensures AskedAll(asked, st.ms, st.input.events[0])
    ensures var rest := st.input.events[1..];
            && Trace(asked, n, fronts, rest, outputs, now)
            && fronts[0] == st.input.events[0] && outputs[0] == st.output
            && CallsEnd(asked, n, fronts, rest, outputs, now, waits)
            && Called(called, asked, n, fronts, rest, outputs, now)
    ensures var (st', processed) := Step(st, now, reorder);
            && (processed <==> !waits)
            && (waits ==>
                  && st'.ms == Remaining(called) && st'.output == outputs[n]
                  && st'.input == st.input.(events := [fronts[n]] + st.input.events[1..]))
            && (!waits ==>
                  && st'.ms == called && UsedUp(st'.input, st.input)
                  && ForwardedTo(st'.output, outputs[n], fronts[n], reorder))
  {
    hide ManipulateAll, AskAll, Trace, CallsEnd, Called, Remaining, Sort, AskedAll;
    var front, rest := st.input.events[0], st.input.events[1..];
    OfferedIsPlain(front.event);
    AskedBeforehand(st.ms, front);
    asked := (if front.validity == Valid then AskAll(st.ms, 0, front) else (st.ms, false)).0;
    n, fronts, outputs := ManipulatedInTurn(asked, front, rest, st.output, now);
    var o := ManipulateAll(asked, 0, front, rest, st.output, now);
    called, waits := o.ms, o.waits;
    assert fronts[n] == o.front by {
      assert |fronts| == n + 1 by { assert Trace(asked, n, fronts, rest, outputs, now); }
    }
    UsedUpFront(st.input, o.front);
  }

  lemma UsedUpFront(q: QueueState, front: Entry)
    requires q.events != []
    ensures UsedUp(FrontErased(q.(events := [front] + q.events[1..])), q)
  {
    assert ([front] + q.events[1..])[1..] == q.events[1..];
  }

  /** `q` is `p` after the device of the front entry has let go of its flags and buttons: on a release of its plain
      flags, when it is ungrabbed of all. */
  ghost predicate LetGo(q: QueueState, p: QueueState, front: Entry) {
    && q.events == p.events && q.delay == p.delay
    && (forall t: Token :: multiset(q.flags)[t] ==
          if t.device == front.device && (front.event.DeviceUngrabbed? || t.typ == Increase || t.typ == Decrease) then 0
          else multiset(p.flags)[t])
    && forall b :: b in q.buttons <==> b in p.buttons && b.device != front.device
  }

  lemma DeviceLetsGo(p: QueueState, front: Entry, sel: Selector)
    requires front.event.DeviceUngrabbed? || front.event.DeviceKeysAndPointingButtonsAreReleased?
    requires sel == if front.event.DeviceUngrabbed? then NotOfDevice(front.device) else NotPlainOfDevice(front.device)
    ensures LetGo(p.(flags := Filter(p.flags, sel), buttons := Buttons.WithoutDevice(p.buttons, front.device)), p,
            front)
  {
    forall t: Token ensures multiset(Filter(p.flags, sel))[t] ==
          if t.device == front.device && (front.event.DeviceUngrabbed? || t.typ == Increase || t.typ == Decrease) then 0
          else multiset(p.flags)[t] {
      FilterCounts(p.flags, sel, t);
    }
    forall b: Buttons.Button
      ensures b in Buttons.WithoutDevice(p.buttons, front.device) <==> b in p.buttons && b.device != front.device
    {
      Buttons.InWithoutDevice(p.buttons, front.device, b);
    }
  }

  /** The step on a release of all keys, on an ungrabbed device and on an event of the event tap: all manipulators are
      told, after the device has let go. */
  lemma FrontIsHandled(st: Stage, now: int, reorder: bool)
    returns (handler: Handler, outputs: seq<QueueState>)
    requires st.input.events != []
    requires var e := st.input.events[0].event;
             e.DeviceKeysAndPointingButtonsAreReleased? || e.DeviceUngrabbed? || e.PointingDeviceEventFromEventTap?
    ensures handler == match st.input.events[0].event
                       case DeviceKeysAndPointingButtonsAreReleased => OnReleased
                       case DeviceUngrabbed => OnUngrabbed
                       case _ => OnEventTap
    ensures HandledTrace(st.ms, |st.ms|, handler, st.input.events[0], outputs)
    ensures if handler == OnEventTap then outputs[0] == st.output
            else LetGo(outputs[0], st.output, st.input.events[0])
    ensures var (st', processed) := Step(st, now, reorder);
            && processed && Told(st'.ms, st.ms, |st.ms|, handler, st.input.events[0], outputs)
            && UsedUp(st'.input, st.input)
            && ForwardedTo(st'.output, outputs[|st.ms|], st.input.events[0], reorder)
  {
    hide HandleAll, Told, Sort, Filter, Buttons.WithoutDevice, LetGo;
    var front := st.input.events[0];
    var flags := Filter(st.output.flags, if front.event.DeviceUngrabbed? then NotOfDevice(front.device)
    else NotPlainOfDevice(front.device));
    var q := st.output;
    if front.event.PointingDeviceEventFromEventTap? {
      handler := OnEventTap;
    } else {
      handler := if front.event.DeviceUngrabbed? then OnUngrabbed else OnReleased;
      q := q.(flags := flags, buttons := Buttons.WithoutDevice(q.buttons, front.device));
      DeviceLetsGo(st.output, front, if front.event.DeviceUngrabbed? then NotOfDevice(front.device)
      else NotPlainOfDevice(front.device));
    }
    outputs := HandledInTurn(st.ms, handler, front, q);
    UsedUpFront(st.input, front);
  }

  /** The step on any other entry: no manipulator is called. */
  lemma FrontPassesBy(st: Stage, now: int, reorder: bool)
    requires st.input.events != []
    requires var e := st.input.events[0].event;
             || e.NoEvent? || e.SetVariable? || e.DeviceGrabbed? || e.FrontmostApplicationChanged?
             || e.InputSourceChanged? || e.VirtualHidDevicesStateChanged?
    ensures var (st', processed) := Step(st, now, reorder);
            && processed && st'.ms == st.ms && UsedUp(st'.input, st.input)
            && ForwardedTo(st'.output, st.output, st.input.events[0], reorder)
  {
    hide HandleAll, ManipulateAll, AskAll, Filter, Sort, Appended, Delayed, Buttons.WithoutDevice, Remaining;
    UsedUpFront(st.input, st.input.events[0]);
  }

  lemma RemainingCons(m: Manipulator, ms: seq<Manipulator>)
    ensures Remaining([]) == []
    ensures Remaining([m] + ms) == (if m.validity == Valid || m.behaviour.active(m.state) then [m] else [])
            + Remaining(ms)
  {
    assert ([m] + ms)[1..] == ms;
  }

  /** What is left of the manipulators when a step makes no progress: the valid ones and the active ones, in order. */
  lemma {:induction false} RemainingAre(ms: seq<Manipulator>, m: Manipulator)
    ensures Remaining([]) == []
    ensures Remaining(ms + [m]) ==
            Remaining(ms) + if m.validity == Valid || m.behaviour.active(m.state) then [m] else []
  {
    hide Remaining;
    if ms == [] {
      RemainingCons(m, []);
      assert [] + [m] == [m] + [];
    } else {
      var first, rest := ms[0], ms[1..];
      RemainingCons(first, rest);
      RemainingCons(first, rest + [m]);
      RemainingAre(rest, m);
      assert ms == [first] + rest && ms + [m] == [first] + (rest + [m]);
    }
  }
}
