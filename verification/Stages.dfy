/** One stage of the event pipeline as a value: the manipulators between an input and an output queue, the step that
    uses up the front of the input, and the drain loop. */
module Stages {
  import opened Types
  import opened ModifierFlags
  import opened EventOrder
  import opened QueueStates
  import Buttons = PointingButtons

  datatype ManipulateResult = Passed | Handled | NeedsWaitUntilTimeStamp

  /** What a manipulator does to the output queue. */
  datatype Action =
    | Post(entry: Entry)
    | IncreaseDelay(value: int)
    | ChangeFlags(op: FlagOp)

  datatype Response =
    Response(state: int, validity: Validity, inputDelay: int, actions: seq<Action>, result: ManipulateResult)

  /** A manipulator is any behaviour that may change the validity and the input delay of the front entry, act on the
      output queue and remember a state of its own, but has no means to touch the input queue. The functions take that
      state, the front entry and the queues that the manipulator can see. */
  datatype Behaviour = Behaviour(
    alreadyManipulated: (int, Entry) -> (bool, int),
    manipulate: (int, Entry, seq<Entry>, QueueState, int) -> Response,
    onReleased: (int, Entry, QueueState) -> (int, seq<Action>),
    onUngrabbed: (int, DeviceId, QueueState, int) -> int,
    onEventTap: (int, Entry, QueueState) -> (int, seq<Action>),
    active: int -> bool
  )

  datatype Manipulator = Manipulator(behaviour: Behaviour, state: int, validity: Validity)

  function Acted(q: QueueState, action: Action): QueueState {
    match action
    case Post(e) => Appended(q, e)
    case IncreaseDelay(value) => q.(delay := q.delay + value)
    case ChangeFlags(op) => q.(flags := Apply(op, q.flags))
  }

  function ActedAll(q: QueueState, actions: seq<Action>): QueueState {
    if actions == [] then q else Acted(ActedAll(q, actions[..|actions| - 1]), actions[|actions| - 1])
  }

  datatype Handler = OnReleased | OnUngrabbed | OnEventTap

  /** The handler for an ungrabbed device may not change the output queue. */
  function Handle(m: Manipulator, handler: Handler, front: Entry, output: QueueState): (int, seq<Action>) {
    match handler
    case OnReleased => m.behaviour.onReleased(m.state, front, output)
    case OnUngrabbed => (m.behaviour.onUngrabbed(m.state, front.device, output, front.time.timeStamp), [])
    case OnEventTap => m.behaviour.onEventTap(m.state, front, output)
  }

  function HandleAll(ms: seq<Manipulator>, i: nat, handler: Handler, front: Entry,
                     output: QueueState): (seq<Manipulator>, QueueState)
    decreases |ms| - i
  {
    if i >= |ms| then (ms, output)
    else
      var (state, actions) := Handle(ms[i], handler, front, output);
      HandleAll(ms[i := ms[i].(state := state)], i + 1, handler, front, ActedAll(output, actions))
  }

  /** Asks the manipulators in turn, until one says that it has dealt with the entry before. */
  function AskAll(ms: seq<Manipulator>, i: nat, front: Entry): (seq<Manipulator>, bool)
    decreases |ms| - i
  {
    if i >= |ms| then (ms, false)
    else
      var (already, state) := ms[i].behaviour.alreadyManipulated(ms[i].state, front);
      var ms' := ms[i := ms[i].(state := state)];
      if already then (ms', true) else AskAll(ms', i + 1, front)
  }

  datatype Outcome = Outcome(ms: seq<Manipulator>, front: Entry, output: QueueState, waits: bool)

  /** Runs the manipulators in turn, until one asks to wait. */
  function ManipulateAll(ms: seq<Manipulator>, i: nat, front: Entry, rest: seq<Entry>, output: QueueState,
                         now: int): Outcome
    decreases |ms| - i
  {
    if i >= |ms| then Outcome(ms, front, output, false)
    else
      var r := ms[i].behaviour.manipulate(ms[i].state, front, [front] + rest, output, now);
      var ms' := ms[i := ms[i].(state := r.state)];
      var front' := Touched(front, r.validity, r.inputDelay);
      var output' := ActedAll(output, r.actions);
      if r.result == NeedsWaitUntilTimeStamp then Outcome(ms', front', output', true)
      else ManipulateAll(ms', i + 1, front', rest, output', now)
  }

  predicate IsPlain(e: Event) {
    e.MomentarySwitch? || e.Motion? || e.ShellCommand? || e.SelectInputSource? || e.SetNotificationMessage?
      || e.MouseKey? ||
    e.StickyModifier? || e.SoftwareFunction? || e.StopKeyboardRepeat? || e.CapsLockStateChanged? ||
    e.SystemPreferencesPropertiesChanged?
  }

  /** What happens to the front entry before it is forwarded. */
  function Treat(ms: seq<Manipulator>, front: Entry, rest: seq<Entry>, output: QueueState, now: int): Outcome {
    if front.event.DeviceKeysAndPointingButtonsAreReleased? then
      var output' := output.(flags := Filter(output.flags, NotPlainOfDevice(front.device)),
                             buttons := Buttons.WithoutDevice(output.buttons, front.device));
      var (ms', output'') := HandleAll(ms, 0, OnReleased, front, output');
      Outcome(ms', front, output'', false)
    else if front.event.DeviceUngrabbed? then
      var output' := output.(flags := Filter(output.flags, NotOfDevice(front.device)),
                             buttons := Buttons.WithoutDevice(output.buttons, front.device));
      var (ms', output'') := HandleAll(ms, 0, OnUngrabbed, front, output');
      Outcome(ms', front, output'', false)
    else if front.event.PointingDeviceEventFromEventTap? then
      var (ms', output') := HandleAll(ms, 0, OnEventTap, front, output);
      Outcome(ms', front, output', false)
    else if IsPlain(front.event) then
      var (ms', already) := if front.validity == Validity.Valid then AskAll(ms, 0, front) else (ms, false);
      if already then Outcome(ms', front.(validity := Invalid), output, false)
      else ManipulateAll(ms', 0, front, rest, output, now)
    else
      Outcome(ms, front, output, false)
  }

  function Remaining(ms: seq<Manipulator>): seq<Manipulator> {
    if ms == [] then []
    else
      var gone := ms[0].validity == Invalid && !ms[0].behaviour.active(ms[0].state);
      (if gone then [] else [ms[0]]) + Remaining(ms[1..])
  }

  datatype Stage = Stage(ms: seq<Manipulator>, input: QueueState, output: QueueState)

  function Forwarded(output: QueueState, front: Entry, reorder: bool): QueueState {
    var output' := if front.validity == Validity.Valid then Appended(output, front) else output;
    if reorder then Sorted(output') else output'
  }

  /** One step; the second component tells the caller to go on. */
  function Step(st: Stage, now: int, reorder: bool): (Stage, bool) {
    if st.input.events == [] then (st.(ms := Remaining(st.ms)), false)
    else
      var rest := st.input.events[1..];
      var o := Treat(st.ms, st.input.events[0], rest, st.output, now);
      var input := st.input.(events := [o.front] + rest);
      if o.waits then (Stage(Remaining(o.ms), input, o.output), false)
      else (Stage(o.ms, FrontErased(input), Forwarded(o.output, o.front, reorder)), true)
  }

  predicate IsTouched(e': Entry, e: Entry) {
    e' == Touched(e, e'.validity, e'.time.inputDelay)
  }

  // ----- What a step emits

  /** `q` has grown out of `p` by appending entries. */
  ghost predicate Grown(p: QueueState, q: QueueState) {
    p.events <= q.events
  }

  lemma {:induction false} ActedAllGrows(q: QueueState, actions: seq<Action>)
    ensures Grown(q, ActedAll(q, actions))
  {
    if actions != [] {
      ActedAllGrows(q, actions[..|actions| - 1]);
    }
  }

  lemma {:induction false} HandleAllGrows(ms: seq<Manipulator>, i: nat, handler: Handler, front: Entry,
                                          output: QueueState)
    ensures Grown(output, HandleAll(ms, i, handler, front, output).1)
    ensures handler == OnUngrabbed ==> HandleAll(ms, i, handler, front, output).1 == output
    decreases |ms| - i
  {
    if i < |ms| {
      var (state, actions) := Handle(ms[i], handler, front, output);
      ActedAllGrows(output, actions);
      HandleAllGrows(ms[i := ms[i].(state := state)], i + 1, handler, front, ActedAll(output, actions));
    }
  }

  lemma {:induction false} ManipulateAllGrows(ms: seq<Manipulator>, i: nat, front: Entry, rest: seq<Entry>,
                                              output: QueueState, now: int)
    ensures var o := ManipulateAll(ms, i, front, rest, output, now);
            Grown(output, o.output) && IsTouched(o.front, front)
    decreases |ms| - i
  {
    if i < |ms| {
      var r := ms[i].behaviour.manipulate(ms[i].state, front, [front] + rest, output, now);
      ActedAllGrows(output, r.actions);
      ManipulateAllGrows(ms[i := ms[i].(state := r.state)], i + 1, Touched(front, r.validity, r.inputDelay), rest,
                         ActedAll(output, r.actions), now);
    }
  }

  lemma TreatGrows(ms: seq<Manipulator>, front: Entry, rest: seq<Entry>, output: QueueState, now: int)
    ensures var o := Treat(ms, front, rest, output, now);
            Grown(output, o.output) && IsTouched(o.front, front)
  {
    if front.event.DeviceKeysAndPointingButtonsAreReleased? {
      HandleAllGrows(ms, 0, OnReleased, front,
        output.(flags := Filter(output.flags, NotPlainOfDevice(front.device)),
          buttons := Buttons.WithoutDevice(output.buttons, front.device)));
    } else if front.event.DeviceUngrabbed? {
      HandleAllGrows(ms, 0, OnUngrabbed, front,
        output.(flags := Filter(output.flags, NotOfDevice(front.device)),
          buttons := Buttons.WithoutDevice(output.buttons, front.device)));
    } else if front.event.PointingDeviceEventFromEventTap? {
      HandleAllGrows(ms, 0, OnEventTap, front, output);
    } else if IsPlain(front.event) {
      var ms' := if front.validity == Validity.Valid then AskAll(ms, 0, front).0 else ms;
      ManipulateAllGrows(ms', 0, front, rest, output, now);
    }
  }

  /** The entries that the manipulators append while they treat the front of the input. */
  function Posted(st: Stage, now: int): seq<Entry>
    requires st.input.events != []
  {
    var o := Treat(st.ms, st.input.events[0], st.input.events[1..], st.output, now);
    TreatGrows(st.ms, st.input.events[0], st.input.events[1..], st.output, now);
    o.output.events[|st.output.events|..]
  }

  /** The front entry, if a step forwards it, as it is stored. */
  function ForwardedFront(st: Stage, now: int): seq<Entry>
    requires st.input.events != []
  {
    var o := Treat(st.ms, st.input.events[0], st.input.events[1..], st.output, now);
    if o.front.validity == Validity.Valid then [Delayed(o.front, o.output.delay)] else []
  }

  /** A step that reports progress takes exactly the front entry from the input and forwards it, after whatever the
      manipulators posted, exactly if it is still valid; a step that does not, keeps every input entry, and only the
      validity and the input delay of the front may have changed. */
  lemma StepFacts(st: Stage, now: int, reorder: bool)
    ensures var (st', processed) := Step(st, now, reorder);
            && (processed ==>
                  && st.input.events != [] && st'.input.events == st.input.events[1..]
                  && var all := st.output.events + (Posted(st, now) + ForwardedFront(st, now));
                     st'.output.events == if reorder then Sort(all) else all)
            && (!processed && st.input.events != [] ==>
                  && |st'.input.events| == |st.input.events| && st'.input.events[1..] == st.input.events[1..]
                  && IsTouched(st'.input.events[0], st.input.events[0])
                  && st'.output.events == st.output.events + Posted(st, now))
            && (st.input.events == [] ==>
                  !processed && st'.input == st.input && st'.output == st.output && st'.ms == Remaining(st.ms))
  {
    if st.input.events != [] {
      var front, rest := st.input.events[0], st.input.events[1..];
      var o := Treat(st.ms, front, rest, st.output, now);
      TreatGrows(st.ms, front, rest, st.output, now);
      assert o.output.events == st.output.events + Posted(st, now);
      assert ([o.front] + rest)[1..] == rest;
      assert st.output.events + (Posted(st, now) + ForwardedFront(st, now)) ==
             o.output.events + ForwardedFront(st, now);
      assert o.output.events + [] == o.output.events;
    }
  }

  /** Using up a `device_ungrabbed` takes every flag and button of that device from the output queue and leaves those of
      other devices as they are, whatever the manipulators do. */
  lemma UngrabbedClearsDevice(st: Stage, now: int, reorder: bool)
    requires st.input.events != [] && st.input.events[0].event.DeviceUngrabbed?
    ensures var (st', processed) := Step(st, now, reorder);
            var d := st.input.events[0].device;
            && processed
            && st'.output.flags == Filter(st.output.flags, NotOfDevice(d))
            && st'.output.buttons == Buttons.WithoutDevice(st.output.buttons, d)
            && (forall t :: t in st'.output.flags <==> t in st.output.flags && t.device != d)
            && (forall b :: b in st'.output.buttons <==> b in st.output.buttons && b.device != d)
  {
    hide Filter, HandleAll, Buttons.WithoutDevice, Sort;
    var front := st.input.events[0];
    var d := front.device;
    HandleAllGrows(st.ms, 0, OnUngrabbed, front,
      st.output.(flags := Filter(st.output.flags, NotOfDevice(d)),
        buttons := Buttons.WithoutDevice(st.output.buttons, d)));
    forall t: Token ensures t in Filter(st.output.flags, NotOfDevice(d)) <==> t in st.output.flags && t.device != d {
      FilterCounts(st.output.flags, NotOfDevice(d), t);
      assert t in Filter(st.output.flags, NotOfDevice(d)) <==> t in multiset(Filter(st.output.flags, NotOfDevice(d)));
      assert t in st.output.flags <==> t in multiset(st.output.flags);
    }
    forall b: Buttons.Button ensures b in Buttons.WithoutDevice(st.output.buttons, d) <==>
      b in st.output.buttons && b.device != d {
      Buttons.InWithoutDevice(st.output.buttons, d, b);
    }
  }

  lemma {:induction false} AskedInTurn(ms: seq<Manipulator>, i: nat, front: Entry)
    ensures AskAll(ms, i, front).1 <==>
            exists j :: i <= j < |ms| && ms[j].behaviour.alreadyManipulated(ms[j].state, front).0
    decreases |ms| - i
  {
    if i < |ms| {
      var (already, state) := ms[i].behaviour.alreadyManipulated(ms[i].state, front);
      var ms' := ms[i := ms[i].(state := state)];
      AskedInTurn(ms', i + 1, front);
      if j :| i <= j < |ms| && ms[j].behaviour.alreadyManipulated(ms[j].state, front).0 {
        assert j > i ==> ms'[j] == ms[j];
      }
      if j :| i + 1 <= j < |ms'| && ms'[j].behaviour.alreadyManipulated(ms'[j].state, front).0 {
        assert ms'[j] == ms[j];
      }
    }
  }

  /** A valid entry that some manipulator has dealt with before is used up without a trace: it is not forwarded, and no
      manipulator acts on it. */
  lemma AlreadyManipulatedIsDropped(st: Stage, now: int, reorder: bool, j: nat)
    requires st.input.events != [] && j < |st.ms|
    requires var front := st.input.events[0];
             IsPlain(front.event) && front.validity == Validity.Valid
               && st.ms[j].behaviour.alreadyManipulated(st.ms[j].state, front).0
    ensures var (st', processed) := Step(st, now, reorder);
            && processed && st'.input.events == st.input.events[1..]
            && st'.output == (if reorder then Sorted(st.output) else st.output)
  {
    var front, rest := st.input.events[0], st.input.events[1..];
    AskedInTurn(st.ms, 0, front);
    assert ([front.(validity := Invalid)] + rest)[1..] == rest;
  }

  // ----- Draining

  lemma StepShrinks(st: Stage, now: int, reorder: bool)
    ensures Step(st, now, reorder).1 ==> |Step(st, now, reorder).0.input.events| < |st.input.events|
  {
    StepFacts(st, now, reorder);
  }

  function Drain(st: Stage, now: int, reorder: bool): Stage
    decreases |st.input.events|
  {
    StepShrinks(st, now, reorder);
    var (st', processed) := Step(st, now, reorder);
    if processed then Drain(st', now, reorder) else st'
  }

  /** Everything that the drain appends before it stops, in the order in which it is appended. */
  function DrainEmits(st: Stage, now: int, reorder: bool): seq<Entry>
    decreases |st.input.events|
  {
    StepShrinks(st, now, reorder);
    var (st', processed) := Step(st, now, reorder);
    if processed then (Posted(st, now) + ForwardedFront(st, now)) + DrainEmits(st', now, reorder) else []
  }

  /** What the manipulators post while the front that ends the drain waits. */
  function DrainLeaves(st: Stage, now: int, reorder: bool): seq<Entry>
    decreases |st.input.events|
  {
    StepShrinks(st, now, reorder);
    var (st', processed) := Step(st, now, reorder);
    if processed then DrainLeaves(st', now, reorder)
    else if st.input.events == [] then []
    else Posted(st, now)
  }

  /** The front entry of the stage waits. */
  predicate FrontWaits(st: Stage, now: int) {
    st.input.events != [] && Treat(st.ms, st.input.events[0], st.input.events[1..], st.output, now).waits
  }

  lemma StepWaits(st: Stage, now: int, reorder: bool)
    ensures !Step(st, now, reorder).1 ==> st.input.events == [] || FrontWaits(st, now)
  {
  }

  /** The drain ends with the input empty or its front waiting; what is left is the end of the input, its front apart
      from validity and input delay. */
  lemma {:induction false} DrainEnds(st: Stage, now: int, reorder: bool) returns (last: Stage)
    ensures Drain(st, now, reorder) == Step(last, now, reorder).0 && !Step(last, now, reorder).1
    ensures last.input.events == [] || FrontWaits(last, now)
    ensures |last.input.events| <= |st.input.events|
    ensures last.input.events == st.input.events[|st.input.events| - |last.input.events|..]
    ensures |Drain(st, now, reorder).input.events| == |last.input.events|
    decreases |st.input.events|
  {
    StepFacts(st, now, reorder);
    StepWaits(st, now, reorder);
    hide Step, FrontWaits, Posted, ForwardedFront, Sort;
    var (st', processed) := Step(st, now, reorder);
    if processed {
      last := DrainEnds(st', now, reorder);
    } else {
      last := st;
    }
  }

  function SortedIf(reorder: bool, s: seq<Entry>): seq<Entry> {
    if reorder then Sort(s) else s
  }

  lemma SortedIfOnline(reorder: bool, more: bool, s: seq<Entry>, a: seq<Entry>, b: seq<Entry>)
    requires !more ==> b == []
    ensures SortedIf(reorder && more, SortedIf(reorder, s + a) + b) == SortedIf(reorder, s + (a + b))
  {
    assert s + (a + b) == (s + a) + b;
    SortIsOnline(s + a, b);
    if !more {
      assert (s + a) + b == s + a;
      assert SortedIf(reorder, s + a) + b == SortedIf(reorder, s + a);
    }
  }

  /** Re-sorting the output after every step gives the same queue as sorting it once after the last, whatever the
      manipulators post, delay and let through. */
  lemma {:induction false} DrainSortsOnce(st: Stage, now: int, reorder: bool)
    ensures var all := st.output.events + DrainEmits(st, now, reorder);
            Drain(st, now, reorder).output.events ==
            SortedIf(reorder && Step(st, now, reorder).1, all) + DrainLeaves(st, now, reorder)
    decreases |st.input.events|
  {
    StepFacts(st, now, reorder);
    var (st', processed) := Step(st, now, reorder);
    if processed {
      DrainSortsOnce(st', now, reorder);
      SortedIfOnline(reorder, Step(st', now, reorder).1, st.output.events, Posted(st, now) + ForwardedFront(st, now),
                     DrainEmits(st', now, reorder));
    } else {
      assert st.output.events + [] == st.output.events;
    }
  }
}
