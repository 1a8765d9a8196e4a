/** Chains of stages, each draining into the queue that the next one reads, and what they conserve. */
module Chains {
  import opened Types
  import opened ModifierFlags
  import opened EventOrder
  import opened QueueStates
  import opened Stages
  import Buttons = PointingButtons

  /** The manipulators of every connection and the queues between them: connection `i` reads queue `i` and writes queue
      `i + 1`. */
  datatype ChainState = ChainState(mss: seq<seq<Manipulator>>, qs: seq<QueueState>) {
    ghost predicate Valid() {
      |qs| == |mss| + 1
    }
  }

  function Drained(c: ChainState, i: nat, now: int, reorder: bool): (r: ChainState)
    requires c.Valid() && i < |c.mss|
    ensures r.Valid() && |r.mss| == |c.mss|
  {
    var st := Drain(Stage(c.mss[i], c.qs[i], c.qs[i + 1]), now, reorder);
    ChainState(c.mss[i := st.ms], c.qs[i := st.input][i + 1 := st.output])
  }

  /** The chain after its first `k` connections were drained, one after the other. */
  function ChainRun(c: ChainState, k: nat, now: int, reorder: bool): (r: ChainState)
    requires c.Valid() && k <= |c.mss|
    ensures r.Valid() && |r.mss| == |c.mss|
  {
    if k == 0 then c else Drained(ChainRun(c, k - 1, now, reorder), k - 1, now, reorder)
  }

  /** Managers and queues in general, connected in any way. */
  datatype Network = Network(mss: seq<seq<Manipulator>>, qs: seq<QueueState>)

  /** A connection, by the places of its manager, input and output. */
  datatype Link = Link(manager: nat, input: nat, output: nat)

  predicate Fits(l: Link, n: Network) {
    l.manager < |n.mss| && l.input < |n.qs| && l.output < |n.qs| && l.input != l.output
  }

  function LinkDrained(n: Network, l: Link, now: int, reorder: bool): (r: Network)
    requires Fits(l, n)
    ensures |r.mss| == |n.mss| && |r.qs| == |n.qs|
  {
    var st := Drain(Stage(n.mss[l.manager], n.qs[l.input], n.qs[l.output]), now, reorder);
    Network(n.mss[l.manager := st.ms], n.qs[l.input := st.input][l.output := st.output])
  }

  function NetworkRun(n: Network, links: seq<Link>, now: int, reorder: bool): (r: Network)
    requires forall l :: l in links ==> Fits(l, n)
    ensures |r.mss| == |n.mss| && |r.qs| == |n.qs|
  {
    if links == [] then n
    else
      assert Fits(links[|links| - 1], n) by { assert links[|links| - 1] in links; }
      LinkDrained(NetworkRun(n, links[..|links| - 1], now, reorder), links[|links| - 1], now, reorder)
  }

  function ChainLinks(k: nat): (links: seq<Link>)
    ensures |links| == k && forall l :: l in links ==> l.manager == l.input < k && l.output == l.input + 1
  {
    if k == 0 then [] else ChainLinks(k - 1) + [Link(k - 1, k - 1, k)]
  }

  /** A chain is the network with such links. */
  lemma {:induction false} ChainIsNetwork(c: ChainState, k: nat, now: int, reorder: bool)
    requires c.Valid() && k <= |c.mss|
    ensures forall l :: l in ChainLinks(k) ==> Fits(l, Network(c.mss, c.qs))
    ensures var r := ChainRun(c, k, now, reorder);
            NetworkRun(Network(c.mss, c.qs), ChainLinks(k), now, reorder) == Network(r.mss, r.qs)
  {
    if k > 0 {
      hide Drain;
      ChainIsNetwork(c, k - 1, now, reorder);
      assert ChainLinks(k)[..k - 1] == ChainLinks(k - 1);
    }
  }

  // ----- Manipulators that let everything pass

  ghost predicate PassesThrough(b: Behaviour) {
    && (forall s, e :: !b.alreadyManipulated(s, e).0)
    && (forall s, e, input, output, now ::
          var r := b.manipulate(s, e, input, output, now);
          r.validity == e.validity && r.inputDelay == e.time.inputDelay && r.actions == []
            && r.result != NeedsWaitUntilTimeStamp)
    && (forall s, e, output :: b.onReleased(s, e, output).1 == [])
    && (forall s, e, output :: b.onEventTap(s, e, output).1 == [])
  }

  ghost predicate AllPass(ms: seq<Manipulator>) {
    forall m :: m in ms ==> PassesThrough(m.behaviour)
  }

  lemma AllPassUpdate(ms: seq<Manipulator>, i: nat, state: int)
    requires AllPass(ms) && i < |ms|
    ensures AllPass(ms[i := ms[i].(state := state)])
  {
    var ms' := ms[i := ms[i].(state := state)];
    forall m | m in ms' ensures PassesThrough(m.behaviour) {
      var j :| 0 <= j < |ms'| && ms'[j] == m;
      assert ms[j] in ms;
    }
  }

  lemma {:induction false} HandleAllPasses(ms: seq<Manipulator>, i: nat, handler: Handler, front: Entry,
                                           output: QueueState)
    requires AllPass(ms)
    ensures AllPass(HandleAll(ms, i, handler, front, output).0)
    ensures HandleAll(ms, i, handler, front, output).1 == output
    decreases |ms| - i
  {
    if i < |ms| {
      assert PassesThrough(ms[i].behaviour);
      var (state, actions) := Handle(ms[i], handler, front, output);
      AllPassUpdate(ms, i, state);
      HandleAllPasses(ms[i := ms[i].(state := state)], i + 1, handler, front, output);
    }
  }

  lemma {:induction false} AskAllPasses(ms: seq<Manipulator>, i: nat, front: Entry)
    requires AllPass(ms)
    ensures AllPass(AskAll(ms, i, front).0) && !AskAll(ms, i, front).1
    decreases |ms| - i
  {
    if i < |ms| {
      assert PassesThrough(ms[i].behaviour);
      var (already, state) := ms[i].behaviour.alreadyManipulated(ms[i].state, front);
      AllPassUpdate(ms, i, state);
      AskAllPasses(ms[i := ms[i].(state := state)], i + 1, front);
    }
  }

  lemma {:induction false} ManipulateAllPasses(ms: seq<Manipulator>, i: nat, front: Entry, rest: seq<Entry>,
                                               output: QueueState, now: int)
    requires AllPass(ms)
    ensures var o := ManipulateAll(ms, i, front, rest, output, now);
            AllPass(o.ms) && o.front == front && o.output == output && !o.waits
    decreases |ms| - i
  {
    if i < |ms| {
      assert PassesThrough(ms[i].behaviour);
      var r := ms[i].behaviour.manipulate(ms[i].state, front, [front] + rest, output, now);
      AllPassUpdate(ms, i, r.state);
      assert Touched(front, r.validity, r.inputDelay) == front;
      ManipulateAllPasses(ms[i := ms[i].(state := r.state)], i + 1, front, rest, output, now);
    }
  }

  /** If every manipulator lets everything pass, the front goes on unchanged, no entry is added, and of the output's
      flags and buttons only those that the front itself releases are taken. */
  lemma TreatPasses(ms: seq<Manipulator>, front: Entry, rest: seq<Entry>, output: QueueState, now: int)
    requires AllPass(ms)
    ensures var o := Treat(ms, front, rest, output, now);
            && AllPass(o.ms) && o.front == front && !o.waits
            && o.output ==
               if front.event.DeviceKeysAndPointingButtonsAreReleased? then
                 output.(flags := Filter(output.flags, NotPlainOfDevice(front.device)),
                         buttons := Buttons.WithoutDevice(output.buttons, front.device))
               else if front.event.DeviceUngrabbed? then
                 output.(flags := Filter(output.flags, NotOfDevice(front.device)),
                         buttons := Buttons.WithoutDevice(output.buttons, front.device))
               else output
  {
    if front.event.DeviceKeysAndPointingButtonsAreReleased? {
      HandleAllPasses(ms, 0, OnReleased, front,
        output.(flags := Filter(output.flags, NotPlainOfDevice(front.device)),
          buttons := Buttons.WithoutDevice(output.buttons, front.device)));
    } else if front.event.DeviceUngrabbed? {
      HandleAllPasses(ms, 0, OnUngrabbed, front,
        output.(flags := Filter(output.flags, NotOfDevice(front.device)),
          buttons := Buttons.WithoutDevice(output.buttons, front.device)));
    } else if front.event.PointingDeviceEventFromEventTap? {
      HandleAllPasses(ms, 0, OnEventTap, front, output);
    } else if IsPlain(front.event) {
      AskAllPasses(ms, 0, front);
      var ms' := if front.validity == Validity.Valid then AskAll(ms, 0, front).0 else ms;
      ManipulateAllPasses(ms', 0, front, rest, output, now);
    }
  }

  lemma {:induction false} RemainingPass(ms: seq<Manipulator>)
    requires AllPass(ms)
    ensures AllPass(Remaining(ms))
  {
    if ms != [] {
      RemainingPass(ms[1..]);
    }
  }

  function Valids(s: seq<Entry>): seq<Entry> {
    if s == [] then [] else (if s[0].validity == Validity.Valid then [s[0]] else []) + Valids(s[1..])
  }

  lemma PassingStep(st: Stage, now: int, reorder: bool)
    requires AllPass(st.ms) && st.input.events != []
    ensures var (st', processed) := Step(st, now, reorder);
            && processed && AllPass(st'.ms)
            && st'.output.delay == st.output.delay
            && st'.input.delay == (if |st.input.events| == 1 then 0 else st.input.delay)
            && st'.input.events == st.input.events[1..]
            && Posted(st, now) + ForwardedFront(st, now) == DelayedAll(Valids(st.input.events[..1]), st.output.delay)
  {
    var front, rest := st.input.events[0], st.input.events[1..];
    TreatPasses(st.ms, front, rest, st.output, now);
    StepFacts(st, now, reorder);
    assert st.input.events[..1] == [front] && [front][1..] == [];
    assert Posted(st, now) == [];
    assert [front][..0] == [];
  }

  lemma DelayedAppend(a: seq<Entry>, b: seq<Entry>, delay: int)
    ensures DelayedAll(a + b, delay) == DelayedAll(a, delay) + DelayedAll(b, delay)
  {
  }

  /** Draining with such manipulators empties the input and emits its valid entries, put off by the output's delay. */
  lemma {:induction false} PassingDrain(st: Stage, now: int, reorder: bool)
    requires AllPass(st.ms)
    ensures var r := Drain(st, now, reorder);
            && AllPass(r.ms) && r.input.events == [] && r.output.delay == st.output.delay
            && DrainEmits(st, now, reorder) == DelayedAll(Valids(st.input.events), st.output.delay)
            && DrainLeaves(st, now, reorder) == []
    decreases |st.input.events|
  {
    if st.input.events == [] {
      RemainingPass(st.ms);
    } else {
      var st' := Step(st, now, reorder).0;
      PassingStep(st, now, reorder);
      PassingDrain(st', now, reorder);
      assert Valids(st.input.events) == Valids(st.input.events[..1]) + Valids(st.input.events[1..]) by {
        var f := st.input.events[..1];
        assert f[1..] == [] && f[0] == st.input.events[0];
        assert Valids(f) == (if f[0].validity == Validity.Valid then [f[0]] else []) + [];
      }
      DelayedAppend(Valids(st.input.events[..1]), Valids(st.input.events[1..]), st.output.delay);
    }
  }

  // ----- Conservation

  lemma SwapDelayed(a: Entry, b: Entry, delay: int)
    ensures NeedsSwap(Delayed(a, delay), Delayed(b, delay)) <==> NeedsSwap(a, b)
  {
  }

  lemma {:induction false} InsertDelayed(s: seq<Entry>, e: Entry, delay: int)
    ensures Insert(DelayedAll(s, delay), Delayed(e, delay)) == DelayedAll(Insert(s, e), delay)
  {
    hide DelayedAll, NeedsSwap;
    if s != [] {
      var n := |s| - 1;
      SwapDelayed(s[n], e, delay);
      InsertDelayed(s[..n], e, delay);
      assert DelayedAll(s, delay)[..n] == DelayedAll(s[..n], delay);
      DelayedAppend(Insert(s[..n], e), [s[n]], delay);
      DelayedAppend(s, [e], delay);
      assert DelayedAll([s[n]], delay) == [Delayed(s[n], delay)];
    }
    assert DelayedAll([e], delay) == [Delayed(e, delay)];
  }

  /** Putting off all entries alike commutes with sorting. */
  lemma {:induction false} SortDelayed(s: seq<Entry>, delay: int)
    ensures Sort(DelayedAll(s, delay)) == DelayedAll(Sort(s), delay)
  {
    if s != [] {
      var r, e := s[..|s| - 1], s[|s| - 1];
      assert s == r + [e];
      SortDelayed(r, delay);
      SortSnoc(r, e);
      SortSnoc(DelayedAll(r, delay), Delayed(e, delay));
      InsertDelayed(Sort(r), e, delay);
    }
  }

  lemma {:induction false} AllValid(s: seq<Entry>)
    requires forall e :: e in s ==> e.validity == Validity.Valid
    ensures Valids(s) == s
  {
    if s != [] {
      AllValid(s[1..]);
    }
  }

  lemma {:induction false} ValidsAreValid(s: seq<Entry>)
    ensures forall e :: e in Valids(s) ==> e.validity == Validity.Valid
  {
    if s != [] {
      ValidsAreValid(s[1..]);
    }
  }

  /** What reaches a queue after delays that add up to `delay`. */
  function Arrived(s: seq<Entry>, delay: int, reorder: bool): seq<Entry> {
    SortedIf(reorder, DelayedAll(Valids(s), delay))
  }

  lemma ArrivedIsValid(s: seq<Entry>, delay: int, reorder: bool)
    ensures Valids(Arrived(s, delay, reorder)) == Arrived(s, delay, reorder)
  {
    var d := DelayedAll(Valids(s), delay);
    ValidsAreValid(s);
    forall e | e in d ensures e.validity == Validity.Valid {
      var i :| 0 <= i < |d| && d[i] == e;
      assert Valids(s)[i] in Valids(s);
    }
    SortPermutes(d);
    forall e | e in Arrived(s, delay, reorder) ensures e.validity == Validity.Valid {
      assert e in multiset(Arrived(s, delay, reorder));
      assert e in multiset(d);
    }
    AllValid(Arrived(s, delay, reorder));
  }

  /** What arrived goes on to the next queue. */
  lemma ArrivedAgain(s: seq<Entry>, delay: int, more: int, reorder: bool)
    ensures SortedIf(reorder, DelayedAll(Arrived(s, delay, reorder), more)) == Arrived(s, delay + more, reorder)
  {
    hide DelayedAll, Sort, Valids;
    var v := Valids(s);
    assert DelayedAll(DelayedAll(v, delay), more) == DelayedAll(v, delay + more);
    SortDelayed(DelayedAll(v, delay), more);
    SortSettles(DelayedAll(v, delay + more));
  }

  lemma SortedIfNothing(reorder: bool, more: bool, s: seq<Entry>)
    requires !more ==> s == []
    ensures SortedIf(reorder && more, [] + s) + [] == SortedIf(reorder, s)
  {
    assert [] + s == s;
    assert SortedIf(reorder && more, s) + [] == SortedIf(reorder && more, s);
  }

  /** A stage with an empty output queue passes everything on. */
  lemma PassingStage(st: Stage, now: int, reorder: bool)
    requires AllPass(st.ms) && st.output.events == []
    ensures var r := Drain(st, now, reorder);
            && AllPass(r.ms) && r.input.events == [] && r.output.delay == st.output.delay
            && r.output.events == SortedIf(reorder, DelayedAll(Valids(st.input.events), st.output.delay))
  {
    PassingDrain(st, now, reorder);
    DrainSortsOnce(st, now, reorder);
    var more := Step(st, now, reorder).1;
    if !more {
      StepFacts(st, now, reorder);
      if st.input.events != [] { PassingStep(st, now, reorder); }
    }
    SortedIfNothing(reorder, more, DelayedAll(Valids(st.input.events), st.output.delay));
  }

  function TotalDelay(qs: seq<QueueState>, k: nat): int
    requires k < |qs|
  {
    if k == 0 then 0 else TotalDelay(qs, k - 1) + qs[k].delay
  }

  ghost predicate Conserved(c: ChainState, r: ChainState, k: nat, reorder: bool)
    requires c.Valid() && r.Valid() && |r.mss| == |c.mss| && 0 < k <= |c.mss|
  {
    && (forall j :: 0 <= j < |r.mss| ==> AllPass(r.mss[j]))
    && (forall j :: 0 <= j < k ==> r.qs[j].events == [])
    && r.qs[k].events == Arrived(c.qs[0].events, TotalDelay(c.qs, k), reorder)
    && (forall j :: k < j < |r.qs| ==> r.qs[j] == c.qs[j])
  }

  /** One more connection: `r` is its stage after draining. */
  lemma ConservedOn(c: ChainState, p: ChainState, k: nat, r: Stage, reorder: bool)
    requires c.Valid() && p.Valid() && |p.mss| == |c.mss| && k < |c.mss|
    requires forall j :: 0 <= j < |p.mss| ==> AllPass(p.mss[j])
    requires forall j :: 0 <= j < k ==> p.qs[j].events == []
    requires forall j :: k < j < |p.qs| ==> p.qs[j] == c.qs[j]
    requires AllPass(r.ms) && r.input.events == []
    requires r.output.events == Arrived(c.qs[0].events, TotalDelay(c.qs, k + 1), reorder)
    ensures Conserved(c, ChainState(p.mss[k := r.ms], p.qs[k := r.input][k + 1 := r.output]), k + 1, reorder)
  {
  }

  lemma ArrivedOn(qs: seq<QueueState>, k: nat, reorder: bool)
    requires k + 1 < |qs|
    ensures var here := Arrived(qs[0].events, TotalDelay(qs, k), reorder);
            SortedIf(reorder, DelayedAll(Valids(here), qs[k + 1].delay)) ==
              Arrived(qs[0].events, TotalDelay(qs, k + 1), reorder)
  {
    hide Sort, Valids, DelayedAll, Arrived, SortedIf;
    ArrivedIsValid(qs[0].events, TotalDelay(qs, k), reorder);
    ArrivedAgain(qs[0].events, TotalDelay(qs, k), qs[k + 1].delay, reorder);
  }

  lemma ConservedStage(c: ChainState, p: ChainState, k: nat, now: int, reorder: bool)
    requires c.Valid() && p.Valid() && |p.mss| == |c.mss| && 0 < k < |c.mss| && Conserved(c, p, k, reorder)
    requires c.qs[k + 1].events == []
    ensures var r := Drain(Stage(p.mss[k], p.qs[k], p.qs[k + 1]), now, reorder);
            AllPass(r.ms) && r.input.events == []
              && r.output.events == Arrived(c.qs[0].events, TotalDelay(c.qs, k + 1), reorder)
  {
    PassingStage(Stage(p.mss[k], p.qs[k], p.qs[k + 1]), now, reorder);
    ArrivedOn(c.qs, k, reorder);
  }

  lemma ConservedStep(c: ChainState, p: ChainState, k: nat, now: int, reorder: bool)
    requires c.Valid() && p.Valid() && |p.mss| == |c.mss| && 0 < k < |c.mss| && Conserved(c, p, k, reorder)
    requires c.qs[k + 1].events == []
    ensures Conserved(c, Drained(p, k, now, reorder), k + 1, reorder)
  {
    ConservedStage(c, p, k, now, reorder);
    ConservedOn(c, p, k, Drain(Stage(p.mss[k], p.qs[k], p.qs[k + 1]), now, reorder), reorder);
  }

  lemma ConservedStart(c: ChainState, now: int, reorder: bool)
    requires c.Valid() && 0 < |c.mss| && c.qs[1].events == []
    requires forall j :: 0 <= j < |c.mss| ==> AllPass(c.mss[j])
    ensures Conserved(c, Drained(c, 0, now, reorder), 1, reorder)
  {
    PassingStage(Stage(c.mss[0], c.qs[0], c.qs[1]), now, reorder);
    assert TotalDelay(c.qs, 1) == c.qs[1].delay by {
      assert TotalDelay(c.qs, 1) == TotalDelay(c.qs, 0) + c.qs[1].delay;
    }
    ConservedOn(c, c, 0, Drain(Stage(c.mss[0], c.qs[0], c.qs[1]), now, reorder), reorder);
  }

  lemma {:induction false} ChainConserves(c: ChainState, k: nat, now: int, reorder: bool)
    requires c.Valid() && 0 < k <= |c.mss|
    requires forall j :: 0 <= j < |c.mss| ==> AllPass(c.mss[j])
    requires forall j :: 1 <= j < |c.qs| ==> c.qs[j].events == []
    ensures Conserved(c, ChainRun(c, k, now, reorder), k, reorder)
  {
    hide Drained, Conserved, AllPass;
    var p := ChainRun(c, k - 1, now, reorder);
    assert ChainRun(c, k, now, reorder) == Drained(p, k - 1, now, reorder);
    if k == 1 {
      assert p == c;
      ConservedStart(c, now, reorder);
    } else {
      hide ChainRun;
      ChainConserves(c, k - 1, now, reorder);
      ConservedStep(c, p, k - 1, now, reorder);
    }
  }

  /** One run over a chain of any length whose later queues are empty and whose manipulators let everything pass ends
      with every queue but the last empty, and in the last the valid entries of the first, each exactly once, put off
      by the delays on the way, and sorted if reordering is on. */
  lemma PipelineConserves(c: ChainState, now: int, reorder: bool)
    requires c.Valid() && c.mss != []
    requires forall j :: 0 <= j < |c.mss| ==> AllPass(c.mss[j])
    requires forall j :: 1 <= j < |c.qs| ==> c.qs[j].events == []
    ensures var n := |c.mss|;
            var r := ChainRun(c, n, now, reorder);
            var sent := DelayedAll(Valids(c.qs[0].events), TotalDelay(c.qs, n));
            && (forall j :: 0 <= j < n ==> r.qs[j].events == [])
            && r.qs[n].events == (if reorder then Sort(sent) else sent)
            && multiset(r.qs[n].events) == multiset(sent)
  {
    ChainConserves(c, |c.mss|, now, reorder);
    SortPermutes(DelayedAll(Valids(c.qs[0].events), TotalDelay(c.qs, |c.mss|)));
  }

  // ----- Flags and buttons

  /** What passing on `e` does to the flags of the output: a released or ungrabbed device lets go, and a valid entry is
      appended. */
  function FlagsPast(flags: seq<Token>, e: Entry): seq<Token> {
    var left := if e.event.DeviceKeysAndPointingButtonsAreReleased? then Filter(flags, NotPlainOfDevice(e.device))
                else if e.event.DeviceUngrabbed? then Filter(flags, NotOfDevice(e.device))
                else flags;
    if e.validity == Validity.Valid then FlagsAfter(left, e) else left
  }

  function ButtonsPast(buttons: seq<Buttons.Button>, e: Entry): seq<Buttons.Button> {
    var left := if e.event.DeviceKeysAndPointingButtonsAreReleased? || e.event.DeviceUngrabbed?
                then Buttons.WithoutDevice(buttons, e.device) else buttons;
    if e.validity == Validity.Valid then ButtonsAfter(left, e) else left
  }

  /** The flags and buttons after the entries were passed on, one after the other. */
  function HeldPast(flags: seq<Token>, buttons: seq<Buttons.Button>, es: seq<Entry>): (seq<Token>, seq<Buttons.Button>)
    decreases |es|
  {
    if es == [] then (flags, buttons) else HeldPast(FlagsPast(flags, es[0]), ButtonsPast(buttons, es[0]), es[1..])
  }

  lemma PassingStepHolds(st: Stage, now: int, reorder: bool)
    requires AllPass(st.ms) && st.input.events != []
    ensures var st' := Step(st, now, reorder).0;
            && st'.output.flags == FlagsPast(st.output.flags, st.input.events[0])
            && st'.output.buttons == ButtonsPast(st.output.buttons, st.input.events[0])
            && st'.input.flags == st.input.flags && st'.input.buttons == st.input.buttons
  {
    hide Treat, FlagsAfter, ButtonsAfter, Filter, Buttons.WithoutDevice, Sort;
    TreatPasses(st.ms, st.input.events[0], st.input.events[1..], st.output, now);
  }

  lemma {:induction false} PassingDrainHolds(st: Stage, now: int, reorder: bool)
    requires AllPass(st.ms)
    ensures var r := Drain(st, now, reorder);
            && (r.output.flags, r.output.buttons) == HeldPast(st.output.flags, st.output.buttons, st.input.events)
            && r.input.flags == st.input.flags && r.input.buttons == st.input.buttons
    decreases |st.input.events|
  {
    hide Step, FlagsPast, ButtonsPast;
    StepFacts(st, now, reorder);
    if st.input.events != [] {
      PassingStep(st, now, reorder);
      PassingStepHolds(st, now, reorder);
      PassingDrainHolds(Step(st, now, reorder).0, now, reorder);
    }
  }

  lemma {:induction false} HeldPastDelayed(flags: seq<Token>, buttons: seq<Buttons.Button>, es: seq<Entry>, delay: int)
    ensures HeldPast(flags, buttons, DelayedAll(es, delay)) == HeldPast(flags, buttons, es)
    decreases |es|
  {
    if es != [] {
      var e := es[0];
      DelayedAppend([e], es[1..], delay);
      assert es == [e] + es[1..];
      assert DelayedAll(es, delay)[1..] == DelayedAll(es[1..], delay);
      PastDelayed(flags, buttons, e, delay);
      HeldPastDelayed(FlagsPast(flags, e), ButtonsPast(buttons, e), es[1..], delay);
    }
  }

  lemma PastDelayed(flags: seq<Token>, buttons: seq<Buttons.Button>, e: Entry, delay: int)
    ensures FlagsPast(flags, Delayed(e, delay)) == FlagsPast(flags, e)
            && ButtonsPast(buttons, Delayed(e, delay)) == ButtonsPast(buttons, e)
  {
    hide Filter, Apply, Buttons.WithoutDevice, Buttons.PushButton;
  }

  /** What queue `j` is fed with, apart from delays: the first connection sees every entry of the first queue, the
      others see the valid ones, in the order in which the queue before them has them. */
  function FedTo(c: ChainState, j: nat, reorder: bool): seq<Entry>
    requires c.Valid()
  {
    if j <= 1 then c.qs[0].events else SortedIf(reorder, Valids(c.qs[0].events))
  }

  lemma FedFromArrived(c: ChainState, k: nat, delay: int, reorder: bool, flags: seq<Token>,
                       buttons: seq<Buttons.Button>)
    requires c.Valid() && k >= 1
    ensures HeldPast(flags, buttons, Arrived(c.qs[0].events, delay, reorder)) ==
            HeldPast(flags, buttons, FedTo(c, k + 1, reorder))
  {
    hide Sort, Valids, HeldPast;
    var v := Valids(c.qs[0].events);
    SortDelayed(v, delay);
    HeldPastDelayed(flags, buttons, FedTo(c, k + 1, reorder), delay);
  }

  ghost predicate HeldInStep(c: ChainState, r: ChainState, k: nat, reorder: bool)
    requires c.Valid() && r.Valid() && |r.mss| == |c.mss| && k <= |c.mss|
  {
    && (forall j :: 1 <= j <= k ==>
          (r.qs[j].flags, r.qs[j].buttons) == HeldPast(c.qs[j].flags, c.qs[j].buttons, FedTo(c, j, reorder)))
    && (forall j :: k < j < |r.qs| ==> r.qs[j].flags == c.qs[j].flags && r.qs[j].buttons == c.qs[j].buttons)
  }

  /** One more connection: `r` is its stage after draining. */
  lemma HeldOn(c: ChainState, p: ChainState, k: nat, r: Stage, reorder: bool)
    requires c.Valid() && p.Valid() && |p.mss| == |c.mss| && k < |c.mss| && HeldInStep(c, p, k, reorder)
    requires r.input.flags == p.qs[k].flags && r.input.buttons == p.qs[k].buttons
    requires (r.output.flags, r.output.buttons) ==
             HeldPast(p.qs[k + 1].flags, p.qs[k + 1].buttons, FedTo(c, k + 1, reorder))
    ensures HeldInStep(c, ChainState(p.mss[k := r.ms], p.qs[k := r.input][k + 1 := r.output]), k + 1, reorder)
  {
    hide HeldPast, FedTo;
  }

  lemma HeldStep(c: ChainState, p: ChainState, k: nat, now: int, reorder: bool)
    requires c.Valid() && p.Valid() && |p.mss| == |c.mss| && k < |c.mss| && HeldInStep(c, p, k, reorder)
    requires AllPass(p.mss[k])
    requires p.qs[k].events == if k == 0 then c.qs[0].events else Arrived(c.qs[0].events, TotalDelay(c.qs, k), reorder)
    ensures HeldInStep(c, Drained(p, k, now, reorder), k + 1, reorder)
  {
    hide HeldPast, Arrived, AllPass, Drain, FedTo, HeldInStep, TotalDelay;
    var st := Stage(p.mss[k], p.qs[k], p.qs[k + 1]);
    var flags, buttons := p.qs[k + 1].flags, p.qs[k + 1].buttons;
    PassingDrainHolds(st, now, reorder);
    if k == 0 {
      FedFirst(c, reorder);
    } else {
      FedFromArrived(c, k, TotalDelay(c.qs, k), reorder, flags, buttons);
    }
    HeldOn(c, p, k, Drain(st, now, reorder), reorder);
  }

  lemma FedFirst(c: ChainState, reorder: bool)
    requires c.Valid()
    ensures FedTo(c, 1, reorder) == c.qs[0].events
  {
  }

  lemma {:induction false} ChainHolds(c: ChainState, k: nat, now: int, reorder: bool)
    requires c.Valid() && k <= |c.mss|
    requires forall j :: 0 <= j < |c.mss| ==> AllPass(c.mss[j])
    requires forall j :: 1 <= j < |c.qs| ==> c.qs[j].events == []
    ensures HeldInStep(c, ChainRun(c, k, now, reorder), k, reorder)
  {
    hide HeldPast, FedTo, AllPass, Arrived, Conserved, Drained;
    if k > 0 {
      var p := ChainRun(c, k - 1, now, reorder);
      assert ChainRun(c, k, now, reorder) == Drained(p, k - 1, now, reorder);
      hide HeldInStep, ChainRun;
      ChainHolds(c, k - 1, now, reorder);
      ChainBefore(c, k - 1, now, reorder);
      HeldStep(c, p, k - 1, now, reorder);
    }
  }

  lemma ChainBefore(c: ChainState, k: nat, now: int, reorder: bool)
    requires c.Valid() && k < |c.mss|
    requires forall j :: 0 <= j < |c.mss| ==> AllPass(c.mss[j])
    requires forall j :: 1 <= j < |c.qs| ==> c.qs[j].events == []
    ensures var p := ChainRun(c, k, now, reorder);
            && AllPass(p.mss[k])
            && p.qs[k].events ==
               if k == 0 then c.qs[0].events else Arrived(c.qs[0].events, TotalDelay(c.qs, k), reorder)
  {
    hide AllPass, Arrived, TotalDelay, Drained;
    if k > 0 {
      ChainConserves(c, k, now, reorder);
    }
  }

  /** After such a run the flags and buttons of every queue but the first are those that the entries fed to it leave,
      one after the other, where released and ungrabbed devices let go. */
  lemma PipelineKeepsInStep(c: ChainState, now: int, reorder: bool, j: nat)
    requires c.Valid() && 1 <= j <= |c.mss|
    requires forall i :: 0 <= i < |c.mss| ==> AllPass(c.mss[i])
    requires forall i :: 1 <= i < |c.qs| ==> c.qs[i].events == []
    ensures var q := ChainRun(c, |c.mss|, now, reorder).qs[j];
            (q.flags, q.buttons) ==
            HeldPast(c.qs[j].flags, c.qs[j].buttons,
                     if j == 1 then c.qs[0].events
                     else if reorder then Sort(Valids(c.qs[0].events)) else Valids(c.qs[0].events))
  {
    hide HeldPast, AllPass, Sort, Valids;
    ChainHolds(c, |c.mss|, now, reorder);
  }
}
