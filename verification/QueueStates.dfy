/** The state of an event queue as a value: its entries, the modifier flags and pointing buttons derived from them, and
    the running delay of the time stamps. */
module QueueStates {
  import opened Types
  import opened ModifierFlags
  import opened ScopedFlags
  import opened EventOrder
  import Buttons = PointingButtons

  datatype QueueState = QueueState(
    events: seq<Entry>,
    flags: seq<Token>,
    buttons: seq<Buttons.Button>,
    delay: int
  )

  const EMPTY_QUEUE := QueueState([], [], [], 0)

  /** The entry as it is stored: its time stamp is put off by the delay of the queue. */
  function Delayed(e: Entry, delay: int): Entry {
    e.(time := e.time.(timeStamp := e.time.timeStamp + delay))
  }

  /** The entry as a manipulator may leave it while it is in front: used up or not, and to be waited for. */
  function Touched(e: Entry, validity: Validity, inputDelay: int): Entry {
    e.(validity := validity, time := e.time.(inputDelay := inputDelay))
  }

  /** An ordinary key that is pressed for good releases every sticky modifier. */
  predicate EndsSticky(e: Entry) {
    e.event.MomentarySwitch? && !e.event.switch.IsModifier() && e.eventType == KeyDown && e.validity == Valid
  }

  /** What appending `e` does to the modifier flags, if anything. */
  function FlagOpOf(flags: seq<Token>, e: Entry): Option<FlagOp> {
    match e.event
    case MomentarySwitch(switch) =>
      (match switch.MakeModifierFlag()
       case Some(m) => Some(PushOp(if e.eventType == KeyDown then Increase else Decrease, m, e.device))
       case None => if EndsSticky(e) then Some(EraseStickyOp) else None)
    case StickyModifier(m, stickyType) =>
      if e.eventType == KeyUp then None
      else
        var up := match stickyType case On => true case Off => false case Toggle => StickySize(flags, m) == 0;
        Some(PushOp(if up then IncreaseSticky else DecreaseSticky, m, e.device))
    case CapsLockStateChanged(value) =>
      Some(PushOp(if value != 0 then IncreaseLedLock else DecreaseLedLock, CapsLock, e.device))
    case _ => None
  }

  function FlagsAfter(flags: seq<Token>, e: Entry): seq<Token> {
    match FlagOpOf(flags, e)
    case None => flags
    case Some(op) => Apply(op, flags)
  }

  function ButtonsAfter(buttons: seq<Buttons.Button>, e: Entry): seq<Buttons.Button> {
    if e.event.MomentarySwitch? && e.event.switch.IsPointingButton() then
      Buttons.PushButton(buttons,
        Buttons.Button(if e.eventType == KeyDown then Buttons.Increase else Buttons.Decrease, e.event.switch.pair,
          e.device))
    else
      buttons
  }

  /** The queue after `e` was appended to it. */
  function Appended(q: QueueState, e: Entry): QueueState {
    QueueState(q.events + [Delayed(e, q.delay)], FlagsAfter(q.flags, e), ButtonsAfter(q.buttons, e), q.delay)
  }

  function FrontErased(q: QueueState): QueueState
    requires q.events != []
  {
    q.(events := q.events[1..], delay := if |q.events| == 1 then 0 else q.delay)
  }

  function Sorted(q: QueueState): QueueState {
    q.(events := Sort(q.events))
  }

  function DelayedAll(s: seq<Entry>, delay: int): (r: seq<Entry>)
    ensures |r| == |s| && forall i :: 0 <= i < |s| ==> r[i] == Delayed(s[i], delay)
  {
    if s == [] then [] else DelayedAll(s[..|s| - 1], delay) + [Delayed(s[|s| - 1], delay)]
  }

  function AppendedAll(q: QueueState, es: seq<Entry>): QueueState {
    if es == [] then q else Appended(AppendedAll(q, es[..|es| - 1]), es[|es| - 1])
  }

  lemma {:induction false} AppendedAllIs(q: QueueState, es: seq<Entry>)
    ensures var r := AppendedAll(q, es);
            r.delay == q.delay && r.events == q.events + DelayedAll(es, q.delay) && r.flags == FlagsRun(q.flags, es)
  {
    if es != [] {
      AppendedAllIs(q, es[..|es| - 1]);
    }
  }

  lemma AppendKeepsWellFormed(flags: seq<Token>, e: Entry)
    requires WellFormed(flags)
    ensures WellFormed(FlagsAfter(flags, e))
  {
    if FlagOpOf(flags, e).Some? {
      ApplySteps(FlagOpOf(flags, e).value, flags, Key(Plain, Zero, 0));
    }
  }

  // ----- Flags over a run of entries

  function FlagsRun(flags: seq<Token>, es: seq<Entry>): seq<Token> {
    if es == [] then flags else FlagsAfter(FlagsRun(flags, es[..|es| - 1]), es[|es| - 1])
  }

  /** Entries never bring in a lock, so the scope of ScopedFlags.dfy works in full on every queue that is fed with
      entries. */
  lemma {:induction false} EntriesBringNoLocks(es: seq<Entry>)
    ensures WellFormed(FlagsRun([], es))
    ensures forall t :: t in FlagsRun([], es) ==> t.typ.Kind() != Lock
  {
    if es != [] {
      var before, e := FlagsRun([], es[..|es| - 1]), es[|es| - 1];
      EntriesBringNoLocks(es[..|es| - 1]);
      AppendKeepsWellFormed(before, e);
      forall t | t in FlagsRun([], es) ensures t.typ.Kind() != Lock {
        if FlagOpOf(before, e).Some? && t !in before {
          assert t in multiset(FlagsRun([], es)) && t !in multiset(before);
          NewTokenIsPushed(FlagOpOf(before, e).value, before, t);
        }
      }
    }
  }

  lemma {:induction false} NoLocksCounted(t: seq<Token>)
    requires forall x :: x in t ==> x.typ.Kind() != Lock
    ensures LockCount(t) == 0
  {
    if t != [] {
      NoLocksCounted(t[1..]);
    }
  }

  /** On the flags of any queue a scope leaves exactly the wanted flags pressed, and its end restores the tokens
      together with whatever plain and sticky pushes came in between. */
  lemma ScopeOnQueue(es: seq<Entry>, mid: seq<Token>, wanted: set<ModifierFlag>)
    requires forall f :: f in mid ==> f.typ.Kind() == Plain || f.typ.Kind() == Sticky
    ensures var s := FlagsRun([], es);
            var fs := ScopeTokens(s, TEN_FLAGS, wanted);
            && (forall m :: m in TEN_FLAGS ==> (Pressed(PushAll(s, fs), m) <==> m in wanted))
            && multiset(PushAll(PushAll(PushAll(s, fs), mid), UndoTokens(fs))) == multiset(PushAll(s, mid))
  {
    var s := FlagsRun([], es);
    EntriesBringNoLocks(es);
    forall m | m in TEN_FLAGS ensures LockCount(Part(s, m)) <= 1 {
      forall x | x in Part(s, m) ensures x.typ.Kind() != Lock {
        InFilter(s, OfFlag(m), x);
      }
      NoLocksCounted(Part(s, m));
    }
    ScopeBracket(s, mid, wanted);
  }

  // ----- What the entries of a run leave pressed

  predicate IsModifierEvent(e: Entry, m: ModifierFlag, device: DeviceId) {
    e.device == device && e.event.MomentarySwitch? && e.event.switch.MakeModifierFlag() == Some(m)
  }

  /** Key downs minus releases of `m` on `device`. */
  function DownsMinusUps(es: seq<Entry>, m: ModifierFlag, device: DeviceId): int {
    if es == [] then 0
    else
      var e := es[|es| - 1];
      DownsMinusUps(es[..|es| - 1], m, device)
      + if !IsModifierEvent(e, m, device) then 0 else if e.eventType == KeyDown then 1 else -1
  }

  /** The last caps lock state that was reported, if any. */
  function LastCapsLockState(es: seq<Entry>): bool {
    if es == [] then false
    else match es[|es| - 1].event
      case CapsLockStateChanged(value) => value != 0
      case _ => LastCapsLockState(es[..|es| - 1])
  }

  /** The plain counter of a modifier on a device is the number of its key downs minus that of its releases, and the LED
      counter of caps lock follows the last state reported by whichever device. */
  lemma {:induction false} FlagsFollowEntries(es: seq<Entry>, m: ModifierFlag, device: DeviceId)
    ensures WellFormed(FlagsRun([], es))
    ensures Net(FlagsRun([], es), Key(Plain, m, device)) == DownsMinusUps(es, m, device)
    ensures Net(FlagsRun([], es), Key(LedLock, CapsLock, 0)) == if LastCapsLockState(es) then 1 else 0
  {
    if es != [] {
      var before, e := FlagsRun([], es[..|es| - 1]), es[|es| - 1];
      FlagsFollowEntries(es[..|es| - 1], m, device);
      PlainStep(before, e, m, device);
      LedStep(before, e);
    }
  }

  lemma PlainStep(flags: seq<Token>, e: Entry, m: ModifierFlag, device: DeviceId)
    requires WellFormed(flags)
    ensures WellFormed(FlagsAfter(flags, e))
    ensures Net(FlagsAfter(flags, e), Key(Plain, m, device)) == Net(flags, Key(Plain, m, device))
              + if !IsModifierEvent(e, m, device) then 0 else if e.eventType == KeyDown then 1 else -1
  {
    if FlagOpOf(flags, e).Some? {
      ApplySteps(FlagOpOf(flags, e).value, flags, Key(Plain, m, device));
    }
  }

  lemma LedStep(flags: seq<Token>, e: Entry)
    requires WellFormed(flags)
    ensures Net(FlagsAfter(flags, e), Key(LedLock, CapsLock, 0)) ==
            match e.event
            case CapsLockStateChanged(value) => if value != 0 then 1 else 0
            case _ => Net(flags, Key(LedLock, CapsLock, 0))
  {
    var k := Key(LedLock, CapsLock, 0);
    assert Good(flags, k);
    if FlagOpOf(flags, e).Some? {
      ApplySteps(FlagOpOf(flags, e).value, flags, k);
    }
  }

  function ButtonsRun(es: seq<Entry>): seq<Buttons.Button> {
    if es == [] then [] else ButtonsAfter(ButtonsRun(es[..|es| - 1]), es[|es| - 1])
  }

  predicate IsButtonEvent(e: Entry, pair: UsagePair) {
    e.event == MomentarySwitch(MomentarySwitchEvent(pair))
  }

  /** Entry `i` pressed the button and no later one released it. */
  ghost predicate ButtonHeldSince(es: seq<Entry>, i: int, pair: UsagePair) {
    && 0 <= i < |es| && IsButtonEvent(es[i], pair) && es[i].eventType == KeyDown
    && forall j :: i < j < |es| && IsButtonEvent(es[j], pair) ==> es[j].eventType == KeyDown
  }

  lemma {:induction false} ButtonsFollowEntries(es: seq<Entry>, pair: UsagePair)
    requires pair.page == PAGE_BUTTON && pair.usage != UNDEFINED
    ensures forall b :: b in ButtonsRun(es) ==> b.typ == Buttons.Increase
    ensures (exists b :: b in ButtonsRun(es) && b.pair == pair) <==> exists i :: ButtonHeldSince(es, i, pair)
  {
    if es != [] {
      var n := |es| - 1;
      ButtonsFollowEntries(es[..n], pair);
      ButtonHeldStep(es, pair);
      ButtonStep(ButtonsRun(es[..n]), es[n], pair);
    }
  }

  lemma ButtonStep(s: seq<Buttons.Button>, e: Entry, pair: UsagePair)
    requires pair.page == PAGE_BUTTON && pair.usage != UNDEFINED && forall b :: b in s ==> b.typ == Buttons.Increase
    ensures forall b :: b in ButtonsAfter(s, e) ==> b.typ == Buttons.Increase
    ensures (exists b :: b in ButtonsAfter(s, e) && b.pair == pair) <==>
            if IsButtonEvent(e, pair) then e.eventType == KeyDown else exists b :: b in s && b.pair == pair
  {
    var r := ButtonsAfter(s, e);
    if e.event.MomentarySwitch? && e.event.switch.IsPointingButton() && e.event.switch.pair.usage != UNDEFINED {
      var b := Buttons.Button(if e.eventType == KeyDown then Buttons.Increase else Buttons.Decrease,
        e.event.switch.pair, e.device);
      if e.eventType == KeyDown {
        assert r == s + [b] && r[|s|] == b;
        assert forall x :: x in r <==> x in s || x == b;
      } else {
        forall x: Buttons.Button ensures x in r <==> x in s && x.pair != b.pair {
          Buttons.InWithoutPairs(s, b, x);
        }
      }
    }
  }

  lemma ButtonHeldStep(es: seq<Entry>, pair: UsagePair)
    requires es != []
    ensures var n := |es| - 1;
            (exists i :: ButtonHeldSince(es, i, pair)) <==>
            if IsButtonEvent(es[n], pair) then es[n].eventType == KeyDown else exists i ::
              ButtonHeldSince(es[..n], i, pair)
  {
    var n := |es| - 1;
    if IsButtonEvent(es[n], pair) {
      if es[n].eventType == KeyDown {
        assert ButtonHeldSince(es, n, pair);
      }
    } else {
      if i :| ButtonHeldSince(es[..n], i, pair) {
        assert ButtonHeldSince(es, i, pair);
      }
      if i :| ButtonHeldSince(es, i, pair) {
        assert ButtonHeldSince(es[..n], i, pair);
      }
    }
  }

  /** On a queue a pointing button counts as pressed exactly if some entry pressed it and no later entry, of whichever
      device, released it. */
  lemma ButtonPressedByEntries(es: seq<Entry>, pair: UsagePair)
    requires pair.page == PAGE_BUTTON && pair.usage != UNDEFINED
    ensures Buttons.ButtonPressed(ButtonsRun(es), pair) <==> exists i :: ButtonHeldSince(es, i, pair)
  {
    ButtonsFollowEntries(es, pair);
    Buttons.CountOfPresses(ButtonsRun(es), pair);
  }

  /** No other entry touches the pointing buttons. */
  lemma ButtonsStay(buttons: seq<Buttons.Button>, e: Entry)
    requires e.event.MomentarySwitch? ==> e.event.switch.pair.page != 0x09 || e.event.switch.pair.usage == 0
    ensures ButtonsAfter(buttons, e) == buttons
  {
  }

  // ----- What one entry does to the sticky flags

  lemma InSticky(flags: seq<Token>, m: ModifierFlag)
    ensures StickySize(flags, m) == 0 <==>
            forall t :: t in flags && t.flag == m ==> t.typ != IncreaseSticky && t.typ != DecreaseSticky
  {
    var sel := StickyOf(m);
    forall t | t in flags && t.flag == m && t.typ.Kind() == Sticky ensures t in Filter(flags, sel) {
      InFilter(flags, sel, t);
    }
    if Filter(flags, sel) != [] {
      var t := Filter(flags, sel)[0];
      InFilter(flags, sel, t);
    }
  }

  /** Pressing anything but a modifier for good, a pointing button as well as a key, releases the sticky flags of every
      device; a sticky modifier event moves one counter, and a toggle of a flag goes down exactly if some device holds
      a sticky token of it; no other entry touches a sticky counter. */
  lemma StickyStep(flags: seq<Token>, e: Entry, m: ModifierFlag, device: DeviceId)
    requires WellFormed(flags)
    ensures WellFormed(FlagsAfter(flags, e))
    ensures var now, was := Net(FlagsAfter(flags, e), Key(Sticky, m, device)), Net(flags, Key(Sticky, m, device));
            match e.event
            case MomentarySwitch(switch) =>
              if switch.MakeModifierFlag() == None && e.eventType == KeyDown && e.validity == Valid then now == 0
              else now == was
            case StickyModifier(flag, stickyType) =>
              if flag != m || e.device != device || e.eventType == KeyUp then now == was
              else (match stickyType
                    case On => now == was + 1
                    case Off => now == was - 1
                    case Toggle =>
                      if exists t :: t in flags && t.flag == m && (t.typ == IncreaseSticky || t.typ == DecreaseSticky)
                      then now == was - 1 else now == was + 1)
            case _ => now == was
  {
    InSticky(flags, m);
    if FlagOpOf(flags, e).Some? {
      ApplySteps(FlagOpOf(flags, e).value, flags, Key(Sticky, m, device));
    }
  }

  /** After such a press no sticky token is left. */
  lemma PressLeavesNothingSticky(flags: seq<Token>, e: Entry)
    requires e.event.MomentarySwitch? && e.event.switch.MakeModifierFlag() == None
    requires e.eventType == KeyDown && e.validity == Valid
    ensures forall t :: t in FlagsAfter(flags, e) <==>
                          t in flags && t.typ != IncreaseSticky && t.typ != DecreaseSticky
  {
    forall t: Token ensures t in FlagsAfter(flags, e) <==>
                              t in flags && t.typ != IncreaseSticky && t.typ != DecreaseSticky {
      InFilter(flags, NotSticky, t);
    }
  }

  /** No entry touches a lock, and only a reported caps lock state an LED lock. */
  lemma LocksStay(flags: seq<Token>, e: Entry, k: Key)
    requires WellFormed(flags) && (k.kind == Lock || k.kind == LedLock)
    requires k == Key(LedLock, CapsLock, 0) ==> !e.event.CapsLockStateChanged?
    ensures Net(FlagsAfter(flags, e), k) == Net(flags, k)
  {
    if FlagOpOf(flags, e).Some? {
      ApplySteps(FlagOpOf(flags, e).value, flags, k);
    }
  }

  // ----- Sticky toggles

  predicate IsToggle(e: Entry, m: ModifierFlag) {
    e.event.StickyModifier? && e.event.flag == m && e.eventType != KeyUp
  }

  /** The devices of the toggles of `m` since the last key press that released the sticky modifiers. */
  function TogglesOf(es: seq<Entry>, m: ModifierFlag): seq<DeviceId> {
    if es == [] then [] else TogglesAfter(TogglesOf(es[..|es| - 1], m), es[|es| - 1], m)
  }

  function TogglesAfter(ds: seq<DeviceId>, e: Entry, m: ModifierFlag): seq<DeviceId> {
    if EndsSticky(e) then [] else ds + if IsToggle(e, m) then [e.device] else []
  }

  /** The second, fourth, ... toggle came from the device of the one before it. */
  ghost predicate PairsMatch(ds: seq<DeviceId>) {
    forall i :: 0 <= i && 2 * i + 1 < |ds| ==> ds[2 * i] == ds[2 * i + 1]
  }

  /** The sticky tokens of `m` after toggles from the devices `ds`. */
  ghost predicate ToggleState(t: seq<Token>, m: ModifierFlag, ds: seq<DeviceId>) {
    if PairsMatch(ds) then
      t == if |ds| % 2 == 0 then [] else [Token(IncreaseSticky, m, ds[|ds| - 1])]
    else
      Sum(t) <= 0 && exists d :: Token(DecreaseSticky, m, d) in t
  }

  lemma {:induction false} CancelSum(t: seq<Token>, f: Token)
    ensures Sum(Cancel(t, f)) == Sum(t) + f.Count()
  {
    if t != [] && !t[0].IsPaired(f) {
      CancelSum(t[1..], f);
      assert ([t[0]] + Cancel(t[1..], f))[1..] == Cancel(t[1..], f);
    }
  }

  lemma {:induction false} CancelKeeps(t: seq<Token>, f: Token, x: Token)
    requires x in t && !x.IsPaired(f)
    ensures x in Cancel(t, f)
  {
    if !t[0].IsPaired(f) && t[0] != x {
      CancelKeeps(t[1..], f, x);
    }
  }

  lemma PairsMatchSnoc(ds: seq<DeviceId>, d: DeviceId)
    ensures PairsMatch(ds + [d]) <==> PairsMatch(ds) && (|ds| % 2 == 1 ==> ds[|ds| - 1] == d)
  {
    var all := ds + [d];
    forall i | 0 <= i && 2 * i + 1 < |ds| ensures all[2 * i] == ds[2 * i] && all[2 * i + 1] == ds[2 * i + 1] {
    }
    if |ds| % 2 == 1 {
      var i := |ds| / 2;
      assert 2 * i == |ds| - 1 && all[2 * i] == ds[|ds| - 1] && all[2 * i + 1] == d;
    }
  }

  lemma ToggleStep(t: seq<Token>, m: ModifierFlag, ds: seq<DeviceId>, d: DeviceId)
    requires ToggleState(t, m, ds)
    ensures ToggleState(Cancel(t, Token(if t == [] then IncreaseSticky else DecreaseSticky, m, d)), m, ds + [d])
  {
    PairsMatchSnoc(ds, d);
    var down := Token(DecreaseSticky, m, d);
    if PairsMatch(ds) {
      if |ds| % 2 == 1 && ds[|ds| - 1] != d {
        var r := Cancel(t, down);
        assert t[1..] == [] && Cancel([], down) == [down];
        assert r == [t[0]] + [down];
        assert r[1..] == [down] && [down][1..] == [] && Sum([down]) == -1;
        assert r[1] == down;
      }
    } else {
      var x :| Token(DecreaseSticky, m, x) in t;
      CancelSum(t, down);
      CancelKeeps(t, down, Token(DecreaseSticky, m, x));
    }
  }

  lemma StickyAfterOther(flags: seq<Token>, e: Entry, m: ModifierFlag)
    requires !IsToggle(e, m) && !EndsSticky(e)
    ensures Filter(FlagsAfter(flags, e), StickyOf(m)) == Filter(flags, StickyOf(m))
  {
    if FlagOpOf(flags, e).Some? {
      var op := FlagOpOf(flags, e).value;
      var f := MakeToken(op.typ, op.flag, op.device);
      if f.typ.Kind() == LedLock {
        StickyIgnores(flags, NotEqual(f), m);
        StickyIgnores(flags, NotPairedWith(f), m);
        CancelFilter(Filter(flags, NotEqual(f)), f, StickyOf(m));
      } else {
        CancelFilter(flags, f, StickyOf(m));
      }
    }
  }

  lemma StickyIgnores(flags: seq<Token>, sel: Selector, m: ModifierFlag)
    requires forall t: Token :: t.typ.Kind() == Sticky ==> sel.Keeps(t)
    ensures Filter(Filter(flags, sel), StickyOf(m)) == Filter(flags, StickyOf(m))
  {
    FilterCommutes(flags, sel, StickyOf(m));
    forall t | t in Filter(flags, StickyOf(m)) ensures sel.Keeps(t) {
      InFilter(flags, StickyOf(m), t);
    }
    FilterKeepsAll(Filter(flags, StickyOf(m)), sel);
  }

  lemma StickyEnded(flags: seq<Token>, m: ModifierFlag)
    ensures Filter(Filter(flags, NotSticky), StickyOf(m)) == []
  {
    var t := Filter(Filter(flags, NotSticky), StickyOf(m));
    if t != [] {
      assert t[0] in t;
      InFilter(Filter(flags, NotSticky), StickyOf(m), t[0]);
      InFilter(flags, NotSticky, t[0]);
      assert false;
    }
  }

  lemma NeverToggled(m: ModifierFlag)
    ensures ToggleState([], m, [])
  {
  }

  lemma ToggleAfter(flags: seq<Token>, e: Entry, m: ModifierFlag, ds: seq<DeviceId>)
    requires IsToggle(e, m) ==> e.event.stickyType == Toggle
    requires ToggleState(Filter(flags, StickyOf(m)), m, ds)
    ensures ToggleState(Filter(FlagsAfter(flags, e), StickyOf(m)), m, TogglesAfter(ds, e, m))
  {
    hide ToggleState;
    if EndsSticky(e) {
      NeverToggled(m);
      StickyEnded(flags, m);
    } else if IsToggle(e, m) {
      var f := FlagOpOf(flags, e).value;
      CancelFilter(flags, MakeToken(f.typ, f.flag, f.device), StickyOf(m));
      ToggleStep(Filter(flags, StickyOf(m)), m, ds, e.device);
    } else {
      StickyAfterOther(flags, e, m);
      assert TogglesAfter(ds, e, m) == ds;
    }
  }

  lemma {:induction false} ToggleRun(flags: seq<Token>, es: seq<Entry>, m: ModifierFlag)
    requires StickySize(flags, m) == 0
    requires forall e :: e in es && IsToggle(e, m) ==> e.event.stickyType == Toggle
    ensures ToggleState(Filter(FlagsRun(flags, es), StickyOf(m)), m, TogglesOf(es, m))
  {
    hide ToggleState, FlagsAfter;
    if es == [] {
      NeverToggled(m);
    } else {
      var n := |es| - 1;
      assert es[n] in es;
      ToggleRun(flags, es[..n], m);
      ToggleAfter(FlagsRun(flags, es[..n]), es[n], m, TogglesOf(es[..n], m));
    }
  }

  /** Over any run of entries in which `m` is made sticky only by toggles, `m` is sticky exactly if the number of
      toggles since the last releasing key press is odd and, of the toggles before the last one, each second came from
      the device of the first. */
  lemma StickyParity(flags: seq<Token>, es: seq<Entry>, m: ModifierFlag)
    requires StickySize(flags, m) == 0
    requires forall e :: e in es && IsToggle(e, m) ==> e.event.stickyType == Toggle
    ensures var ds := TogglesOf(es, m);
            StickyActive(FlagsRun(flags, es), m) <==> |ds| % 2 == 1 && PairsMatch(ds)
  {
    ToggleRun(flags, es, m);
    var t := Filter(FlagsRun(flags, es), StickyOf(m));
    if |t| == 1 {
      assert t[1..] == [] && Sum(t) == t[0].Count();
    }
  }

  /** With one device the parity alone decides. */
  lemma StickyParityOfOneDevice(flags: seq<Token>, es: seq<Entry>, m: ModifierFlag, device: DeviceId)
    requires StickySize(flags, m) == 0
    requires forall e :: e in es && IsToggle(e, m) ==> e.event.stickyType == Toggle && e.device == device
    ensures StickyActive(FlagsRun(flags, es), m) <==> |TogglesOf(es, m)| % 2 == 1
  {
    StickyParity(flags, es, m);
    TogglesFrom(es, m, device);
    var ds := TogglesOf(es, m);
    assert forall i :: 0 <= i < |ds| ==> ds[i] in ds;
  }

  lemma {:induction false} TogglesFrom(es: seq<Entry>, m: ModifierFlag, device: DeviceId)
    requires forall e :: e in es && IsToggle(e, m) ==> e.device == device
    ensures forall d :: d in TogglesOf(es, m) ==> d == device
  {
    if es != [] {
      assert es[|es| - 1] in es;
      TogglesFrom(es[..|es| - 1], m, device);
    }
  }

  function ToggleEntry(m: ModifierFlag, device: DeviceId): Entry {
    Entry(device, EventTimeStamp(0, 0), StickyModifier(m, Toggle), Single, NoEvent, Manipulated, false, Valid)
  }

  lemma ThreeToggles(a: Entry, b: Entry, c: Entry, m: ModifierFlag)
    requires IsToggle(a, m) && IsToggle(b, m) && IsToggle(c, m)
    ensures TogglesOf([a, b, c], m) == [a.device, b.device, c.device]
  {
    TogglesSnoc([], a, m);
    TogglesSnoc([a], b, m);
    TogglesSnoc([a, b], c, m);
    hide TogglesOf;
    assert [] + [a] == [a] && [a] + [b] == [a, b] && [a, b] + [c] == [a, b, c];
  }

  /** Three toggles of which the second comes from another device: an odd number, and yet the flag is not sticky. */
  lemma OddTogglesOfTwoDevices(m: ModifierFlag, d: DeviceId, other: DeviceId)
    requires d != other
    ensures var es := [ToggleEntry(m, d), ToggleEntry(m, other), ToggleEntry(m, d)];
            |TogglesOf(es, m)| == 3 && !StickyActive(FlagsRun([], es), m)
  {
    hide TogglesOf, StickyActive, FlagsRun;
    var a, b := ToggleEntry(m, d), ToggleEntry(m, other);
    StickyParity([], [a, b, a], m);
    ThreeToggles(a, b, a, m);
    var ds := TogglesOf([a, b, a], m);
    assert ds[2 * 0] != ds[2 * 0 + 1];
  }

  lemma TogglesSnoc(es: seq<Entry>, e: Entry, m: ModifierFlag)
    ensures TogglesOf(es + [e], m) == TogglesAfter(TogglesOf(es, m), e, m)
    ensures TogglesOf([], m) == []
  {
    assert (es + [e])[..|es|] == es;
  }

  // ----- Time order

  datatype QueueOp =
    | AppendOp(entry: Entry)
    | DelayOp(value: nat)
    | EraseFrontOp
    | SortOp
    | ClearOp

  /** The front is only ever erased from a queue that has one. */
  function QueueStep(q: QueueState, op: QueueOp): QueueState {
    match op
    case AppendOp(e) => Appended(q, e)
    case DelayOp(value) => q.(delay := q.delay + value)
    case EraseFrontOp => if q.events == [] then q else FrontErased(q)
    case SortOp => Sorted(q)
    case ClearOp => q.(events := [], delay := 0)
  }

  function QueueRun(ops: seq<QueueOp>): QueueState {
    if ops == [] then EMPTY_QUEUE else QueueStep(QueueRun(ops[..|ops| - 1]), ops[|ops| - 1])
  }

  /** Every entry that was ever handed in. */
  function HandedIn(ops: seq<QueueOp>): seq<Entry> {
    if ops == [] then []
    else HandedIn(ops[..|ops| - 1]) + if ops[|ops| - 1].AppendOp? then [ops[|ops| - 1].entry] else []
  }

  lemma ButtonsSnoc(es: seq<Entry>, e: Entry)
    ensures ButtonsRun(es + [e]) == ButtonsAfter(ButtonsRun(es), e)
    ensures FlagsRun([], es + [e]) == FlagsAfter(FlagsRun([], es), e)
  {
    assert (es + [e])[..|es|] == es;
  }

  /** Flags and buttons follow all entries that were ever handed in: sorting, erasing and clearing entries does not
      touch them, nor does the delay. */
  lemma {:induction false} FlagsOutliveEntries(ops: seq<QueueOp>)
    ensures QueueRun(ops).flags == FlagsRun([], HandedIn(ops))
    ensures QueueRun(ops).buttons == ButtonsRun(HandedIn(ops))
  {
    hide FlagsAfter, ButtonsAfter, Sort;
    if ops != [] {
      var r, op := ops[..|ops| - 1], ops[|ops| - 1];
      FlagsOutliveEntries(r);
      if op.AppendOp? {
        ButtonsSnoc(HandedIn(r), op.entry);
      } else {
        assert HandedIn(r) + [] == HandedIn(r);
      }
    }
  }

  /** How many entries wait. */
  function Waiting(ops: seq<QueueOp>): nat {
    if ops == [] then 0
    else
      var n := Waiting(ops[..|ops| - 1]);
      match ops[|ops| - 1]
      case AppendOp(_) => n + 1
      case EraseFrontOp => if n == 0 then 0 else n - 1
      case ClearOp => 0
      case _ => n
  }

  /** The delays that were asked for since the last entry was taken from the queue, or all were. */
  function DelaysSinceEmptied(ops: seq<QueueOp>): int {
    if ops == [] then 0
    else
      var r, op := ops[..|ops| - 1], ops[|ops| - 1];
      if op == ClearOp || (op == EraseFrontOp && Waiting(r) == 1) then 0
      else DelaysSinceEmptied(r) + if op.DelayOp? then op.value else 0
  }

  /** The running delay is the sum of the delays since the queue was last emptied. */
  lemma {:induction false} DelayIsSum(ops: seq<QueueOp>)
    ensures |QueueRun(ops).events| == Waiting(ops)
    ensures QueueRun(ops).delay == DelaysSinceEmptied(ops)
  {
    hide FlagsAfter, ButtonsAfter, Sort;
    if ops != [] {
      DelayIsSum(ops[..|ops| - 1]);
      SortPermutes(QueueRun(ops[..|ops| - 1]).events);
    }
  }

  /** An entry is stored last, and but for its time stamp as it was handed in. */
  lemma StoredEntry(ops: seq<QueueOp>, e: Entry)
    ensures var q, q' := QueueRun(ops), QueueRun(ops + [AppendOp(e)]);
            && |q'.events| == |q.events| + 1 && q'.events[..|q.events|] == q.events
            && var x := q'.events[|q.events|];
               && x.time.timeStamp == e.time.timeStamp + DelaysSinceEmptied(ops)
               && x.time.inputDelay == e.time.inputDelay && x.device == e.device && x.event == e.event
               && x.eventType == e.eventType && x.originalEvent == e.originalEvent && x.state == e.state
               && x.isLazy == e.isLazy && x.validity == e.validity
  {
    hide FlagsAfter, ButtonsAfter;
    OpsSnoc(ops, AppendOp(e));
    DelayIsSum(ops);
  }

  /** The time stamp with which the last append was stored: the one handed in, put off by the delay of that moment. */
  function LastDue(ops: seq<QueueOp>): int {
    if ops == [] then 0
    else
      var r := ops[..|ops| - 1];
      match ops[|ops| - 1]
      case AppendOp(e) => e.time.timeStamp + QueueRun(r).delay
      case _ => LastDue(r)
  }

  /** Whatever is appended while the queue is not empty is due no earlier than what was appended before. */
  predicate DueInOrder(ops: seq<QueueOp>) {
    ops == [] ||
    var r, op := ops[..|ops| - 1], ops[|ops| - 1];
    && DueInOrder(r)
    && (op.AppendOp? && QueueRun(r).events != [] ==> LastDue(r) <= op.entry.time.timeStamp + QueueRun(r).delay)
  }

  ghost predicate TimeOrdered(s: seq<Entry>) {
    forall i, j :: 0 <= i < j < |s| ==> s[i].time.timeStamp <= s[j].time.timeStamp
  }

  lemma OpsSnoc(ops: seq<QueueOp>, op: QueueOp)
    ensures QueueRun(ops + [op]) == QueueStep(QueueRun(ops), op)
    ensures LastDue(ops + [op]) ==
            if op.AppendOp? then op.entry.time.timeStamp + QueueRun(ops).delay else LastDue(ops)
    ensures DueInOrder(ops + [op]) <==>
            DueInOrder(ops)
            && (op.AppendOp? && QueueRun(ops).events != [] ==>
                  LastDue(ops) <= op.entry.time.timeStamp + QueueRun(ops).delay)
  {
    assert (ops + [op])[..|ops|] == ops;
  }

  function LastStamp(q: QueueState): int
    requires q.events != []
  {
    q.events[|q.events| - 1].time.timeStamp
  }

  /** One operation keeps the time order exactly if it is no append of something due earlier than the last entry. */
  lemma TimeStep(q: QueueState, op: QueueOp)
    requires TimeOrdered(q.events)
    ensures var q' := QueueStep(q, op);
            && (TimeOrdered(q'.events) <==>
                (op.AppendOp? && q.events != [] ==> LastStamp(q) <= op.entry.time.timeStamp + q.delay))
            && (q'.events != [] ==>
                  if op.AppendOp? then LastStamp(q') == op.entry.time.timeStamp + q.delay
                  else q.events != [] && LastStamp(q') == LastStamp(q))
  {
    match op
    case AppendOp(e) => TimeOrderedSnoc(q.events, Delayed(e, q.delay));
    case SortOp => SortPermutes(q.events);
    case _ =>
  }

  /** The last entry of the queue is the one that was due last, and the queue was in time order all along exactly if
      every append was due in order. */
  lemma {:induction false} DueOrderIsTimeOrder(ops: seq<QueueOp>)
    ensures DueInOrder(ops) ==> TimeOrdered(QueueRun(ops).events)
    ensures DueInOrder(ops) && QueueRun(ops).events != [] ==> LastStamp(QueueRun(ops)) == LastDue(ops)
  {
    if ops != [] {
      var r, op := ops[..|ops| - 1], ops[|ops| - 1];
      assert ops == r + [op];
      hide QueueRun, LastDue, DueInOrder, QueueStep, TimeOrdered;
      DueOrderIsTimeOrder(r);
      OpsSnoc(r, op);
      if DueInOrder(ops) {
        TimeStep(QueueRun(r), op);
      }
    }
  }

  lemma TimeOrderedSnoc(r: seq<Entry>, e: Entry)
    ensures TimeOrdered(r + [e]) <==> TimeOrdered(r) && (r != [] ==> r[|r| - 1].time.timeStamp <= e.time.timeStamp)
  {
    var s := r + [e];
    if TimeOrdered(s) {
      assert forall i, j :: 0 <= i < j < |r| ==> s[i] == r[i] && s[j] == r[j];
      assert r != [] ==> s[|r| - 1] == r[|r| - 1] && s[|r|] == e;
    }
  }

  lemma NothingDue()
    ensures DueInOrder([]) && TimeOrdered(QueueRun([]).events)
  {
  }

  ghost predicate AlwaysOrdered(ops: seq<QueueOp>) {
    forall k :: 0 <= k <= |ops| ==> TimeOrdered(QueueRun(ops[..k]).events)
  }

  lemma AlwaysSnoc(r: seq<QueueOp>, op: QueueOp)
    ensures AlwaysOrdered(r + [op]) <==> AlwaysOrdered(r) && TimeOrdered(QueueRun(r + [op]).events)
    ensures AlwaysOrdered(r) ==> TimeOrdered(QueueRun(r).events)
  {
    hide QueueRun, TimeOrdered;
    var ops := r + [op];
    assert ops[..|ops|] == ops && r[..|r|] == r && forall k :: 0 <= k <= |r| ==> ops[..k] == r[..k];
    if AlwaysOrdered(ops) {
      forall k | 0 <= k <= |r| ensures TimeOrdered(QueueRun(r[..k]).events) {
        assert ops[..k] == r[..k];
      }
    }
    if AlwaysOrdered(r) && TimeOrdered(QueueRun(ops).events) {
      forall k | 0 <= k <= |ops| ensures TimeOrdered(QueueRun(ops[..k]).events) {
        assert k <= |r| ==> ops[..k] == r[..k];
      }
    }
  }

  /** The queue is in time order at every moment of a run exactly if nothing is appended, while it is not empty, that is
      due earlier than what was appended before; whatever else is delayed, erased, sorted or cleared, and although the
      delay is dropped when the queue runs empty. */
  lemma {:induction false} QueueTimeOrder(ops: seq<QueueOp>)
    ensures DueInOrder(ops) <==> forall k :: 0 <= k <= |ops| ==> TimeOrdered(QueueRun(ops[..k]).events)
  {
    hide QueueRun, LastDue, DueInOrder, QueueStep, TimeOrdered;
    if ops == [] {
      NothingDue();
      assert ops[..0] == [];
    } else {
      var r, op := ops[..|ops| - 1], ops[|ops| - 1];
      assert ops == r + [op];
      QueueTimeOrder(r);
      assert DueInOrder(r) <==> AlwaysOrdered(r);
      AlwaysSnoc(r, op);
      if DueInOrder(r) {
        OneMoreDue(r, op);
      } else {
        OpsSnoc(r, op);
      }
      assert DueInOrder(ops) <==> AlwaysOrdered(ops);
    }
  }

  lemma OneMoreDue(r: seq<QueueOp>, op: QueueOp)
    requires DueInOrder(r)
    ensures DueInOrder(r + [op]) <==> TimeOrdered(QueueRun(r + [op]).events)
  {
    hide QueueRun, LastDue, DueInOrder, QueueStep, TimeOrdered;
    OpsSnoc(r, op);
    DueOrderIsTimeOrder(r);
    TimeStep(QueueRun(r), op);
  }

  /** The queue is in time order, and entries handed in with time stamps from `t` on may follow. */
  ghost predicate Ready(ops: seq<QueueOp>, t: int) {
    DueInOrder(ops) && (QueueRun(ops).events != [] ==> LastDue(ops) <= t + QueueRun(ops).delay)
  }

  lemma DelayStep(q: QueueState, op: QueueOp)
    ensures var q' := QueueStep(q, op);
            && (q'.events != [] && !op.AppendOp? ==> q.events != [] && q'.delay >= q.delay)
            && (op.AppendOp? ==> q'.delay == q.delay)
            && (op.DelayOp? ==> q'.delay == q.delay + op.value)
  {
    SortPermutes(q.events);
  }

  lemma ReadyStep(ops: seq<QueueOp>, op: QueueOp, t: int)
    requires Ready(ops, t) && (op.AppendOp? ==> op.entry.time.timeStamp >= t)
    ensures Ready(ops + [op], if op.AppendOp? then op.entry.time.timeStamp else t)
    ensures op.DelayOp? ==> Ready(ops + [op], t - op.value)
    ensures op.AppendOp? ==> QueueRun(ops + [op]).delay == QueueRun(ops).delay
  {
    hide QueueRun, LastDue, DueInOrder, QueueStep;
    OpsSnoc(ops, op);
    DelayStep(QueueRun(ops), op);
  }

  lemma ReadyLater(ops: seq<QueueOp>, t: int, u: int)
    requires Ready(ops, t) && t <= u
    ensures Ready(ops, u)
  {
  }

  /** Appending entry after entry. */
  function Appends(es: seq<Entry>): seq<QueueOp> {
    if es == [] then [] else Appends(es[..|es| - 1]) + [AppendOp(es[|es| - 1])]
  }

  lemma {:induction false} ReadyAppends(ops: seq<QueueOp>, es: seq<Entry>, t: int)
    requires Ready(ops, t) && TimeOrdered(es) && (es != [] ==> t <= es[0].time.timeStamp)
    ensures Ready(ops + Appends(es), if es == [] then t else es[|es| - 1].time.timeStamp)
  {
    if es == [] {
      assert ops + [] == ops;
    } else {
      var r, e := es[..|es| - 1], es[|es| - 1];
      assert es == r + [e] && ops + Appends(es) == (ops + Appends(r)) + [AppendOp(e)];
      hide Ready;
      TimeOrderedSnoc(r, e);
      ReadyAppends(ops, r, t);
      ReadyStep(ops + Appends(r), AppendOp(e), if r == [] then t else r[|r| - 1].time.timeStamp);
    }
  }

  /** A manipulator that handles an entry with time stamp `t` posts its events at `t` and later, and then puts off
      everything that comes after by as much as its last event was late. */
  lemma PostsPutOffTheRest(ops: seq<QueueOp>, t: int, posts: seq<Entry>, late: nat)
    requires Ready(ops, t) && TimeOrdered(posts)
    requires forall e :: e in posts ==> t <= e.time.timeStamp <= t + late
    ensures Ready(ops + Appends(posts) + [DelayOp(late)], t)
  {
    hide Ready, TimeOrdered;
    if posts != [] {
      assert posts[0] in posts && posts[|posts| - 1] in posts;
    }
    ReadyAppends(ops, posts, t);
    var last := if posts == [] then t else posts[|posts| - 1].time.timeStamp;
    ReadyStep(ops + Appends(posts), DelayOp(late), last);
    ReadyLater(ops + Appends(posts) + [DelayOp(late)], last - late, t);
  }

  /** What happens to an output queue while the entry with time stamp `t` is in front: posts and the delay that they
      call for, and then the entry itself may be forwarded, and the queue sorted, cleared or emptied from the front. */
  datatype Round = Round(t: int, posts: seq<Entry>, late: nat, rest: seq<QueueOp>)

  ghost predicate GoodRound(r: Round) {
    && TimeOrdered(r.posts)
    && (forall e :: e in r.posts ==> r.t <= e.time.timeStamp <= r.t + r.late)
    && forall op :: op in r.rest && op.AppendOp? ==> op.entry.time.timeStamp == r.t
  }

  function RoundOps(r: Round): seq<QueueOp> {
    Appends(r.posts) + [DelayOp(r.late)] + r.rest
  }

  function RoundsOps(rs: seq<Round>): seq<QueueOp> {
    if rs == [] then [] else RoundsOps(rs[..|rs| - 1]) + RoundOps(rs[|rs| - 1])
  }

  lemma {:induction false} ReadyRest(ops: seq<QueueOp>, rest: seq<QueueOp>, t: int)
    requires Ready(ops, t) && forall op :: op in rest && op.AppendOp? ==> op.entry.time.timeStamp == t
    ensures Ready(ops + rest, t)
  {
    if rest == [] {
      assert ops + [] == ops;
    } else {
      var r, op := rest[..|rest| - 1], rest[|rest| - 1];
      assert op in rest && ops + rest == (ops + r) + [op];
      hide Ready;
      ReadyRest(ops, r, t);
      ReadyStep(ops + r, op, t);
    }
  }

  lemma ReadyRound(ops: seq<QueueOp>, r: Round)
    requires Ready(ops, r.t) && GoodRound(r)
    ensures Ready(ops + RoundOps(r), r.t)
  {
    hide Ready, Appends;
    PostsPutOffTheRest(ops, r.t, r.posts, r.late);
    ReadyRest(ops + Appends(r.posts) + [DelayOp(r.late)], r.rest, r.t);
    assert ops + RoundOps(r) == ops + Appends(r.posts) + [DelayOp(r.late)] + r.rest;
  }

  /** Manipulators keep the output queue in time order: as long as the entries that they take from the front have time
      stamps that never decrease, and each posts no earlier than its entry and then delays what follows, the queue is in
      time order at every moment, although the time stamps handed in go back after every round of posts. */
  lemma {:induction false} RoundsKeepTimeOrder(rs: seq<Round>)
    requires forall r :: r in rs ==> GoodRound(r)
    requires forall i, j :: 0 <= i < j < |rs| ==> rs[i].t <= rs[j].t
    ensures rs == [] || Ready(RoundsOps(rs), rs[|rs| - 1].t)
    ensures forall k :: 0 <= k <= |RoundsOps(rs)| ==> TimeOrdered(QueueRun(RoundsOps(rs)[..k]).events)
  {
    hide GoodRound, RoundOps;
    if rs != [] {
      var before, r := rs[..|rs| - 1], rs[|rs| - 1];
      assert r in rs;
      RoundsKeepTimeOrder(before);
      if before == [] {
        assert Ready([], r.t);
      } else {
        ReadyLater(RoundsOps(before), before[|before| - 1].t, r.t);
      }
      ReadyRound(RoundsOps(before), r);
    }
    QueueTimeOrder(RoundsOps(rs));
  }
}
