/** The lazy modifier events that manipulators post around the events they send. */
module LazyModifiers {
  import opened Types
  import opened ModifierFlags
  import opened ScopedFlags
  import opened EventOrder
  import opened QueueStates
  import opened EventQueue

  /** Caps lock is posted as a sticky modifier, every other modifier as a key. */
  function LazyEvent(switch: MomentarySwitchEvent, eventType: EventType): (Event, EventType) {
    if switch.IsCapsLock() then (StickyModifier(CapsLock, if eventType == KeyDown then On else Off), Single)
    else (MomentarySwitch(switch), eventType)
  }

  function LazyEntry(switch: MomentarySwitchEvent, eventType: EventType, device: DeviceId, time: EventTimeStamp,
                     delay: int,
                     original: Event): Entry
  {
    var (event, typ) := LazyEvent(switch, eventType);
    Entry(device, time.(timeStamp := time.timeStamp + delay), event, typ, original, Manipulated, true, Validity.Valid)
  }

  /** The entries posted for the flags of `order`, the first of them with the time stamp put off by `delay`. */
  function LazyEntries(order: seq<ModifierFlag>, eventType: EventType, device: DeviceId, time: EventTimeStamp,
                       delay: int,
                       original: Event): seq<Entry>
  {
    if order == [] then []
    else if !SwitchEventOf(order[0]).Valid() then LazyEntries(order[1..], eventType, device, time, delay, original)
    else [LazyEntry(SwitchEventOf(order[0]), eventType, device, time, delay, original)]
         + LazyEntries(order[1..], eventType, device, time, delay + 1, original)
  }

  method PostLazyModifierKeyEvent(switch: MomentarySwitchEvent, eventType: EventType, device: DeviceId,
                                  time: EventTimeStamp,
                                  delay: int, original: Event, q: Queue)
    returns (newDelay: int)
    requires q.Valid()
    modifies q.Repr()
    ensures q.Valid()
    ensures switch.Valid() ==>
              newDelay == delay + 1 && q.Value() ==
                Appended(old(q.Value()), LazyEntry(switch, eventType, device, time, delay, original))
    ensures !switch.Valid() ==> newDelay == delay && q.Value() == old(q.Value())
  {
    newDelay := delay;
    if switch.Valid() {
      var t := time.(timeStamp := time.timeStamp + newDelay);
      newDelay := newDelay + 1;
      var (event, typ) := LazyEvent(switch, eventType);
      q.PushBack(Entry(device, t, event, typ, original, Manipulated, true, Validity.Valid));
    }
  }

  /** The set of modifiers is given by the order in which the loop visits it. */
  method PostLazyModifierKeyEvents(order: seq<ModifierFlag>, eventType: EventType, device: DeviceId,
                                   time: EventTimeStamp,
                                   delay: int, original: Event, q: Queue)
    returns (newDelay: int)
    requires q.Valid()
    modifies q.Repr()
    ensures q.Valid()
    ensures var es := LazyEntries(order, eventType, device, time, delay, original);
            q.Value() == AppendedAll(old(q.Value()), es) && newDelay == delay + |es|
  {
    hide LazyEntries, LazyEntry, AppendedAll, Appended, SwitchEventOf;
    newDelay := delay;
    ghost var es: seq<Entry> := [];
    NothingLazy(eventType, device, time, original, old(q.Value()));
    ghost var all := LazyEntries(order, eventType, device, time, delay, original);
    assert order[0..] == order;
    for i := 0 to |order|
      invariant q.Valid() && q.Value() == AppendedAll(old(q.Value()), es)
      invariant newDelay == delay + |es|
      invariant es + LazyEntries(order[i..], eventType, device, time, newDelay, original) == all
    {
      var switch := SwitchEventOf(order[i]);
      ghost var e := LazyEntry(switch, eventType, device, time, newDelay, original);
      LazyEntriesFrom(es, order, i, eventType, device, time, newDelay, original);
      AppendedSnoc(old(q.Value()), es, e);
      newDelay := PostLazyModifierKeyEvent(switch, eventType, device, time, newDelay, original, q);
      if switch.Valid() {
        es := es + [e];
      }
    }
    assert order[|order|..] == [] && es + [] == es;
  }

  lemma NothingLazy(eventType: EventType, device: DeviceId, time: EventTimeStamp, original: Event, q: QueueState)
    ensures forall delay :: LazyEntries([], eventType, device, time, delay, original) == []
    ensures AppendedAll(q, []) == q
  {
  }

  lemma LazyEntriesFrom(es: seq<Entry>, order: seq<ModifierFlag>, i: nat, eventType: EventType, device: DeviceId,
                        time: EventTimeStamp, delay: int, original: Event)
    requires i < |order|
    ensures var switch := SwitchEventOf(order[i]);
            var e := LazyEntry(switch, eventType, device, time, delay, original);
            es + LazyEntries(order[i..], eventType, device, time, delay, original) ==
            if switch.Valid() then (es + [e])
              + LazyEntries(order[i + 1..], eventType, device, time, delay + 1, original)
            else es + LazyEntries(order[i + 1..], eventType, device, time, delay, original)
  {
    assert order[i..][0] == order[i] && order[i..][1..] == order[i + 1..];
  }

  lemma AppendedSnoc(q: QueueState, es: seq<Entry>, e: Entry)
    ensures AppendedAll(q, es + [e]) == Appended(AppendedAll(q, es), e)
  {
    assert (es + [e])[..|es|] == es;
  }

  // ----- The entries

  /** The modifiers that have a key. */
  function WithKeys(order: seq<ModifierFlag>): seq<ModifierFlag> {
    if order == [] then []
    else (if order[0] == Zero || order[0] == End then [] else [order[0]]) + WithKeys(order[1..])
  }

  lemma OneLazyEntry(m: ModifierFlag, eventType: EventType, device: DeviceId, time: EventTimeStamp, delay: int,
                     original: Event)
    ensures SwitchEventOf(m).Valid() <==> m != Zero && m != End
    ensures SwitchEventOf(m).Valid() ==>
              var event := if m == CapsLock then StickyModifier(CapsLock, if eventType == KeyDown then On else Off)
                           else MomentarySwitch(SwitchEventOf(m));
              LazyEntry(SwitchEventOf(m), eventType, device, time, delay, original) ==
              Entry(device, EventTimeStamp(time.timeStamp + delay, time.inputDelay), event,
                    if m == CapsLock then Single else eventType, original, Manipulated, true, Validity.Valid)
  {
  }

  lemma WithKeysCons(order: seq<ModifierFlag>)
    ensures WithKeys([]) == []
    ensures order != [] ==>
              WithKeys(order) ==
              (if order[0] == Zero || order[0] == End then [] else [order[0]]) + WithKeys(order[1..])
  {
  }

  lemma LazyEntriesCons(order: seq<ModifierFlag>, eventType: EventType, device: DeviceId, time: EventTimeStamp,
                        delay: int, original: Event)
    requires order != []
    ensures var switch := SwitchEventOf(order[0]);
            LazyEntries(order, eventType, device, time, delay, original) ==
            if switch.Valid() then [LazyEntry(switch, eventType, device, time, delay, original)]
              + LazyEntries(order[1..], eventType, device, time, delay + 1, original)
            else LazyEntries(order[1..], eventType, device, time, delay, original)
  {
    hide SwitchEventOf, LazyEntry;
  }

  /** One entry for each modifier that has a key, each due one unit after the one before: caps lock as a sticky modifier
      that is switched on or off at once, every other as its key going down or up. */
  lemma {:induction false} LazyEntriesAre(order: seq<ModifierFlag>, eventType: EventType, device: DeviceId,
                                          time: EventTimeStamp, delay: int, original: Event)
    ensures var es, ms := LazyEntries(order, eventType, device, time, delay, original), WithKeys(order);
            && |es| == |ms|
            && forall i :: 0 <= i < |es| ==>
                 var event := if ms[i] == CapsLock
                   then StickyModifier(CapsLock, if eventType == KeyDown then On else Off)
                              else MomentarySwitch(SwitchEventOf(ms[i]));
                 es[i] == Entry(device, EventTimeStamp(time.timeStamp + delay + i, time.inputDelay), event,
                                if ms[i] == CapsLock then Single else eventType, original, Manipulated, true,
                                Validity.Valid)
    decreases |order|
  {
    hide LazyEntries, WithKeys, LazyEntry, SwitchEventOf;
    WithKeysCons(order);
    if order == [] {
      NothingLazy(eventType, device, time, original, EMPTY_QUEUE);
    } else {
      OneLazyEntry(order[0], eventType, device, time, delay, original);
      LazyEntriesCons(order, eventType, device, time, delay, original);
      if SwitchEventOf(order[0]).Valid() {
        LazyEntriesAre(order[1..], eventType, device, time, delay + 1, original);
      } else {
        LazyEntriesAre(order[1..], eventType, device, time, delay, original);
        assert [] + WithKeys(order[1..]) == WithKeys(order[1..]);
      }
    }
  }

  // ----- Time stamps

  function ValidCount(order: seq<ModifierFlag>): nat {
    if order == [] then 0 else (if SwitchEventOf(order[0]).Valid() then 1 else 0) + ValidCount(order[1..])
  }

  lemma {:induction false} LazyTimes(order: seq<ModifierFlag>, eventType: EventType, device: DeviceId,
                                     time: EventTimeStamp,
                                     delay: int, original: Event)
    ensures var es := LazyEntries(order, eventType, device, time, delay, original);
            |es| == ValidCount(order) && forall i :: 0 <= i < |es| ==>
              es[i].time.timeStamp == time.timeStamp + delay + i
    decreases |order|
  {
    if order != [] {
      LazyTimes(order[1..], eventType, device, time, delay, original);
      LazyTimes(order[1..], eventType, device, time, delay + 1, original);
    }
  }

  // ----- Flags

  /** The token that posting `m` pushes. */
  function LazyTokens(order: seq<ModifierFlag>, eventType: EventType, device: DeviceId): seq<Token> {
    if order == [] then []
    else LazyTokens(order[..|order| - 1], eventType, device) + LazyToken(order[|order| - 1], eventType, device)
  }

  function LazyToken(m: ModifierFlag, eventType: EventType, device: DeviceId): seq<Token> {
    if m == Zero || m == End then []
    else if m == CapsLock then [Token(if eventType == KeyDown then IncreaseSticky else DecreaseSticky, m, device)]
    else [Token(if eventType == KeyDown then Increase else Decrease, m, device)]
  }

  lemma LazyEntryPushes(flags: seq<Token>, m: ModifierFlag, eventType: EventType, device: DeviceId,
                        time: EventTimeStamp,
                        delay: int, original: Event)
    requires SwitchEventOf(m).Valid()
    ensures FlagsAfter(flags, LazyEntry(SwitchEventOf(m), eventType, device, time, delay, original)) ==
            PushAll(flags, LazyToken(m, eventType, device))
  {
    var f := LazyToken(m, eventType, device)[0];
    var e := LazyEntry(SwitchEventOf(m), eventType, device, time, delay, original);
    assert FlagOpOf(flags, e) == Some(PushOp(f.typ, f.flag, f.device));
    assert PushAll(flags, [f]) == PushAll(Push(flags, f), [f][1..]) == Push(flags, f);
  }

  lemma {:induction false} LazyEntriesSnoc(order: seq<ModifierFlag>, m: ModifierFlag, eventType: EventType,
                                           device: DeviceId,
                                           time: EventTimeStamp, delay: int, original: Event)
    ensures LazyEntries(order + [m], eventType, device, time, delay, original) ==
            LazyEntries(order, eventType, device, time, delay, original)
            + if SwitchEventOf(m).Valid()
              then [LazyEntry(SwitchEventOf(m), eventType, device, time, delay + ValidCount(order), original)] else []
    decreases |order|
  {
    if order == [] {
      assert ([] + [m])[1..] == [];
    } else {
      assert (order + [m])[1..] == order[1..] + [m];
      LazyEntriesSnoc(order[1..], m, eventType, device, time,
                      if SwitchEventOf(order[0]).Valid() then delay + 1 else delay, original);
    }
  }

  lemma FlagsRunSnoc(flags: seq<Token>, es: seq<Entry>, e: Entry)
    ensures FlagsRun(flags, es + [e]) == FlagsAfter(FlagsRun(flags, es), e)
  {
    assert (es + [e])[..|es|] == es;
  }

  lemma LazyEntryPushesOn(flags: seq<Token>, before: seq<Entry>, m: ModifierFlag, eventType: EventType,
                          device: DeviceId,
                          time: EventTimeStamp, delay: int, original: Event)
    ensures FlagsRun(flags, before + if SwitchEventOf(m).Valid()
                                     then [LazyEntry(SwitchEventOf(m), eventType, device, time, delay, original)]
                                       else []) ==
            PushAll(FlagsRun(flags, before), LazyToken(m, eventType, device))
  {
    if SwitchEventOf(m).Valid() {
      FlagsRunSnoc(flags, before, LazyEntry(SwitchEventOf(m), eventType, device, time, delay, original));
      LazyEntryPushes(FlagsRun(flags, before), m, eventType, device, time, delay, original);
    } else {
      assert before + [] == before;
    }
  }

  lemma LazyTokensSnoc(flags: seq<Token>, r: seq<ModifierFlag>, m: ModifierFlag, eventType: EventType, device: DeviceId)
    ensures PushAll(flags, LazyTokens(r + [m], eventType, device)) ==
            PushAll(PushAll(flags, LazyTokens(r, eventType, device)), LazyToken(m, eventType, device))
  {
    assert (r + [m])[..|r|] == r;
    PushAllAppend(flags, LazyTokens(r, eventType, device), LazyToken(m, eventType, device));
  }

  lemma LazyEntriesOfNone(flags: seq<Token>, eventType: EventType, device: DeviceId, time: EventTimeStamp, delay: int,
                          original: Event)
    ensures FlagsRun(flags, LazyEntries([], eventType, device, time, delay, original)) ==
            PushAll(flags, LazyTokens([], eventType, device))
  {
  }

  lemma {:induction false} LazyEntriesPush(flags: seq<Token>, order: seq<ModifierFlag>, eventType: EventType,
                                           device: DeviceId,
                                           time: EventTimeStamp, delay: int, original: Event)
    ensures FlagsRun(flags, LazyEntries(order, eventType, device, time, delay, original)) ==
            PushAll(flags, LazyTokens(order, eventType, device))
  {
    hide LazyTokens, LazyEntries, LazyToken, LazyEntry, FlagsRun, PushAll, ValidCount, SwitchEventOf, LazyEvent;
    if order == [] {
      LazyEntriesOfNone(flags, eventType, device, time, delay, original);
    } else {
      var r, m := order[..|order| - 1], order[|order| - 1];
      assert order == r + [m];
      LazyEntriesPush(flags, r, eventType, device, time, delay, original);
      LazyEntriesSnoc(r, m, eventType, device, time, delay, original);
      LazyEntryPushesOn(flags, LazyEntries(r, eventType, device, time, delay, original), m, eventType, device, time,
                        delay + ValidCount(r), original);
      LazyTokensSnoc(flags, r, m, eventType, device);
    }
  }

  /** The counter that posting `m` moves. */
  function LazyKey(m: ModifierFlag, device: DeviceId): Key {
    Key(if m == CapsLock then Sticky else Plain, m, device)
  }

  lemma LazyTokenNet(m: ModifierFlag, eventType: EventType, device: DeviceId, k: Key)
    requires eventType != Single
    ensures Net(LazyToken(m, eventType, device), k) ==
            if k == LazyKey(m, device) && m != Zero && m != End then (if eventType == KeyDown then 1 else -1) else 0
  {
    NetOfNone(k);
    hide Net;
    if m != Zero && m != End {
      var f := LazyToken(m, eventType, device)[0];
      assert LazyToken(m, eventType, device) == [f] + [];
      NetCons(f, [], k);
    }
  }

  lemma NetOfNone(k: Key)
    ensures Net([], k) == 0
  {
  }

  lemma {:induction false} LazyTokensAreAdditive(order: seq<ModifierFlag>, eventType: EventType, device: DeviceId)
    ensures forall f :: f in LazyTokens(order, eventType, device) ==> f.typ.Kind() == Plain || f.typ.Kind() == Sticky
  {
    if order != [] {
      LazyTokensAreAdditive(order[..|order| - 1], eventType, device);
    }
  }

  predicate LazyMoves(k: Key, device: DeviceId) {
    k == LazyKey(k.flag, device) && k.flag != Zero && k.flag != End
  }

  lemma {:induction false} LazyNet(order: seq<ModifierFlag>, eventType: EventType, device: DeviceId, k: Key)
    requires eventType != Single
    ensures var n: int := multiset(order)[k.flag];
            Net(LazyTokens(order, eventType, device), k) ==
            if !LazyMoves(k, device) then 0 else if eventType == KeyDown then n else -n
  {
    if order != [] {
      var r, m := order[..|order| - 1], order[|order| - 1];
      assert order == r + [m];
      LazyNet(r, eventType, device, k);
      var fs, gs := LazyTokens(r, eventType, device), LazyToken(m, eventType, device);
      assert Net(fs + gs, k) == Net(fs, k) + Net(gs, k);
      LazyTokenNet(m, eventType, device, k);
    }
  }

  /** Posting the key downs of a set of modifiers and then their key ups, each in whatever order, brings back every
      modifier flag of the queue; each call appends one entry for each modifier that has a key, and over both calls the
      time stamps strictly increase. */
  lemma LazyBracket(q: QueueState, down: seq<ModifierFlag>, up: seq<ModifierFlag>, device: DeviceId,
                    time: EventTimeStamp,
                    delay: int, original: Event)
    requires WellFormed(q.flags) && multiset(down) == multiset(up)
    ensures var ds := LazyEntries(down, KeyDown, device, time, delay, original);
            var us := LazyEntries(up, KeyUp, device, time, delay + |ds|, original);
            var r := AppendedAll(AppendedAll(q, ds), us);
            var posted := DelayedAll(ds + us, q.delay);
            && multiset(r.flags) == multiset(q.flags)
            && r.events == q.events + posted && |ds| == ValidCount(down) && |us| == ValidCount(up)
            && forall i :: 0 <= i < |posted| ==> posted[i].time.timeStamp == time.timeStamp + delay + q.delay + i
  {
    var ds := LazyEntries(down, KeyDown, device, time, delay, original);
    var us := LazyEntries(up, KeyUp, device, time, delay + |ds|, original);
    hide LazyEntries, AppendedAll, DelayedAll, FlagsRun, ValidCount, WellFormed;
    AppendedAllIs(q, ds);
    AppendedAllIs(AppendedAll(q, ds), us);
    assert q.events + DelayedAll(ds, q.delay) + DelayedAll(us, q.delay) == q.events + DelayedAll(ds + us, q.delay) by {
      assert DelayedAll(ds + us, q.delay) == DelayedAll(ds, q.delay) + DelayedAll(us, q.delay);
    }
    LazyTimes(down, KeyDown, device, time, delay, original);
    LazyTimes(up, KeyUp, device, time, delay + |ds|, original);
    assert var posted := DelayedAll(ds + us, q.delay);
           forall i :: 0 <= i < |posted| ==> posted[i].time.timeStamp == time.timeStamp + delay + q.delay + i;
    LazyFlagsRestored(q.flags, down, up, device, time, delay, delay + |ds|, original);
  }

  lemma LazyFlagsRestored(flags: seq<Token>, down: seq<ModifierFlag>, up: seq<ModifierFlag>, device: DeviceId,
                          time: EventTimeStamp, delay: int, delay': int, original: Event)
    requires WellFormed(flags) && multiset(down) == multiset(up)
    ensures multiset(FlagsRun(FlagsRun(flags, LazyEntries(down, KeyDown, device, time, delay, original)),
                              LazyEntries(up, KeyUp, device, time, delay', original))) == multiset(flags)
  {
    var ds, us := LazyTokens(down, KeyDown, device), LazyTokens(up, KeyUp, device);
    var a := PushAll(flags, ds);
    var b := PushAll(a, us);
    LazyEntriesPush(flags, down, KeyDown, device, time, delay, original);
    LazyEntriesPush(a, up, KeyUp, device, time, delay', original);
    LazyTokensAreAdditive(down, KeyDown, device);
    LazyTokensAreAdditive(up, KeyUp, device);
    PushAllKeepsWellFormed(flags, ds);
    PushAllKeepsWellFormed(a, us);
    forall k ensures Net(b, k) == Net(flags, k) {
      PushAllBumps(flags, ds, k);
      PushAllBumps(a, us, k);
      LazyNet(down, KeyDown, device, k);
      LazyNet(up, KeyUp, device, k);
      if k.kind == Plain || k.kind == Sticky {
        BumpAllAdds(k, Net(flags, k), ds);
        BumpAllAdds(k, Net(a, k), us);
      } else {
        BumpAllUntouched(k, Net(flags, k), ds);
        BumpAllUntouched(k, Net(a, k), us);
      }
    }
    CountersDetermineTokens(b, flags);
  }

  // ----- Events in between

  predicate IsAdditive(k: Key) {
    k.kind == Plain || k.kind == Sticky
  }

  predicate Toggles(e: Entry, m: ModifierFlag) {
    IsToggle(e, m) && e.event.stickyType == Toggle
  }

  /** What pushing tokens that add up does to a counter. */
  function Added(fs: seq<Token>, k: Key): int {
    if IsAdditive(k) then Net(fs, k) else 0
  }

  /** Pushing tokens that add up moves every counter by what they add up to. */
  lemma PushedAdditive(s: seq<Token>, fs: seq<Token>, k: Key)
    requires WellFormed(s) && forall f :: f in fs ==> f.typ.Kind() == Plain || f.typ.Kind() == Sticky
    ensures WellFormed(PushAll(s, fs))
    ensures Net(PushAll(s, fs), k) == Net(s, k) + Added(fs, k)
  {
    PushAllKeepsWellFormed(s, fs);
    PushAllBumps(s, fs, k);
    if IsAdditive(k) {
      BumpAllAdds(k, Net(s, k), fs);
    } else {
      BumpAllUntouched(k, Net(s, k), fs);
    }
  }

  lemma SameStickySize(s: seq<Token>, s': seq<Token>, m: ModifierFlag)
    requires WellFormed(s) && WellFormed(s')
    requires forall d: DeviceId :: Net(s, Key(Sticky, m, d)) == Net(s', Key(Sticky, m, d))
    ensures StickySize(s, m) == StickySize(s', m)
  {
    var a, b := Filter(s, StickyOf(m)), Filter(s', StickyOf(m));
    FilterKeepsWellFormed(s, StickyOf(m));
    FilterKeepsWellFormed(s', StickyOf(m));
    forall k ensures Net(a, k) == Net(b, k) {
      FilterSteps(s, StickyOf(m), k);
      FilterSteps(s', StickyOf(m), k);
      assert k.kind == Sticky && k.flag == m ==> k == Key(Sticky, m, k.device);
    }
    CountersDetermineTokens(a, b);
    assert |a| == |multiset(a)| == |multiset(b)| == |b|;
  }

  /** No sticky counter of a flag but caps lock is moved. */
  ghost predicate StickyCapsLockOnly(fs: seq<Token>) {
    forall k: Key :: k.kind == Sticky && k.flag != CapsLock ==> Net(fs, k) == 0
  }

  ghost predicate NothingSticky(fs: seq<Token>) {
    forall k: Key :: k.kind == Sticky ==> Net(fs, k) == 0
  }

  /** A toggle of caps lock from device `d` that finds none of its sticky tokens, and so goes up; others go down. */
  predicate TogglesUp(s: seq<Token>, e: Entry, d: DeviceId) {
    Toggles(e, CapsLock) && e.device == d && StickySize(s, CapsLock) == 0
  }

  /** How many toggles of caps lock from device `d` go up while the entries are appended. */
  function UpToggles(s: seq<Token>, es: seq<Entry>, d: DeviceId): nat {
    if es == [] then 0
    else
      var r, e := es[..|es| - 1], es[|es| - 1];
      UpToggles(s, r, d) + if TogglesUp(FlagsRun(s, r), e, d) then 1 else 0
  }

  predicate NoneEndsSticky(es: seq<Entry>) {
    forall e :: e in es ==> !EndsSticky(e)
  }

  /** By how much the run from `s'` is off the run from `s` if `s'` has the tokens `fs` added: the sticky tokens are
      erased together, and before that each toggle that goes the other way moves one token more and one less. */
  function Offset(s: seq<Token>, s': seq<Token>, fs: seq<Token>, es: seq<Entry>, k: Key): int {
    if k.kind == Sticky && !NoneEndsSticky(es) then 0
    else if k.kind == Sticky && k.flag == CapsLock then
      Net(fs, k) + 2 * (UpToggles(s', es, k.device) - UpToggles(s, es, k.device))
    else Added(fs, k)
  }

  ghost predicate OffBy(s: seq<Token>, s': seq<Token>, fs: seq<Token>, es: seq<Entry>) {
    && WellFormed(FlagsRun(s, es)) && WellFormed(FlagsRun(s', es))
    && forall k :: Net(FlagsRun(s', es), k) == Net(FlagsRun(s, es), k) + Offset(s, s', fs, es, k)
  }

  lemma EntrySnoc(s: seq<Token>, r: seq<Entry>, e: Entry, d: DeviceId)
    ensures FlagsRun(s, r + [e]) == FlagsAfter(FlagsRun(s, r), e)
    ensures UpToggles(s, r + [e], d) == UpToggles(s, r, d) + if TogglesUp(FlagsRun(s, r), e, d) then 1 else 0
    ensures NoneEndsSticky(r + [e]) <==> NoneEndsSticky(r) && !EndsSticky(e)
  {
    var es := r + [e];
    assert es[..|r|] == r && es[|r|] == e;
    hide EndsSticky;
    assert e in es && forall x :: x in es <==> x in r || x == e;
  }

  /** One entry acts on both in the same way, unless it is a toggle of caps lock. */
  lemma SameFlagOp(s: seq<Token>, s': seq<Token>, e: Entry)
    requires WellFormed(s) && WellFormed(s')
    requires forall m, d: DeviceId :: m != CapsLock ==> Net(s, Key(Sticky, m, d)) == Net(s', Key(Sticky, m, d))
    requires !Toggles(e, CapsLock)
    ensures FlagOpOf(s, e) == FlagOpOf(s', e)
  {
    hide Net, WellFormed, StickySize;
    if e.event.StickyModifier? && Toggles(e, e.event.flag) {
      SameStickySize(s, s', e.event.flag);
    }
  }

  /** What one entry does to a counter. */
  lemma EntryBumps(s: seq<Token>, e: Entry, k: Key)
    requires WellFormed(s)
    ensures WellFormed(FlagsAfter(s, e))
    ensures Net(FlagsAfter(s, e), k) == match FlagOpOf(s, e) case None => Net(s, k)
                                        case Some(op) => CounterStep(op, k, Net(s, k))
  {
    hide Apply, WellFormed, Net;
    match FlagOpOf(s, e)
    case None =>
    case Some(op) => ApplySteps(op, s, k);
  }

  /** By how much an entry moves the difference at device `d` if it is a toggle that goes another way on `s'`. */
  function Turned(s: seq<Token>, s': seq<Token>, e: Entry, d: DeviceId): int {
    (if TogglesUp(s', e, d) then 2 else 0) - if TogglesUp(s, e, d) then 2 else 0
  }

  lemma TurnedBySize(s: seq<Token>, s': seq<Token>, e: Entry, d: DeviceId)
    requires StickySize(s, CapsLock) == StickySize(s', CapsLock)
    ensures TogglesUp(s, e, d) <==> TogglesUp(s', e, d)
  {
  }

  /** One entry keeps the difference of two lists, but erases that of sticky tokens, and a toggle of caps lock that goes
      up on one of them only moves it by two. */
  lemma EntryOnBoth(s: seq<Token>, s': seq<Token>, e: Entry, k: Key)
    requires WellFormed(s) && WellFormed(s')
    requires forall m, d: DeviceId :: m != CapsLock ==> Net(s, Key(Sticky, m, d)) == Net(s', Key(Sticky, m, d))
    requires IsAdditive(k) || Net(s, k) == Net(s', k)
    ensures Net(FlagsAfter(s', e), k) - Net(FlagsAfter(s, e), k) ==
            if k.kind == Sticky && EndsSticky(e) then 0
            else if k.kind == Sticky && k.flag == CapsLock then Net(s', k) - Net(s, k) + Turned(s, s', e, k.device)
            else Net(s', k) - Net(s, k)
  {
    hide WellFormed, Net, StickySize, FlagsAfter;
    EntryBumps(s, e, k);
    EntryBumps(s', e, k);
    if !Toggles(e, CapsLock) {
      SameFlagOp(s, s', e);
    }
  }

  lemma {:induction false} OffByRun(s: seq<Token>, s': seq<Token>, fs: seq<Token>, es: seq<Entry>)
    requires WellFormed(s) && WellFormed(s') && forall k :: Net(s', k) == Net(s, k) + Added(fs, k)
    requires StickyCapsLockOnly(fs)
    ensures OffBy(s, s', fs, es)
  {
    if es != [] {
      var r, e := es[..|es| - 1], es[|es| - 1];
      assert es == r + [e];
      OffByRun(s, s', fs, r);
      hide OffBy;
      OffByStep(s, s', fs, r, e);
    }
  }

  lemma OffByStep(s: seq<Token>, s': seq<Token>, fs: seq<Token>, r: seq<Entry>, e: Entry)
    requires OffBy(s, s', fs, r) && StickyCapsLockOnly(fs)
    ensures OffBy(s, s', fs, r + [e])
  {
    hide Net, WellFormed, FlagsRun, UpToggles, NoneEndsSticky, FlagsAfter, StickyCapsLockOnly, Offset;
    EntrySnoc(s, r, e, 0);
    EntrySnoc(s', r, e, 0);
    EntryBumps(FlagsRun(s, r), e, Key(Plain, Zero, 0));
    EntryBumps(FlagsRun(s', r), e, Key(Plain, Zero, 0));
    forall k ensures Net(FlagsRun(s', r + [e]), k) == Net(FlagsRun(s, r + [e]), k) + Offset(s, s', fs, r + [e], k) {
      OffByAt(s, s', fs, r, e, k);
    }
  }

  lemma OffByAt(s: seq<Token>, s': seq<Token>, fs: seq<Token>, r: seq<Entry>, e: Entry, k: Key)
    requires OffBy(s, s', fs, r) && StickyCapsLockOnly(fs)
    ensures Net(FlagsRun(s', r + [e]), k) == Net(FlagsRun(s, r + [e]), k) + Offset(s, s', fs, r + [e], k)
  {
    hide Net, WellFormed, FlagsRun, UpToggles, NoneEndsSticky, FlagsAfter, EndsSticky, TogglesUp;
    var t, t' := FlagsRun(s, r), FlagsRun(s', r);
    EntrySnoc(s, r, e, k.device);
    EntrySnoc(s', r, e, k.device);
    forall m, d: DeviceId
      ensures Net(t', Key(Sticky, m, d)) == Net(t, Key(Sticky, m, d)) + Offset(s, s', fs, r, Key(Sticky, m, d))
    {
    }
    assert Net(t', k) == Net(t, k) + Offset(s, s', fs, r, k);
    EntryOnBoth(t, t', e, k);
    if !NoneEndsSticky(r) {
      SameStickySize(t, t', CapsLock);
      TurnedBySize(t, t', e, k.device);
    }
  }

  /** If nothing sticky is added, both run alike. */
  lemma {:induction false} SameToggles(s: seq<Token>, s': seq<Token>, fs: seq<Token>, es: seq<Entry>, d: DeviceId)
    requires WellFormed(s) && WellFormed(s') && forall k :: Net(s', k) == Net(s, k) + Added(fs, k)
    requires StickyCapsLockOnly(fs) && NothingSticky(fs)
    ensures UpToggles(s', es, d) == UpToggles(s, es, d)
  {
    if es != [] {
      var r, e := es[..|es| - 1], es[|es| - 1];
      hide Net, WellFormed, FlagsRun, UpToggles, NoneEndsSticky, TogglesUp;
      assert es == r + [e];
      EntrySnoc(s, r, e, d);
      EntrySnoc(s', r, e, d);
      OffByRun(s, s', fs, r);
      var t, t' := FlagsRun(s, r), FlagsRun(s', r);
      forall x: DeviceId ensures UpToggles(s', r, x) == UpToggles(s, r, x) {
        SameToggles(s, s', fs, r, x);
      }
      forall x: DeviceId ensures Net(t', Key(Sticky, CapsLock, x)) == Net(t, Key(Sticky, CapsLock, x)) {
        assert Net(t', Key(Sticky, CapsLock, x)) ==
               Net(t, Key(Sticky, CapsLock, x)) + Offset(s, s', fs, r, Key(Sticky, CapsLock, x));
      }
      SameStickySize(t, t', CapsLock);
      TurnedBySize(t, t', e, d);
    }
  }

  lemma {:induction false} FlagsRunAppend(s: seq<Token>, a: seq<Entry>, b: seq<Entry>)
    ensures FlagsRun(s, a + b) == FlagsRun(FlagsRun(s, a), b)
  {
    if b == [] {
      assert a + b == a;
    } else {
      var n := |b| - 1;
      assert (a + b)[..|a + b| - 1] == a + b[..n] && (a + b)[|a + b| - 1] == b[n];
      FlagsRunAppend(s, a, b[..n]);
    }
  }

  function Opposite(eventType: EventType): EventType {
    if eventType == KeyDown then KeyUp else KeyDown
  }

  /** What the tokens of a call amount to, and that the tokens of the opposite call take it back. */
  lemma LazyNets(first: EventType, before: seq<ModifierFlag>, after: seq<ModifierFlag>, device: DeviceId)
    requires first != Single && multiset(before) == multiset(after)
    ensures var fs, gs := LazyTokens(before, first, device), LazyTokens(after, Opposite(first), device);
            && StickyCapsLockOnly(fs)
            && (forall k :: Net(gs, k) == -Net(fs, k))
            && (CapsLock !in before ==> NothingSticky(fs))
            && (CapsLock in before ==> Net(fs, Key(Sticky, CapsLock, device)) != 0)
  {
    var fs, gs := LazyTokens(before, first, device), LazyTokens(after, Opposite(first), device);
    hide Net, LazyTokens;
    forall k
      ensures Net(gs, k) == -Net(fs, k)
      ensures k.kind == Sticky && k.flag != CapsLock ==> Net(fs, k) == 0
      ensures k.kind == Sticky && CapsLock !in before ==> Net(fs, k) == 0
    {
      LazyNet(before, first, device, k);
      LazyNet(after, Opposite(first), device, k);
      assert k.flag in before <==> k.flag in multiset(before);
    }
    LazyNet(before, first, device, Key(Sticky, CapsLock, device));
    assert CapsLock in before <==> CapsLock in multiset(before);
  }

  /** When all that the run is off by is what was added. */
  lemma OffByNothing(s: seq<Token>, s': seq<Token>, fs: seq<Token>, es: seq<Entry>)
    requires StickyCapsLockOnly(fs)
    ensures (forall k :: Offset(s, s', fs, es, k) == Added(fs, k)) <==>
            if NoneEndsSticky(es) then forall d: DeviceId :: UpToggles(s', es, d) == UpToggles(s, es, d)
            else NothingSticky(fs)
  {
    hide Net, UpToggles, NoneEndsSticky;
    if forall k :: Offset(s, s', fs, es, k) == Added(fs, k) {
      forall d: DeviceId | NoneEndsSticky(es) ensures UpToggles(s', es, d) == UpToggles(s, es, d) {
        assert Offset(s, s', fs, es, Key(Sticky, CapsLock, d)) == Added(fs, Key(Sticky, CapsLock, d));
      }
      forall k: Key | !NoneEndsSticky(es) && k.kind == Sticky ensures Net(fs, k) == 0 {
        assert Offset(s, s', fs, es, k) == Added(fs, k);
      }
    } else {
      var k :| Offset(s, s', fs, es, k) != Added(fs, k);
      if NoneEndsSticky(es) {
        assert UpToggles(s', es, k.device) != UpToggles(s, es, k.device);
      } else {
        assert k.kind == Sticky && Net(fs, k) != 0;
      }
    }
  }

  /** After the events in between, the opposite tokens bring back what would be there without any lazy events, exactly
      if no sticky part was lost and the toggles went up as often. */
  lemma OffByUndone(s: seq<Token>, s': seq<Token>, fs: seq<Token>, gs: seq<Token>, es: seq<Entry>)
    requires OffBy(s, s', fs, es) && forall g :: g in gs ==> g.typ.Kind() == Plain || g.typ.Kind() == Sticky
    requires StickyCapsLockOnly(fs) && forall k :: Net(gs, k) == -Net(fs, k)
    ensures multiset(PushAll(FlagsRun(s', es), gs)) == multiset(FlagsRun(s, es)) <==>
            if NoneEndsSticky(es) then forall d: DeviceId :: UpToggles(s', es, d) == UpToggles(s, es, d)
            else NothingSticky(fs)
  {
    hide Net, FlagsRun, UpToggles, NoneEndsSticky, PushAll, WellFormed;
    var t, t' := FlagsRun(s, es), FlagsRun(s', es);
    var r := PushAll(t', gs);
    PushedAdditive(t', gs, Key(Plain, Zero, 0));
    forall k ensures Net(r, k) == Net(t, k) + Offset(s, s', fs, es, k) - Added(fs, k) {
      PushedAdditive(t', gs, k);
      assert Net(t', k) == Net(t, k) + Offset(s, s', fs, es, k);
    }
    OffByNothing(s, s', fs, es);
    if multiset(r) == multiset(t) {
      forall k ensures Offset(s, s', fs, es, k) == Added(fs, k) {
        SameTokensSameNet(r, t, k);
      }
    } else if forall k :: Offset(s, s', fs, es, k) == Added(fs, k) {
      hide Offset, Added;
      forall k ensures Net(r, k) == Net(t, k) {
        assert Offset(s, s', fs, es, k) == Added(fs, k);
      }
      CountersDetermineTokens(r, t);
    }
  }

  lemma SameTokensSameNet(s: seq<Token>, t: seq<Token>, k: Key)
    requires multiset(s) == multiset(t)
    ensures Net(s, k) == Net(t, k)
  {
  }

  /** Manipulators also post the lazy events of a set of modifiers around the events that they send: all of one kind
      before, all of the opposite kind after. That leaves the flags as the events in between alone would have left them,
      exactly if caps lock is not among the modifiers, or no ordinary key is pressed in between, which would release its
      sticky token, and on each device as many toggles of caps lock go up as would without the lazy events. */
  lemma LazyAround(flags: seq<Token>, first: EventType, before: seq<ModifierFlag>, mid: seq<Entry>,
                   after: seq<ModifierFlag>, device: DeviceId, time: EventTimeStamp, delay: int, time': EventTimeStamp,
                   delay': int, original: Event)
    requires WellFormed(flags) && first != Single && multiset(before) == multiset(after)
    ensures var ls := LazyEntries(before, first, device, time, delay, original);
            var posted := ls + mid + LazyEntries(after, Opposite(first), device, time', delay', original);
            multiset(FlagsRun(flags, posted)) == multiset(FlagsRun(flags, mid)) <==>
            || CapsLock !in before
            || (&& NoneEndsSticky(mid)
                && forall d: DeviceId :: UpToggles(FlagsRun(flags, ls), mid, d) == UpToggles(flags, mid, d))
  {
    var ls := LazyEntries(before, first, device, time, delay, original);
    var ms := LazyEntries(after, Opposite(first), device, time', delay', original);
    var fs, gs := LazyTokens(before, first, device), LazyTokens(after, Opposite(first), device);
    hide Net, WellFormed, PushAll, FlagsRun, LazyEntries, LazyTokens, NoneEndsSticky, StickyCapsLockOnly, UpToggles;
    LazyTokensAreAdditive(before, first, device);
    LazyTokensAreAdditive(after, Opposite(first), device);
    LazyNets(first, before, after, device);
    LazyEntriesPush(flags, before, first, device, time, delay, original);
    FlagsRunAppend(flags, ls + mid, ms);
    FlagsRunAppend(flags, ls, mid);
    var s' := PushAll(flags, fs);
    PushedAdditive(flags, fs, Key(Plain, Zero, 0));
    forall k ensures Net(s', k) == Net(flags, k) + Added(fs, k) {
      PushedAdditive(flags, fs, k);
    }
    OffByRun(flags, s', fs, mid);
    hide OffBy;
    LazyEntriesPush(FlagsRun(s', mid), after, Opposite(first), device, time', delay', original);
    OffByUndone(flags, s', fs, gs, mid);
    if CapsLock in before {
      assert Net(fs, Key(Sticky, CapsLock, device)) != 0;
    } else {
      forall d: DeviceId ensures UpToggles(s', mid, d) == UpToggles(flags, mid, d) {
        SameToggles(flags, s', fs, mid, d);
      }
    }
  }

  lemma {:induction false} NoUpToggles(s: seq<Token>, es: seq<Entry>, d: DeviceId)
    requires forall e :: e in es ==> !Toggles(e, CapsLock)
    ensures UpToggles(s, es, d) == 0
  {
    if es != [] {
      assert es[|es| - 1] in es;
      NoUpToggles(s, es[..|es| - 1], d);
    }
  }

  /** In particular, if caps lock is not toggled in between, exactly if no ordinary key is pressed there or caps lock is
      not among the modifiers. */
  lemma LazyAroundWithoutToggles(flags: seq<Token>, first: EventType, before: seq<ModifierFlag>, mid: seq<Entry>,
                                 after: seq<ModifierFlag>, device: DeviceId, time: EventTimeStamp, delay: int,
                                 time': EventTimeStamp, delay': int, original: Event)
    requires WellFormed(flags) && first != Single && multiset(before) == multiset(after)
    requires forall e :: e in mid ==> !Toggles(e, CapsLock)
    ensures var posted := LazyEntries(before, first, device, time, delay, original) + mid
                          + LazyEntries(after, Opposite(first), device, time', delay', original);
            multiset(FlagsRun(flags, posted)) == multiset(FlagsRun(flags, mid)) <==>
            CapsLock !in before || NoneEndsSticky(mid)
  {
    var s' := FlagsRun(flags, LazyEntries(before, first, device, time, delay, original));
    LazyAround(flags, first, before, mid, after, device, time, delay, time', delay', original);
    forall d: DeviceId ensures UpToggles(s', mid, d) == UpToggles(flags, mid, d) {
      NoUpToggles(s', mid, d);
      NoUpToggles(flags, mid, d);
    }
  }

  /** Releasing caps lock around an ordinary key press leaves its sticky token behind, because the key has released the
      negative one. */
  lemma KeyPressLosesCapsLock(device: DeviceId, time: EventTimeStamp, original: Event)
    ensures var ups, downs := LazyEntries([CapsLock], KeyUp, device, time, 0, original),
            LazyEntries([CapsLock], KeyDown, device, time, 2, original);
            var press := KeyEvent(0x04, KeyDown);
            && FlagsRun([], ups + [press] + downs) == [Token(IncreaseSticky, CapsLock, device)]
            && FlagsRun([], [press]) == []
  {
    var press := KeyEvent(0x04, KeyDown);
    var up, down := Token(DecreaseSticky, CapsLock, device), Token(IncreaseSticky, CapsLock, device);
    PressErasesSticky();
    OneLazyCapsLock(KeyUp, [], device, time, 0, original);
    OneLazyCapsLock(KeyDown, [], device, time, 2, original);
    AroundOne([], [CapsLock], KeyUp, press, device, time, 0, 2, original);
    FlagsRunSnoc([], [], press);
    assert [] + [press] == [press];
    assert Filter([up], NotSticky) == [] && Cancel([], up) == [up] && Cancel([], down) == [down];
  }

  /** A toggle of caps lock in between sees the negative token, and so goes the other way. */
  lemma ToggleSeesLazyCapsLock(device: DeviceId, time: EventTimeStamp, original: Event)
    ensures var ups, downs := LazyEntries([CapsLock], KeyUp, device, time, 0, original),
            LazyEntries([CapsLock], KeyDown, device, time, 2, original);
            var toggle := ToggleEntry(CapsLock, device);
            && FlagsRun([], ups + [toggle] + downs) == [Token(DecreaseSticky, CapsLock, device)]
            && FlagsRun([], [toggle]) == [Token(IncreaseSticky, CapsLock, device)]
  {
    var toggle := ToggleEntry(CapsLock, device);
    var up, down := Token(DecreaseSticky, CapsLock, device), Token(IncreaseSticky, CapsLock, device);
    OneLazyCapsLock(KeyUp, [], device, time, 0, original);
    OneLazyCapsLock(KeyDown, [up, up], device, time, 2, original);
    AroundOne([], [CapsLock], KeyUp, toggle, device, time, 0, 2, original);
    FlagsRunSnoc([], [], toggle);
    assert [] + [toggle] == [toggle];
    assert Cancel([], up) == [up] && Cancel([], down) == [down];
    assert [up][1..] == [] && Cancel([up], up) == [up] + Cancel([], up) == [up, up];
    assert [up, up][1..] == [up];
    assert FlagsAfter([up], toggle) == Push([up], up) by {
      assert Filter([up], StickyOf(CapsLock)) == [up];
    }
  }

  lemma PressErasesSticky()
    ensures EndsSticky(KeyEvent(0x04, KeyDown)) && FlagOpOf([], KeyEvent(0x04, KeyDown)) == Some(EraseStickyOp)
    ensures forall s :: FlagsAfter(s, KeyEvent(0x04, KeyDown)) == Filter(s, NotSticky)
  {
    assert KeyEvent(0x04, KeyDown).event.switch.MakeModifierFlag() == None;
  }

  lemma OneLazyCapsLock(eventType: EventType, s: seq<Token>, device: DeviceId, time: EventTimeStamp, delay: int,
                        original: Event)
    ensures FlagsRun(s, LazyEntries([CapsLock], eventType, device, time, delay, original)) ==
            Cancel(s, Token(if eventType == KeyDown then IncreaseSticky else DecreaseSticky, CapsLock, device))
  {
    var f := Token(if eventType == KeyDown then IncreaseSticky else DecreaseSticky, CapsLock, device);
    LazyEntriesPush(s, [CapsLock], eventType, device, time, delay, original);
    assert [CapsLock][..0] == [];
    assert LazyTokens([CapsLock], eventType, device) == [] + [f] == [f];
    assert PushAll(s, [f]) == PushAll(Push(s, f), [f][1..]) == Push(s, f);
  }

  lemma AroundOne(s: seq<Token>, order: seq<ModifierFlag>, first: EventType, e: Entry, device: DeviceId,
                  time: EventTimeStamp,
                  delay: int, delay': int, original: Event)
    ensures var ls, ms := LazyEntries(order, first, device, time, delay, original),
            LazyEntries(order, Opposite(first), device, time, delay', original);
            FlagsRun(s, ls + [e] + ms) == FlagsRun(FlagsAfter(FlagsRun(s, ls), e), ms)
  {
    var ls, ms := LazyEntries(order, first, device, time, delay, original),
      LazyEntries(order, Opposite(first), device, time, delay', original);
    FlagsRunAppend(s, ls + [e], ms);
    FlagsRunSnoc(s, ls, e);
  }
}
