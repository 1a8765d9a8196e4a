/** The conversion of a hat switch into the four keys of a directional pad. */
module HatSwitch {
  import opened Types

  datatype Direction = Up | Down | Right | Left

  const DIRECTIONS: seq<Direction> := [Up, Down, Right, Left]

  function SwitchOf(d: Direction): MomentarySwitchEvent {
    MomentarySwitchEvent(UsagePair(PAGE_GENERIC_DESKTOP,
      match d case Up => DPAD_UP case Down => DPAD_DOWN case Right => DPAD_RIGHT case Left => DPAD_LEFT))
  }

  /** The directions of a hat value; every other value is neutral. */
  function DirectionsOf(hat: int): set<Direction> {
    match hat
    case 0 => {Up}
    case 1 => {Up, Right}
    case 2 => {Right}
    case 3 => {Down, Right}
    case 4 => {Down}
    case 5 => {Down, Left}
    case 6 => {Left}
    case 7 => {Up, Left}
    case _ => {}
  }

  type DpadEvent = (MomentarySwitchEvent, EventType)

  function EventFor(last: set<Direction>, current: set<Direction>, d: Direction): seq<DpadEvent> {
    (if d !in last && d in current then [(SwitchOf(d), KeyDown)] else [])
    + (if d in last && d !in current then [(SwitchOf(d), KeyUp)] else [])
  }

  function DpadEvents(last: set<Direction>, current: set<Direction>, ds: seq<Direction>): seq<DpadEvent> {
    if ds == [] then [] else DpadEvents(last, current, ds[..|ds| - 1]) + EventFor(last, current, ds[|ds| - 1])
  }

  function LastOf(m: map<DeviceId, set<Direction>>, device: DeviceId): set<Direction> {
    if device in m then m[device] else {}
  }

  class HatSwitchConverter {
    var lastDirections: map<DeviceId, set<Direction>>

    constructor ()
      ensures lastDirections == map[]
    {
      lastDirections := map[];
    }

    method EraseDevice(device: DeviceId)
      modifies this
      ensures lastDirections == old(lastDirections) - {device}
    {
      lastDirections := lastDirections - {device};
    }

    method Clear()
      modifies this
      ensures lastDirections == map[]
    {
      lastDirections := map[];
    }

    method ToDpadEvents(device: DeviceId, hat: int) returns (result: seq<DpadEvent>)
      modifies this
      ensures result == DpadEvents(LastOf(old(lastDirections), device), DirectionsOf(hat), DIRECTIONS)
      ensures lastDirections == old(lastDirections)[device := DirectionsOf(hat)]
    {
      result := [];
      var last := if device in lastDirections then lastDirections[device] else {};
      var current := DirectionsOf(hat);
      var ds := DIRECTIONS;
      assert ds[..|ds|] == ds;
      for i := 0 to |ds|
        invariant result == DpadEvents(last, current, ds[..i])
      {
        assert ds[..i + 1][..i] == ds[..i];
        if ds[i] !in last && ds[i] in current {
          result := result + [(SwitchOf(ds[i]), KeyDown)];
        }
        if ds[i] in last && ds[i] !in current {
          result := result + [(SwitchOf(ds[i]), KeyUp)];
        }
      }
      lastDirections := lastDirections[device := current];
    }
  }

  // ----- Runs

  /** A hat value of a device, or the erasure of what is remembered of one device or of all. */
  datatype HatOp = ValueOp(device: DeviceId, hat: int) | EraseOp(device: DeviceId) | ClearOp

  predicate Forgets(op: HatOp, device: DeviceId) {
    op == EraseOp(device) || op == ClearOp
  }

  /** The directions of the last hat value of `device`, neutral if there was none since it was last erased. */
  function LastDirections(ops: seq<HatOp>, device: DeviceId): set<Direction> {
    if ops == [] || Forgets(ops[|ops| - 1], device) then {}
    else if ops[|ops| - 1].ValueOp? && ops[|ops| - 1].device == device then DirectionsOf(ops[|ops| - 1].hat)
    else LastDirections(ops[..|ops| - 1], device)
  }

  function MemoryAfter(m: map<DeviceId, set<Direction>>, op: HatOp): map<DeviceId, set<Direction>> {
    match op
    case ValueOp(device, hat) => m[device := DirectionsOf(hat)]
    case EraseOp(device) => m - {device}
    case ClearOp => map[]
  }

  function MemoryRun(ops: seq<HatOp>): map<DeviceId, set<Direction>> {
    if ops == [] then map[] else MemoryAfter(MemoryRun(ops[..|ops| - 1]), ops[|ops| - 1])
  }

  /** The events that a run over several devices gives for `device`. */
  function EventsRun(ops: seq<HatOp>, device: DeviceId): seq<DpadEvent> {
    if ops == [] then []
    else
      var op := ops[|ops| - 1];
      EventsRun(ops[..|ops| - 1], device)
      + if op.ValueOp? && op.device == device
        then DpadEvents(LastOf(MemoryRun(ops[..|ops| - 1]), device), DirectionsOf(op.hat), DIRECTIONS) else []
  }

  /** The keys that are down after the events. */
  function Replay(es: seq<DpadEvent>): set<MomentarySwitchEvent> {
    if es == [] then {}
    else
      var (switch, typ) := es[|es| - 1];
      if typ == KeyDown then Replay(es[..|es| - 1]) + {switch}
      else if typ == KeyUp then Replay(es[..|es| - 1]) - {switch}
      else Replay(es[..|es| - 1])
  }

  /** The events of one key. */
  function OfSwitch(es: seq<DpadEvent>, switch: MomentarySwitchEvent): seq<EventType> {
    if es == [] then []
    else OfSwitch(es[..|es| - 1], switch) + if es[|es| - 1].0 == switch then [es[|es| - 1].1] else []
  }

  /** Down, up, down, up, ... */
  ghost predicate Alternates(types: seq<EventType>) {
    forall i :: 0 <= i < |types| ==> types[i] == if i % 2 == 0 then KeyDown else KeyUp
  }

  lemma {:induction false} MemoryIsLast(ops: seq<HatOp>, device: DeviceId)
    ensures LastOf(MemoryRun(ops), device) == LastDirections(ops, device)
  {
    if ops != [] {
      MemoryIsLast(ops[..|ops| - 1], device);
    }
  }

  lemma SwitchesDiffer(a: Direction, b: Direction)
    ensures SwitchOf(a) == SwitchOf(b) ==> a == b
  {
  }

  lemma {:induction false} OfSwitchAppend(a: seq<DpadEvent>, b: seq<DpadEvent>, switch: MomentarySwitchEvent)
    ensures OfSwitch(a + b, switch) == OfSwitch(a, switch) + OfSwitch(b, switch)
  {
    if b == [] {
      assert a + b == a;
    } else {
      var n := |b| - 1;
      assert (a + b)[..|a + b| - 1] == a + b[..n] && (a + b)[|a + b| - 1] == b[n];
      OfSwitchAppend(a, b[..n], switch);
    }
  }

  lemma EventOfDirection(last: set<Direction>, current: set<Direction>, x: Direction, d: Direction)
    ensures OfSwitch(EventFor(last, current, x), SwitchOf(d)) ==
            if d != x || (d in last <==> d in current) then [] else if d in current then [KeyDown] else [KeyUp]
  {
    var e := EventFor(last, current, x);
    SwitchesDiffer(d, x);
    if e != [] {
      assert e[..0] == [];
    }
  }

  /** The events of one direction in one conversion. */
  lemma {:induction false} OneConversion(last: set<Direction>, current: set<Direction>, ds: seq<Direction>,
                                         d: Direction)
    requires forall i, j :: 0 <= i < j < |ds| ==> ds[i] != ds[j]
    ensures OfSwitch(DpadEvents(last, current, ds), SwitchOf(d)) ==
            if d !in ds || (d in last <==> d in current) then [] else if d in current then [KeyDown] else [KeyUp]
  {
    hide EventFor, SwitchOf;
    if ds != [] {
      var n := |ds| - 1;
      OneConversion(last, current, ds[..n], d);
      EventOfDirection(last, current, ds[n], d);
      OfSwitchAppend(DpadEvents(last, current, ds[..n]), EventFor(last, current, ds[n]), SwitchOf(d));
      assert ds == ds[..n] + [ds[n]];
    }
  }

  lemma ConversionOf(last: set<Direction>, current: set<Direction>, d: Direction)
    ensures OfSwitch(DpadEvents(last, current, DIRECTIONS), SwitchOf(d)) ==
            if (d in last) == (d in current) then [] else if d in current then [KeyDown] else [KeyUp]
  {
    assert DIRECTIONS[0] == Up && DIRECTIONS[1] == Down && DIRECTIONS[2] == Right && DIRECTIONS[3] == Left;
    OneConversion(last, current, DIRECTIONS, d);
  }

  /** The events of one key of the directional pad, if it was down or not before, and is or is not now. */
  function KeyTurns(usage: int, was: bool, now: bool): seq<DpadEvent> {
    if was == now then []
    else [(MomentarySwitchEvent(UsagePair(PAGE_GENERIC_DESKTOP, usage)), if now then KeyDown else KeyUp)]
  }

  /** One conversion turns the keys up, down, right and left of the pad, in this order. */
  lemma PadTurns(last: set<Direction>, hat: int)
    ensures DpadEvents(last, DirectionsOf(hat), DIRECTIONS) ==
            KeyTurns(0x90, Up in last, hat in {7, 0, 1}) + KeyTurns(0x91, Down in last, hat in {3, 4, 5})
            + KeyTurns(0x92, Right in last, hat in {1, 2, 3}) + KeyTurns(0x93, Left in last, hat in {5, 6, 7})
  {
    var current := DirectionsOf(hat);
    DpadEventsOfFour(last, current);
    EventForTurns(last, current);
    HatAt(hat);
    hide DpadEvents, EventFor, KeyTurns, DirectionsOf;
  }

  lemma HatAt(hat: int)
    ensures Up in DirectionsOf(hat) <==> hat in {7, 0, 1}
    ensures Down in DirectionsOf(hat) <==> hat in {3, 4, 5}
    ensures Right in DirectionsOf(hat) <==> hat in {1, 2, 3}
    ensures Left in DirectionsOf(hat) <==> hat in {5, 6, 7}
  {
  }

  lemma EventForTurns(last: set<Direction>, current: set<Direction>)
    ensures EventFor(last, current, Up) == KeyTurns(0x90, Up in last, Up in current)
    ensures EventFor(last, current, Down) == KeyTurns(0x91, Down in last, Down in current)
    ensures EventFor(last, current, Right) == KeyTurns(0x92, Right in last, Right in current)
    ensures EventFor(last, current, Left) == KeyTurns(0x93, Left in last, Left in current)
  {
  }

  lemma DpadEventsOfFour(last: set<Direction>, current: set<Direction>)
    ensures DpadEvents(last, current, DIRECTIONS) ==
            EventFor(last, current, Up) + EventFor(last, current, Down) + EventFor(last, current, Right)
            + EventFor(last, current, Left)
  {
    hide EventFor;
    var ds := DIRECTIONS;
    assert ds[..3] == [Up, Down, Right] && ds[..3][..2] == [Up, Down] && [Up, Down][..1] == [Up] && [Up][..0] == [];
    assert DpadEvents(last, current, []) == [];
    assert DpadEvents(last, current, [Up]) == [] + EventFor(last, current, Up);
    assert DpadEvents(last, current, [Up, Down]) == EventFor(last, current, Up) + EventFor(last, current, Down);
    assert DpadEvents(last, current, ds) == DpadEvents(last, current, ds[..3]) + EventFor(last, current, Left);
  }

  /** The events of one direction in a run. */
  function TypesRun(ops: seq<HatOp>, device: DeviceId, d: Direction): seq<EventType> {
    OfSwitch(EventsRun(ops, device), SwitchOf(d))
  }

  lemma EventsSnoc(r: seq<HatOp>, op: HatOp, device: DeviceId)
    ensures EventsRun(r + [op], device) ==
            EventsRun(r, device)
            + if op.ValueOp? && op.device == device
              then DpadEvents(LastOf(MemoryRun(r), device), DirectionsOf(op.hat), DIRECTIONS) else []
    ensures LastDirections(r + [op], device) ==
            if Forgets(op, device) then {}
            else if op.ValueOp? && op.device == device then DirectionsOf(op.hat) else LastDirections(r, device)
  {
    hide DpadEvents, DirectionsOf;
    assert (r + [op])[..|r|] == r;
  }

  /** What one more operation adds to them. */
  lemma TypesSnoc(r: seq<HatOp>, op: HatOp, device: DeviceId, d: Direction)
    ensures var was, now := d in LastDirections(r, device), d in LastDirections(r + [op], device);
            && (Forgets(op, device) ==> !now)
            && TypesRun(r + [op], device, d) ==
               TypesRun(r, device, d)
               + if was == now || Forgets(op, device) then [] else if now then [KeyDown] else [KeyUp]
  {
    hide EventsRun, LastDirections, MemoryRun, OfSwitch, SwitchOf, DpadEvents, DirectionsOf, LastOf;
    EventsSnoc(r, op, device);
    if op.ValueOp? && op.device == device {
      var last, current := LastOf(MemoryRun(r), device), DirectionsOf(op.hat);
      MemoryIsLast(r, device);
      ConversionOf(last, current, d);
      OfSwitchAppend(EventsRun(r, device), DpadEvents(last, current, DIRECTIONS), SwitchOf(d));
    } else {
      assert EventsRun(r, device) + [] == EventsRun(r, device);
      assert TypesRun(r, device, d) + [] == TypesRun(r, device, d);
    }
  }

  /** The device is erased at `i` while `d` is held. */
  predicate ErasedHeld(ops: seq<HatOp>, i: nat, device: DeviceId, d: Direction)
    requires i < |ops|
  {
    Forgets(ops[i], device) && d in LastDirections(ops[..i], device)
  }

  /** The operation is a value of the device that has the direction. */
  predicate Brings(op: HatOp, device: DeviceId, d: Direction) {
    op.ValueOp? && op.device == device && d in DirectionsOf(op.hat)
  }

  ghost predicate BroughtAfter(ops: seq<HatOp>, i: nat, device: DeviceId, d: Direction) {
    exists j :: i < j < |ops| && Brings(ops[j], device, d)
  }

  /** `d` was held when the device was erased, and no later value of the device has it. */
  ghost predicate Abandoned(ops: seq<HatOp>, device: DeviceId, d: Direction) {
    exists i :: 0 <= i < |ops| && ErasedHeld(ops, i, device, d) && !BroughtAfter(ops, i, device, d)
  }

  /** `d` was held when the device was erased, and a later value of the device has it again. */
  ghost predicate Resumed(ops: seq<HatOp>, device: DeviceId, d: Direction) {
    exists i :: 0 <= i < |ops| && ErasedHeld(ops, i, device, d) && BroughtAfter(ops, i, device, d)
  }

  lemma ErasureSnoc(r: seq<HatOp>, op: HatOp, i: nat, device: DeviceId, d: Direction)
    requires i < |r|
    ensures ErasedHeld(r + [op], i, device, d) <==> ErasedHeld(r, i, device, d)
    ensures BroughtAfter(r + [op], i, device, d) <==> BroughtAfter(r, i, device, d) || Brings(op, device, d)
  {
    hide LastDirections, Forgets, Brings;
    var ops := r + [op];
    assert ops[..i] == r[..i] && ops[|r|] == op && forall j :: 0 <= j < |r| ==> ops[j] == r[j];
    if j :| i < j < |r| && Brings(r[j], device, d) {
      assert Brings(ops[j], device, d);
    }
    if Brings(op, device, d) {
      assert Brings(ops[|r|], device, d);
    }
  }

  lemma ErasureLast(r: seq<HatOp>, op: HatOp, device: DeviceId, d: Direction)
    ensures ErasedHeld(r + [op], |r|, device, d) <==> Forgets(op, device) && d in LastDirections(r, device)
    ensures !BroughtAfter(r + [op], |r|, device, d)
  {
    assert (r + [op])[..|r|] == r;
  }

  lemma AbandonedSnoc(r: seq<HatOp>, op: HatOp, device: DeviceId, d: Direction)
    ensures Abandoned(r + [op], device, d) <==>
            || (!Brings(op, device, d) && Abandoned(r, device, d))
            || (Forgets(op, device) && d in LastDirections(r, device))
  {
    hide LastDirections, Forgets, Brings, ErasedHeld, BroughtAfter;
    var ops := r + [op];
    ErasureLast(r, op, device, d);
    if Abandoned(ops, device, d) {
      var i :| 0 <= i < |ops| && ErasedHeld(ops, i, device, d) && !BroughtAfter(ops, i, device, d);
      if i < |r| {
        ErasureSnoc(r, op, i, device, d);
      }
    }
    if Abandoned(r, device, d) {
      var i :| 0 <= i < |r| && ErasedHeld(r, i, device, d) && !BroughtAfter(r, i, device, d);
      ErasureSnoc(r, op, i, device, d);
    }
  }

  lemma ResumedSnoc(r: seq<HatOp>, op: HatOp, device: DeviceId, d: Direction)
    ensures Resumed(r + [op], device, d) <==>
            Resumed(r, device, d) || (Brings(op, device, d) && Abandoned(r, device, d))
  {
    hide LastDirections, Forgets, Brings, ErasedHeld, BroughtAfter;
    var ops := r + [op];
    ErasureLast(r, op, device, d);
    if Resumed(ops, device, d) {
      var i :| 0 <= i < |ops| && ErasedHeld(ops, i, device, d) && BroughtAfter(ops, i, device, d);
      ErasureSnoc(r, op, i, device, d);
    }
    if Resumed(r, device, d) {
      var i :| 0 <= i < |r| && ErasedHeld(r, i, device, d) && BroughtAfter(r, i, device, d);
      ErasureSnoc(r, op, i, device, d);
    }
    if Abandoned(r, device, d) {
      var i :| 0 <= i < |r| && ErasedHeld(r, i, device, d) && !BroughtAfter(r, i, device, d);
      ErasureSnoc(r, op, i, device, d);
    }
  }

  /** What the events of a direction look like so far. */
  ghost predicate EventsFit(types: seq<EventType>, held: bool, abandoned: bool, resumed: bool) {
    && (Alternates(types) <==> !resumed)
    && (types != [] && types[|types| - 1] == KeyDown <==> held || abandoned)
    && !(held && abandoned)
    && forall t :: t in types ==> t != Single
  }

  lemma EventsFitOn(types: seq<EventType>, held: bool, abandoned: bool, resumed: bool, forgets: bool, brings: bool,
                    now: bool)
    requires EventsFit(types, held, abandoned, resumed)
    requires (forgets ==> !now) && (brings ==> now) && (now && !brings ==> held)
    ensures var more := types + if held == now || forgets then [] else if now then [KeyDown] else [KeyUp];
            EventsFit(more, now, (!brings && abandoned) || (forgets && held), resumed || (brings && abandoned))
  {
    if held == now || forgets {
      assert types + [] == types;
    } else {
      AlternatesSnoc(types, if now then KeyDown else KeyUp);
    }
  }

  lemma AlternatesSnoc(types: seq<EventType>, e: EventType)
    requires e != Single && forall t :: t in types ==> t != Single
    ensures Alternates(types + [e]) <==>
            Alternates(types) && (e == KeyDown <==> types == [] || types[|types| - 1] == KeyUp)
  {
    var more := types + [e];
    if Alternates(more) {
      assert forall i :: 0 <= i < |types| ==> more[i] == types[i];
      assert more[|types|] == e;
    }
    if types != [] {
      assert types[|types| - 1] in types;
    }
  }

  lemma DirectionBrought(r: seq<HatOp>, op: HatOp, device: DeviceId, d: Direction)
    ensures var now := d in LastDirections(r + [op], device);
            && (Brings(op, device, d) ==> now) && (Forgets(op, device) ==> !now)
            && (now && !Brings(op, device, d) ==> d in LastDirections(r, device))
  {
    hide EventsRun, LastDirections;
    EventsSnoc(r, op, device);
  }

  lemma {:induction false} EventsFitRun(ops: seq<HatOp>, device: DeviceId, d: Direction)
    ensures EventsFit(TypesRun(ops, device, d), d in LastDirections(ops, device),
                      Abandoned(ops, device, d), Resumed(ops, device, d))
  {
    if ops != [] {
      var r, op := ops[..|ops| - 1], ops[|ops| - 1];
      hide TypesRun, LastDirections, Forgets, Brings, Abandoned, Resumed, EventsFit;
      assert ops == r + [op];
      EventsFitRun(r, device, d);
      TypesSnoc(r, op, device, d);
      AbandonedSnoc(r, op, device, d);
      ResumedSnoc(r, op, device, d);
      DirectionBrought(r, op, device, d);
      EventsFitOn(TypesRun(r, device, d), d in LastDirections(r, device), Abandoned(r, device, d),
        Resumed(r, device, d),
                  Forgets(op, device), Brings(op, device, d), d in LastDirections(ops, device));
    }
  }

  /** Over any run the downs and ups of a direction strictly alternate, beginning with a down, exactly if no direction
      that is held when the device is erased comes in a later value of the device. */
  lemma EventsAlternate(ops: seq<HatOp>, device: DeviceId, d: Direction)
    ensures Alternates(TypesRun(ops, device, d)) <==>
            forall i, j :: 0 <= i < j < |ops| && ErasedHeld(ops, i, device, d) ==> !Brings(ops[j], device, d)
  {
    hide ErasedHeld, Brings;
    EventsFitRun(ops, device, d);
    if Resumed(ops, device, d) {
      var i :| 0 <= i < |ops| && ErasedHeld(ops, i, device, d) && BroughtAfter(ops, i, device, d);
    } else {
      forall i, j | 0 <= i < j < |ops| && ErasedHeld(ops, i, device, d) ensures !Brings(ops[j], device, d) {
        assert !BroughtAfter(ops, i, device, d);
      }
    }
  }

  /** Without erasures they always do, and the last of them is a down exactly if the last hat value has the
      direction. */
  lemma EventsAlternateUnerased(ops: seq<HatOp>, device: DeviceId, d: Direction)
    requires forall op :: op in ops ==> !Forgets(op, device)
    ensures var types := TypesRun(ops, device, d);
            Alternates(types) && (d in LastDirections(ops, device) <==> |types| % 2 == 1)
  {
    hide TypesRun, LastDirections;
    EventsFitRun(ops, device, d);
    assert forall i :: 0 <= i < |ops| ==> ops[i] in ops;
  }

  /** One operation on `device` itself, with what the direction was before. */
  lemma TypesOn(r: seq<HatOp>, op: HatOp, device: DeviceId, d: Direction, types: seq<EventType>, was: bool)
    requires TypesRun(r, device, d) == types && (was <==> d in LastDirections(r, device))
    requires op == EraseOp(device) || (op.ValueOp? && op.device == device)
    ensures var now := op.ValueOp? && d in DirectionsOf(op.hat);
            && (now <==> d in LastDirections(r + [op], device))
            && TypesRun(r + [op], device, d) ==
               if was == now || op.EraseOp? then types else types + if now then [KeyDown] else [KeyUp]
  {
    TypesSnoc(r, op, device, d);
    assert types + [] == types;
  }

  lemma NoTypes(device: DeviceId, d: Direction)
    ensures TypesRun([], device, d) == [] && LastDirections([], device) == {}
  {
  }

  /** Erasing a device that holds a direction makes the same hat value give a second down, and a neutral one an up. */
  lemma ErasureDoublesDown(device: DeviceId, d: Direction, hat: int, neutral: int)
    requires d in DirectionsOf(hat) && DirectionsOf(neutral) == {}
    ensures var value := ValueOp(device, hat);
            TypesRun([value, EraseOp(device), value, ValueOp(device, neutral)], device, d) == [KeyDown, KeyDown, KeyUp]
  {
    hide TypesRun, LastDirections, DirectionsOf;
    var a, b, c := ValueOp(device, hat), EraseOp(device), ValueOp(device, neutral);
    NoTypes(device, d);
    TypesOn([], a, device, d, [], false);
    assert [] + [a] == [a];
    TypesOn([a], b, device, d, [KeyDown], true);
    assert [a] + [b] == [a, b];
    TypesOn([a, b], a, device, d, [KeyDown], false);
    assert [a, b] + [a] == [a, b, a];
    TypesOn([a, b, a], c, device, d, [KeyDown, KeyDown], true);
    assert [a, b, a] + [c] == [a, b, a, c];
  }

  lemma {:induction false} ReplayByLast(es: seq<DpadEvent>, switch: MomentarySwitchEvent)
    requires forall e :: e in es ==> e.1 != Single
    ensures var types := OfSwitch(es, switch);
            switch in Replay(es) <==> types != [] && types[|types| - 1] == KeyDown
  {
    if es != [] {
      assert es[|es| - 1] in es;
      ReplayByLast(es[..|es| - 1], switch);
    }
  }

  ghost predicate AreDpad(es: seq<DpadEvent>) {
    forall e :: e in es ==> e.1 != Single && exists d :: e.0 == SwitchOf(d)
  }

  lemma {:induction false} EventsAreDpad(ops: seq<HatOp>, device: DeviceId)
    ensures AreDpad(EventsRun(ops, device))
  {
    if ops != [] {
      var n := |ops| - 1;
      EventsAreDpad(ops[..n], device);
      if ops[n].ValueOp? {
        ConversionIsDpad(LastOf(MemoryRun(ops[..n]), device), DirectionsOf(ops[n].hat), DIRECTIONS);
      }
    }
  }

  lemma {:induction false} ConversionIsDpad(last: set<Direction>, current: set<Direction>, ds: seq<Direction>)
    ensures AreDpad(DpadEvents(last, current, ds))
  {
    if ds != [] {
      ConversionIsDpad(last, current, ds[..|ds| - 1]);
      forall e | e in EventFor(last, current, ds[|ds| - 1]) ensures e.1 != Single && exists d :: e.0 == SwitchOf(d) {
        assert e.0 == SwitchOf(ds[|ds| - 1]);
      }
    }
  }

  /** Replaying the events of a device gives exactly the keys of the directions of its last hat value, whatever other
      devices did in between, and those that were held when it was erased and that no later value has. */
  lemma ReplayIsLastValue(ops: seq<HatOp>, device: DeviceId, switch: MomentarySwitchEvent)
    ensures switch in Replay(EventsRun(ops, device)) <==>
            exists d :: switch == SwitchOf(d) && (d in LastDirections(ops, device) || Abandoned(ops, device, d))
  {
    hide EventsRun, LastDirections, Abandoned, OfSwitch, Replay, Alternates;
    var es := EventsRun(ops, device);
    EventsAreDpad(ops, device);
    ReplayByLast(es, switch);
    forall d: Direction | switch == SwitchOf(d)
      ensures switch in Replay(es) <==> d in LastDirections(ops, device) || Abandoned(ops, device, d)
    {
      EventsFitRun(ops, device, d);
    }
    if switch in Replay(es) {
      var i := InOfSwitch(es, switch);
      assert es[i] in es;
      var d :| es[i].0 == SwitchOf(d);
    }
  }

  lemma {:induction false} InOfSwitch(es: seq<DpadEvent>, switch: MomentarySwitchEvent) returns (i: nat)
    requires OfSwitch(es, switch) != []
    ensures i < |es| && es[i].0 == switch
  {
    if es[|es| - 1].0 == switch {
      i := |es| - 1;
    } else {
      i := InOfSwitch(es[..|es| - 1], switch);
    }
  }

  // ----- Together with the release events

  /** The entry that a directional pad event becomes. */
  function DpadEntry(e: DpadEvent, device: DeviceId, time: int): Entry {
    Entry(device, EventTimeStamp(time, 0), MomentarySwitch(e.0), e.1, MomentarySwitch(e.0), Original, false, Valid)
  }

  function DpadEntries(es: seq<DpadEvent>, device: DeviceId, time: int): seq<Entry> {
    if es == [] then [] else DpadEntries(es[..|es| - 1], device, time) + [DpadEntry(es[|es| - 1], device, time)]
  }
}
