/** The conversion of HID values into queue entries, with the axes of a pointing device joined into few motions. */
module HidEntries {
  import opened Types
  import opened HatSwitch

  /** `usagePage` and `usage` are absent for values without an element. */
  datatype HidValue = HidValue(timeStamp: int, usagePage: Option<int>, usage: Option<int>, integerValue: int)

  datatype DeviceProperties = DeviceProperties(device: DeviceId, isGamePad: bool)

  datatype Parameters = Parameters(xyMultiplier: real, wheelsMultiplier: real)

  // ----- Adjusting

  /** Scales a value into the range of a motion, but never down to nothing. */
  function Adjust(value: int, multiplier: real): (r: int)
    ensures -127 <= r <= 127
    ensures r == 0 <==> value == 0
  {
    var v := Truncate(value as real * multiplier);
    if v == 0 then (if value > 0 then 1 else if value < 0 then -1 else 0)
    else
      ZeroStaysZero(value, multiplier);
      if v > 127 then 127 else if v < -127 then -127 else v
  }

  lemma ZeroStaysZero(value: int, multiplier: real)
    ensures value == 0 ==> Truncate(value as real * multiplier) == 0
  {
    if value == 0 {
      assert value as real * multiplier == 0.0;
    }
  }

  /** A multiplier greater than zero keeps the direction and the order of values, so that a greater value never becomes
      a smaller motion. */
  lemma AdjustIsMonotone(a: int, b: int, multiplier: real)
    requires multiplier > 0.0 && a <= b
    ensures Adjust(a, multiplier) <= Adjust(b, multiplier)
    ensures Adjust(b, multiplier) > 0 <==> b > 0
    ensures Adjust(a, multiplier) < 0 <==> a < 0
  {
    var x, y := a as real * multiplier, b as real * multiplier;
    assert y - x == (b - a) as real * multiplier >= 0.0;
    assert b > 0 ==> y > 0.0;
    assert a < 0 ==> x < 0.0;
    assert b <= 0 ==> y <= 0.0;
    assert a >= 0 ==> x >= 0.0;
    assert Truncate(x) <= Truncate(y);
    assert x >= 0.0 ==> Truncate(x) >= 0;
    assert y <= 0.0 ==> Truncate(y) <= 0;
  }

  /** The value is scaled: rounded toward zero within the range, cut off beyond it, and one in its direction if it is
      scaled to less than one. */
  lemma AdjustScales(value: int, multiplier: real)
    ensures var x, r := value as real * multiplier, Adjust(value, multiplier);
            && (1.0 <= x < 128.0 ==> r as real <= x < r as real + 1.0)
            && (-128.0 < x <= -1.0 ==> r as real - 1.0 < x <= r as real)
            && (x >= 128.0 ==> r == 127) && (x <= -128.0 ==> r == -127)
            && (-1.0 < x < 1.0 ==> r == if value > 0 then 1 else if value < 0 then -1 else 0)
  {
    ZeroStaysZero(value, multiplier);
  }

  // ----- Classification

  datatype Axis = X | Y | VerticalWheel | HorizontalWheel

  datatype HidClass = Key(pair: UsagePair) | Pointing(axis: Axis) | LedCapsLock | Hat | Ignored

  /** What a value is taken for. `target` tells which usages are momentary switches. */
  function Classify(v: HidValue, target: (int, int) -> bool, isGamePad: bool): HidClass {
    match (v.usagePage, v.usage)
    case (Some(page), Some(usage)) =>
      if target(page, usage) then Key(UsagePair(page, usage))
      else if page == PAGE_GENERIC_DESKTOP && usage == GENERIC_DESKTOP_X && !isGamePad then Pointing(X)
      else if page == PAGE_GENERIC_DESKTOP && usage == GENERIC_DESKTOP_Y && !isGamePad then Pointing(Y)
      else if page == PAGE_GENERIC_DESKTOP && usage == GENERIC_DESKTOP_WHEEL then Pointing(VerticalWheel)
      else if page == PAGE_CONSUMER && usage == CONSUMER_AC_PAN then Pointing(HorizontalWheel)
      else if page == PAGE_LEDS && usage == LED_CAPS_LOCK then LedCapsLock
      else if isGamePad && page == PAGE_GENERIC_DESKTOP && usage == GENERIC_DESKTOP_HAT_SWITCH then Hat
      else Ignored
    case _ => Ignored
  }

  /** A value of one axis. */
  datatype Sample = Sample(axis: Axis, value: int, timeStamp: int)

  function SampleOf(v: HidValue, axis: Axis, p: Parameters): Sample {
    Sample(axis, Adjust(v.integerValue, if axis == X || axis == Y then p.xyMultiplier else p.wheelsMultiplier),
      v.timeStamp)
  }

  /** The pointing values, in order. */
  function Samples(vs: seq<HidValue>, target: (int, int) -> bool, isGamePad: bool, p: Parameters): seq<Sample> {
    if vs == [] then []
    else Samples(vs[..|vs| - 1], target, isGamePad, p) + SamplesOf(vs[|vs| - 1], target, isGamePad, p)
  }

  function SamplesOf(v: HidValue, target: (int, int) -> bool, isGamePad: bool, p: Parameters): seq<Sample> {
    match Classify(v, target, isGamePad)
    case Pointing(axis) => [SampleOf(v, axis, p)]
    case _ => []
  }

  // ----- Pending motion

  datatype Pending = Pending(timeStamp: Option<int>, x: Option<int>, y: Option<int>, verticalWheel: Option<int>,
    horizontalWheel: Option<int>) {
    function Get(axis: Axis): Option<int> {
      match axis case X => x case Y => y case VerticalWheel => verticalWheel case HorizontalWheel => horizontalWheel
    }

    function Set(s: Sample): Pending {
      match s.axis
      case X => this.(timeStamp := Some(s.timeStamp), x := Some(s.value))
      case Y => this.(timeStamp := Some(s.timeStamp), y := Some(s.value))
      case VerticalWheel => this.(timeStamp := Some(s.timeStamp), verticalWheel := Some(s.value))
      case HorizontalWheel => this.(timeStamp := Some(s.timeStamp), horizontalWheel := Some(s.value))
    }

    function Motion(): PointingMotion {
      PointingMotion(OrZero(x), OrZero(y), OrZero(verticalWheel), OrZero(horizontalWheel))
    }
  }

  const NOTHING_PENDING := Pending(None, None, None, None, None)

  function OrZero(o: Option<int>): int {
    match o case Some(v) => v case None => 0
  }

  function MotionEntry(m: PointingMotion, timeStamp: int, device: DeviceId): Entry {
    Entry(device, EventTimeStamp(timeStamp, 0), Event.Motion(m), Single, Event.Motion(m), Original, false, Valid)
  }

  function Flushed(p: Pending, device: DeviceId): seq<Entry> {
    match p.timeStamp case Some(t) => [MotionEntry(p.Motion(), t, device)] case None => []
  }

  // ----- The conversion

  datatype Conversion = Conversion(result: seq<Entry>, pending: Pending, memory: map<DeviceId, set<Direction>>)

  function KeyEntry(v: HidValue, pair: UsagePair, device: DeviceId): Entry {
    var event := MomentarySwitch(MomentarySwitchEvent(pair));
    Entry(device, EventTimeStamp(v.timeStamp, 0), event, if v.integerValue != 0 then KeyDown else KeyUp, event,
      Original, false, Valid)
  }

  function LedEntry(v: HidValue, device: DeviceId): Entry {
    var event := CapsLockStateChanged(v.integerValue);
    Entry(device, EventTimeStamp(v.timeStamp, 0), event, Single, event, VirtualEvent, false, Valid)
  }

  function Converted(c: Conversion, v: HidValue, target: (int, int) -> bool, d: DeviceProperties,
                     p: Parameters): Conversion {
    match Classify(v, target, d.isGamePad)
    case Key(pair) => c.(result := c.result + [KeyEntry(v, pair, d.device)])
    case Pointing(axis) =>
      if c.pending.Get(axis).Some? then
        Conversion(c.result + Flushed(c.pending, d.device), NOTHING_PENDING.Set(SampleOf(v, axis, p)), c.memory)
      else
        c.(pending := c.pending.Set(SampleOf(v, axis, p)))
    case LedCapsLock => c.(result := c.result + [LedEntry(v, d.device)])
    case Hat =>
      var current := DirectionsOf(v.integerValue);
      Conversion(c.result + DpadEntries(DpadEvents(LastOf(c.memory, d.device), current, DIRECTIONS), d.device,
        v.timeStamp),
                 c.pending, c.memory[d.device := current])
    case Ignored => c
  }

  function ConvertedAll(c: Conversion, vs: seq<HidValue>, target: (int, int) -> bool, d: DeviceProperties,
                        p: Parameters): Conversion {
    if vs == [] then c else Converted(ConvertedAll(c, vs[..|vs| - 1], target, d, p), vs[|vs| - 1], target, d, p)
  }

  function Entries(vs: seq<HidValue>, target: (int, int) -> bool, d: DeviceProperties, p: Parameters,
                   memory: map<DeviceId, set<Direction>>): seq<Entry>
  {
    var c := ConvertedAll(Conversion([], NOTHING_PENDING, memory), vs, target, d, p);
    c.result + Flushed(c.pending, d.device)
  }

  method MakeEntries(d: DeviceProperties, vs: seq<HidValue>, p: Parameters, target: (int, int) -> bool,
                     converter: HatSwitchConverter)
    returns (result: seq<Entry>)
    modifies converter
    ensures result == Entries(vs, target, d, p, old(converter.lastDirections))
    ensures converter.lastDirections ==
            ConvertedAll(Conversion([], NOTHING_PENDING, old(converter.lastDirections)), vs, target, d, p).memory
  {
    result := [];
    var timeStamp: Option<int> := None;
    var x: Option<int>, y: Option<int>, verticalWheel: Option<int>, horizontalWheel: Option<int> := None, None, None,
      None;
    ghost var start := Conversion([], NOTHING_PENDING, converter.lastDirections);
    assert vs[..|vs|] == vs;
    for i := 0 to |vs|
      invariant Conversion(result, Pending(timeStamp, x, y, verticalWheel, horizontalWheel),
                converter.lastDirections) ==
                ConvertedAll(start, vs[..i], target, d, p)
    {
      assert vs[..i + 1][..i] == vs[..i];
      var v := vs[i];
      match Classify(v, target, d.isGamePad) {
        case Key(pair) =>
          result := result + [KeyEntry(v, pair, d.device)];

        case Pointing(X) =>
          if x.Some? {
            result := result + Flushed(Pending(timeStamp, x, y, verticalWheel, horizontalWheel), d.device);
            x, y, verticalWheel, horizontalWheel := None, None, None, None;
          }
          timeStamp, x := Some(v.timeStamp), Some(Adjust(v.integerValue, p.xyMultiplier));

        case Pointing(Y) =>
          if y.Some? {
            result := result + Flushed(Pending(timeStamp, x, y, verticalWheel, horizontalWheel), d.device);
            x, y, verticalWheel, horizontalWheel := None, None, None, None;
          }
          timeStamp, y := Some(v.timeStamp), Some(Adjust(v.integerValue, p.xyMultiplier));

        case Pointing(VerticalWheel) =>
          if verticalWheel.Some? {
            result := result + Flushed(Pending(timeStamp, x, y, verticalWheel, horizontalWheel), d.device);
            x, y, verticalWheel, horizontalWheel := None, None, None, None;
          }
          timeStamp, verticalWheel := Some(v.timeStamp), Some(Adjust(v.integerValue, p.wheelsMultiplier));

        case Pointing(HorizontalWheel) =>
          if horizontalWheel.Some? {
            result := result + Flushed(Pending(timeStamp, x, y, verticalWheel, horizontalWheel), d.device);
            x, y, verticalWheel, horizontalWheel := None, None, None, None;
          }
          timeStamp, horizontalWheel := Some(v.timeStamp), Some(Adjust(v.integerValue, p.wheelsMultiplier));

        case LedCapsLock =>
          result := result + [LedEntry(v, d.device)];

        case Hat =>
          var events := converter.ToDpadEvents(d.device, v.integerValue);
          result := result + DpadEntries(events, d.device, v.timeStamp);

        case Ignored =>
      }
    }
    result := result + Flushed(Pending(timeStamp, x, y, verticalWheel, horizontalWheel), d.device);
  }

  // ----- Groups

  /** No axis twice. */
  ghost predicate Joinable(g: seq<Sample>) {
    forall i, j :: 0 <= i < j < |g| ==> g[i].axis != g[j].axis
  }

  function Has(g: seq<Sample>, axis: Axis): bool {
    exists i :: 0 <= i < |g| && g[i].axis == axis
  }

  /** The groups closed so far and the open one. */
  function Greedy(s: seq<Sample>): (seq<seq<Sample>>, seq<Sample>) {
    if s == [] then ([], [])
    else
      var (done, open) := Greedy(s[..|s| - 1]);
      var v := s[|s| - 1];
      if Has(open, v.axis) then (done + [open], [v]) else (done, open + [v])
  }

  function Groups(s: seq<Sample>): seq<seq<Sample>> {
    var (done, open) := Greedy(s);
    if open == [] then done else done + [open]
  }

  function Concat(gs: seq<seq<Sample>>): seq<Sample> {
    if gs == [] then [] else Concat(gs[..|gs| - 1]) + gs[|gs| - 1]
  }

  ghost predicate IsSplit(gs: seq<seq<Sample>>, s: seq<Sample>) {
    Concat(gs) == s && forall g :: g in gs ==> Joinable(g)
  }

  lemma NoneJoinable(v: Sample)
    ensures Joinable([]) && Joinable([v])
  {
  }

  lemma {:induction false} GreedyIsSplit(s: seq<Sample>)
    ensures var (done, open) := Greedy(s);
            Concat(done) + open == s && Joinable(open) && (s != [] ==> open != [])
            && forall g :: g in done ==> Joinable(g) && g != []
  {
    if s != [] {
      NoneJoinable(s[|s| - 1]);
      hide Joinable;
      var (done, open) := Greedy(s[..|s| - 1]);
      var v := s[|s| - 1];
      GreedyIsSplit(s[..|s| - 1]);
      assert s == (Concat(done) + open) + [v];
      if Has(open, v.axis) {
        assert Concat(done + [open]) == Concat(done) + open by {
          assert (done + [open])[..|done|] == done;
        }
        assert forall g :: g in done + [open] ==> g in done || g == open;
      } else {
        assert (Concat(done) + open) + [v] == Concat(done) + (open + [v]);
        JoinableSnoc(open, v);
      }
    }
  }

  lemma JoinableSnoc(g: seq<Sample>, v: Sample)
    requires Joinable(g) && !Has(g, v.axis)
    ensures Joinable(g + [v])
  {
  }

  /** The groups split the pointing values; none is empty and none repeats an axis. */
  lemma GroupsAreSplit(s: seq<Sample>)
    ensures IsSplit(Groups(s), s) && forall g :: g in Groups(s) ==> g != []
  {
    GreedyIsSplit(s);
    var (done, open) := Greedy(s);
    if open != [] {
      assert (done + [open])[..|done|] == done;
    }
  }

  lemma ShorterSplit(gs: seq<seq<Sample>>, s: seq<Sample>)
    requires IsSplit(gs, s) && gs != [] && gs[|gs| - 1] != [] && s != []
    ensures s[|s| - 1] == gs[|gs| - 1][|gs[|gs| - 1]| - 1]
    ensures IsSplit(gs[..|gs| - 1] + [gs[|gs| - 1][..|gs[|gs| - 1]| - 1]], s[..|s| - 1])
    ensures |gs[|gs| - 1]| == 1 ==> IsSplit(gs[..|gs| - 1], s[..|s| - 1])
  {
    var front, last := gs[..|gs| - 1], gs[|gs| - 1];
    var cut := last[..|last| - 1];
    assert last == cut + [last[|last| - 1]];
    assert s == Concat(front) + last;
    assert (front + [cut])[..|front|] == front;
    assert s[..|s| - 1] == Concat(front) + cut;
    assert forall g :: g in front + [cut] ==> g in front || g == cut;
    assert forall g :: g in front ==> g in gs;
    assert last in gs;
    if |last| == 1 {
      assert Concat(front) + cut == Concat(front);
    }
  }

  /** Greedy joining stays ahead: it never needs more groups than another split, and with as many its open group is no
      longer than the last one of the other. */
  lemma {:induction false} GreedyStaysAhead(gs: seq<seq<Sample>>, s: seq<Sample>)
    requires IsSplit(gs, s) && s != [] && gs != []
    ensures |gs| >= |Greedy(s).0| + 1
    ensures |gs| == |Greedy(s).0| + 1 ==> |Greedy(s).1| <= |gs[|gs| - 1]|
    decreases |s|, |gs|
  {
    NothingGreedy();
    hide Greedy, Joinable, Has;
    var front, last := gs[..|gs| - 1], gs[|gs| - 1];
    var r, v := s[..|s| - 1], s[|s| - 1];
    var (done, open) := Greedy(r);
    assert forall g :: g in front ==> g in gs;
    if last == [] {
      assert Concat(front) + [] == Concat(front);
      GreedyStaysAhead(front, s);
    } else {
      ShorterSplit(gs, s);
      GreedySnoc(r, v);
      assert s == r + [v];
      if r == [] {
      } else if |last| == 1 {
        assert Concat(front) == r && front != [];
        GreedyStaysAhead(front, r);
      } else {
        var cut := last[..|last| - 1];
        GreedyStaysAhead(front + [cut], r);
        if |gs| == |done| + 1 {
          assert last in gs && last == cut + [v];
          OpenEndsLast(front + [cut], r, v, last);
        }
      }
    }
  }

  lemma NothingGreedy()
    ensures Greedy([]) == ([], [])
  {
  }

  lemma GreedySnoc(r: seq<Sample>, v: Sample)
    ensures var (done, open) := Greedy(r);
            Greedy(r + [v]) == if Has(open, v.axis) then (done + [open], [v]) else (done, open + [v])
    ensures r == [] ==> Greedy(r + [v]) == ([], [v])
  {
    assert (r + [v])[..|r|] == r;
    if r == [] {
      assert !Has([], v.axis) && [] + [v] == [v];
    }
  }

  lemma OpenEndsLast(gs: seq<seq<Sample>>, r: seq<Sample>, v: Sample, last: seq<Sample>)
    requires IsSplit(gs, r) && gs != [] && |Greedy(r).1| <= |gs[|gs| - 1]| && last == gs[|gs| - 1] + [v]
             && Joinable(last)
    ensures !Has(Greedy(r).1, v.axis)
  {
    var open, cut := Greedy(r).1, gs[|gs| - 1];
    GreedyIsSplit(r);
    assert var last := gs[|gs| - 1]; |last| <= |r| && last == r[|r| - |last|..];
    forall i | 0 <= i < |open| ensures open[i].axis != v.axis {
      var j := |cut| - |open| + i;
      assert cut[j] == r[|r| - |cut| + j] == open[i];
      assert last[j] == cut[j] && last[|cut|] == v;
    }
  }

  /** No split of the pointing values into consecutive groups without a repeated axis has fewer groups. */
  lemma GroupsAreMinimal(gs: seq<seq<Sample>>, s: seq<Sample>)
    requires IsSplit(gs, s)
    ensures |Groups(s)| <= |gs|
  {
    if s != [] {
      assert gs != [];
      GreedyStaysAhead(gs, s);
    }
  }

  // ----- Motions

  function SumOf(s: seq<Sample>, axis: Axis): int {
    if s == [] then 0 else SumOf(s[..|s| - 1], axis) + if s[|s| - 1].axis == axis then s[|s| - 1].value else 0
  }

  function Component(m: PointingMotion, axis: Axis): int {
    match axis
    case X => m.x
    case Y => m.y
    case VerticalWheel => m.verticalWheel
    case HorizontalWheel => m.horizontalWheel
  }

  /** The motion that carries the samples of `g`, with the time stamp of the last. */
  ghost predicate Carries(e: Entry, g: seq<Sample>, device: DeviceId) {
    && g != [] && e.event.Motion?
    && e == Entry(device, EventTimeStamp(g[|g| - 1].timeStamp, 0), e.event, Single, e.event, Original, false, Valid)
    && forall axis :: Component(e.event.motion, axis) == SumOf(g, axis)
  }

  function Motions(es: seq<Entry>): seq<Entry> {
    if es == [] then [] else Motions(es[..|es| - 1]) + if es[|es| - 1].event.Motion? then [es[|es| - 1]] else []
  }

  function Others(es: seq<Entry>): seq<Entry> {
    if es == [] then [] else Others(es[..|es| - 1]) + if es[|es| - 1].event.Motion? then [] else [es[|es| - 1]]
  }

  lemma {:induction false} SplitEntries(a: seq<Entry>, b: seq<Entry>)
    ensures Motions(a + b) == Motions(a) + Motions(b) && Others(a + b) == Others(a) + Others(b)
  {
    if b == [] {
      assert a + b == a;
    } else {
      var n := |b| - 1;
      assert (a + b)[..|a + b| - 1] == a + b[..n] && (a + b)[|a + b| - 1] == b[n];
      SplitEntries(a, b[..n]);
    }
  }

  lemma OneEntry(e: Entry)
    ensures Motions([e]) == (if e.event.Motion? then [e] else []) && Others([e]) == if e.event.Motion? then [] else [e]
  {
    assert [e][..0] == [];
  }

  lemma {:induction false} DpadAreOthers(es: seq<DpadEvent>, device: DeviceId, time: int)
    ensures Motions(DpadEntries(es, device, time)) == []
            && Others(DpadEntries(es, device, time)) == DpadEntries(es, device, time)
  {
    if es != [] {
      DpadAreOthers(es[..|es| - 1], device, time);
      var e := DpadEntry(es[|es| - 1], device, time);
      SplitEntries(DpadEntries(es[..|es| - 1], device, time), [e]);
      OneEntry(e);
    }
  }

  /** `pending` holds the open group. */
  ghost predicate Holds(pending: Pending, open: seq<Sample>) {
    && (if open == [] then pending == NOTHING_PENDING else pending.timeStamp == Some(open[|open| - 1].timeStamp))
    && forall axis :: if Has(open, axis) then pending.Get(axis) == Some(SumOf(open, axis))
                      else pending.Get(axis) == None && SumOf(open, axis) == 0
  }

  ghost predicate CarryAll(es: seq<Entry>, gs: seq<seq<Sample>>, device: DeviceId) {
    |es| == |gs| && forall i :: 0 <= i < |gs| ==> Carries(es[i], gs[i], device)
  }

  lemma HoldsMore(pending: Pending, open: seq<Sample>, v: Sample)
    requires Holds(pending, open) && !Has(open, v.axis)
    ensures Holds(pending.Set(v), open + [v])
  {
    var more := open + [v];
    assert more[..|open|] == open;
    forall axis ensures Has(more, axis) <==> Has(open, axis) || axis == v.axis {
      if i :| 0 <= i < |open| && open[i].axis == axis {
        assert more[i].axis == axis;
      }
      assert more[|open|].axis == v.axis;
    }
  }

  lemma FlushCarries(pending: Pending, open: seq<Sample>, device: DeviceId)
    requires Holds(pending, open)
    ensures open == [] ==> Flushed(pending, device) == []
    ensures open != [] ==> |Flushed(pending, device)| == 1 && Carries(Flushed(pending, device)[0], open, device)
  {
    if open != [] {
      var e := Flushed(pending, device)[0];
      forall axis ensures Component(e.event.motion, axis) == SumOf(open, axis) {
        assert Component(e.event.motion, axis) == OrZero(pending.Get(axis));
      }
    }
  }

  /** The entries that a value other than a pointing value becomes. */
  function OtherOf(memory: map<DeviceId, set<Direction>>, v: HidValue, target: (int, int) -> bool,
                   d: DeviceProperties): seq<Entry> {
    match Classify(v, target, d.isGamePad)
    case Key(pair) => [KeyEntry(v, pair, d.device)]
    case LedCapsLock => [LedEntry(v, d.device)]
    case Hat => DpadEntries(DpadEvents(LastOf(memory, d.device), DirectionsOf(v.integerValue), DIRECTIONS), d.device,
      v.timeStamp)
    case _ => []
  }

  predicate IsUsage(v: HidValue, page: int, usage: int) {
    v.usagePage == Some(page) && v.usage == Some(usage)
  }

  /** What a value becomes by its usage: a momentary switch a key event, down exactly for a nonzero value; the caps lock
      LED a report of its state; a hat switch of a game pad the key events of the pad; anything else no entry of its
      own. All of them carry the time stamp of the value and the device. */
  lemma OthersByUsage(memory: map<DeviceId, set<Direction>>, v: HidValue, page: int, usage: int,
                      target: (int, int) -> bool, d: DeviceProperties)
    requires IsUsage(v, page, usage)
    ensures var es, time := OtherOf(memory, v, target, d), EventTimeStamp(v.timeStamp, 0);
            if target(page, usage) then
              var event := MomentarySwitch(MomentarySwitchEvent(UsagePair(page, usage)));
              es == [Entry(d.device, time, event, if v.integerValue == 0 then KeyUp else KeyDown, event, Original,
                           false, Valid)]
            else if (page, usage) == (0x08, 0x02) then
              var event := CapsLockStateChanged(v.integerValue);
              es == [Entry(d.device, time, event, Single, event, VirtualEvent, false, Valid)]
            else if (page, usage) == (0x01, 0x39) && d.isGamePad then
              var turns := DpadEvents(LastOf(memory, d.device), DirectionsOf(v.integerValue), DIRECTIONS);
              && |es| == |turns|
              && forall i :: 0 <= i < |es| ==>
                   var event := MomentarySwitch(turns[i].0);
                   es[i] == Entry(d.device, time, event, turns[i].1, event, Original, false, Valid)
            else es == []
  {
    if Classify(v, target, d.isGamePad).Hat? {
      DpadEntriesAre(DpadEvents(LastOf(memory, d.device), DirectionsOf(v.integerValue), DIRECTIONS), d.device,
                     v.timeStamp);
    }
  }

  lemma {:induction false} DpadEntriesAre(es: seq<DpadEvent>, device: DeviceId, time: int)
    ensures |DpadEntries(es, device, time)| == |es|
    ensures forall i :: 0 <= i < |es| ==>
              DpadEntries(es, device, time)[i] == Entry(device, EventTimeStamp(time, 0), MomentarySwitch(es[i].0),
                                                        es[i].1, MomentarySwitch(es[i].0), Original, false, Valid)
  {
    if es != [] {
      DpadEntriesAre(es[..|es| - 1], device, time);
    }
  }

  /** A value without a usage is passed over. */
  lemma NothingWithoutUsage(c: Conversion, v: HidValue, target: (int, int) -> bool, d: DeviceProperties, p: Parameters)
    requires v.usagePage == None || v.usage == None
    ensures Converted(c, v, target, d, p) == c
  {
  }

  function OthersOf(vs: seq<HidValue>, target: (int, int) -> bool, d: DeviceProperties, p: Parameters,
                    memory: map<DeviceId, set<Direction>>): seq<Entry>
  {
    if vs == [] then []
    else
      var before := vs[..|vs| - 1];
      OthersOf(before, target, d, p, memory)
      + OtherOf(ConvertedAll(Conversion([], NOTHING_PENDING, memory), before, target, d, p).memory, vs[|vs| - 1],
        target, d)
  }

  /** The conversion so far agrees with the greedy groups of `s`. */
  ghost predicate Follows(c: Conversion, s: seq<Sample>, device: DeviceId) {
    Holds(c.pending, Greedy(s).1) && CarryAll(Motions(c.result), Greedy(s).0, device)
  }

  lemma ConversionStep(c: Conversion, s: seq<Sample>, v: HidValue, target: (int, int) -> bool, d: DeviceProperties,
                       p: Parameters)
    requires Follows(c, s, d.device)
    ensures var c' := Converted(c, v, target, d, p);
            && Follows(c', s + SamplesOf(v, target, d.isGamePad, p), d.device)
            && Others(c'.result) == Others(c.result) + OtherOf(c.memory, v, target, d)
  {
    hide Greedy, Holds, CarryAll, Motions, Others, DpadEvents, DpadEntries, DirectionsOf, Adjust;
    assert s + [] == s && Motions(c.result) + [] == Motions(c.result) && Others(c.result) + [] == Others(c.result);
    match Classify(v, target, d.isGamePad)
    case Key(pair) => AddOther(c.result, [KeyEntry(v, pair, d.device)]);
    case LedCapsLock => AddOther(c.result, [LedEntry(v, d.device)]);
    case Hat =>
      var events := DpadEvents(LastOf(c.memory, d.device), DirectionsOf(v.integerValue), DIRECTIONS);
      DpadAreOthers(events, d.device, v.timeStamp);
      SplitEntries(c.result, DpadEntries(events, d.device, v.timeStamp));
    case Pointing(axis) => PointingStep(c, s, SampleOf(v, axis, p), d.device);
    case Ignored =>
  }

  lemma {:induction false} ConversionFollowsGreedy(vs: seq<HidValue>, target: (int, int) -> bool, d: DeviceProperties,
                                                   p: Parameters,
                                                   memory: map<DeviceId, set<Direction>>)
    ensures var c := ConvertedAll(Conversion([], NOTHING_PENDING, memory), vs, target, d, p);
            && Follows(c, Samples(vs, target, d.isGamePad, p), d.device)
            && Others(c.result) == OthersOf(vs, target, d, p, memory)
  {
    if vs == [] {
      assert Holds(NOTHING_PENDING, []);
    } else {
      var r, v := vs[..|vs| - 1], vs[|vs| - 1];
      ConversionFollowsGreedy(r, target, d, p, memory);
      ConversionStep(ConvertedAll(Conversion([], NOTHING_PENDING, memory), r, target, d, p),
                     Samples(r, target, d.isGamePad, p), v, target, d, p);
    }
  }

  lemma AddOther(s: seq<Entry>, es: seq<Entry>)
    requires |es| == 1 && !es[0].event.Motion?
    ensures Motions(s + es) == Motions(s) && Others(s + es) == Others(s) + es
  {
    SplitEntries(s, es);
    assert es == [es[0]];
    OneEntry(es[0]);
  }

  lemma PointingStep(c: Conversion, s: seq<Sample>, v: Sample, device: DeviceId)
    requires var (done, open) := Greedy(s); Holds(c.pending, open) && CarryAll(Motions(c.result), done, device)
    ensures var (done, open) := Greedy(s + [v]);
            var flushes := c.pending.Get(v.axis).Some?;
            var result := if flushes then c.result + Flushed(c.pending, device) else c.result;
            && Holds(if flushes then NOTHING_PENDING.Set(v) else c.pending.Set(v), open)
            && CarryAll(Motions(result), done, device) && Others(result) == Others(c.result)
  {
    var (done, open) := Greedy(s);
    assert (s + [v])[..|s|] == s;
    assert Has(open, v.axis) <==> c.pending.Get(v.axis).Some?;
    if Has(open, v.axis) {
      FlushCarries(c.pending, open, device);
      var e := Flushed(c.pending, device)[0];
      assert Flushed(c.pending, device) == [e];
      SplitEntries(c.result, [e]);
      OneEntry(e);
      assert Holds(NOTHING_PENDING, []);
      HoldsMore(NOTHING_PENDING, [], v);
      assert [] + [v] == [v];
    } else {
      HoldsMore(c.pending, open, v);
    }
  }

  /** The motions of the result carry the groups, one each, in order; all other entries are what the other values
      become, in order. */
  lemma MotionsCarryGroups(vs: seq<HidValue>, target: (int, int) -> bool, d: DeviceProperties, p: Parameters,
                           memory: map<DeviceId, set<Direction>>)
    ensures var es := Entries(vs, target, d, p, memory);
            && CarryAll(Motions(es), Groups(Samples(vs, target, d.isGamePad, p)), d.device)
            && Others(es) == OthersOf(vs, target, d, p, memory)
  {
    hide ConvertedAll, Greedy, Samples, Carries, Motions, Others, OthersOf, Holds;
    var c := ConvertedAll(Conversion([], NOTHING_PENDING, memory), vs, target, d, p);
    var (done, open) := Greedy(Samples(vs, target, d.isGamePad, p));
    ConversionFollowsGreedy(vs, target, d, p, memory);
    FlushCarries(c.pending, open, d.device);
    if open == [] {
      assert c.result + [] == c.result;
    } else {
      SplitEntries(c.result, Flushed(c.pending, d.device));
      var e := Flushed(c.pending, d.device)[0];
      assert Flushed(c.pending, d.device) == [e];
      OneEntry(e);
    }
  }

  lemma {:induction false} ResultsGrow(vs: seq<HidValue>, n: nat, target: (int, int) -> bool, d: DeviceProperties,
                                       p: Parameters,
                                       memory: map<DeviceId, set<Direction>>)
    requires n <= |vs|
    ensures ConvertedAll(Conversion([], NOTHING_PENDING, memory), vs[..n], target, d, p).result <=
            ConvertedAll(Conversion([], NOTHING_PENDING, memory), vs, target, d, p).result
  {
    if n == |vs| {
      assert vs[..n] == vs;
    } else {
      assert vs[..|vs| - 1][..n] == vs[..n];
      ResultsGrow(vs[..|vs| - 1], n, target, d, p, memory);
    }
  }

  /** Where the motions stand among the other entries: after any number of values the entries so far are a beginning of
      the result, with one motion for each group that was closed by then, and every other entry of those values. */
  lemma EntriesInTurn(vs: seq<HidValue>, n: nat, target: (int, int) -> bool, d: DeviceProperties, p: Parameters,
                      memory: map<DeviceId, set<Direction>>)
    requires n <= |vs|
    ensures var r := ConvertedAll(Conversion([], NOTHING_PENDING, memory), vs[..n], target, d, p).result;
            && r <= Entries(vs, target, d, p, memory)
            && CarryAll(Motions(r), Greedy(Samples(vs[..n], target, d.isGamePad, p)).0, d.device)
            && Others(r) == OthersOf(vs[..n], target, d, p, memory)
  {
    ResultsGrow(vs, n, target, d, p, memory);
    ConversionFollowsGreedy(vs[..n], target, d, p, memory);
  }

  function MotionSum(es: seq<Entry>, axis: Axis): int {
    if es == [] then 0
    else MotionSum(es[..|es| - 1], axis) + if es[|es| - 1].event.Motion?
      then Component(es[|es| - 1].event.motion, axis) else 0
  }

  lemma {:induction false} SumAppend(a: seq<Sample>, b: seq<Sample>, axis: Axis)
    ensures SumOf(a + b, axis) == SumOf(a, axis) + SumOf(b, axis)
  {
    if b == [] {
      assert a + b == a;
    } else {
      var n := |b| - 1;
      assert (a + b)[..|a + b| - 1] == a + b[..n] && (a + b)[|a + b| - 1] == b[n];
      SumAppend(a, b[..n], axis);
    }
  }

  lemma {:induction false} CarriedSum(es: seq<Entry>, gs: seq<seq<Sample>>, device: DeviceId, axis: Axis)
    requires CarryAll(es, gs, device)
    ensures MotionSum(es, axis) == SumOf(Concat(gs), axis)
  {
    if gs != [] {
      var n := |gs| - 1;
      assert CarryAll(es[..n], gs[..n], device);
      CarriedSum(es[..n], gs[..n], device, axis);
      SumAppend(Concat(gs[..n]), gs[n], axis);
      assert Carries(es[n], gs[n], device);
    }
  }

  lemma {:induction false} MotionSumOfMotions(es: seq<Entry>, axis: Axis)
    ensures MotionSum(Motions(es), axis) == MotionSum(es, axis)
  {
    if es != [] {
      var ms, e := Motions(es[..|es| - 1]), es[|es| - 1];
      MotionSumOfMotions(es[..|es| - 1], axis);
      if e.event.Motion? {
        assert (ms + [e])[..|ms + [e]| - 1] == ms;
      } else {
        assert ms + [] == ms;
      }
    }
  }

  // ----- Sums by usage

  /** The sum of all motions. */
  function MotionTotal(es: seq<Entry>): PointingMotion {
    if es == [] then PointingMotion(0, 0, 0, 0)
    else
      var t, event := MotionTotal(es[..|es| - 1]), es[|es| - 1].event;
      if !event.Motion? then t
      else
        var m := event.motion;
        PointingMotion(t.x + m.x, t.y + m.y, t.verticalWheel + m.verticalWheel, t.horizontalWheel + m.horizontalWheel)
  }

  lemma {:induction false} TotalIsSums(es: seq<Entry>)
    ensures forall axis :: Component(MotionTotal(es), axis) == MotionSum(es, axis)
  {
    if es != [] {
      TotalIsSums(es[..|es| - 1]);
    }
  }

  /** The adjusted values of a usage, added up. */
  function UsageSum(vs: seq<HidValue>, page: int, usage: int, multiplier: real): int {
    if vs == [] then 0
    else
      var v := vs[|vs| - 1];
      UsageSum(vs[..|vs| - 1], page, usage, multiplier)
      + if IsUsage(v, page, usage) then Adjust(v.integerValue, multiplier) else 0
  }

  /** On one axis, which is that of one usage or, if not `used`, of none. */
  lemma {:induction false} SamplesByUsage(vs: seq<HidValue>, target: (int, int) -> bool, isGamePad: bool, p: Parameters,
                                          axis: Axis, page: int, usage: int, used: bool)
    requires forall v :: Classify(v, target, isGamePad) == Pointing(axis) <==> used && IsUsage(v, page, usage)
    ensures SumOf(Samples(vs, target, isGamePad, p), axis) ==
            if used
            then UsageSum(vs, page, usage, if axis == X || axis == Y then p.xyMultiplier else p.wheelsMultiplier) else 0
  {
    hide Adjust, Classify;
    if vs != [] {
      var r, v := vs[..|vs| - 1], vs[|vs| - 1];
      SamplesByUsage(r, target, isGamePad, p, axis, page, usage, used);
      SumAppend(Samples(r, target, isGamePad, p), SamplesOf(v, target, isGamePad, p), axis);
      OneSampleSum(v, target, isGamePad, p);
    }
  }

  lemma AxesByUsage(target: (int, int) -> bool, isGamePad: bool)
    ensures forall v :: Classify(v, target, isGamePad) == Pointing(X) <==>
              (!isGamePad && !target(0x01, 0x30)) && IsUsage(v, 0x01, 0x30)
    ensures forall v :: Classify(v, target, isGamePad) == Pointing(Y) <==>
              (!isGamePad && !target(0x01, 0x31)) && IsUsage(v, 0x01, 0x31)
    ensures forall v :: Classify(v, target, isGamePad) == Pointing(VerticalWheel) <==>
              !target(0x01, 0x38) && IsUsage(v, 0x01, 0x38)
    ensures forall v :: Classify(v, target, isGamePad) == Pointing(HorizontalWheel) <==>
              !target(0x0c, 0x238) && IsUsage(v, 0x0c, 0x238)
  {
  }

  lemma OneSampleSum(v: HidValue, target: (int, int) -> bool, isGamePad: bool, p: Parameters)
    ensures forall axis :: SumOf(SamplesOf(v, target, isGamePad, p), axis) ==
              if Classify(v, target, isGamePad) == Pointing(axis) then SampleOf(v, axis, p).value else 0
  {
    hide Adjust;
    var s := SamplesOf(v, target, isGamePad, p);
    assert s != [] ==> s[..0] == [];
  }

  /** The motions add up to the adjusted values of the usages X, Y, wheel and AC pan, each in its own component; a game
      pad has no X and Y. */
  lemma MotionsByUsage(vs: seq<HidValue>, target: (int, int) -> bool, d: DeviceProperties, p: Parameters,
                       memory: map<DeviceId, set<Direction>>)
    ensures var m := MotionTotal(Entries(vs, target, d, p, memory));
            && m.x == (if d.isGamePad || target(0x01, 0x30) then 0 else UsageSum(vs, 0x01, 0x30, p.xyMultiplier))
            && m.y == (if d.isGamePad || target(0x01, 0x31) then 0 else UsageSum(vs, 0x01, 0x31, p.xyMultiplier))
            && m.verticalWheel == (if target(0x01, 0x38) then 0 else UsageSum(vs, 0x01, 0x38, p.wheelsMultiplier))
            && m.horizontalWheel == (if target(0x0c, 0x238) then 0 else UsageSum(vs, 0x0c, 0x238, p.wheelsMultiplier))
  {
    hide Entries, Samples, SumOf, UsageSum, MotionSum;
    var es, s := Entries(vs, target, d, p, memory), Samples(vs, target, d.isGamePad, p);
    GroupsAreSplit(s);
    JoiningConserves(vs, target, d, p, memory, Groups(s));
    AxesByUsage(target, d.isGamePad);
    hide Classify;
    SamplesByUsage(vs, target, d.isGamePad, p, X, 0x01, 0x30, !d.isGamePad && !target(0x01, 0x30));
    SamplesByUsage(vs, target, d.isGamePad, p, Y, 0x01, 0x31, !d.isGamePad && !target(0x01, 0x31));
    SamplesByUsage(vs, target, d.isGamePad, p, VerticalWheel, 0x01, 0x38, !target(0x01, 0x38));
    SamplesByUsage(vs, target, d.isGamePad, p, HorizontalWheel, 0x0c, 0x238, !target(0x0c, 0x238));
    TotalIsSums(es);
    assert MotionTotal(es).x == Component(MotionTotal(es), X) && MotionTotal(es).y == Component(MotionTotal(es), Y);
    assert MotionTotal(es).verticalWheel == Component(MotionTotal(es), VerticalWheel);
    assert MotionTotal(es).horizontalWheel == Component(MotionTotal(es), HorizontalWheel);
  }

  lemma {:induction false} SamplesBounded(vs: seq<HidValue>, target: (int, int) -> bool, isGamePad: bool, p: Parameters)
    ensures forall s :: s in Samples(vs, target, isGamePad, p) ==> -127 <= s.value <= 127
  {
    if vs != [] {
      SamplesBounded(vs[..|vs| - 1], target, isGamePad, p);
    }
  }

  lemma {:induction false} JoinableBounded(g: seq<Sample>, axis: Axis)
    requires Joinable(g) && forall s :: s in g ==> -127 <= s.value <= 127
    ensures -127 <= SumOf(g, axis) <= 127
    ensures !Has(g, axis) ==> SumOf(g, axis) == 0
  {
    if g != [] {
      var r, v := g[..|g| - 1], g[|g| - 1];
      assert v in g;
      JoinableBounded(r, axis);
      if v.axis == axis {
        assert !Has(r, axis);
      } else if i :| 0 <= i < |r| && r[i].axis == axis {
        assert g[i].axis == axis;
      }
    }
  }

  lemma {:induction false} InConcat(gs: seq<seq<Sample>>, g: seq<Sample>, v: Sample)
    requires g in gs && v in g
    ensures v in Concat(gs)
  {
    if gs[|gs| - 1] != g {
      InConcat(gs[..|gs| - 1], g, v);
    }
  }

  /** Joining conserves: on every axis the motions add up to the adjusted values; every component fits a report; and
      there are as few motions as any split of the values into consecutive groups without a repeated axis allows. */
  lemma JoiningConserves(vs: seq<HidValue>, target: (int, int) -> bool, d: DeviceProperties, p: Parameters,
                         memory: map<DeviceId, set<Direction>>, gs: seq<seq<Sample>>)
    requires IsSplit(gs, Samples(vs, target, d.isGamePad, p))
    ensures var es := Entries(vs, target, d, p, memory);
            && (forall axis :: MotionSum(es, axis) == SumOf(Samples(vs, target, d.isGamePad, p), axis))
            && (forall e, axis :: e in Motions(es) ==>
                  e.event.Motion? && -127 <= Component(e.event.motion, axis) <= 127)
            && |Motions(es)| <= |gs|
  {
    var es := Entries(vs, target, d, p, memory);
    var s := Samples(vs, target, d.isGamePad, p);
    var ms := Motions(es);
    MotionsCarryGroups(vs, target, d, p, memory);
    GroupsAreSplit(s);
    GroupsAreMinimal(gs, s);
    forall axis ensures MotionSum(es, axis) == SumOf(s, axis) {
      CarriedSum(ms, Groups(s), d.device, axis);
      MotionSumOfMotions(es, axis);
    }
    SamplesBounded(vs, target, d.isGamePad, p);
    forall e, axis | e in ms ensures e.event.Motion? && -127 <= Component(e.event.motion, axis) <= 127 {
      var i :| 0 <= i < |ms| && ms[i] == e;
      var g := Groups(s)[i];
      assert Carries(e, g, d.device) && g in Groups(s);
      forall v | v in g ensures -127 <= v.value <= 127 {
        InConcat(Groups(s), g, v);
      }
      JoinableBounded(g, axis);
    }
  }
}
