/** What the entries that a batch of HID values becomes do next: whether they reach the queue in time order, and which
    keys they leave pressed. */
module HidRuns {
  import opened Types
  import opened HatSwitch
  import opened HidEntries
  import opened PressedKeys
  import Queues = QueueStates

  /** Everything that a conversion depends on besides the values. */
  datatype Setting = Setting(target: (int, int) -> bool, d: DeviceProperties, p: Parameters,
                             memory: map<DeviceId, set<Direction>>) {
    function Class(v: HidValue): HidClass {
      Classify(v, target, d.isGamePad)
    }

    function Samples(vs: seq<HidValue>): seq<Sample> {
      HidEntries.Samples(vs, target, d.isGamePad, p)
    }

    function Run(vs: seq<HidValue>): Conversion {
      ConvertedAll(Conversion([], NOTHING_PENDING, memory), vs, target, d, p)
    }

    function Entries(vs: seq<HidValue>): seq<Entry> {
      HidEntries.Entries(vs, target, d, p, memory)
    }
  }

  // ----- Time order

  ghost predicate ValuesInOrder(vs: seq<HidValue>) {
    forall i, j :: 0 <= i < j < |vs| ==> vs[i].timeStamp <= vs[j].timeStamp
  }

  /** The directions that the hat switch of the device has before the next value. */
  function DirectionsAfter(vs: seq<HidValue>, x: Setting): set<Direction> {
    if vs == [] then LastOf(x.memory, x.d.device)
    else if x.Class(vs[|vs| - 1]).Hat? then DirectionsOf(vs[|vs| - 1].integerValue)
    else DirectionsAfter(vs[..|vs| - 1], x)
  }

  /** After the values `before`, `v` gives an entry of its own at once: a key, a LED, or a hat value that changes the
      directions. */
  predicate Emits(before: seq<HidValue>, v: HidValue, x: Setting) {
    match x.Class(v)
    case Key(_) => true
    case LedCapsLock => true
    case Hat => DirectionsOf(v.integerValue) != DirectionsAfter(before, x)
    case _ => false
  }

  /** After the values `before`, the pointing value `v` joins the motion that is open, instead of starting another. */
  predicate Joins(before: seq<HidValue>, v: HidValue, x: Setting) {
    x.Class(v).Pointing? && !Has(Greedy(x.Samples(before)).1, x.Class(v).axis)
  }

  predicate PointingIn(vs: seq<HidValue>, from: nat, to: nat, x: Setting)
    requires to <= |vs|
  {
    exists i :: from <= i < to && x.Class(vs[i]).Pointing?
  }

  /** Value `j` gives an entry later than pointing value `i`, the last one before it. */
  ghost predicate Passes(vs: seq<HidValue>, i: nat, j: nat, x: Setting)
    requires i < j < |vs|
  {
    && x.Class(vs[i]).Pointing? && !PointingIn(vs, i + 1, j + 1, x)
    && Emits(vs[..j], vs[j], x) && vs[i].timeStamp < vs[j].timeStamp
  }

  /** Value `k` is the next pointing value after value `j`. */
  ghost predicate IsNextPointing(vs: seq<HidValue>, j: nat, k: nat, x: Setting)
    requires j < k < |vs|
  {
    x.Class(vs[k]).Pointing? && !PointingIn(vs, j + 1, k, x)
  }

  /** Whenever a pointing value is passed by a later entry, the next pointing value still joins the same motion, and so
      makes it as late as itself. */
  ghost predicate PassedMotionsGoOn(vs: seq<HidValue>, x: Setting) {
    forall i, j :: 0 <= i < j < |vs| && Passes(vs, i, j, x) ==>
      exists k :: j < k < |vs| && IsNextPointing(vs, j, k, x) && Joins(vs[..k], vs[k], x)
  }

  // The same as a scan.

  /** The open motion was passed. */
  predicate Late(vs: seq<HidValue>, x: Setting) {
    vs != [] &&
    var r, v := vs[..|vs| - 1], vs[|vs| - 1];
    var s := x.Samples(r);
    && !x.Class(v).Pointing?
    && (Late(r, x) || (s != [] && Emits(r, v, x) && s[|s| - 1].timeStamp < v.timeStamp))
  }

  /** Some motion was closed after it was passed. */
  predicate Overtaken(vs: seq<HidValue>, x: Setting) {
    vs != [] &&
    var r, v := vs[..|vs| - 1], vs[|vs| - 1];
    Overtaken(r, x) || (x.Class(v).Pointing? && !Joins(r, v, x) && Late(r, x))
  }

  ghost predicate NoneAfter(es: seq<Entry>, t: int) {
    forall e :: e in es ==> e.time.timeStamp <= t
  }

  /** The conversion so far in terms of the scan. */
  ghost predicate Scanned(c: Conversion, s: seq<Sample>, late: bool, overtaken: bool, t: int) {
    && NoneAfter(c.result, t)
    && (Queues.TimeOrdered(c.result) <==> !overtaken)
    && (late <==> s != [] && !NoneAfter(c.result, s[|s| - 1].timeStamp))
    && (s != [] ==> s[|s| - 1].timeStamp <= t)
  }

  lemma OrderedAppend(es: seq<Entry>, more: seq<Entry>, t: int)
    requires forall e :: e in more ==> e.time.timeStamp == t
    ensures Queues.TimeOrdered(es + more) <==> Queues.TimeOrdered(es) && (more == [] || NoneAfter(es, t))
    ensures forall u :: NoneAfter(es + more, u) <==> NoneAfter(es, u) && (more == [] || t <= u)
  {
    var all := es + more;
    if Queues.TimeOrdered(all) {
      assert forall i, j :: 0 <= i < j < |es| ==> all[i] == es[i] && all[j] == es[j];
      if more != [] {
        assert all[|es|] == more[0] && more[0] in more;
        forall e | e in es ensures e.time.timeStamp <= t {
          var i :| 0 <= i < |es| && es[i] == e;
          assert all[i] == e;
        }
      }
    }
    if more != [] {
      assert more[0] in all && more[0] in more;
    }
  }

  lemma {:induction false} DpadEntriesAt(es: seq<DpadEvent>, device: DeviceId, time: int)
    ensures |DpadEntries(es, device, time)| == |es|
    ensures forall e :: e in DpadEntries(es, device, time) ==> e.time.timeStamp == time
  {
    if es != [] {
      DpadEntriesAt(es[..|es| - 1], device, time);
    }
  }

  lemma DpadEventsIfChanged(last: set<Direction>, current: set<Direction>)
    ensures DpadEvents(last, current, DIRECTIONS) == [] <==> last == current
  {
    var es := DpadEvents(last, current, DIRECTIONS);
    if d :| (d in last) != (d in current) {
      ConversionOf(last, current, d);
      assert es != [];
    } else {
      assert last == current;
      NothingChanged(last, DIRECTIONS);
    }
  }

  lemma {:induction false} NothingChanged(last: set<Direction>, ds: seq<Direction>)
    ensures DpadEvents(last, last, ds) == []
  {
    if ds != [] {
      NothingChanged(last, ds[..|ds| - 1]);
    }
  }

  lemma {:induction false} MemoryIsDirections(vs: seq<HidValue>, x: Setting)
    ensures LastOf(x.Run(vs).memory, x.d.device) == DirectionsAfter(vs, x)
  {
    if vs != [] {
      MemoryIsDirections(vs[..|vs| - 1], x);
    }
  }

  lemma EntriesOfOther(before: seq<HidValue>, v: HidValue, x: Setting)
    requires !x.Class(v).Pointing?
    ensures var c, more := x.Run(before), OtherOf(x.Run(before).memory, v, x.target, x.d);
            && Converted(c, v, x.target, x.d, x.p).result == c.result + more
            && (more != [] <==> Emits(before, v, x))
            && forall e :: e in more ==> e.time.timeStamp == v.timeStamp
  {
    var c := x.Run(before);
    assert c.result + [] == c.result;
    if x.Class(v).Hat? {
      var last, current := LastOf(c.memory, x.d.device), DirectionsOf(v.integerValue);
      MemoryIsDirections(before, x);
      DpadEventsIfChanged(last, current);
      DpadEntriesAt(DpadEvents(last, current, DIRECTIONS), x.d.device, v.timeStamp);
    }
  }

  /** What closing the open motion adds: nothing if there is none, and else one entry at the time of the last sample. */
  lemma FlushedAt(vs: seq<HidValue>, x: Setting)
    ensures var s, f := x.Samples(vs), Flushed(x.Run(vs).pending, x.d.device);
            && (f == [] <==> s == []) && |f| <= 1
            && forall e :: e in f ==> s != [] && e.time.timeStamp == s[|s| - 1].timeStamp
  {
    var s := x.Samples(vs);
    var open := Greedy(s).1;
    ConversionFollowsGreedy(vs, x.target, x.d, x.p, x.memory);
    FlushCarries(x.Run(vs).pending, open, x.d.device);
    GreedyIsSplit(s);
    if open != [] {
      assert s[|s| - 1] == open[|open| - 1];
    }
  }

  lemma PointingValue(before: seq<HidValue>, v: HidValue, x: Setting)
    requires x.Class(v).Pointing?
    ensures var c := x.Run(before);
            Converted(c, v, x.target, x.d, x.p).result ==
            if Joins(before, v, x) then c.result else c.result + Flushed(c.pending, x.d.device)
    ensures !Joins(before, v, x) ==> x.Samples(before) != []
    ensures x.Samples(before + [v]) == x.Samples(before) + [SampleOf(v, x.Class(v).axis, x.p)]
  {
    hide HidEntries.ConvertedAll, Greedy, Joinable, CarryAll, Has, Classify, SampleOf, Concat;
    ConversionFollowsGreedy(before, x.target, x.d, x.p, x.memory);
    GreedyIsSplit(x.Samples(before));
    assert (before + [v])[..|before|] == before;
  }

  lemma NoSample(before: seq<HidValue>, v: HidValue, x: Setting)
    requires !x.Class(v).Pointing?
    ensures x.Samples(before + [v]) == x.Samples(before)
  {
    assert (before + [v])[..|before|] == before;
  }

  lemma RunSnoc(before: seq<HidValue>, v: HidValue, x: Setting)
    ensures x.Run(before + [v]) == Converted(x.Run(before), v, x.target, x.d, x.p)
  {
    assert (before + [v])[..|before|] == before;
  }

  lemma ScannedSnoc(r: seq<HidValue>, v: HidValue, x: Setting, t: int)
    requires Scanned(x.Run(r), x.Samples(r), Late(r, x), Overtaken(r, x), t) && t <= v.timeStamp
    ensures Scanned(x.Run(r + [v]), x.Samples(r + [v]), Late(r + [v], x), Overtaken(r + [v], x), v.timeStamp)
  {
    hide HidEntries.Samples, HidEntries.Converted, HidEntries.ConvertedAll, Emits, Joins;
    var c, s := x.Run(r), x.Samples(r);
    assert (r + [v])[..|r|] == r;
    RunSnoc(r, v, x);
    if x.Class(v).Pointing? {
      PointingValue(r, v, x);
      FlushedAt(r, x);
      if !Joins(r, v, x) {
        OrderedAppend(c.result, Flushed(c.pending, x.d.device), s[|s| - 1].timeStamp);
      }
    } else {
      NoSample(r, v, x);
      EntriesOfOther(r, v, x);
      OrderedAppend(c.result, OtherOf(c.memory, v, x.target, x.d), v.timeStamp);
    }
  }

  lemma NothingScanned(x: Setting, t: int)
    ensures Scanned(x.Run([]), x.Samples([]), Late([], x), Overtaken([], x), t)
  {
  }

  lemma {:induction false} ScannedRun(vs: seq<HidValue>, x: Setting)
    requires ValuesInOrder(vs)
    ensures Scanned(x.Run(vs), x.Samples(vs), Late(vs, x), Overtaken(vs, x), if vs == [] then 0
            else vs[|vs| - 1].timeStamp)
  {
    hide Scanned, Late, Overtaken, HidEntries.Samples, HidEntries.ConvertedAll;
    if vs == [] {
      NothingScanned(x, 0);
    } else {
      var r, v := vs[..|vs| - 1], vs[|vs| - 1];
      ScannedRun(r, x);
      assert vs == r + [v];
      if r == [] {
        NothingScanned(x, v.timeStamp);
        ScannedSnoc(r, v, x, v.timeStamp);
      } else {
        ScannedSnoc(r, v, x, r[|r| - 1].timeStamp);
      }
    }
  }

  lemma OrderedByScan(vs: seq<HidValue>, x: Setting)
    requires ValuesInOrder(vs)
    ensures Queues.TimeOrdered(x.Entries(vs)) <==> !Late(vs, x) && !Overtaken(vs, x)
  {
    var s := x.Samples(vs);
    ScannedRun(vs, x);
    FlushedAt(vs, x);
    OrderedAppend(x.Run(vs).result, Flushed(x.Run(vs).pending, x.d.device), if s == [] then 0
      else s[|s| - 1].timeStamp);
  }

  // The scan in terms of positions.

  lemma {:induction false} LastSample(vs: seq<HidValue>, x: Setting)
    ensures x.Samples(vs) == [] <==> !PointingIn(vs, 0, |vs|, x)
    ensures forall i :: 0 <= i < |vs| && x.Class(vs[i]).Pointing? && !PointingIn(vs, i + 1, |vs|, x) ==>
              x.Samples(vs) != [] && x.Samples(vs)[|x.Samples(vs)| - 1].timeStamp == vs[i].timeStamp
  {
    if vs != [] {
      var r, v := vs[..|vs| - 1], vs[|vs| - 1];
      LastSample(r, x);
      assert vs == r + [v];
      if x.Class(v).Pointing? {
        PointingValue(r, v, x);
      } else {
        NoSample(r, v, x);
        forall a: nat | a <= |r| ensures PointingIn(vs, a, |vs|, x) <==> PointingIn(r, a, |r|, x) {
          PointingPrefix(r, v, a, |r|, x);
        }
      }
    }
  }

  lemma PointingPrefix(r: seq<HidValue>, v: HidValue, from: nat, to: nat, x: Setting)
    requires to <= |r|
    ensures PointingIn(r + [v], from, to, x) <==> PointingIn(r, from, to, x)
    ensures PointingIn(r + [v], from, to + 1, x) <==>
            PointingIn(r, from, to, x) || (from <= to && x.Class((r + [v])[to]).Pointing?)
  {
    var vs := r + [v];
    assert forall i :: 0 <= i < |r| ==> vs[i] == r[i];
    if i :| from <= i < to && x.Class(r[i]).Pointing? {
      assert x.Class(vs[i]).Pointing?;
    }
    if i :| from <= i < to + 1 && x.Class(vs[i]).Pointing? {
      assert i < to ==> x.Class(r[i]).Pointing?;
    }
  }

  lemma PassesPrefix(r: seq<HidValue>, v: HidValue, i: nat, j: nat, x: Setting)
    requires i < j < |r|
    ensures Passes(r + [v], i, j, x) <==> Passes(r, i, j, x)
  {
    assert (r + [v])[..j] == r[..j];
    PointingPrefix(r, v, i + 1, j + 1, x);
  }

  /** The last pointing value, if there is one. */
  lemma FindLastPointing(vs: seq<HidValue>, x: Setting) returns (i: int)
    ensures -1 <= i < |vs|
    ensures i >= 0 ==> x.Class(vs[i]).Pointing? && !PointingIn(vs, i + 1, |vs|, x)
    ensures i < 0 ==> !PointingIn(vs, 0, |vs|, x)
  {
    i := |vs| - 1;
    while i >= 0 && !x.Class(vs[i]).Pointing?
      invariant -1 <= i < |vs| && !PointingIn(vs, i + 1, |vs|, x)
    {
      i := i - 1;
    }
  }

  /** The next pointing value after `j`, or the length. */
  lemma FindNextPointing(vs: seq<HidValue>, j: nat, x: Setting) returns (k: nat)
    requires j < |vs|
    ensures j < k <= |vs| && !PointingIn(vs, j + 1, k, x) && (k < |vs| ==> x.Class(vs[k]).Pointing?)
  {
    k := j + 1;
    while k < |vs| && !x.Class(vs[k]).Pointing?
      invariant j < k <= |vs| && !PointingIn(vs, j + 1, k, x)
    {
      k := k + 1;
    }
  }

  ghost predicate PassedAtEnd(vs: seq<HidValue>, i: nat, j: nat, x: Setting)
    requires i < j < |vs|
  {
    Passes(vs, i, j, x) && !PointingIn(vs, j + 1, |vs|, x)
  }

  lemma {:induction false} LateIsPassed(vs: seq<HidValue>, x: Setting)
    ensures Late(vs, x) <==> exists i, j :: 0 <= i < j < |vs| && PassedAtEnd(vs, i, j, x)
  {
    hide Emits, HidEntries.Samples, HidEntries.Classify;
    if vs != [] {
      var n := |vs| - 1;
      var r, v := vs[..n], vs[n];
      LateIsPassed(r, x);
      LastSample(r, x);
      assert vs == r + [v] && vs[..n] == r;
      forall i, j | 0 <= i < j < n ensures PassedAtEnd(vs, i, j, x) <==>
        PassedAtEnd(r, i, j, x) && !x.Class(v).Pointing? {
        PassesPrefix(r, v, i, j, x);
        PointingPrefix(r, v, j + 1, n, x);
      }
      if Late(vs, x) {
        if Late(r, x) {
          var i, j :| 0 <= i < j < |r| && PassedAtEnd(r, i, j, x);
          assert PassedAtEnd(vs, i, j, x);
        } else {
          var i := FindLastPointing(r, x);
          PointingPrefix(r, v, i + 1, n, x);
          assert PassedAtEnd(vs, i, n, x);
        }
      }
      if i, j :| 0 <= i < j < |vs| && PassedAtEnd(vs, i, j, x) {
        if j < n {
          assert PassedAtEnd(r, i, j, x);
        } else {
          PointingPrefix(r, v, i + 1, n, x);
          assert Passes(vs, i, n, x);
        }
      }
    }
  }

  /** Value `j` passes the motion that ends with value `i`, and value `k` closes that motion. */
  ghost predicate ClosedLate(vs: seq<HidValue>, i: nat, j: nat, k: nat, x: Setting)
    requires i < j < k < |vs|
  {
    Passes(vs, i, j, x) && IsNextPointing(vs, j, k, x) && !Joins(vs[..k], vs[k], x)
  }

  lemma ClosedPrefix(r: seq<HidValue>, v: HidValue, i: nat, j: nat, k: nat, x: Setting)
    requires i < j < k <= |r|
    ensures k < |r| ==> (ClosedLate(r + [v], i, j, k, x) <==> ClosedLate(r, i, j, k, x))
    ensures k == |r| ==> (ClosedLate(r + [v], i, j, k, x) <==>
                          PassedAtEnd(r, i, j, x) && x.Class(v).Pointing? && !Joins(r, v, x))
  {
    assert (r + [v])[..k] == r[..k] && r[..|r|] == r;
    PassesPrefix(r, v, i, j, x);
    PointingPrefix(r, v, j + 1, k, x);
  }

  lemma {:induction false} OvertakenIsClosedLate(vs: seq<HidValue>, x: Setting)
    ensures Overtaken(vs, x) <==> exists i, j, k :: 0 <= i < j < k < |vs| && ClosedLate(vs, i, j, k, x)
  {
    if vs != [] {
      var n := |vs| - 1;
      var r, v := vs[..n], vs[n];
      OvertakenIsClosedLate(r, x);
      LateIsPassed(r, x);
      assert vs == r + [v];
      if Overtaken(vs, x) {
        if Overtaken(r, x) {
          var i, j, k :| 0 <= i < j < k < |r| && ClosedLate(r, i, j, k, x);
          ClosedPrefix(r, v, i, j, k, x);
          assert ClosedLate(vs, i, j, k, x);
        } else {
          var i, j :| 0 <= i < j < |r| && PassedAtEnd(r, i, j, x);
          ClosedPrefix(r, v, i, j, n, x);
          assert ClosedLate(vs, i, j, n, x);
        }
      }
      if i, j, k :| 0 <= i < j < k < |vs| && ClosedLate(vs, i, j, k, x) {
        ClosedPrefix(r, v, i, j, k, x);
        if k < n {
          assert ClosedLate(r, i, j, k, x);
        } else {
          assert PassedAtEnd(r, i, j, x);
        }
      }
    }
  }

  lemma ScanIsGuard(vs: seq<HidValue>, x: Setting)
    ensures PassedMotionsGoOn(vs, x) <==> !Late(vs, x) && !Overtaken(vs, x)
  {
    hide Passes, Joins, Late, Overtaken;
    LateIsPassed(vs, x);
    OvertakenIsClosedLate(vs, x);
    if i, j :| 0 <= i < j < |vs| && PassedAtEnd(vs, i, j, x) {
      assert Passes(vs, i, j, x);
      assert !PassedMotionsGoOn(vs, x);
    }
    if i, j, k :| 0 <= i < j < k < |vs| && ClosedLate(vs, i, j, k, x) {
      assert Passes(vs, i, j, x);
      forall k' | j < k' < |vs| && IsNextPointing(vs, j, k', x) ensures !Joins(vs[..k'], vs[k'], x) {
        assert k == k';
      }
      assert !PassedMotionsGoOn(vs, x);
    }
    if !PassedMotionsGoOn(vs, x) {
      var i, j :| 0 <= i < j < |vs| && Passes(vs, i, j, x)
                  && !exists k :: j < k < |vs| && IsNextPointing(vs, j, k, x) && Joins(vs[..k], vs[k], x);
      var k := FindNextPointing(vs, j, x);
      if k == |vs| {
        assert PassedAtEnd(vs, i, j, x);
      } else {
        assert IsNextPointing(vs, j, k, x);
        assert ClosedLate(vs, i, j, k, x);
      }
    }
  }

  /** Values in time order become entries in time order exactly if every motion that is passed by a later entry goes on
      with the next pointing value. */
  lemma EntriesInTimeOrder(vs: seq<HidValue>, x: Setting)
    requires ValuesInOrder(vs)
    ensures Queues.TimeOrdered(x.Entries(vs)) <==> PassedMotionsGoOn(vs, x)
  {
    OrderedByScan(vs, x);
    ScanIsGuard(vs, x);
  }

  /** A key that follows a pointing value overtakes it, because only the next value of the same axis, or the end,
      closes the motion. */
  lemma KeyOvertakesMotion(device: DeviceId)
    ensures var x := Setting((page, usage) => page == PAGE_KEYBOARD_OR_KEYPAD, DeviceProperties(device, false),
            Parameters(1.0, 1.0), map[]);
            var move := HidValue(1, Some(PAGE_GENERIC_DESKTOP), Some(GENERIC_DESKTOP_X), 5);
            var press := HidValue(2, Some(PAGE_KEYBOARD_OR_KEYPAD), Some(4), 1);
            && ValuesInOrder([move, press])
            && x.Entries([move, press]) ==
               [KeyEntry(press, UsagePair(PAGE_KEYBOARD_OR_KEYPAD, 4), device),
                 MotionEntry(PointingMotion(5, 0, 0, 0), 1, device)]
            && !Queues.TimeOrdered(x.Entries([move, press]))
  {
    var x := Setting((page, usage) => page == PAGE_KEYBOARD_OR_KEYPAD, DeviceProperties(device, false),
      Parameters(1.0, 1.0), map[]);
    var move := HidValue(1, Some(PAGE_GENERIC_DESKTOP), Some(GENERIC_DESKTOP_X), 5);
    var press := HidValue(2, Some(PAGE_KEYBOARD_OR_KEYPAD), Some(4), 1);
    assert [move, press] == ([] + [move]) + [press];
    RunSnoc([], move, x);
    RunSnoc([] + [move], press, x);
    assert Adjust(5, 1.0) == 5;
    var es := x.Entries([move, press]);
    assert es[0].time.timeStamp == 2 && es[1].time.timeStamp == 1;
  }

  lemma {:induction false} ReleasesAtTimes(pressed: set<MomentarySwitchEvent>, es: seq<Entry>, device: DeviceId)
    ensures var rs := WithReleases(pressed, es, device);
            && (rs == [] <==> es == [])
            && (es != [] ==> rs[0].time == es[0].time && rs[|rs| - 1].time == es[|es| - 1].time)
            && (Queues.TimeOrdered(rs) <==> Queues.TimeOrdered(es))
  {
    if es != [] {
      var r, e := es[..|es| - 1], es[|es| - 1];
      var before := WithReleases(pressed, r, device);
      ReleasesAtTimes(pressed, r, device);
      assert es == r + [e] && before + [e] + [] == before + [e];
      Queues.TimeOrderedSnoc(r, e);
      Queues.TimeOrderedSnoc(before, e);
      Queues.TimeOrderedSnoc(before + [e], ReleaseEntry(device, e.time));
    }
  }

  lemma {:induction false} OrderedJoin(a: seq<Entry>, b: seq<Entry>)
    ensures Queues.TimeOrdered(a + b) <==>
            Queues.TimeOrdered(a) && Queues.TimeOrdered(b)
            && (a != [] && b != [] ==> a[|a| - 1].time.timeStamp <= b[0].time.timeStamp)
  {
    if b == [] {
      assert a + b == a;
    } else {
      var r, e := b[..|b| - 1], b[|b| - 1];
      assert a + b == (a + r) + [e] && b == r + [e];
      hide Queues.TimeOrdered;
      Queues.TimeOrderedSnoc(a + r, e);
      Queues.TimeOrderedSnoc(r, e);
      if r == [] {
        NothingOrdered();
        assert a + r == a && b[0] == e;
      } else {
        OrderedJoin(a, r);
        assert (a + r)[|a + r| - 1] == r[|r| - 1] && r[0] == b[0];
      }
    }
  }

  lemma NothingOrdered()
    ensures Queues.TimeOrdered([])
  {
  }

  lemma DelayedOrder(es: seq<Entry>, delay: int)
    ensures Queues.TimeOrdered(Queues.DelayedAll(es, delay)) <==> Queues.TimeOrdered(es)
  {
    var d := Queues.DelayedAll(es, delay);
    forall i | 0 <= i < |es| ensures d[i].time.timeStamp == es[i].time.timeStamp + delay {
      assert d[i] == Queues.Delayed(es[i], delay);
    }
  }

  /** A batch of values in time order, with release events inserted, is appended to a queue: the queue is in time order
      afterwards exactly if it was before, the passed motions of the batch go on, and the first entry is not due earlier
      than the last one of the queue. */
  lemma BatchReachesQueueInOrder(q: Queues.QueueState, vs: seq<HidValue>, x: Setting,
                                 pressed: set<MomentarySwitchEvent>)
    requires ValuesInOrder(vs)
    ensures var es := x.Entries(vs);
            Queues.TimeOrdered(Queues.AppendedAll(q, WithReleases(pressed, es, x.d.device)).events) <==>
            && Queues.TimeOrdered(q.events) && PassedMotionsGoOn(vs, x)
            && (q.events != [] && es != [] ==> Queues.LastStamp(q) <= es[0].time.timeStamp + q.delay)
  {
    hide PassedMotionsGoOn, HidEntries.Entries, WithReleases, ValuesInOrder;
    hide Queues.TimeOrdered, Queues.AppendedAll, Queues.DelayedAll;
    var es := x.Entries(vs);
    var rs := WithReleases(pressed, es, x.d.device);
    EntriesInTimeOrder(vs, x);
    ReleasesAtTimes(pressed, es, x.d.device);
    Queues.AppendedAllIs(q, rs);
    DelayedOrder(rs, q.delay);
    OrderedJoin(q.events, Queues.DelayedAll(rs, q.delay));
    if rs != [] {
      assert Queues.DelayedAll(rs, q.delay)[0] == Queues.Delayed(rs[0], q.delay);
    }
  }

  // ----- Hat switches and release events

  function SwitchesOf(dirs: set<Direction>): set<MomentarySwitchEvent> {
    set d | d in dirs :: SwitchOf(d)
  }

  lemma InSwitchesOf(dirs: set<Direction>, d: Direction)
    ensures SwitchOf(d) in SwitchesOf(dirs) <==> d in dirs
  {
    if x :| x in dirs && SwitchOf(x) == SwitchOf(d) {
      SwitchesDiffer(x, d);
    }
  }

  /** A key after directional pad events is as its last event says, or as it was. */
  lemma {:induction false} PressedByDpad(pressed: set<MomentarySwitchEvent>, es: seq<DpadEvent>, device: DeviceId,
                                         time: int,
                                         switch: MomentarySwitchEvent)
    requires forall e :: e in es ==> e.1 != Single
    ensures var types := OfSwitch(es, switch);
            switch in PressedAfterAll(pressed, DpadEntries(es, device, time), device) <==>
            if types == [] then switch in pressed else types[|types| - 1] == KeyDown
  {
    if es != [] {
      assert es[|es| - 1] in es;
      PressedByDpad(pressed, es[..|es| - 1], device, time, switch);
    }
  }

  lemma {:induction false} NoneOfSwitch(es: seq<DpadEvent>, switch: MomentarySwitchEvent)
    requires AreDpad(es) && forall d :: switch != SwitchOf(d)
    ensures OfSwitch(es, switch) == []
  {
    if es != [] {
      assert es[|es| - 1] in es;
      NoneOfSwitch(es[..|es| - 1], switch);
    }
  }

  /** The keys of the hat switch after one value, whatever other keys are down. */
  lemma HatPresses(pressed: set<MomentarySwitchEvent>, last: set<Direction>, current: set<Direction>, device: DeviceId,
                   time: int,
                   switch: MomentarySwitchEvent)
    requires switch in pressed <==> switch in SwitchesOf(last)
    ensures switch in PressedAfterAll(pressed, DpadEntries(DpadEvents(last, current, DIRECTIONS), device, time), device)
            <==> switch in SwitchesOf(current)
  {
    var es := DpadEvents(last, current, DIRECTIONS);
    ConversionIsDpad(last, current, DIRECTIONS);
    PressedByDpad(pressed, es, device, time, switch);
    if d :| switch == SwitchOf(d) {
      InSwitchesOf(last, d);
      InSwitchesOf(current, d);
      ConversionOf(last, current, d);
    } else {
      NoneOfSwitch(es, switch);
    }
  }

  lemma FlushedPressesNothing(pressed: set<MomentarySwitchEvent>, pending: Pending, device: DeviceId)
    ensures PressedAfterAll(pressed, Flushed(pending, device), device) == pressed
  {
    if Flushed(pending, device) != [] {
      assert Flushed(pending, device)[..0] == [];
    }
  }

  /** `switch` is not also used as a key of its own. */
  ghost predicate NotAKey(vs: seq<HidValue>, x: Setting, switch: MomentarySwitchEvent) {
    forall v :: v in vs ==> x.Class(v) != Key(switch.pair)
  }

  lemma OneEntryPresses(pressed: set<MomentarySwitchEvent>, e: Entry, device: DeviceId)
    ensures PressedAfterAll(pressed, [e], device) == PressedAfter(pressed, e, device)
  {
    assert [e][..0] == [];
  }

  lemma HatPressesSnoc(pressed: set<MomentarySwitchEvent>, r: seq<HidValue>, v: HidValue, x: Setting,
                       switch: MomentarySwitchEvent)
    requires x.Class(v) != Key(switch.pair)
    requires switch in PressedAfterAll(pressed, x.Run(r).result, x.d.device) <==>
             switch in SwitchesOf(DirectionsAfter(r, x))
    ensures switch in PressedAfterAll(pressed, x.Run(r + [v]).result, x.d.device) <==>
            switch in SwitchesOf(DirectionsAfter(r + [v], x))
  {
    hide SwitchesOf, HidEntries.ConvertedAll, PressedAfterAll, DpadEvents, DpadEntries, DirectionsOf;
    var c, device := x.Run(r), x.d.device;
    var before := PressedAfterAll(pressed, c.result, device);
    RunSnoc(r, v, x);
    assert (r + [v])[..|r|] == r;
    match x.Class(v)
    case Key(pair) =>
      OneEntryPresses(before, KeyEntry(v, pair, device), device);
      BatchesCompose(pressed, c.result, [KeyEntry(v, pair, device)], device);
    case LedCapsLock =>
      OneEntryPresses(before, LedEntry(v, device), device);
      BatchesCompose(pressed, c.result, [LedEntry(v, device)], device);
    case Pointing(_) =>
      FlushedPressesNothing(before, c.pending, device);
      BatchesCompose(pressed, c.result, Flushed(c.pending, device), device);
    case Hat =>
      var last, current := LastOf(c.memory, device), DirectionsOf(v.integerValue);
      MemoryIsDirections(r, x);
      HatPresses(before, last, current, device, v.timeStamp, switch);
      BatchesCompose(pressed, c.result, DpadEntries(DpadEvents(last, current, DIRECTIONS), device, v.timeStamp),
        device);
    case Ignored =>
  }

  lemma {:induction false} HatPressesRun(pressed: set<MomentarySwitchEvent>, vs: seq<HidValue>, x: Setting,
                                         switch: MomentarySwitchEvent)
    requires NotAKey(vs, x, switch)
    requires switch in pressed <==> switch in SwitchesOf(LastOf(x.memory, x.d.device))
    ensures switch in PressedAfterAll(pressed, x.Run(vs).result, x.d.device) <==>
            switch in SwitchesOf(DirectionsAfter(vs, x))
  {
    if vs != [] {
      var r, v := vs[..|vs| - 1], vs[|vs| - 1];
      assert v in vs && vs == r + [v];
      HatPressesRun(pressed, r, x, switch);
      HatPressesSnoc(pressed, r, v, x, switch);
    }
  }

  /** Whatever values come, each with its own time stamp, the release insertion remembers of the hat switch exactly the
      keys of its last value; the memory of the insertion and that of the hat switch agree before. */
  lemma InsertionFollowsHat(pressed: set<MomentarySwitchEvent>, vs: seq<HidValue>, x: Setting,
                            switch: MomentarySwitchEvent)
    requires NotAKey(vs, x, switch)
    requires switch in pressed <==> switch in SwitchesOf(LastOf(x.memory, x.d.device))
    ensures switch in PressedAfterAll(pressed, x.Entries(vs), x.d.device) <==>
            switch in SwitchesOf(DirectionsAfter(vs, x))
  {
    var c, device := x.Run(vs), x.d.device;
    HatPressesRun(pressed, vs, x, switch);
    FlushedPressesNothing(PressedAfterAll(pressed, c.result, device), c.pending, device);
    BatchesCompose(pressed, c.result, Flushed(c.pending, device), device);
  }

  /** If no key of its own is used, the device counts as released exactly if the last hat value is neutral. */
  lemma ReleasedIffNeutral(vs: seq<HidValue>, x: Setting)
    requires forall v :: v in vs ==> !x.Class(v).Key?
    ensures var pressed := PressedAfterAll(SwitchesOf(LastOf(x.memory, x.d.device)), x.Entries(vs), x.d.device);
            && pressed == SwitchesOf(DirectionsAfter(vs, x))
            && (pressed == {} <==> DirectionsAfter(vs, x) == {})
  {
    var before, dirs := SwitchesOf(LastOf(x.memory, x.d.device)), DirectionsAfter(vs, x);
    forall switch ensures switch in PressedAfterAll(before, x.Entries(vs), x.d.device) <==> switch in SwitchesOf(dirs) {
      InsertionFollowsHat(before, vs, x, switch);
    }
    if d :| d in dirs {
      assert SwitchOf(d) in SwitchesOf(dirs);
    }
  }

  /** The very hat value that turns neutral ends with the release event, and no other does. */
  lemma NeutralEndsWithRelease(last: set<Direction>, current: set<Direction>, device: DeviceId, time: int)
    ensures var rs := WithReleases(SwitchesOf(last), DpadEntries(DpadEvents(last, current, DIRECTIONS), device, time),
            device);
            rs != [] && rs[|rs| - 1] == ReleaseEntry(device, EventTimeStamp(time, 0)) <==> last != {} && current == {}
  {
    var es := DpadEvents(last, current, DIRECTIONS);
    var entries := DpadEntries(es, device, time);
    var pressed := SwitchesOf(last);
    DpadEventsIfChanged(last, current);
    DpadEntriesAt(es, device, time);
    forall switch ensures switch in PressedAfterAll(pressed, entries, device) <==> switch in SwitchesOf(current) {
      HatPresses(pressed, last, current, device, time, switch);
    }
    if es != [] {
      var n := |es| - 1;
      var (switch, typ) := es[n];
      var r := es[..n];
      ConversionIsDpad(last, current, DIRECTIONS);
      assert es[n] in es;
      var d :| switch == SwitchOf(d);
      ConversionOf(last, current, d);
      PressedByDpad(pressed, r, device, time, switch);
      InSwitchesOf(last, d);
      InSwitchesOf(current, d);
      assert OfSwitch(es, switch) == OfSwitch(r, switch) + [typ];
      if typ == KeyUp {
        assert OfSwitch(r, switch) == [];
        assert switch in PressedAfterAll(pressed, entries[..n], device);
      }
      if current == {} {
        assert SwitchesOf(current) == {};
      } else {
        var c :| c in current;
        assert SwitchOf(c) in SwitchesOf(current);
      }
    }
  }

  // ----- Pressed keys by usage

  ghost predicate UsedIn(vs: seq<HidValue>, page: int, usage: int) {
    exists i :: 0 <= i < |vs| && IsUsage(vs[i], page, usage)
  }

  ghost predicate LastNonzeroAt(vs: seq<HidValue>, i: int, page: int, usage: int) {
    && 0 <= i < |vs| && IsUsage(vs[i], page, usage) && vs[i].integerValue != 0
    && forall j :: i < j < |vs| ==> !IsUsage(vs[j], page, usage)
  }

  lemma UsageSnoc(r: seq<HidValue>, v: HidValue, page: int, usage: int)
    ensures UsedIn(r + [v], page, usage) <==> UsedIn(r, page, usage) || IsUsage(v, page, usage)
    ensures (exists i :: LastNonzeroAt(r + [v], i, page, usage)) <==>
            if IsUsage(v, page, usage) then v.integerValue != 0 else exists i :: LastNonzeroAt(r, i, page, usage)
  {
    var vs := r + [v];
    assert vs[|r|] == v && forall i :: 0 <= i < |r| ==> vs[i] == r[i];
    if i :| LastNonzeroAt(r, i, page, usage) && !IsUsage(v, page, usage) {
      assert LastNonzeroAt(vs, i, page, usage);
    }
    if i :| LastNonzeroAt(vs, i, page, usage) && i < |r| {
      assert LastNonzeroAt(r, i, page, usage);
    }
    if IsUsage(v, page, usage) && v.integerValue != 0 {
      assert LastNonzeroAt(vs, |r|, page, usage);
    }
    if i :| 0 <= i < |r| && IsUsage(r[i], page, usage) {
      assert IsUsage(vs[i], page, usage);
    }
  }

  /** What the entries of one value other than a pointing value press. */
  lemma OtherPresses(pressed: set<MomentarySwitchEvent>, memory: map<DeviceId, set<Direction>>, v: HidValue,
                     x: Setting, page: int, usage: int)
    requires x.d.isGamePad ==> !(page == 0x01 && 0x90 <= usage <= 0x93)
    ensures var key := MomentarySwitchEvent(UsagePair(page, usage));
            key in PressedAfterAll(pressed, OtherOf(memory, v, x.target, x.d), x.d.device) <==>
            if x.target(page, usage) && IsUsage(v, page, usage) then v.integerValue != 0 else key in pressed
  {
    var es, key := OtherOf(memory, v, x.target, x.d), MomentarySwitchEvent(UsagePair(page, usage));
    match (v.usagePage, v.usage)
    case (Some(p), Some(u)) =>
      OthersByUsage(memory, v, p, u, x.target, x.d);
      hide OtherOf, PressedAfterAll;
      if !x.target(p, u) && (p, u) == (0x01, 0x39) && x.d.isGamePad {
        NotOnThePad(LastOf(memory, x.d.device), v.integerValue, key);
        NonePressed(pressed, es, x.d.device, key);
      } else if es == [] {
        NonePressed(pressed, es, x.d.device, key);
      } else {
        OneEntryPresses(pressed, es[0], x.d.device);
      }
    case _ =>
  }

  lemma NotOnThePad(last: set<Direction>, hat: int, key: MomentarySwitchEvent)
    requires !(key.pair.page == 0x01 && 0x90 <= key.pair.usage <= 0x93)
    ensures forall e :: e in DpadEvents(last, DirectionsOf(hat), DIRECTIONS) ==> e.0 != key
  {
    PadTurns(last, hat);
  }

  lemma {:induction false} NonePressed(pressed: set<MomentarySwitchEvent>, es: seq<Entry>, device: DeviceId,
                                       key: MomentarySwitchEvent)
    requires forall i :: 0 <= i < |es| ==> es[i].event != MomentarySwitch(key)
    ensures key in PressedAfterAll(pressed, es, device) <==> key in pressed
  {
    if es != [] {
      NonePressed(pressed, es[..|es| - 1], device, key);
    }
  }

  lemma KeyPressedSnoc(pressed: set<MomentarySwitchEvent>, r: seq<HidValue>, v: HidValue, x: Setting, page: int,
                       usage: int)
    requires x.d.isGamePad ==> !(page == 0x01 && 0x90 <= usage <= 0x93)
    ensures var key := MomentarySwitchEvent(UsagePair(page, usage));
            key in PressedAfterAll(pressed, x.Run(r + [v]).result, x.d.device) <==>
            if x.target(page, usage) && IsUsage(v, page, usage) then v.integerValue != 0
            else key in PressedAfterAll(pressed, x.Run(r).result, x.d.device)
  {
    var c, device := x.Run(r), x.d.device;
    var before := PressedAfterAll(pressed, c.result, device);
    RunSnoc(r, v, x);
    if x.Class(v).Pointing? {
      FlushedPressesNothing(before, c.pending, device);
      BatchesCompose(pressed, c.result, Flushed(c.pending, device), device);
    } else {
      EntriesOfOther(r, v, x);
      OtherPresses(before, c.memory, v, x, page, usage);
      BatchesCompose(pressed, c.result, OtherOf(c.memory, v, x.target, x.d), device);
    }
  }

  lemma {:induction false} KeyPressedRun(pressed: set<MomentarySwitchEvent>, vs: seq<HidValue>, x: Setting, page: int,
                                         usage: int)
    requires x.d.isGamePad ==> !(page == 0x01 && 0x90 <= usage <= 0x93)
    ensures var key := MomentarySwitchEvent(UsagePair(page, usage));
            key in PressedAfterAll(pressed, x.Run(vs).result, x.d.device) <==>
            if x.target(page, usage) && UsedIn(vs, page, usage) then exists i :: LastNonzeroAt(vs, i, page, usage)
            else key in pressed
  {
    if vs != [] {
      var r, v := vs[..|vs| - 1], vs[|vs| - 1];
      assert vs == r + [v];
      hide UsedIn, LastNonzeroAt, PressedAfterAll;
      KeyPressedRun(pressed, r, x, page, usage);
      UsageSnoc(r, v, page, usage);
      KeyPressedSnoc(pressed, r, v, x, page, usage);
    }
  }

  /** A key is down after a batch exactly if the last value of its usage was nonzero, or if there was none and it was
      down before; what is no momentary switch never becomes a key. Keys of the pad of a game pad are left to the hat
      switch. */
  lemma KeyPressedByLastValue(pressed: set<MomentarySwitchEvent>, vs: seq<HidValue>, x: Setting, page: int, usage: int)
    requires x.d.isGamePad ==> !(page == 0x01 && 0x90 <= usage <= 0x93)
    ensures var key := MomentarySwitchEvent(UsagePair(page, usage));
            key in PressedAfterAll(pressed, x.Entries(vs), x.d.device) <==>
            if x.target(page, usage) && UsedIn(vs, page, usage) then exists i :: LastNonzeroAt(vs, i, page, usage)
            else key in pressed
  {
    var c, device := x.Run(vs), x.d.device;
    KeyPressedRun(pressed, vs, x, page, usage);
    FlushedPressesNothing(PressedAfterAll(pressed, c.result, device), c.pending, device);
    BatchesCompose(pressed, c.result, Flushed(c.pending, device), device);
  }

  /** The keys of the pad, by their usages, that are down while the hat switch is as `hat` tells. */
  predicate OnPad(usage: int, hat: int) {
    match usage
    case 0x90 => hat in {7, 0, 1}
    case 0x91 => hat in {3, 4, 5}
    case 0x92 => hat in {1, 2, 3}
    case 0x93 => hat in {5, 6, 7}
    case _ => false
  }

  lemma {:induction false} LastHat(vs: seq<HidValue>, x: Setting, i: nat)
    requires x.d.isGamePad && !x.target(0x01, 0x39)
    requires i < |vs| && IsUsage(vs[i], 0x01, 0x39) && forall j :: i < j < |vs| ==> !IsUsage(vs[j], 0x01, 0x39)
    ensures DirectionsAfter(vs, x) == DirectionsOf(vs[i].integerValue)
  {
    if i < |vs| - 1 {
      LastHat(vs[..|vs| - 1], x, i);
    }
  }

  /** After any values the keys of the pad are as the last hat value tells, in raw usages and hat values. */
  lemma PadPressedByHat(pressed: set<MomentarySwitchEvent>, vs: seq<HidValue>, x: Setting, i: nat, usage: int)
    requires x.d.isGamePad && 0x90 <= usage <= 0x93 && !x.target(0x01, 0x39) && !x.target(0x01, usage)
    requires i < |vs| && IsUsage(vs[i], 0x01, 0x39) && forall j :: i < j < |vs| ==> !IsUsage(vs[j], 0x01, 0x39)
    requires var key := MomentarySwitchEvent(UsagePair(0x01, usage));
             key in pressed <==> key in SwitchesOf(LastOf(x.memory, x.d.device))
    ensures MomentarySwitchEvent(UsagePair(0x01, usage)) in PressedAfterAll(pressed, x.Entries(vs), x.d.device) <==>
            OnPad(usage, vs[i].integerValue)
  {
    var key, hat := MomentarySwitchEvent(UsagePair(0x01, usage)), vs[i].integerValue;
    forall v | v in vs ensures x.Class(v) != Key(key.pair) {
    }
    InsertionFollowsHat(pressed, vs, x, key);
    LastHat(vs, x, i);
    var d := match usage case 0x90 => Up case 0x91 => Down case 0x92 => Right case _ => Left;
    assert key == SwitchOf(d);
    InSwitchesOf(DirectionsOf(hat), d);
  }
}
