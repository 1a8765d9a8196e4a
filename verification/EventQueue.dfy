/** The event queue: entries, the managers that follow them, and the running time stamp delay. */
module EventQueue {
  import opened Types
  import opened ModifierFlags
  import opened ModifierFlagManager
  import opened EventOrder
  import opened QueueStates
  import Buttons = PointingButtons

  class Queue {
    var events: seq<Entry>
    const flagManager: Manager
    const buttonManager: Buttons.ButtonManager
    var timeStampDelay: int

    ghost function Repr(): set<object> {
      {this, flagManager, buttonManager}
    }

    ghost predicate Valid()
      reads Repr()
    {
      flagManager.Valid()
    }

    /** The abstract state. */
    ghost function Value(): QueueState
      reads Repr()
    {
      QueueState(events, flagManager.flags, buttonManager.buttons, timeStampDelay)
    }

    constructor ()
      ensures Valid() && Value() == EMPTY_QUEUE && fresh(Repr())
    {
      events := [];
      flagManager := new Manager();
      buttonManager := new Buttons.ButtonManager();
      timeStampDelay := 0;
    }

    method PushBack(e: Entry)
      requires Valid()
      modifies Repr()
      ensures Valid() && Value() == Appended(old(Value()), e)
    {
      hide Push, Filter;
      events := events + [e.(time := e.time.(timeStamp := e.time.timeStamp + timeStampDelay))];

      match e.event {
        case MomentarySwitch(switch) =>
          var flag := switch.MakeModifierFlag();
          if flag.Some? {
            flagManager.PushBack(MakeToken(if e.eventType == KeyDown then Increase else Decrease, flag.value,
              e.device));
          }
          if switch.IsPointingButton() {
            buttonManager.PushBack(
              Buttons.Button(if e.eventType == KeyDown then Buttons.Increase else Buttons.Decrease, switch.pair,
                e.device));
          }
          if e.eventType == KeyDown && e.validity == Validity.Valid && !switch.IsModifier() {
            flagManager.EraseAllSticky();
          }

        case StickyModifier(flag, stickyType) =>
          if e.eventType == KeyDown || e.eventType == Single {
            var typ := IncreaseSticky;
            if stickyType == Toggle {
              if StickySize(flagManager.flags, flag) > 0 {
                typ := DecreaseSticky;
              }
            } else if stickyType != On {
              typ := DecreaseSticky;
            }
            flagManager.PushBack(MakeToken(typ, flag, e.device));
          }

        case CapsLockStateChanged(value) =>
          flagManager.PushBack(MakeToken(if value != 0 then IncreaseLedLock else DecreaseLedLock, CapsLock, e.device));

        case _ =>
      }
    }

    method ClearEvents()
      requires Valid()
      modifies this
      ensures Valid() && Value() == QueueStep(old(Value()), ClearOp)
    {
      events := [];
      timeStampDelay := 0;
    }

    method EraseFront()
      requires Valid() && events != []
      modifies this
      ensures Valid() && Value() == FrontErased(old(Value()))
    {
      events := events[1..];
      if events == [] {
        timeStampDelay := 0;
      }
    }

    method IncreaseTimeStampDelay(value: int)
      requires Valid()
      modifies this
      ensures Valid() && Value() == old(Value()).(delay := old(timeStampDelay) + value)
    {
      timeStampDelay := timeStampDelay + value;
    }

    /** Manipulators mark the front entry as used up or as one to wait for. */
    method SetFront(validity: Validity, inputDelay: int)
      requires Valid() && events != []
      modifies this
      ensures Valid()
      ensures Value() == old(Value()).(events := [Touched(old(events)[0], validity, inputDelay)] + old(events)[1..])
    {
      events := [Touched(events[0], validity, inputDelay)] + events[1..];
    }

    /** Walks to the right, and one step back after every swap. */
    method SortEvents()
      requires Valid()
      modifies this
      ensures Valid() && Value() == Sorted(old(Value()))
    {
      if events == [] {
        return;
      }

      ghost var all := events;
      ghost var k, p := 1, 0;
      SortOfOne(all);

      var i := 0;
      while i < |events| - 1
        invariant Valid() && GnomeState(all, events, i, k, p)
        invariant flagManager.flags == old(flagManager.flags) && timeStampDelay == old(timeStampDelay)
        decreases |all| - k, p, |all| - i
      {
        if NeedsSwap(events[i], events[i + 1]) {
          k, p := SwapStep(all, events, i, k, p);
          events := events[i := events[i + 1]][i + 1 := events[i]];
          if i > 0 {
            i := i - 1;
          }
        } else {
          k, p := PassStep(all, events, i, k, p);
          i := i + 1;
        }
      }
      assert all[..|all|] == all && events[..|all|] == events;
    }
  }

  /** How far the walk has got at index `i`: the entries before `k` have been taken in, and `p` is where the last of
      them has moved so far, or 0 once it is in place. */
  ghost predicate GnomeState(all: seq<Entry>, s: seq<Entry>, i: int, k: nat, p: nat) {
    && p < k <= |s| == |all| && 0 <= i < k
    && s[k..] == all[k..]
    && (p == 0 ==> s[..k] == Sort(all[..k]))
    && (p > 0 ==> i == p - 1 && Bubbling(s[..k], p, Sort(all[..k])))
  }

  lemma SortOfOne(all: seq<Entry>)
    requires all != []
    ensures GnomeState(all, all, 0, 1, 0)
  {
    SortSnoc([], all[0]);
    assert all[..1] == [] + [all[0]];
  }

  lemma SwapStep(all: seq<Entry>, s: seq<Entry>, i: nat, k: nat, p: nat) returns (k': nat, p': nat)
    requires GnomeState(all, s, i, k, p) && i + 1 < |s| && NeedsSwap(s[i], s[i + 1])
    ensures GnomeState(all, s[i := s[i + 1]][i + 1 := s[i]], if i > 0 then i - 1 else i, k', p')
    ensures k' > k || (k' == k && p' < p)
  {
    if p > 0 {
      SwapOn(all, s, k, p);
      k', p' := k, p - 1;
    } else {
      SortedNeedsNoSwap(all, s, k, i);
      SwapIn(all, s, k);
      k', p' := k + 1, i;
    }
  }

  lemma SwapOn(all: seq<Entry>, s: seq<Entry>, k: nat, p: nat)
    requires p > 0 && GnomeState(all, s, p - 1, k, p) && NeedsSwap(s[p - 1], s[p])
    ensures GnomeState(all, s[p - 1 := s[p]][p := s[p - 1]], if p > 1 then p - 2 else 0, k, p - 1)
  {
    var u := s[p - 1 := s[p]][p := s[p - 1]];
    BubbleOn(s[..k], p, Sort(all[..k]));
    assert u[..k] == s[..k][p - 1 := s[p]][p := s[p - 1]] && u[k..] == s[k..];
  }

  lemma SwapIn(all: seq<Entry>, s: seq<Entry>, k: nat)
    requires 0 < k < |s| && GnomeState(all, s, k - 1, k, 0) && NeedsSwap(s[k - 1], s[k])
    ensures GnomeState(all, s[k - 1 := s[k]][k := s[k - 1]], if k > 1 then k - 2 else 0, k + 1, k - 1)
  {
    var u := s[k - 1 := s[k]][k := s[k - 1]];
    TakeIn(all, s, k);
    BubbleStarts(s[..k], all[k], Sort(all[..k + 1]));
    assert u[..k + 1] == s[..k][..k - 1] + [all[k], s[..k][k - 1]] && u[k + 1..] == s[k + 1..];
  }

  lemma PassStep(all: seq<Entry>, s: seq<Entry>, i: nat, k: nat, p: nat) returns (k': nat, p': nat)
    requires GnomeState(all, s, i, k, p) && i + 1 < |s| && !NeedsSwap(s[i], s[i + 1])
    ensures GnomeState(all, s, i + 1, k', p')
    ensures k' > k || (k' == k && p' <= p)
  {
    k', p' := k, 0;
    if p > 0 {
      BubbleStops(s[..k], p, Sort(all[..k]));
    } else if i + 1 == k {
      TakeIn(all, s, k);
      k' := k + 1;
    }
  }

  /** The entry at `p` is on its way to the left of `s`: everything else is in its final order `t`. */
  ghost predicate Bubbling(s: seq<Entry>, p: nat, t: seq<Entry>) {
    p < |s| && t == Insert(s[..p], s[p]) + s[p + 1..]
  }

  lemma BubbleOn(s: seq<Entry>, p: nat, t: seq<Entry>)
    requires Bubbling(s, p, t) && p > 0 && NeedsSwap(s[p - 1], s[p])
    ensures Bubbling(s[p - 1 := s[p]][p := s[p - 1]], p - 1, t)
    ensures p == 1 ==> s[p - 1 := s[p]][p := s[p - 1]] == t
  {
    var u := s[p - 1 := s[p]][p := s[p - 1]];
    assert s[..p][..p - 1] == s[..p - 1] == u[..p - 1];
    assert u[p..] == [s[p - 1]] + s[p + 1..];
    if p == 1 {
      assert u == [s[1]] + [s[0]] + s[2..];
    }
  }

  lemma BubbleStops(s: seq<Entry>, p: nat, t: seq<Entry>)
    requires Bubbling(s, p, t) && p > 0 && !NeedsSwap(s[p - 1], s[p])
    ensures s == t
  {
    assert s == s[..p] + [s[p]] + s[p + 1..];
  }

  lemma BubbleStarts(s: seq<Entry>, e: Entry, t: seq<Entry>)
    requires s != [] && t == Insert(s, e) && NeedsSwap(s[|s| - 1], e)
    ensures var u := s[..|s| - 1] + [e, s[|s| - 1]];
            Bubbling(u, |s| - 1, t) && (|s| == 1 ==> u == t)
  {
    var u := s[..|s| - 1] + [e, s[|s| - 1]];
    assert u[..|s| - 1] == s[..|s| - 1] && u[|s|..] == [s[|s| - 1]];
  }

  lemma SortedNeedsNoSwap(all: seq<Entry>, s: seq<Entry>, k: nat, i: nat)
    requires 0 < k <= |s| && k <= |all| && i < k && i + 1 < |s| && s[..k] == Sort(all[..k])
    requires NeedsSwap(s[i], s[i + 1])
    ensures i + 1 == k
  {
    var t := s[..k];
    SortSettles(all[..k]);
    assert forall j :: 0 <= j < k - 1 ==> !NeedsSwap(t[j], t[j + 1]);
    assert forall j :: 0 <= j < k ==> t[j] == s[j];
  }

  /** Taking in the next entry is one insertion. */
  lemma TakeIn(all: seq<Entry>, s: seq<Entry>, k: nat)
    requires k < |all| == |s| && s[k..] == all[k..]
    ensures Sort(all[..k + 1]) == Insert(Sort(all[..k]), all[k]) && s[k] == all[k] && s[k + 1..] == all[k + 1..]
    ensures s[..k + 1] == s[..k] + [all[k]]
  {
    assert all[..k + 1] == all[..k] + [all[k]];
    SortSnoc(all[..k], all[k]);
    assert s[k] == s[k..][0];
    assert s[k + 1..] == s[k..][1..] && all[k + 1..] == all[k..][1..];
  }
}
