/** The manager of the active modifier flags, and the scope that forces a set of pressed flags for a while. */
module ModifierFlagManager {
  import opened Types
  import opened ModifierFlags
  import opened ScopedFlags

  class Manager {
    var flags: seq<Token>

    ghost predicate Valid()
      reads this
    {
      WellFormed(flags)
    }

    constructor ()
      ensures flags == [] && Valid()
    {
      flags := [];
    }

    method PushBack(f: Token)
      requires Valid() && f.Proper()
      modifies this
      ensures flags == Push(old(flags), f) && Valid()
    {
      PushKeepsWellFormed(flags, f);
      match f.typ
      case Increase | Decrease | IncreaseSticky | DecreaseSticky =>
        PushAndErasePairs(f);
      case IncreaseLock | DecreaseLock | IncreaseLedLock =>
        FilterKeepsWellFormed(flags, NotEqual(f));
        flags := Filter(flags, NotEqual(f));
        PushAndErasePairs(f);
      case DecreaseLedLock =>
        flags := Filter(flags, NotPairedWith(f));
    }

    method PushAndErasePairs(f: Token)
      requires Valid()
      modifies this
      ensures flags == Cancel(old(flags), f)
    {
      WellFormedHasNoPairs(flags);
      ErasePairsCancels(flags, f, 0);
      flags := flags + [f];
      ErasePairs();
    }

    method ErasePairs()
      modifies this
      ensures flags == ErasePairsFrom(old(flags), 0)
    {
      var i1 := 0;
      while i1 < |flags|
        invariant 0 <= i1
        invariant ErasePairsFrom(flags, i1) == ErasePairsFrom(old(flags), 0)
        decreases |flags|, |flags| - i1
      {
        var i2 := i1 + 1;
        ghost var before := flags;
        while i2 < |flags|
          invariant i1 < i2 <= |flags| && flags == before
          invariant FirstPairAfter(flags, i1, i1 + 1) == FirstPairAfter(flags, i1, i2)
        {
          if flags[i1].IsPaired(flags[i2]) {
            flags := flags[..i1] + flags[i1 + 1..i2] + flags[i2 + 1..];
            if i1 > 0 {
              i1 := i1 - 1;
            }
            break;
          }
          i2 := i2 + 1;
        }
        i1 := i1 + 1;
      }
    }

    method EraseAll(device: DeviceId)
      requires Valid()
      modifies this
      ensures flags == Filter(old(flags), NotOfDevice(device)) && Valid()
    {
      FilterKeepsWellFormed(flags, NotOfDevice(device));
      flags := Filter(flags, NotOfDevice(device));
    }

    method EraseAllExceptLockAndSticky(device: DeviceId)
      requires Valid()
      modifies this
      ensures flags == Filter(old(flags), NotPlainOfDevice(device)) && Valid()
    {
      FilterKeepsWellFormed(flags, NotPlainOfDevice(device));
      flags := Filter(flags, NotPlainOfDevice(device));
    }

    method EraseCapsLockSticky()
      requires Valid()
      modifies this
      ensures flags == Filter(old(flags), NotStickyCapsLock) && Valid()
    {
      FilterKeepsWellFormed(flags, NotStickyCapsLock);
      flags := Filter(flags, NotStickyCapsLock);
    }

    method EraseAllSticky()
      requires Valid()
      modifies this
      ensures flags == Filter(old(flags), NotSticky) && Valid()
    {
      FilterKeepsWellFormed(flags, NotSticky);
      flags := Filter(flags, NotSticky);
    }

    method Reset()
      modifies this
      ensures flags == [] && Valid()
    {
      flags := [];
    }

    method IsPressed(m: ModifierFlag) returns (pressed: bool)
      ensures pressed == Pressed(flags, m)
    {
      var count, size, ledCount := 0, 0, 0;
      assert flags[..|flags|] == flags;
      for i := 0 to |flags|
        invariant count == Sum(Filter(flags[..i], NonLedOf(m)))
        invariant size == |Filter(flags[..i], NonLedOf(m))|
        invariant ledCount == Sum(Filter(flags[..i], LedOf(m)))
      {
        var f := flags[i];
        assert flags[..i + 1] == flags[..i] + [f];
        SumFilterSnoc(flags[..i], f, NonLedOf(m));
        SumFilterSnoc(flags[..i], f, LedOf(m));
        if f.flag == m {
          if f.typ.Kind() == LedLock {
            ledCount := ledCount + f.Count();
          } else {
            count := count + f.Count();
            size := size + 1;
          }
        }
      }
      pressed := if size == 0 then ledCount > 0 else count > 0;
    }

    method IsStickyActive(m: ModifierFlag) returns (active: bool)
      ensures active == StickyActive(flags, m)
    {
      var count := 0;
      assert flags[..|flags|] == flags;
      for i := 0 to |flags|
        invariant count == Sum(Filter(flags[..i], StickyOf(m)))
      {
        var f := flags[i];
        assert flags[..i + 1] == flags[..i] + [f];
        SumFilterSnoc(flags[..i], f, StickyOf(m));
        if f.flag == m && f.typ.Kind() == Sticky {
          count := count + f.Count();
        }
      }
      active := count > 0;
    }

    method MakeModifierFlags() returns (pressed: set<ModifierFlag>)
      ensures forall m :: m in pressed <==> m in TEN_FLAGS && Pressed(flags, m)
    {
      pressed := {};
      for i := 0 to |TEN_FLAGS|
        invariant forall m :: m in pressed <==> m in TEN_FLAGS[..i] && Pressed(flags, m)
      {
        assert TEN_FLAGS[..i + 1] == TEN_FLAGS[..i] + [TEN_FLAGS[i]];
        var p := IsPressed(TEN_FLAGS[i]);
        if p {
          pressed := pressed + {TEN_FLAGS[i]};
        }
      }
    }
  }

  lemma {:induction false} SumSnoc(s: seq<Token>, f: Token)
    ensures Sum(s + [f]) == Sum(s) + f.Count()
  {
    if s == [] {
      assert s + [f] == [f];
    } else {
      assert (s + [f])[1..] == s[1..] + [f];
      SumSnoc(s[1..], f);
    }
  }

  lemma SumFilterSnoc(s: seq<Token>, f: Token, sel: Selector)
    ensures Filter(s + [f], sel) == Filter(s, sel) + if sel.Keeps(f) then [f] else []
    ensures Sum(Filter(s + [f], sel)) == Sum(Filter(s, sel)) + if sel.Keeps(f) then f.Count() else 0
  {
    FilterAppend(s, [f], sel);
    assert Filter([f], sel) == if sel.Keeps(f) then [f] else [];
    if sel.Keeps(f) {
      SumSnoc(Filter(s, sel), f);
    } else {
      assert Filter(s + [f], sel) == Filter(s, sel);
    }
  }

  /** Forces the wanted flags from its construction until `Close`. */
  class ScopedModifierFlags {
    const manager: Manager
    var scoped: seq<Token>

    constructor (manager: Manager, wanted: set<ModifierFlag>)
      requires manager.Valid()
      modifies manager
      ensures this.manager == manager && manager.Valid()
      ensures scoped == ScopeTokens(old(manager.flags), TEN_FLAGS, wanted)
      ensures manager.flags == PushAll(old(manager.flags), scoped)
      ensures forall f :: f in scoped ==> f.Proper()
    {
      this.manager := manager;
      scoped := [];
      new;
      ghost var before := manager.flags;
      ForceAll(TEN_FLAGS, wanted);
      TenFlagsDiffer();
      ScopeTokensProper(before, TEN_FLAGS, wanted);
    }

    method ForceAll(ms: seq<ModifierFlag>, wanted: set<ModifierFlag>)
      requires manager.Valid()
      modifies this`scoped, manager
      ensures manager.Valid()
      ensures scoped == old(scoped) + ScopeTokens(old(manager.flags), ms, wanted)
      ensures manager.flags == PushAll(old(manager.flags), ScopeTokens(old(manager.flags), ms, wanted))
    {
      ghost var s := manager.flags;
      ghost var all := ScopeTokens(s, ms, wanted);
      ghost var done: seq<Token> := [];
      assert ms[0..] == ms;
      for i := 0 to |ms|
        invariant manager.Valid()
        invariant scoped == old(scoped) + done && manager.flags == PushAll(s, done)
        invariant done + ScopeTokens(manager.flags, ms[i..], wanted) == all
      {
        ghost var t := manager.flags;
        ghost var fs := StepTokens(Part(t, ms[i]), ms[i], wanted);
        assert var fs := StepTokens(Part(t, ms[i]), ms[i], wanted);
               ScopeTokens(t, ms[i..], wanted) == fs + ScopeTokens(PushAll(t, fs), ms[i + 1..], wanted) by {
          assert ms[i..][0] == ms[i] && ms[i..][1..] == ms[i + 1..];
        }
        ConcatAssoc(done, fs, ScopeTokens(PushAll(t, fs), ms[i + 1..], wanted));
        ConcatAssoc(old(scoped), done, fs);
        PushAllAppend(s, done, fs);
        Step(ms[i], wanted);
        done := done + fs;
        assert manager.flags == PushAll(s, done);
      }
      assert done == all;
    }

    method Step(m: ModifierFlag, wanted: set<ModifierFlag>)
      requires manager.Valid()
      modifies this`scoped, manager
      ensures manager.Valid()
      ensures scoped == old(scoped) + StepTokens(Part(old(manager.flags), m), m, wanted)
      ensures manager.flags == PushAll(old(manager.flags), StepTokens(Part(old(manager.flags), m), m, wanted))
    {
      ghost var t := Part(manager.flags, m);
      PressedPart(manager.flags, m);
      if m in wanted {
        ForcePressed(m);
      } else {
        var pressed := manager.IsPressed(m);
        if pressed {
          PushInverses(m);
        }
      }
    }

    method ForcePressed(m: ModifierFlag)
      requires manager.Valid()
      modifies this`scoped, manager
      ensures manager.Valid()
      ensures scoped == old(scoped) + PressTokens(Part(old(manager.flags), m), m)
      ensures manager.flags == PushAll(old(manager.flags), PressTokens(Part(old(manager.flags), m), m))
    {
      ghost var s := manager.flags;
      ghost var all := PressTokens(Part(s, m), m);
      ghost var fs: seq<Token> := [];
      PressedPart(s, m);
      var pressed := manager.IsPressed(m);
      while !pressed
        invariant manager.Valid() && pressed == Pressed(Part(manager.flags, m), m)
        invariant scoped == old(scoped) + fs && manager.flags == PushAll(s, fs)
        invariant fs + PressTokens(Part(manager.flags, m), m) == all
        decreases if pressed then 0 else 1 - Total(Part(manager.flags, m), m)
      {
        var f := MakeToken(Increase, m, 0);
        PressStep(s, fs, m);
        ConcatAssoc(fs, [f], PressTokens(Part(Push(manager.flags, f), m), m));
        ConcatAssoc(old(scoped), fs, [f]);
        manager.PushBack(f);
        scoped := scoped + [f];
        fs := fs + [f];
        assert manager.flags == PushAll(s, fs);
        PressedPart(manager.flags, m);
        pressed := manager.IsPressed(m);
      }
      assert fs == all;
    }

    method PushInverses(m: ModifierFlag)
      requires manager.Valid()
      modifies this`scoped, manager
      ensures manager.Valid()
      ensures scoped == old(scoped) + Inverses(Part(old(manager.flags), m))
      ensures manager.flags == PushAll(old(manager.flags), Inverses(Part(old(manager.flags), m)))
    {
      var copy := manager.flags;
      assert copy[..|copy|] == copy;
      for i := 0 to |copy|
        invariant manager.Valid()
        invariant scoped == old(scoped) + Inverses(Part(copy[..i], m))
        invariant manager.flags == PushAll(copy, Inverses(Part(copy[..i], m)))
      {
        var f := copy[i];
        assert copy[..i + 1] == copy[..i] + [f];
        SumFilterSnoc(copy[..i], f, OfFlag(m));
        assert Part(copy[..i + 1], m) == if f.flag == m then Part(copy[..i], m) + [f] else Part(copy[..i], m);
        if f.flag == m {
          var inverse := f.InverseOn(0);
          InversesSnoc(Part(copy[..i], m), f);
          PushAllAppend(copy, Inverses(Part(copy[..i], m)), [inverse]);
          assert PushAll(manager.flags, [inverse]) == Push(manager.flags, inverse);
          manager.PushBack(inverse);
          scoped := scoped + [inverse];
        }
      }
    }

    /** The destructor: pushes the inverses of what was pushed. */
    method Close()
      requires manager.Valid() && forall f :: f in scoped ==> f.Proper()
      modifies manager
      ensures manager.flags == PushAll(old(manager.flags), UndoTokens(scoped)) && manager.Valid()
    {
      assert scoped[..|scoped|] == scoped;
      for i := 0 to |scoped|
        invariant manager.Valid() && manager.flags == PushAll(old(manager.flags), UndoTokens(scoped[..i]))
      {
        var inverse := scoped[i].InverseOn(scoped[i].device);
        assert scoped[..i + 1] == scoped[..i] + [scoped[i]];
        UndoSnoc(scoped[..i], scoped[i]);
        PushAllAppend(old(manager.flags), UndoTokens(scoped[..i]), [inverse]);
        assert PushAll(manager.flags, [inverse]) == Push(manager.flags, inverse);
        manager.PushBack(inverse);
      }
    }
  }

  lemma {:induction false} InversesSnoc(t: seq<Token>, f: Token)
    ensures Inverses(t + [f]) == Inverses(t) + [f.InverseOn(0)]
  {
    if t == [] {
      assert t + [f] == [f];
    } else {
      assert (t + [f])[1..] == t[1..] + [f];
      InversesSnoc(t[1..], f);
    }
  }

  lemma {:induction false} UndoSnoc(t: seq<Token>, f: Token)
    ensures UndoTokens(t + [f]) == UndoTokens(t) + [f.InverseOn(f.device)]
  {
    if t == [] {
      assert t + [f] == [f];
    } else {
      assert (t + [f])[1..] == t[1..] + [f];
      UndoSnoc(t[1..], f);
    }
  }

  /** One round of forcing a flag: the push that it makes and what that leaves to push. */
  lemma PressStep(s: seq<Token>, fs: seq<Token>, m: ModifierFlag)
    requires !Pressed(Part(PushAll(s, fs), m), m)
    ensures var f, t := MakeToken(Increase, m, 0), PushAll(s, fs);
            && Push(t, f) == PushAll(s, fs + [f])
            && PressTokens(Part(t, m), m) == [f] + PressTokens(Part(Push(t, f), m), m)
            && Total(Part(Push(t, f), m), m) == Total(Part(t, m), m) + 1
            && (!Pressed(Part(Push(t, f), m), m) ==> Total(Part(Push(t, f), m), m) <= 0)
  {
    var f, t := MakeToken(Increase, m, 0), PushAll(s, fs);
    IncreaseRaisesTotal(Part(t, m), m);
    PushPart(t, f, m);
    IncreaseRaisesTotal(Part(Push(t, f), m), m);
    PushAllAppend(s, fs, [f]);
    assert PushAll(Push(t, f), []) == Push(t, f) && PushAll(t, [f]) == PushAll(Push(t, f), [f][1..]);
  }
}
