/** What a scope pushes to force a chosen set of pressed flags, and what undoing it leaves behind. */
module ScopedFlags {
  import opened Types
  import opened ModifierFlags

  // ----- The list as a product of its per-flag parts

  function Part(s: seq<Token>, m: ModifierFlag): seq<Token> {
    Filter(s, OfFlag(m))
  }

  lemma {:induction false} InFilter(s: seq<Token>, sel: Selector, t: Token)
    ensures t in Filter(s, sel) <==> t in s && sel.Keeps(t)
  {
    FilterCounts(s, sel, t);
    assert t in Filter(s, sel) <==> t in multiset(Filter(s, sel));
    assert t in s <==> t in multiset(s);
  }

  /** A filter that treats opposite tokens alike sees a push only through its own tokens. */
  lemma {:induction false} CancelFilter(s: seq<Token>, f: Token, sel: Selector)
    requires forall t: Token :: t.IsPaired(f) ==> sel.Keeps(t) == sel.Keeps(f)
    ensures Filter(Cancel(s, f), sel) == if sel.Keeps(f) then Cancel(Filter(s, sel), f) else Filter(s, sel)
  {
    if s == [] {
      assert [f][1..] == [];
    } else if !s[0].IsPaired(f) {
      CancelFilter(s[1..], f, sel);
      assert ([s[0]] + Cancel(s[1..], f))[1..] == Cancel(s[1..], f);
    }
  }

  lemma OtherFlagKept(s: seq<Token>, sel: Selector, f: Token, m: ModifierFlag)
    requires sel == NotEqual(f) || sel == NotPairedWith(f)
    ensures Part(Filter(s, sel), m) == if f.flag == m then Filter(Part(s, m), sel) else Part(s, m)
  {
    FilterCommutes(s, sel, OfFlag(m));
    if f.flag != m {
      forall t | t in Part(s, m) ensures sel.Keeps(t) {
        InFilter(s, OfFlag(m), t);
      }
      FilterKeepsAll(Part(s, m), sel);
    }
  }

  /** A push acts on the part of its own flag, as if that part were the whole list, and on no other part. */
  lemma PushPart(s: seq<Token>, f: Token, m: ModifierFlag)
    ensures Part(Push(s, f), m) == if f.flag == m then Push(Part(s, m), f) else Part(s, m)
  {
    OtherFlagKept(s, NotEqual(f), f, m);
    OtherFlagKept(s, NotPairedWith(f), f, m);
    CancelFilter(s, f, OfFlag(m));
    CancelFilter(Filter(s, NotEqual(f)), f, OfFlag(m));
  }

  lemma {:induction false} PushAllPart(s: seq<Token>, fs: seq<Token>, m: ModifierFlag)
    ensures Part(PushAll(s, fs), m) == PushAll(Part(s, m), Part(fs, m))
    decreases |fs|
  {
    if fs != [] {
      PushPart(s, fs[0], m);
      PushAllPart(Push(s, fs[0]), fs[1..], m);
      if fs[0].flag == m {
        assert ([fs[0]] + Part(fs[1..], m))[1..] == Part(fs[1..], m);
      }
    }
  }

  lemma {:induction false} FinerFilter(s: seq<Token>, m: ModifierFlag, sel: Selector)
    requires sel == NonLedOf(m) || sel == LedOf(m)
    ensures Filter(Part(s, m), sel) == Filter(s, sel)
  {
    if s != [] {
      FinerFilter(s[1..], m, sel);
    }
  }

  lemma PressedPart(s: seq<Token>, m: ModifierFlag)
    ensures Pressed(s, m) == Pressed(Part(s, m), m)
  {
    FinerFilter(s, m, NonLedOf(m));
    FinerFilter(s, m, LedOf(m));
  }

  lemma NetPart(s: seq<Token>, k: Key)
    ensures Net(Part(s, k.flag), k) == Net(s, k)
  {
    FilterCounts(s, OfFlag(k.flag), Up(k));
    FilterCounts(s, OfFlag(k.flag), Down(k));
  }

  lemma {:induction false} PushAllKeepsWellFormed(s: seq<Token>, fs: seq<Token>)
    requires WellFormed(s) && forall f :: f in fs ==> f.Proper()
    ensures WellFormed(PushAll(s, fs))
    decreases |fs|
  {
    if fs != [] {
      PushKeepsWellFormed(s, fs[0]);
      PushAllKeepsWellFormed(Push(s, fs[0]), fs[1..]);
    }
  }

  // ----- Totals

  /** The sum that decides whether `m` is pressed, LED locks apart. */
  function Total(s: seq<Token>, m: ModifierFlag): int {
    Sum(Filter(s, NonLedOf(m)))
  }

  lemma {:induction false} CancelTotal(s: seq<Token>, f: Token, m: ModifierFlag)
    ensures Total(Cancel(s, f), m) == Total(s, m) + if NonLedOf(m).Keeps(f) then f.Count() else 0
  {
    if s == [] {
      assert Filter([f], NonLedOf(m)) == if NonLedOf(m).Keeps(f) then [f] else [];
    } else if !s[0].IsPaired(f) {
      CancelTotal(s[1..], f, m);
    }
  }

  lemma {:induction false} WithoutTotal(s: seq<Token>, f: Token, m: ModifierFlag)
    ensures Total(Filter(s, NotEqual(f)), m) ==
            if !NonLedOf(m).Keeps(f) then Total(s, m)
            else if f.Count() > 0 then Total(s, m) - multiset(s)[f]
            else Total(s, m) + multiset(s)[f]
  {
    if s != [] {
      assert s == [s[0]] + s[1..];
      WithoutTotal(s[1..], f, m);
    }
  }

  lemma {:induction false} UnpairedTotal(s: seq<Token>, f: Token, m: ModifierFlag)
    requires f.typ == DecreaseLedLock
    ensures Total(Filter(s, NotPairedWith(f)), m) == Total(s, m)
  {
    if s != [] {
      UnpairedTotal(s[1..], f, m);
    }
  }

  /** A push moves the total of its flag as much as its own counter. */
  lemma PushTotal(s: seq<Token>, f: Token, m: ModifierFlag)
    requires WellFormed(s) && f.Proper()
    ensures Total(Push(s, f), m) == Total(s, m)
              + if NonLedOf(m).Keeps(f) then Net(Push(s, f), f.CounterKey()) - Net(s, f.CounterKey()) else 0
  {
    var k := f.CounterKey();
    PushBumps(s, f, k);
    TokenOfKey(f);
    assert Good(s, k);
    CancelTotal(s, f, m);
    CancelTotal(Filter(s, NotEqual(f)), f, m);
    WithoutTotal(s, f, m);
    if f.typ == DecreaseLedLock {
      UnpairedTotal(s, f, m);
    }
  }

  // ----- What the scope pushes

  lemma IncreaseRaisesTotal(t: seq<Token>, m: ModifierFlag)
    ensures Total(Push(t, MakeToken(Increase, m, 0)), m) == Total(t, m) + 1
    ensures !Pressed(t, m) ==> Total(t, m) <= 0
  {
    CancelTotal(t, MakeToken(Increase, m, 0), m);
  }

  /** The tokens pushed until `m` is pressed. */
  function PressTokens(t: seq<Token>, m: ModifierFlag): seq<Token>
    decreases if Pressed(t, m) then 0 else 1 - Total(t, m)
  {
    if Pressed(t, m) then []
    else
      var f := MakeToken(Increase, m, 0);
      IncreaseRaisesTotal(t, m);
      IncreaseRaisesTotal(Push(t, f), m);
      [f] + PressTokens(Push(t, f), m)
  }

  /** The inverse of every token of the list, all on device 0. */
  function Inverses(t: seq<Token>): seq<Token> {
    if t == [] then [] else [t[0].InverseOn(0)] + Inverses(t[1..])
  }

  /** What the scope pushes for `m`, given the part of the list that belongs to `m`. */
  function StepTokens(t: seq<Token>, m: ModifierFlag, wanted: set<ModifierFlag>): seq<Token> {
    if m in wanted then PressTokens(t, m)
    else if Pressed(t, m) then Inverses(t)
    else []
  }

  function ScopeTokens(s: seq<Token>, ms: seq<ModifierFlag>, wanted: set<ModifierFlag>): seq<Token>
    decreases |ms|
  {
    if ms == [] then []
    else
      var fs := StepTokens(Part(s, ms[0]), ms[0], wanted);
      fs + ScopeTokens(PushAll(s, fs), ms[1..], wanted)
  }

  /** The tokens that the end of the scope pushes. */
  function UndoTokens(fs: seq<Token>): seq<Token> {
    if fs == [] then [] else [fs[0].InverseOn(fs[0].device)] + UndoTokens(fs[1..])
  }

  lemma {:induction false} PressTokensAreIncreases(t: seq<Token>, m: ModifierFlag)
    ensures forall f :: f in PressTokens(t, m) ==> f == MakeToken(Increase, m, 0)
    ensures Pressed(PushAll(t, PressTokens(t, m)), m)
    decreases if Pressed(t, m) then 0 else 1 - Total(t, m)
  {
    if !Pressed(t, m) {
      var f := MakeToken(Increase, m, 0);
      IncreaseRaisesTotal(t, m);
      IncreaseRaisesTotal(Push(t, f), m);
      PressTokensAreIncreases(Push(t, f), m);
      assert PressTokens(t, m)[1..] == PressTokens(Push(t, f), m);
    }
  }

  lemma {:induction false} InversesOfFlag(t: seq<Token>, m: ModifierFlag)
    requires forall x :: x in t ==> x.flag == m
    ensures forall x :: x in Inverses(t) ==> x.flag == m && x.device == 0
  {
    if t != [] {
      InversesOfFlag(t[1..], m);
    }
  }

  lemma StepTokensOfFlag(s: seq<Token>, m: ModifierFlag, wanted: set<ModifierFlag>)
    ensures forall f :: f in StepTokens(Part(s, m), m, wanted) ==> f.flag == m && f.device == 0
  {
    PressTokensAreIncreases(Part(s, m), m);
    forall x | x in Part(s, m) ensures x.flag == m {
      InFilter(s, OfFlag(m), x);
    }
    InversesOfFlag(Part(s, m), m);
  }

  ghost predicate NoRepeats(ms: seq<ModifierFlag>) {
    forall i, j :: 0 <= i < j < |ms| ==> ms[i] != ms[j]
  }

  /** The pushes of the scope, seen by one flag: those of its own step, computed from the original list. */
  lemma {:induction false} ScopeTokensOfFlag(s: seq<Token>, ms: seq<ModifierFlag>, wanted: set<ModifierFlag>,
                                             m: ModifierFlag)
    requires NoRepeats(ms)
    ensures Part(ScopeTokens(s, ms, wanted), m) == if m in ms then StepTokens(Part(s, m), m, wanted) else []
    ensures forall f :: f in ScopeTokens(s, ms, wanted) ==> f.device == 0
    decreases |ms|
  {
    if ms != [] {
      var fs := StepTokens(Part(s, ms[0]), ms[0], wanted);
      var rest := ScopeTokens(PushAll(s, fs), ms[1..], wanted);
      StepTokensOfFlag(s, ms[0], wanted);
      ScopeTokensOfFlag(PushAll(s, fs), ms[1..], wanted, m);
      FilterAppend(fs, rest, OfFlag(m));
      PushAllPart(s, fs, m);
      if m == ms[0] {
        FilterKeepsAll(fs, OfFlag(m));
        assert m !in ms[1..];
      } else {
        NothingOfOtherFlag(fs, ms[0], m);
      }
    }
  }

  lemma {:induction false} NothingOfOtherFlag(fs: seq<Token>, m: ModifierFlag, other: ModifierFlag)
    requires forall f :: f in fs ==> f.flag == m
    requires m != other
    ensures Part(fs, other) == []
  {
    if fs != [] {
      NothingOfOtherFlag(fs[1..], m, other);
    }
  }

  lemma {:induction false} PressTokensSuffice(t: seq<Token>, m: ModifierFlag, n: nat)
    ensures n < |PressTokens(t, m)| ==> !Pressed(PushAll(t, PressTokens(t, m)[..n]), m)
    decreases if Pressed(t, m) then 0 else 1 - Total(t, m)
  {
    if !Pressed(t, m) {
      var f := MakeToken(Increase, m, 0);
      IncreaseRaisesTotal(t, m);
      IncreaseRaisesTotal(Push(t, f), m);
      if 0 < n <= |PressTokens(t, m)| {
        PressTokensSuffice(Push(t, f), m, n - 1);
        assert PressTokens(t, m)[..n] == [f] + PressTokens(Push(t, f), m)[..n - 1];
        assert ([f] + PressTokens(Push(t, f), m)[..n - 1])[1..] == PressTokens(Push(t, f), m)[..n - 1];
      }
    }
  }

  lemma {:induction false} InversesAt(t: seq<Token>, m: ModifierFlag)
    requires forall x :: x in t ==> x.flag == m
    ensures |Inverses(t)| == |t|
    ensures forall i :: 0 <= i < |t| ==>
              Inverses(t)[i].typ.Inverse() == t[i].typ && Inverses(t)[i].flag == m && Inverses(t)[i].device == 0
  {
    if t != [] {
      InversesAt(t[1..], m);
    }
  }

  /** What the scope pushes for a flag, all of it on device 0: increases, just as many as press a wanted flag, and the
      opposites of all tokens of an unwanted one that is pressed, in their order. */
  lemma ScopePushes(s: seq<Token>, ms: seq<ModifierFlag>, wanted: set<ModifierFlag>, m: ModifierFlag)
    requires NoRepeats(ms) && m in ms
    ensures var t, fs := Filter(s, OfFlag(m)), Filter(ScopeTokens(s, ms, wanted), OfFlag(m));
            if m in wanted then
              && (forall f :: f in fs ==> f == Token(Increase, m, 0)) && Pressed(PushAll(t, fs), m)
              && forall n :: 0 <= n < |fs| ==> !Pressed(PushAll(t, fs[..n]), m)
            else if Pressed(t, m) then
              && |fs| == |t|
              && forall i :: 0 <= i < |fs| ==> fs[i].typ.Inverse() == t[i].typ && fs[i].flag == m && fs[i].device == 0
            else fs == []
  {
    hide Filter, Pressed, PushAll, PressTokens, Inverses, ScopeTokens;
    var t := Part(s, m);
    ScopeTokensOfFlag(s, ms, wanted, m);
    PressTokensAreIncreases(t, m);
    forall n: nat ensures n < |PressTokens(t, m)| ==> !Pressed(PushAll(t, PressTokens(t, m)[..n]), m) {
      PressTokensSuffice(t, m, n);
    }
    forall x | x in t ensures x.flag == m {
      InFilter(s, OfFlag(m), x);
    }
    InversesAt(t, m);
  }

  // ----- Counters under a list of pushes

  function BumpAll(k: Key, c: int, fs: seq<Token>): int
    decreases |fs|
  {
    if fs == [] then c
    else BumpAll(k, if fs[0].CounterKey() == k then Bump(k.kind, c, fs[0].Count()) else c, fs[1..])
  }

  lemma {:induction false} PushAllBumps(s: seq<Token>, fs: seq<Token>, k: Key)
    requires WellFormed(s) && forall f :: f in fs ==> f.Proper()
    ensures Net(PushAll(s, fs), k) == BumpAll(k, Net(s, k), fs)
    decreases |fs|
  {
    if fs != [] {
      PushBumps(s, fs[0], k);
      PushKeepsWellFormed(s, fs[0]);
      PushAllBumps(Push(s, fs[0]), fs[1..], k);
    }
  }

  lemma {:induction false} BumpAllAdds(k: Key, c: int, fs: seq<Token>)
    requires k.kind == Plain || k.kind == Sticky
    ensures BumpAll(k, c, fs) == c + Net(fs, k)
    decreases |fs|
  {
    if fs != [] {
      assert fs == [fs[0]] + fs[1..];
      NetCons(fs[0], fs[1..], k);
      BumpAllAdds(k, if fs[0].CounterKey() == k then Bump(k.kind, c, fs[0].Count()) else c, fs[1..]);
    }
  }

  lemma {:induction false} BumpAllPart(k: Key, c: int, fs: seq<Token>)
    ensures BumpAll(k, c, fs) == BumpAll(k, c, Part(fs, k.flag))
    decreases |fs|
  {
    if fs != [] {
      BumpAllPart(k, if fs[0].CounterKey() == k then Bump(k.kind, c, fs[0].Count()) else c, fs[1..]);
      if fs[0].flag == k.flag {
        assert ([fs[0]] + Part(fs[1..], k.flag))[1..] == Part(fs[1..], k.flag);
      }
    }
  }

  lemma {:induction false} BumpAllUntouched(k: Key, c: int, fs: seq<Token>)
    requires forall f :: f in fs ==> f.CounterKey() != k
    ensures BumpAll(k, c, fs) == c
  {
    if fs != [] {
      BumpAllUntouched(k, c, fs[1..]);
    }
  }

  lemma {:induction false} UndoPart(fs: seq<Token>, m: ModifierFlag)
    ensures Part(UndoTokens(fs), m) == UndoTokens(Part(fs, m))
  {
    if fs != [] {
      UndoPart(fs[1..], m);
    }
  }

  lemma {:induction false} UndoNegates(fs: seq<Token>, k: Key)
    requires k.kind != LedLock
    ensures Net(UndoTokens(fs), k) == -Net(fs, k)
  {
    if fs != [] {
      var f := fs[0].InverseOn(fs[0].device);
      assert fs == [fs[0]] + fs[1..];
      var i := fs[0].InverseOn(fs[0].device);
      assert i.Count() == -fs[0].Count() && i.typ.Kind() == fs[0].typ.Kind() && i.flag == fs[0].flag;
      UndoNegates(fs[1..], k);
      NetCons(fs[0], fs[1..], k);
      NetCons(f, UndoTokens(fs[1..]), k);
    }
  }

  lemma {:induction false} UndoProper(fs: seq<Token>)
    ensures forall f :: f in UndoTokens(fs) ==> f.Proper()
  {
    if fs != [] {
      UndoProper(fs[1..]);
    }
  }

  // ----- The lock counter of device 0

  /** The lock counter of device 0 while the inverses of the lock tokens of `t` are pushed onto it, clamped. */
  function LockWalk(c: int, t: seq<Token>): int
    decreases |t|
  {
    if t == [] then c
    else LockWalk(if t[0].typ.Kind() == Lock then Clamp(c - t[0].Count(), -1, 1) else c, t[1..])
  }

  /** The same counter while the end of the scope pushes them back. */
  function LockWalkBack(c: int, t: seq<Token>): int
    decreases |t|
  {
    if t == [] then c
    else LockWalkBack(if t[0].typ.Kind() == Lock then Clamp(c + t[0].Count(), -1, 1) else c, t[1..])
  }

  function KindSum(t: seq<Token>, kind: Kind): int {
    if t == [] then 0 else (if t[0].typ.Kind() == kind then t[0].Count() else 0) + KindSum(t[1..], kind)
  }

  /** What is left of the locks of `m` after the scope pushed their inverses: zero or less if they are undone. */
  function LockResidue(s: seq<Token>, m: ModifierFlag): int {
    var t := Part(s, m);
    var c := Net(t, Key(Lock, m, 0));
    KindSum(t, Lock) - c + LockWalk(c, t)
  }

  /** The lock counter of device 0 survives going there and back. */
  predicate LockReturns(s: seq<Token>, m: ModifierFlag) {
    var t := Part(s, m);
    var c := Net(t, Key(Lock, m, 0));
    LockWalkBack(LockWalk(c, t), t) == c
  }

  lemma {:induction false} InversesWalk(t: seq<Token>, m: ModifierFlag, c: int)
    requires forall x :: x in t ==> x.flag == m
    ensures BumpAll(Key(Lock, m, 0), c, Inverses(t)) == LockWalk(c, t)
    decreases |t|
  {
    if t != [] {
      assert Inverses(t)[1..] == Inverses(t[1..]);
      InversesWalk(t[1..], m, if t[0].typ.Kind() == Lock then Clamp(c - t[0].Count(), -1, 1) else c);
    }
  }

  lemma {:induction false} UndoWalk(t: seq<Token>, m: ModifierFlag, c: int)
    requires forall x :: x in t ==> x.flag == m
    ensures BumpAll(Key(Lock, m, 0), c, UndoTokens(Inverses(t))) == LockWalkBack(c, t)
    decreases |t|
  {
    if t != [] {
      var back := UndoTokens(Inverses(t));
      assert Inverses(t)[1..] == Inverses(t[1..]);
      assert back == [t[0].InverseOn(0).InverseOn(0)] + UndoTokens(Inverses(t[1..]));
      assert back[1..] == UndoTokens(Inverses(t[1..]));
      UndoWalk(t[1..], m, if t[0].typ.Kind() == Lock then Clamp(c + t[0].Count(), -1, 1) else c);
    }
  }

  lemma {:induction false} InversesNegateKind(t: seq<Token>, m: ModifierFlag, kind: Kind)
    requires forall x :: x in t ==> x.flag == m
    requires kind == Plain || kind == Sticky
    ensures Net(Inverses(t), Key(kind, m, 0)) == -KindSum(t, kind)
  {
    if t != [] {
      var i := t[0].InverseOn(0);
      assert i.Count() == -t[0].Count() && i.typ.Kind() == t[0].typ.Kind();
      InversesNegateKind(t[1..], m, kind);
      NetCons(t[0].InverseOn(0), Inverses(t[1..]), Key(kind, m, 0));
    }
  }

  lemma {:induction false} TotalByKind(t: seq<Token>, m: ModifierFlag)
    requires forall x :: x in t ==> x.flag == m
    ensures Total(t, m) == KindSum(t, Plain) + KindSum(t, Sticky) + KindSum(t, Lock)
  {
    if t != [] {
      TotalByKind(t[1..], m);
    }
  }

  lemma {:induction false} PushAllTotal(s: seq<Token>, fs: seq<Token>, m: ModifierFlag)
    requires WellFormed(s) && forall f :: f in fs ==> f.flag == m && f.device == 0
    ensures Total(PushAll(s, fs), m) - Total(s, m) ==
            Net(PushAll(s, fs), Key(Plain, m, 0)) - Net(s, Key(Plain, m, 0))
            + Net(PushAll(s, fs), Key(Sticky, m, 0)) - Net(s, Key(Sticky, m, 0))
            + Net(PushAll(s, fs), Key(Lock, m, 0)) - Net(s, Key(Lock, m, 0))
    decreases |fs|
  {
    if fs != [] {
      var f := fs[0];
      PushTotal(s, f, m);
      PushKeepsWellFormed(s, f);
      PushBumps(s, f, Key(Plain, m, 0));
      PushBumps(s, f, Key(Sticky, m, 0));
      PushBumps(s, f, Key(Lock, m, 0));
      PushAllTotal(Push(s, f), fs[1..], m);
    }
  }

  /** What one token of `m` does to the LED counter when it is inverted, and when that is undone. */
  lemma LedSteps(x: Token, m: ModifierFlag, c: int)
    requires x.flag == m && (x.typ.Kind() == LedLock ==> x.typ == IncreaseLedLock) && 0 <= c <= 1
    ensures var k, f := Key(LedLock, m, 0), x.InverseOn(0);
            var b := f.InverseOn(0);
            && f.device == 0
            && (if f.CounterKey() == k then Bump(LedLock, c, f.Count()) else c) ==
               (if x.typ == IncreaseLedLock then 0 else c)
            && (if b.CounterKey() == k then Bump(LedLock, c, b.Count()) else c) ==
               (if x.typ == IncreaseLedLock then 1 else c)
  {
  }

  lemma {:induction false} InversesClearLed(t: seq<Token>, m: ModifierFlag, c: int)
    requires forall x :: x in t ==> x.flag == m && (x.typ.Kind() == LedLock ==> x.typ == IncreaseLedLock)
    requires 0 <= c <= 1
    ensures BumpAll(Key(LedLock, m, 0), c, Inverses(t)) ==
            if exists x :: x in t && x.typ == IncreaseLedLock then 0 else c
    ensures BumpAll(Key(LedLock, m, 0), c, UndoTokens(Inverses(t))) ==
            if exists x :: x in t && x.typ == IncreaseLedLock then 1 else c
    decreases |t|
  {
    if t != [] {
      var k, f := Key(LedLock, m, 0), t[0].InverseOn(0);
      var rest := Inverses(t[1..]);
      assert Inverses(t) == [f] + rest && ([f] + rest)[1..] == rest;
      assert UndoTokens(Inverses(t)) == [f.InverseOn(f.device)] + UndoTokens(rest);
      hide Inverses, UndoTokens, BumpAll, Bump;
      LedSteps(t[0], m, c);
      assert (exists x :: x in t && x.typ == IncreaseLedLock) <==>
             t[0].typ == IncreaseLedLock || exists x :: x in t[1..] && x.typ == IncreaseLedLock by {
        assert t == [t[0]] + t[1..];
      }
      assert BumpAll(k, c, [f] + rest) ==
             BumpAll(k, if f.CounterKey() == k then Bump(k.kind, c, f.Count()) else c, rest) by {
        assert ([f] + rest)[1..] == rest;
      }
      var b := f.InverseOn(0);
      assert BumpAll(k, c, [b] + UndoTokens(rest)) ==
             BumpAll(k, if b.CounterKey() == k then Bump(k.kind, c, b.Count()) else c, UndoTokens(rest)) by {
        assert ([b] + UndoTokens(rest))[1..] == UndoTokens(rest);
      }
      InversesClearLed(t[1..], m, c);
      InversesClearLed(t[1..], m, 0);
      InversesClearLed(t[1..], m, 1);
    }
  }

  // ----- Main results

  lemma PartFacts(s: seq<Token>, m: ModifierFlag)
    requires WellFormed(s)
    ensures WellFormed(Part(s, m))
    ensures forall x :: x in Part(s, m) ==> x.flag == m && (x.typ.Kind() == LedLock ==> x.typ == IncreaseLedLock)
  {
    FilterKeepsWellFormed(s, OfFlag(m));
    forall x | x in Part(s, m) ensures x.flag == m && (x.typ.Kind() == LedLock ==> x.typ == IncreaseLedLock) {
      InFilter(s, OfFlag(m), x);
      if x.typ.Kind() == LedLock {
        LedOnDeviceZero(s, x);
      }
    }
  }

  /** Pushing the inverse of every token of one flag leaves the flag pressed just when locks remain. */
  lemma InversesRelease(t: seq<Token>, m: ModifierFlag)
    requires WellFormed(t)
    requires forall x :: x in t ==> x.flag == m && (x.typ.Kind() == LedLock ==> x.typ == IncreaseLedLock)
    ensures var c := Net(t, Key(Lock, m, 0));
            Pressed(PushAll(t, Inverses(t)), m) <==> KindSum(t, Lock) - c + LockWalk(c, t) > 0
  {
    var fs := Inverses(t);
    var a := PushAll(t, fs);
    InversesOfFlag(t, m);
    PushAllKeepsWellFormed(t, fs);
    PushAllTotal(t, fs, m);
    TotalByKind(t, m);
    PushAllBumps(t, fs, Key(Plain, m, 0));
    BumpAllAdds(Key(Plain, m, 0), Net(t, Key(Plain, m, 0)), fs);
    InversesNegateKind(t, m, Plain);
    PushAllBumps(t, fs, Key(Sticky, m, 0));
    BumpAllAdds(Key(Sticky, m, 0), Net(t, Key(Sticky, m, 0)), fs);
    InversesNegateKind(t, m, Sticky);
    PushAllBumps(t, fs, Key(Lock, m, 0));
    InversesWalk(t, m, Net(t, Key(Lock, m, 0)));
    InversesReleaseLed(t, m);
  }

  lemma InversesReleaseLed(t: seq<Token>, m: ModifierFlag)
    requires WellFormed(t)
    requires forall x :: x in t ==> x.flag == m && (x.typ.Kind() == LedLock ==> x.typ == IncreaseLedLock)
    ensures Sum(Filter(PushAll(t, Inverses(t)), LedOf(m))) == 0
  {
    var k := Key(LedLock, m, 0);
    var a := PushAll(t, Inverses(t));
    InversesOfFlag(t, m);
    PushAllKeepsWellFormed(t, Inverses(t));
    forall x | x in a && LedOf(m).Keeps(x) ensures x.device == 0 {
      LedOnDeviceZero(a, x);
    }
    LedSum(a, m);
    PushAllBumps(t, Inverses(t), k);
    assert Good(t, k);
    InversesClearLed(t, m, Net(t, k));
    if !exists x :: x in t && x.typ == IncreaseLedLock {
      assert Up(k) !in t;
    }
  }

  /** The scope leaves exactly the wanted ones of its flags pressed, but for an unwanted flag whose locks are not
      undone; other flags keep their tokens. */
  lemma ScopeForcesPressed(s: seq<Token>, ms: seq<ModifierFlag>, wanted: set<ModifierFlag>, m: ModifierFlag)
    requires WellFormed(s) && NoRepeats(ms)
    ensures var a := PushAll(s, ScopeTokens(s, ms, wanted));
            if m in ms then Pressed(a, m) <==> m in wanted || (Pressed(s, m) && LockResidue(s, m) > 0)
            else Part(a, m) == Part(s, m)
  {
    var fs := ScopeTokens(s, ms, wanted);
    var t := Part(s, m);
    ScopeTokensOfFlag(s, ms, wanted, m);
    PushAllPart(s, fs, m);
    PressedPart(PushAll(s, fs), m);
    PressedPart(s, m);
    PartFacts(s, m);
    PressTokensAreIncreases(t, m);
    InversesRelease(t, m);
  }

  function LockCount(t: seq<Token>): nat {
    if t == [] then 0 else (if t[0].typ.Kind() == Lock then 1 else 0) + LockCount(t[1..])
  }

  lemma {:induction false} WalkWithoutLocks(t: seq<Token>, c: int, k: Key)
    requires LockCount(t) == 0 && k.kind == Lock
    ensures LockWalk(c, t) == c && LockWalkBack(c, t) == c && KindSum(t, Lock) == 0 && Net(t, k) == 0
  {
    if t != [] {
      assert t == [t[0]] + t[1..];
      NetCons(t[0], t[1..], k);
      WalkWithoutLocks(t[1..], c, k);
    }
  }

  lemma {:induction false} WalkWithOneLock(t: seq<Token>, c: int, k: Key) returns (x: Token)
    requires LockCount(t) == 1 && k.kind == Lock && forall y :: y in t ==> y.flag == k.flag
    ensures LockWalk(c, t) == Clamp(c - x.Count(), -1, 1)
    ensures LockWalkBack(c, t) == Clamp(c + x.Count(), -1, 1)
    ensures KindSum(t, Lock) == x.Count()
    ensures Net(t, k) == if x.device == k.device then x.Count() else 0
    ensures x in t && x.typ.Kind() == Lock
    decreases |t|
  {
    assert t == [t[0]] + t[1..];
    NetCons(t[0], t[1..], k);
    if t[0].typ.Kind() == Lock {
      x := t[0];
      WalkWithoutLocks(t[1..], Clamp(c - x.Count(), -1, 1), k);
      WalkWithoutLocks(t[1..], Clamp(c + x.Count(), -1, 1), k);
    } else {
      x := WalkWithOneLock(t[1..], c, k);
    }
  }

  lemma {:induction false} LockWalkIgnoresOthers(t: seq<Token>, c: int, x: Token)
    requires LockCount(t) <= 1 && x in t && x.typ.Kind() == Lock
    ensures LockWalkBack(c, t) == Clamp(c + x.Count(), -1, 1)
    decreases |t|
  {
    if t[0].typ.Kind() == Lock {
      WalkWithoutLocks(t[1..], Clamp(c + t[0].Count(), -1, 1), Key(Lock, x.flag, 0));
      if t[0] != x { NoLockInside(t[1..], x); }
    } else {
      LockWalkIgnoresOthers(t[1..], c, x);
    }
  }

  lemma {:induction false} NoLockInside(t: seq<Token>, x: Token)
    requires LockCount(t) == 0 && x.typ.Kind() == Lock
    ensures x !in t
  {
    if t != [] {
      NoLockInside(t[1..], x);
    }
  }

  /** A single lock on a flag is undone, whichever device holds it. */
  lemma OneLockUndone(s: seq<Token>, m: ModifierFlag)
    requires WellFormed(s) && LockCount(Part(s, m)) <= 1
    ensures LockResidue(s, m) <= 0 && LockReturns(s, m)
  {
    var t := Part(s, m);
    var k := Key(Lock, m, 0);
    var c := Net(t, k);
    PartFacts(s, m);
    if LockCount(t) == 0 {
      WalkWithoutLocks(t, c, k);
    } else {
      var x := WalkWithOneLock(t, c, k);
      LockWalkIgnoresOthers(t, LockWalk(c, t), x);
    }
  }

  /** The end of the scope brings back every token, and keeps what plain and sticky pushes did in between, exactly if
      the lock counters that the scope moved return. */
  lemma ScopeRestores(s: seq<Token>, ms: seq<ModifierFlag>, mid: seq<Token>, wanted: set<ModifierFlag>)
    requires WellFormed(s) && NoRepeats(ms)
    requires forall f :: f in mid ==> f.typ.Kind() == Plain || f.typ.Kind() == Sticky
    ensures var fs := ScopeTokens(s, ms, wanted);
            multiset(PushAll(PushAll(PushAll(s, fs), mid), UndoTokens(fs))) == multiset(PushAll(s, mid))
            <==> forall m :: m in ms && m !in wanted && Pressed(s, m) ==> LockReturns(s, m)
  {
    var fs := ScopeTokens(s, ms, wanted);
    var a := PushAll(s, fs);
    var b := PushAll(a, mid);
    var c := PushAll(b, UndoTokens(fs));
    ScopeTokensOfFlag(s, ms, wanted, Zero);
    ScopeTokensProper(s, ms, wanted);
    UndoProper(fs);
    PushAllKeepsWellFormed(s, fs);
    PushAllKeepsWellFormed(a, mid);
    PushAllKeepsWellFormed(b, UndoTokens(fs));
    PushAllKeepsWellFormed(s, mid);
    if forall m :: m in ms && m !in wanted && Pressed(s, m) ==> LockReturns(s, m) {
      forall k ensures Net(c, k) == Net(PushAll(s, mid), k) {
        CounterRestored(s, ms, mid, wanted, k);
      }
      CountersDetermineTokens(c, PushAll(s, mid));
    }
    if multiset(c) == multiset(PushAll(s, mid)) {
      forall m | m in ms && m !in wanted && Pressed(s, m) ensures LockReturns(s, m) {
        CounterRestored(s, ms, mid, wanted, Key(Lock, m, 0));
      }
    }
  }

  lemma {:induction false} ScopeTokensProper(s: seq<Token>, ms: seq<ModifierFlag>, wanted: set<ModifierFlag>)
    requires NoRepeats(ms)
    ensures forall f :: f in ScopeTokens(s, ms, wanted) ==> f.Proper()
  {
    ScopeTokensOfFlag(s, ms, wanted, Zero);
  }

  /** One counter over the whole bracket. */
  lemma CounterRestored(s: seq<Token>, ms: seq<ModifierFlag>, mid: seq<Token>, wanted: set<ModifierFlag>, k: Key)
    requires WellFormed(s) && NoRepeats(ms)
    requires forall f :: f in mid ==> f.typ.Kind() == Plain || f.typ.Kind() == Sticky
    ensures var fs := ScopeTokens(s, ms, wanted);
            var c := PushAll(PushAll(PushAll(s, fs), mid), UndoTokens(fs));
            Net(c, k) == Net(PushAll(s, mid), k)
            <==> (k.kind == Lock && k.device == 0 && k.flag in ms && k.flag !in wanted && Pressed(s, k.flag)
                  ==> LockReturns(s, k.flag))
  {
    var fs := ScopeTokens(s, ms, wanted);
    var m := k.flag;
    var n := Net(s, k);
    ScopeTokensOfFlag(s, ms, wanted, m);
    ScopeTokensProper(s, ms, wanted);
    UndoProper(fs);
    PushAllKeepsWellFormed(s, fs);
    PushAllKeepsWellFormed(PushAll(s, fs), mid);
    PushAllBumps(s, fs, k);
    PushAllBumps(PushAll(s, fs), mid, k);
    PushAllBumps(PushAll(PushAll(s, fs), mid), UndoTokens(fs), k);
    PushAllBumps(s, mid, k);
    if k.kind == Plain || k.kind == Sticky {
      BumpAllAdds(k, n, fs);
      BumpAllAdds(k, BumpAll(k, n, fs), mid);
      BumpAllAdds(k, BumpAll(k, BumpAll(k, n, fs), mid), UndoTokens(fs));
      BumpAllAdds(k, n, mid);
      UndoNegates(fs, k);
    } else {
      BumpAllUntouched(k, n, mid);
      BumpAllUntouched(k, BumpAll(k, n, fs), mid);
      ClampedCounterRestored(s, ms, wanted, k);
    }
  }

  lemma LedHeld(t: seq<Token>, x: Token, k: Key)
    requires WellFormed(t) && x in t && x.typ == IncreaseLedLock && k == Key(LedLock, x.flag, 0)
    ensures Net(t, k) == 1
  {
    LedOnDeviceZero(t, x);
    assert Good(t, k) && x == Up(k) && x in multiset(t);
  }

  lemma ClampedCounterRestored(s: seq<Token>, ms: seq<ModifierFlag>, wanted: set<ModifierFlag>, k: Key)
    requires WellFormed(s) && NoRepeats(ms) && (k.kind == Lock || k.kind == LedLock)
    ensures var fs := ScopeTokens(s, ms, wanted);
            BumpAll(k, BumpAll(k, Net(s, k), fs), UndoTokens(fs)) == Net(s, k)
            <==> (k.kind == Lock && k.device == 0 && k.flag in ms && k.flag !in wanted && Pressed(s, k.flag)
                  ==> LockReturns(s, k.flag))
  {
    assert Good(s, k) && (k.kind == LedLock ==> 0 <= Net(s, k) <= 1);
    hide ScopeTokens, Part, UndoTokens, BumpAll, Inverses, Net, NoRepeats, Filter, LockWalk;
    var fs := ScopeTokens(s, ms, wanted);
    var m := k.flag;
    var n := Net(s, k);
    var t := Part(s, m);
    var step := Part(fs, m);
    ScopeTokensOfFlag(s, ms, wanted, m);
    PartFacts(s, m);
    NetPart(s, k);
    BumpAllPart(k, n, fs);
    UndoPart(fs, m);
    BumpAllPart(k, BumpAll(k, n, fs), UndoTokens(fs));
    PressedPart(s, m);
    if m in ms && m !in wanted && Pressed(s, m) {
      assert step == Inverses(t);
      if k.device != 0 {
        InversesOfFlag(t, m);
        UndoKeepsDevices(step, m);
        BumpAllUntouched(k, n, step);
        BumpAllUntouched(k, n, UndoTokens(step));
      } else if k.kind == Lock {
        InversesWalk(t, m, n);
        UndoWalk(t, m, LockWalk(n, t));
      } else {
        InversesClearLed(t, m, n);
        InversesClearLed(t, m, BumpAll(k, n, step));
        if exists x :: x in t && x.typ == IncreaseLedLock {
          var x :| x in t && x.typ == IncreaseLedLock;
          LedHeld(t, x, k);
        }
      }
    } else {
      PressTokensAreIncreases(t, m);
      UndoOfIncreases(step, m);
      BumpAllUntouched(k, n, step);
      BumpAllUntouched(k, n, UndoTokens(step));
    }
  }

  lemma {:induction false} UndoKeepsDevices(fs: seq<Token>, m: ModifierFlag)
    requires forall f :: f in fs ==> f.device == 0
    ensures forall f :: f in UndoTokens(fs) ==> f.device == 0
  {
    if fs != [] {
      UndoKeepsDevices(fs[1..], m);
    }
  }

  lemma {:induction false} UndoOfIncreases(fs: seq<Token>, m: ModifierFlag)
    requires forall f :: f in fs ==> f.typ == Increase
    ensures forall f :: f in UndoTokens(fs) ==> f.typ == Decrease
  {
    if fs != [] {
      UndoOfIncreases(fs[1..], m);
    }
  }

  lemma TenFlagsDiffer()
    ensures NoRepeats(TEN_FLAGS)
  {
  }

  /** If no flag is locked twice, the scope forces exactly the wanted flags, and its end restores the tokens. */
  lemma ScopeBracket(s: seq<Token>, mid: seq<Token>, wanted: set<ModifierFlag>)
    requires WellFormed(s) && forall m :: m in TEN_FLAGS ==> LockCount(Part(s, m)) <= 1
    requires forall f :: f in mid ==> f.typ.Kind() == Plain || f.typ.Kind() == Sticky
    ensures var fs := ScopeTokens(s, TEN_FLAGS, wanted);
            && (forall m :: m in TEN_FLAGS ==> (Pressed(PushAll(s, fs), m) <==> m in wanted))
            && multiset(PushAll(PushAll(PushAll(s, fs), mid), UndoTokens(fs))) == multiset(PushAll(s, mid))
  {
    TenFlagsDiffer();
    forall m | m in TEN_FLAGS
      ensures LockReturns(s, m)
      ensures Pressed(PushAll(s, ScopeTokens(s, TEN_FLAGS, wanted)), m) <==> m in wanted
    {
      OneLockUndone(s, m);
      ScopeForcesPressed(s, TEN_FLAGS, wanted, m);
    }
    ScopeRestores(s, TEN_FLAGS, mid, wanted);
  }

  function TwoLocks(): seq<Token> {
    Run([PushOp(IncreaseLock, LeftShift, 1), PushOp(IncreaseLock, LeftShift, 2)])
  }

  lemma RunSnoc(ops: seq<FlagOp>, op: FlagOp)
    ensures Run(ops + [op]) == Apply(op, Run(ops))
    ensures Run([]) == []
  {
    assert (ops + [op])[..|ops|] == ops;
  }

  lemma FilterOne(a: Token, sel: Selector)
    ensures Filter([a], sel) == if sel.Keeps(a) then [a] else []
  {
    assert [a][1..] == [];
    assert Filter([], sel) == [];
  }

  lemma FilterTwo(a: Token, b: Token, sel: Selector)
    requires sel.Keeps(a) && sel.Keeps(b)
    ensures Filter([a, b], sel) == [a, b]
  {
    FilterOne(b, sel);
    assert [a, b][1..] == [b];
  }

  /** The second lock does not cancel the first. */
  lemma TwoLocksAre()
    ensures TwoLocks() == [Token(IncreaseLock, LeftShift, 1), Token(IncreaseLock, LeftShift, 2)]
  {
    var a, b := Token(IncreaseLock, LeftShift, 1), Token(IncreaseLock, LeftShift, 2);
    var p, q := PushOp(IncreaseLock, LeftShift, 1), PushOp(IncreaseLock, LeftShift, 2);
    RunSnoc([], p);
    RunSnoc([p], q);
    hide Run;
    assert [] + [p] == [p] && [p] + [q] == [p, q];
    assert Push([], a) == [a];
    FilterOne(a, NotEqual(b));
    assert Cancel([a], b) == [a] + Cancel([], b) == [a, b];
  }

  lemma TwoLocksWalk(s: seq<Token>, a: Token, b: Token)
    requires s == [a, b] && a.typ == b.typ == IncreaseLock && a.flag == b.flag == LeftShift
    ensures Part(s, LeftShift) == s && Filter(s, NonLedOf(LeftShift)) == s
    ensures Sum(s) == 2 && LockWalk(0, s) == -1 && LockWalkBack(-1, s) == 1
  {
    FilterTwo(a, b, OfFlag(LeftShift));
    FilterTwo(a, b, NonLedOf(LeftShift));
    hide Filter;
    assert s[1..] == [b] && [b][1..] == [];
    assert Sum([b]) == 1;
    assert LockWalk(0, s) == LockWalk(-1, [b]) == -1;
    assert LockWalkBack(-1, s) == LockWalkBack(0, [b]) == 1;
  }

  lemma TwoLocksFacts(s: seq<Token>)
    requires s == TwoLocks()
    ensures WellFormed(s) && Pressed(s, LeftShift) && LockResidue(s, LeftShift) > 0 && !LockReturns(s, LeftShift)
  {
    var k := Key(Lock, LeftShift, 0);
    var a, b := Token(IncreaseLock, LeftShift, 1), Token(IncreaseLock, LeftShift, 2);
    RunRefinesCounters([PushOp(IncreaseLock, LeftShift, 1), PushOp(IncreaseLock, LeftShift, 2)], k);
    TwoLocksAre();
    hide TwoLocks, Run, Counter;
    TwoLocksWalk(s, a, b);
    hide LockWalk, LockWalkBack, Filter, Sum;
    assert Net(s, k) == 0;
    assert KindSum(s, Lock) == 2 by {
      assert s[1..] == [b] && [b][1..] == [];
      assert KindSum([b], Lock) == 1;
    }
  }

  lemma LocksDefeatTheScope(s: seq<Token>, ms: seq<ModifierFlag>, m: ModifierFlag)
    requires WellFormed(s) && Pressed(s, m) && LockResidue(s, m) > 0 && !LockReturns(s, m)
    requires NoRepeats(ms) && m in ms
    ensures var fs := ScopeTokens(s, ms, {});
            && Pressed(PushAll(s, fs), m)
            && multiset(PushAll(PushAll(s, fs), UndoTokens(fs))) != multiset(s)
  {
    ScopeForcesPressed(s, ms, {}, m);
    ScopeRestores(s, ms, [], {});
  }

  /** A flag that two devices hold locked stays pressed although the scope does not want it, because the lock counter
      of device 0, on which both inverses land, is clamped; and undoing the scope does not bring the tokens back. The
      flags are visited in any order `ms`. */
  lemma TwoLocksDefeatTheScope(ms: seq<ModifierFlag>)
    requires NoRepeats(ms) && LeftShift in ms
    ensures var s := TwoLocks();
            var fs := ScopeTokens(s, ms, {});
            && Pressed(PushAll(s, fs), LeftShift)
            && multiset(PushAll(PushAll(s, fs), UndoTokens(fs))) != multiset(s)
  {
    TwoLocksFacts(TwoLocks());
    LocksDefeatTheScope(TwoLocks(), ms, LeftShift);
  }
}
