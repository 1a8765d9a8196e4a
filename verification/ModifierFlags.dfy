/** The active modifier flags of a queue: a list of signed tokens in which opposite tokens cancel.

    The functions and lemmas of this module describe the list as a value; the class that keeps such a list is in
    ModifierFlagManager.dfy. */
module ModifierFlags {
  import opened Types

  datatype FlagType =
    | Increase
    | Decrease
    | IncreaseLock
    | DecreaseLock
    | IncreaseLedLock
    | DecreaseLedLock
    | IncreaseSticky
    | DecreaseSticky
  {
    function Inverse(): FlagType {
      match this
      case Increase => Decrease
      case Decrease => Increase
      case IncreaseLock => DecreaseLock
      case DecreaseLock => IncreaseLock
      case IncreaseLedLock => DecreaseLedLock
      case DecreaseLedLock => IncreaseLedLock
      case IncreaseSticky => DecreaseSticky
      case DecreaseSticky => IncreaseSticky
    }

    function Count(): int {
      if Increase? || IncreaseLock? || IncreaseLedLock? || IncreaseSticky? then 1 else -1
    }

    function Kind(): Kind {
      match this
      case Increase | Decrease => Plain
      case IncreaseLock | DecreaseLock => Lock
      case IncreaseLedLock | DecreaseLedLock => LedLock
      case IncreaseSticky | DecreaseSticky => Sticky
    }
  }

  datatype Kind = Plain | Sticky | Lock | LedLock

  /** A counter of the abstract state: one per kind, flag and device. */
  datatype Key = Key(kind: Kind, flag: ModifierFlag, device: DeviceId)

  datatype Token = Token(typ: FlagType, flag: ModifierFlag, device: DeviceId) {

    function CounterKey(): Key {
      Key(typ.Kind(), flag, device)
    }

    function Count(): int {
      typ.Count()
    }

    predicate IsPaired(other: Token) {
      typ == other.typ.Inverse() && flag == other.flag && device == other.device
    }

    /** LED locks belong to no device: they are kept on device 0. */
    predicate Proper() {
      typ.Kind() == LedLock ==> device == 0
    }

    function InverseOn(d: DeviceId): Token {
      MakeToken(typ.Inverse(), flag, d)
    }
  }

  function MakeToken(typ: FlagType, flag: ModifierFlag, device: DeviceId): (t: Token)
    ensures t.Proper()
  {
    Token(typ, flag, if typ.Kind() == LedLock then 0 else device)
  }

  function Up(k: Key): Token {
    var typ :=
      match k.kind
      case Plain => Increase
      case Sticky => IncreaseSticky
      case Lock => IncreaseLock
      case LedLock => IncreaseLedLock;
    Token(typ, k.flag, k.device)
  }

  function Down(k: Key): Token {
    Token(Up(k).typ.Inverse(), k.flag, k.device)
  }

  // ----- Filters of the list

  /** The predicates with which the list is filtered. A first-order type, so that equal filters are equal terms. */
  datatype Selector =
    | OfFlag(flag: ModifierFlag)
    | LedOf(flag: ModifierFlag)
    | NonLedOf(flag: ModifierFlag)
    | StickyOf(flag: ModifierFlag)
    | NotEqual(token: Token)
    | NotPairedWith(token: Token)
    | NotOfDevice(device: DeviceId)
    | NotPlainOfDevice(device: DeviceId)
    | NotStickyCapsLock
    | NotSticky
  {
    predicate Keeps(t: Token) {
      match this
      case OfFlag(m) => t.flag == m
      case LedOf(m) => t.flag == m && t.typ.Kind() == LedLock
      case NonLedOf(m) => t.flag == m && t.typ.Kind() != LedLock
      case StickyOf(m) => t.flag == m && t.typ.Kind() == Sticky
      case NotEqual(f) => t != f
      case NotPairedWith(f) => !t.IsPaired(f)
      case NotOfDevice(d) => t.device != d
      case NotPlainOfDevice(d) => !(t.device == d && t.typ.Kind() == Plain)
      case NotStickyCapsLock => !(t.flag == CapsLock && t.typ.Kind() == Sticky)
      case NotSticky => t.typ.Kind() != Sticky
    }
  }

  function Filter(s: seq<Token>, sel: Selector): seq<Token> {
    if s == [] then []
    else if sel.Keeps(s[0]) then [s[0]] + Filter(s[1..], sel)
    else Filter(s[1..], sel)
  }

  lemma {:induction false} FilterCounts(s: seq<Token>, sel: Selector, t: Token)
    ensures multiset(Filter(s, sel))[t] == if sel.Keeps(t) then multiset(s)[t] else 0
  {
    if s != [] {
      FilterCounts(s[1..], sel, t);
      assert s == [s[0]] + s[1..];
    }
  }

  lemma {:induction false} FilterAppend(a: seq<Token>, b: seq<Token>, sel: Selector)
    ensures Filter(a + b, sel) == Filter(a, sel) + Filter(b, sel)
  {
    if a == [] {
      assert a + b == b;
    } else {
      assert (a + b)[1..] == a[1..] + b;
      FilterAppend(a[1..], b, sel);
    }
  }

  lemma {:induction false} FilterCommutes(s: seq<Token>, p: Selector, q: Selector)
    ensures Filter(Filter(s, p), q) == Filter(Filter(s, q), p)
  {
    if s != [] {
      FilterCommutes(s[1..], p, q);
    }
  }

  lemma {:induction false} FilterKeepsAll(s: seq<Token>, sel: Selector)
    requires forall t :: t in s ==> sel.Keeps(t)
    ensures Filter(s, sel) == s
  {
    if s != [] {
      FilterKeepsAll(s[1..], sel);
    }
  }

  // ----- Pushing

  /** Appends `f`, or removes the first token paired with it. */
  function Cancel(s: seq<Token>, f: Token): seq<Token> {
    if s == [] then [f]
    else if s[0].IsPaired(f) then s[1..]
    else [s[0]] + Cancel(s[1..], f)
  }

  function Push(s: seq<Token>, f: Token): seq<Token> {
    match f.typ
    case Increase | Decrease | IncreaseSticky | DecreaseSticky => Cancel(s, f)
    case IncreaseLock | DecreaseLock | IncreaseLedLock => Cancel(Filter(s, NotEqual(f)), f)
    case DecreaseLedLock => Filter(s, NotPairedWith(f))
  }

  function PushAll(s: seq<Token>, fs: seq<Token>): seq<Token>
    decreases |fs|
  {
    if fs == [] then s else PushAll(Push(s, fs[0]), fs[1..])
  }

  lemma {:induction false} PushAllAppend(s: seq<Token>, a: seq<Token>, b: seq<Token>)
    ensures PushAll(s, a + b) == PushAll(PushAll(s, a), b)
    decreases |a|
  {
    if a == [] {
      assert a + b == b;
    } else {
      assert (a + b)[1..] == a[1..] + b;
      PushAllAppend(Push(s, a[0]), a[1..], b);
    }
  }

  // ----- The cancellation loop

  function FirstPairAfter(s: seq<Token>, i: nat, j: nat): (r: nat)
    requires i < j <= |s|
    ensures j <= r <= |s|
    ensures r < |s| ==> s[i].IsPaired(s[r])
    ensures forall x :: j <= x < r ==> !s[i].IsPaired(s[x])
    decreases |s| - j
  {
    if j == |s| then j else if s[i].IsPaired(s[j]) then j else FirstPairAfter(s, i, j + 1)
  }

  /** The nested loops of the cancellation, from outer index `i`. After a removal at index 0 the outer index moves on
      to 1, so the token that has become the first one is not compared with the later ones. */
  function ErasePairsFrom(s: seq<Token>, i: nat): seq<Token>
    decreases |s|, |s| - i
  {
    if i >= |s| then s
    else
      var j := FirstPairAfter(s, i, i + 1);
      if j < |s| then ErasePairsFrom(s[..i] + s[i + 1..j] + s[j + 1..], if i > 0 then i else 1)
      else ErasePairsFrom(s, i + 1)
  }

  ghost predicate NoPairs(s: seq<Token>) {
    forall i, j :: 0 <= i < j < |s| ==> !s[i].IsPaired(s[j])
  }

  lemma {:induction false} ErasePairsFixed(s: seq<Token>, i: nat)
    requires NoPairs(s)
    ensures ErasePairsFrom(s, i) == s
    decreases |s| - i
  {
    if i < |s| {
      ErasePairsFixed(s, i + 1);
    }
  }

  lemma {:induction false} CancelSkips(s: seq<Token>, f: Token, i: nat)
    requires i <= |s|
    requires forall x :: 0 <= x < i ==> !s[x].IsPaired(f)
    ensures Cancel(s, f) == s[..i] + Cancel(s[i..], f)
  {
    if i > 0 {
      CancelSkips(s[1..], f, i - 1);
      assert s[1..][i - 1..] == s[i..];
      assert s[..i] == [s[0]] + s[1..][..i - 1];
    }
  }

  lemma OnlyPairIsLast(s: seq<Token>, f: Token, i: nat)
    requires NoPairs(s) && i < |s|
    ensures FirstPairAfter(s + [f], i, i + 1) == if s[i].IsPaired(f) then |s| else |s| + 1
  {
    var t := s + [f];
    assert t[i] == s[i] && t[|s|] == f;
    assert forall x :: i < x < |s| ==> t[x] == s[x] && !s[i].IsPaired(s[x]);
  }

  /** One round of the outer loop. */
  lemma ErasePairsStep(s: seq<Token>, i: nat)
    requires i < |s|
    ensures var j := FirstPairAfter(s, i, i + 1);
            ErasePairsFrom(s, i) ==
            if j < |s| then ErasePairsFrom(s[..i] + s[i + 1..j] + s[j + 1..], if i > 0 then i else 1)
              else ErasePairsFrom(s, i + 1)
  {
  }

  lemma NoPairsWithout(s: seq<Token>, i: nat)
    requires NoPairs(s) && i < |s|
    ensures NoPairs(s[..i] + s[i + 1..])
  {
    var r := s[..i] + s[i + 1..];
    assert forall k :: 0 <= k < |r| ==> r[k] == s[if k < i then k else k + 1];
  }

  /** On a pair-free list followed by one pushed token the loop cancels exactly the first matching token, in spite of
      the index that it skips. */
  lemma {:induction false} ErasePairsCancels(s: seq<Token>, f: Token, i: nat)
    requires NoPairs(s) && i <= |s|
    requires forall x :: 0 <= x < i ==> !s[x].IsPaired(f)
    ensures ErasePairsFrom(s + [f], i) == Cancel(s, f)
    decreases |s| - i
  {
    hide NoPairs, ErasePairsFrom;
    CancelSkips(s, f, i);
    if i == |s| {
      ErasePairsLastStep(s + [f]);
    } else {
      OnlyPairIsLast(s, f, i);
      if s[i].IsPaired(f) {
        var r := s[..i] + s[i + 1..];
        ErasePairsStep(s + [f], i);
        assert (s + [f])[..i] + (s + [f])[i + 1..|s|] + (s + [f])[|s| + 1..] == r;
        NoPairsWithout(s, i);
        ErasePairsFixed(r, if i > 0 then i else 1);
      } else {
        ErasePairsStep(s + [f], i);
        ErasePairsCancels(s, f, i + 1);
      }
    }
  }

  lemma ErasePairsLastStep(t: seq<Token>)
    requires t != []
    ensures ErasePairsFrom(t, |t| - 1) == t
  {
    assert ErasePairsFrom(t, |t|) == t;
  }

  // ----- Counters

  /** The counter of `k`: the tokens that count up minus those that count down. */
  function Net(s: seq<Token>, k: Key): int {
    var up: int, down: int := multiset(s)[Up(k)], multiset(s)[Down(k)];
    up - down
  }

  /** Opposite tokens of a key never coexist, locks are held at most once per device, and of the LED locks only the
      increasing one is stored, at most once and on device 0. */
  ghost predicate Good(s: seq<Token>, k: Key) {
    && (multiset(s)[Up(k)] == 0 || multiset(s)[Down(k)] == 0)
    && (k.kind == Lock ==> -1 <= Net(s, k) <= 1)
    && (k.kind == LedLock ==> multiset(s)[Down(k)] == 0 && multiset(s)[Up(k)] <= if k.device == 0 then 1 else 0)
  }

  ghost predicate WellFormed(s: seq<Token>) {
    forall k :: Good(s, k)
  }

  function Clamp(x: int, lo: int, hi: int): int {
    if x < lo then lo else if x > hi then hi else x
  }

  function Bump(kind: Kind, c: int, delta: int): int {
    match kind
    case Plain | Sticky => c + delta
    case Lock => Clamp(c + delta, -1, 1)
    case LedLock => Clamp(c + delta, 0, 1)
  }

  lemma TokenOfKey(t: Token)
    ensures t == if t.Count() > 0 then Up(t.CounterKey()) else Down(t.CounterKey())
  {
  }

  lemma {:induction false} CancelCounts(s: seq<Token>, f: Token, t: Token)
    ensures var inv := Token(f.typ.Inverse(), f.flag, f.device);
            multiset(Cancel(s, f))[t] ==
            if inv in s then multiset(s)[t] - (if t == inv then 1 else 0)
            else multiset(s)[t] + (if t == f then 1 else 0)
  {
    var inv := Token(f.typ.Inverse(), f.flag, f.device);
    if s == [] {
      assert Cancel(s, f) == [f];
    } else {
      assert s == [s[0]] + s[1..];
      assert s[0].IsPaired(f) <==> s[0] == inv;
      if s[0] != inv {
        CancelCounts(s[1..], f, t);
      }
    }
  }

  /** How many tokens `t` the list holds after `f` was pushed. */
  lemma PushCounts(s: seq<Token>, f: Token, t: Token)
    ensures var inv := Token(f.typ.Inverse(), f.flag, f.device);
            var paired := multiset(s)[inv] > 0;
            multiset(Push(s, f))[t] ==
            if f.typ == DecreaseLedLock then (if t == inv then 0 else multiset(s)[t])
            else if t == inv && paired then multiset(s)[t] - 1
            else if t == f then
              (if f.typ.Kind() == Lock || f.typ.Kind() == LedLock then 0 else multiset(s)[t])
                + (if paired then 0 else 1)
            else multiset(s)[t]
  {
    hide Cancel, Filter;
    var inv := Token(f.typ.Inverse(), f.flag, f.device);
    if f.typ.Kind() == Plain || f.typ.Kind() == Sticky {
      CancelCounts(s, f, t);
    } else if f.typ == DecreaseLedLock {
      FilterCounts(s, NotPairedWith(f), t);
    } else {
      CancelCounts(Filter(s, NotEqual(f)), f, t);
      FilterCounts(s, NotEqual(f), t);
      FilterCounts(s, NotEqual(f), inv);
    }
  }

  /** A push moves the counter of its own key by the rule of its kind, moves no other counter, and keeps the list
      well formed. */
  lemma PushBumps(s: seq<Token>, f: Token, k: Key)
    requires WellFormed(s) && f.Proper()
    ensures Net(Push(s, f), k) == if f.CounterKey() == k then Bump(k.kind, Net(s, k), f.Count()) else Net(s, k)
    ensures Good(Push(s, f), k)
  {
    assert Good(s, k);
    TokenOfKey(f);
    PushCounts(s, f, Up(k));
    PushCounts(s, f, Down(k));
  }

  lemma PushKeepsWellFormed(s: seq<Token>, f: Token)
    requires WellFormed(s) && f.Proper()
    ensures WellFormed(Push(s, f))
  {
    forall k ensures Good(Push(s, f), k) {
      PushBumps(s, f, k);
    }
  }

  lemma WellFormedHasNoPairs(s: seq<Token>)
    requires WellFormed(s)
    ensures NoPairs(s)
  {
    forall i, j | 0 <= i < j < |s| ensures !s[i].IsPaired(s[j]) {
      var k := s[i].CounterKey();
      assert Good(s, k);
      TokenOfKey(s[i]);
      TokenOfKey(s[j]);
      assert s[i].IsPaired(s[j]) <==> s[i].CounterKey() == s[j].CounterKey() && s[i].Count() == -s[j].Count();
      assert s[i] in multiset(s) && s[j] in multiset(s);
    }
  }

  lemma FilterKeepsWellFormed(s: seq<Token>, sel: Selector)
    requires WellFormed(s)
    ensures WellFormed(Filter(s, sel))
  {
    forall k ensures Good(Filter(s, sel), k) {
      assert Good(s, k);
      FilterCounts(s, sel, Up(k));
      FilterCounts(s, sel, Down(k));
    }
  }

  /** Two well-formed lists with equal counters hold the same tokens. */
  lemma CountersDetermineTokens(a: seq<Token>, b: seq<Token>)
    requires WellFormed(a) && WellFormed(b)
    requires forall k :: Net(a, k) == Net(b, k)
    ensures multiset(a) == multiset(b)
  {
    forall t: Token ensures multiset(a)[t] == multiset(b)[t] {
      var k := t.CounterKey();
      TokenOfKey(t);
      assert Good(a, k) && Good(b, k) && Net(a, k) == Net(b, k);
    }
  }

  // ----- Runs

  datatype FlagOp =
    | PushOp(typ: FlagType, flag: ModifierFlag, device: DeviceId)
    | EraseDeviceOp(device: DeviceId)
    | ErasePlainOfDeviceOp(device: DeviceId)
    | EraseStickyCapsLockOp
    | EraseStickyOp
    | ResetOp

  function Apply(op: FlagOp, s: seq<Token>): seq<Token> {
    match op
    case PushOp(typ, flag, device) => Push(s, MakeToken(typ, flag, device))
    case EraseDeviceOp(device) => Filter(s, NotOfDevice(device))
    case ErasePlainOfDeviceOp(device) => Filter(s, NotPlainOfDevice(device))
    case EraseStickyCapsLockOp => Filter(s, NotStickyCapsLock)
    case EraseStickyOp => Filter(s, NotSticky)
    case ResetOp => []
  }

  /** The list after a run of operations from an empty manager. */
  function Run(ops: seq<FlagOp>): seq<Token> {
    if ops == [] then [] else Apply(ops[|ops| - 1], Run(ops[..|ops| - 1]))
  }

  /** One counter of the abstract machine: the same operation, seen by the key `k` alone. */
  function CounterStep(op: FlagOp, k: Key, c: int): int {
    match op
    case PushOp(typ, flag, device) =>
      var f := MakeToken(typ, flag, device);
      if f.CounterKey() == k then Bump(k.kind, c, f.Count()) else c
    case EraseDeviceOp(device) => if k.device == device then 0 else c
    case ErasePlainOfDeviceOp(device) => if k.device == device && k.kind == Plain then 0 else c
    case EraseStickyCapsLockOp => if k.flag == CapsLock && k.kind == Sticky then 0 else c
    case EraseStickyOp => if k.kind == Sticky then 0 else c
    case ResetOp => 0
  }

  function Counter(ops: seq<FlagOp>, k: Key): int {
    if ops == [] then 0 else CounterStep(ops[|ops| - 1], k, Counter(ops[..|ops| - 1], k))
  }

  lemma ApplySteps(op: FlagOp, s: seq<Token>, k: Key)
    requires WellFormed(s)
    ensures WellFormed(Apply(op, s))
    ensures Net(Apply(op, s), k) == CounterStep(op, k, Net(s, k))
  {
    match op
    case PushOp(typ, flag, device) =>
      PushKeepsWellFormed(s, MakeToken(typ, flag, device));
      PushBumps(s, MakeToken(typ, flag, device), k);
    case EraseDeviceOp(device) => FilterSteps(s, NotOfDevice(device), k);
    case ErasePlainOfDeviceOp(device) => FilterSteps(s, NotPlainOfDevice(device), k);
    case EraseStickyCapsLockOp => FilterSteps(s, NotStickyCapsLock, k);
    case EraseStickyOp => FilterSteps(s, NotSticky, k);
    case ResetOp =>
  }

  lemma FilterSteps(s: seq<Token>, sel: Selector, k: Key)
    requires WellFormed(s)
    requires sel.Keeps(Up(k)) <==> sel.Keeps(Down(k))
    ensures WellFormed(Filter(s, sel))
    ensures Net(Filter(s, sel), k) == if sel.Keeps(Up(k)) then Net(s, k) else 0
  {
    FilterKeepsWellFormed(s, sel);
    FilterCounts(s, sel, Up(k));
    FilterCounts(s, sel, Down(k));
  }

  /** The list refines the counters: after any run it is pair-free and holds, for every key, exactly as many tokens
      as the absolute value of the counter, all of its sign. */
  lemma {:induction false} RunRefinesCounters(ops: seq<FlagOp>, k: Key)
    ensures WellFormed(Run(ops)) && NoPairs(Run(ops))
    ensures multiset(Run(ops))[Up(k)] == if Counter(ops, k) > 0 then Counter(ops, k) else 0
    ensures multiset(Run(ops))[Down(k)] == if Counter(ops, k) < 0 then -Counter(ops, k) else 0
  {
    if ops != [] {
      RunRefinesCounters(ops[..|ops| - 1], k);
      ApplySteps(ops[|ops| - 1], Run(ops[..|ops| - 1]), k);
    }
    WellFormedHasNoPairs(Run(ops));
    assert Good(Run(ops), k);
  }

  // ----- Pressed flags

  function Sum(s: seq<Token>): int {
    if s == [] then 0 else s[0].Count() + Sum(s[1..])
  }

  /** LED locks decide only when no other token of the flag exists. */
  predicate Pressed(s: seq<Token>, m: ModifierFlag) {
    if Filter(s, NonLedOf(m)) == [] then Sum(Filter(s, LedOf(m))) > 0
    else Sum(Filter(s, NonLedOf(m))) > 0
  }

  predicate StickyActive(s: seq<Token>, m: ModifierFlag) {
    Sum(Filter(s, StickyOf(m))) > 0
  }

  function StickySize(s: seq<Token>, m: ModifierFlag): nat {
    |Filter(s, StickyOf(m))|
  }

  /** The counters of `m` other than the LED lock, added up over the devices. */
  function DeviceTotal(ops: seq<FlagOp>, m: ModifierFlag, devices: seq<DeviceId>): int {
    if devices == [] then 0
    else
      var d := devices[0];
      Counter(ops, Key(Plain, m, d)) + Counter(ops, Key(Sticky, m, d)) + Counter(ops, Key(Lock, m, d))
      + DeviceTotal(ops, m, devices[1..])
  }

  ghost predicate AllZero(ops: seq<FlagOp>, m: ModifierFlag) {
    forall d: DeviceId :: Counter(ops, Key(Plain, m, d)) == Counter(ops, Key(Sticky, m, d)) ==
      Counter(ops, Key(Lock, m, d)) == 0
  }

  function NetTotal(s: seq<Token>, m: ModifierFlag, devices: seq<DeviceId>): int {
    if devices == [] then 0
    else
      var d := devices[0];
      Net(s, Key(Plain, m, d)) + Net(s, Key(Sticky, m, d)) + Net(s, Key(Lock, m, d)) + NetTotal(s, m, devices[1..])
  }

  lemma NetCons(t: Token, s: seq<Token>, k: Key)
    ensures Net([t] + s, k) == Net(s, k) + if t.CounterKey() == k then t.Count() else 0
  {
    TokenOfKey(t);
  }

  lemma {:induction false} NetTotalCons(t: Token, s: seq<Token>, m: ModifierFlag, devices: seq<DeviceId>)
    requires Distinct(devices)
    ensures NetTotal([t] + s, m, devices) ==
            NetTotal(s, m, devices) + if NonLedOf(m).Keeps(t) && t.device in devices then t.Count() else 0
  {
    if devices != [] {
      var d := devices[0];
      NetCons(t, s, Key(Plain, m, d));
      NetCons(t, s, Key(Sticky, m, d));
      NetCons(t, s, Key(Lock, m, d));
      NetTotalCons(t, s, m, devices[1..]);
    }
  }

  lemma {:induction false} NetTotalNil(m: ModifierFlag, devices: seq<DeviceId>)
    ensures NetTotal([], m, devices) == 0
  {
    if devices != [] {
      NetTotalNil(m, devices[1..]);
    }
  }

  lemma {:induction false} SumIsNetTotal(s: seq<Token>, m: ModifierFlag, devices: seq<DeviceId>)
    requires Distinct(devices)
    requires forall t :: t in s && NonLedOf(m).Keeps(t) ==> t.device in devices
    ensures Sum(Filter(s, NonLedOf(m))) == NetTotal(s, m, devices)
  {
    if s == [] {
      NetTotalNil(m, devices);
    } else {
      assert s == [s[0]] + s[1..];
      SumIsNetTotal(s[1..], m, devices);
      NetTotalCons(s[0], s[1..], m, devices);
    }
  }

  lemma {:induction false} NetTotalIsDeviceTotal(ops: seq<FlagOp>, m: ModifierFlag, devices: seq<DeviceId>)
    ensures NetTotal(Run(ops), m, devices) == DeviceTotal(ops, m, devices)
  {
    if devices != [] {
      var d := devices[0];
      RunRefinesCounters(ops, Key(Plain, m, d));
      RunRefinesCounters(ops, Key(Sticky, m, d));
      RunRefinesCounters(ops, Key(Lock, m, d));
      NetTotalIsDeviceTotal(ops, m, devices[1..]);
    }
  }

  lemma {:induction false} LedSum(s: seq<Token>, m: ModifierFlag)
    requires forall t :: t in s && LedOf(m).Keeps(t) ==> t.device == 0
    ensures Sum(Filter(s, LedOf(m))) == Net(s, Key(LedLock, m, 0))
  {
    if s != [] {
      assert s == [s[0]] + s[1..];
      LedSum(s[1..], m);
      NetCons(s[0], s[1..], Key(LedLock, m, 0));
    }
  }

  lemma LedOnDeviceZero(s: seq<Token>, t: Token)
    requires WellFormed(s) && t in s && t.typ.Kind() == LedLock
    ensures t.typ == IncreaseLedLock && t.device == 0
  {
    assert Good(s, t.CounterKey());
    TokenOfKey(t);
    assert t in multiset(s);
  }

  /** `is_pressed` is the same function of the counters: the LED counter if every other counter of the flag is zero,
      and else the sign of their sum over the devices. */
  lemma PressedByCounters(ops: seq<FlagOp>, m: ModifierFlag, devices: seq<DeviceId>)
    requires Distinct(devices)
    requires forall op :: op in ops && op.PushOp? ==> op.device in devices
    ensures Pressed(Run(ops), m) <==>
            if AllZero(ops, m) then Counter(ops, Key(LedLock, m, 0)) > 0 else DeviceTotal(ops, m, devices) > 0
  {
    var s := Run(ops);
    RunRefinesCounters(ops, Key(LedLock, m, 0));
    forall t | t in s && LedOf(m).Keeps(t) ensures t.device == 0 {
      LedOnDeviceZero(s, t);
    }
    LedSum(s, m);
    forall t | t in s && NonLedOf(m).Keeps(t) ensures t.device in devices {
      RunDevices(ops, t);
    }
    SumIsNetTotal(s, m, devices);
    NetTotalIsDeviceTotal(ops, m, devices);
    if Filter(s, NonLedOf(m)) == [] {
      forall d: DeviceId
        ensures Counter(ops, Key(Plain, m, d)) == Counter(ops, Key(Sticky, m, d)) == Counter(ops, Key(Lock, m, d)) == 0
      {
        NothingFiltered(ops, Key(Plain, m, d));
        NothingFiltered(ops, Key(Sticky, m, d));
        NothingFiltered(ops, Key(Lock, m, d));
      }
      assert AllZero(ops, m);
    } else {
      var t := Filter(s, NonLedOf(m))[0];
      FilterCounts(s, NonLedOf(m), t);
      assert t in multiset(Filter(s, NonLedOf(m)));
      RunRefinesCounters(ops, t.CounterKey());
      TokenOfKey(t);
      assert Counter(ops, Key(t.typ.Kind(), m, t.device)) != 0;
      assert !AllZero(ops, m);
    }
  }

  lemma NothingFiltered(ops: seq<FlagOp>, k: Key)
    requires Filter(Run(ops), NonLedOf(k.flag)) == [] && k.kind != LedLock
    ensures Counter(ops, k) == 0
  {
    RunRefinesCounters(ops, k);
    FilterCounts(Run(ops), NonLedOf(k.flag), Up(k));
    FilterCounts(Run(ops), NonLedOf(k.flag), Down(k));
  }

  lemma {:induction false} RunDevices(ops: seq<FlagOp>, t: Token)
    requires t in Run(ops) && t.typ.Kind() != LedLock
    ensures exists op :: op in ops && op.PushOp? && op.device == t.device
  {
    var n := |ops| - 1;
    var before := Run(ops[..n]);
    if t in before {
      RunDevices(ops[..n], t);
      var op :| op in ops[..n] && op.PushOp? && op.device == t.device;
      assert op in ops;
    } else {
      assert ops[n] in ops;
      assert t in multiset(Apply(ops[n], before)) && t !in multiset(before);
      NewTokenIsPushed(ops[n], before, t);
    }
  }

  lemma ErasingAddsNothing(op: FlagOp, s: seq<Token>, t: Token)
    requires !op.PushOp?
    ensures multiset(Apply(op, s))[t] <= multiset(s)[t]
  {
    match op
    case EraseDeviceOp(device) => FilterCounts(s, NotOfDevice(device), t);
    case ErasePlainOfDeviceOp(device) => FilterCounts(s, NotPlainOfDevice(device), t);
    case EraseStickyCapsLockOp => FilterCounts(s, NotStickyCapsLock, t);
    case EraseStickyOp => FilterCounts(s, NotSticky, t);
    case ResetOp =>
  }

  /** Only a push adds tokens, and only its own. */
  lemma NewTokenIsPushed(op: FlagOp, s: seq<Token>, t: Token)
    ensures multiset(Apply(op, s))[t] > multiset(s)[t] ==> op.PushOp? && t == MakeToken(op.typ, op.flag, op.device)
  {
    if op.PushOp? {
      PushCounts(s, MakeToken(op.typ, op.flag, op.device), t);
    } else {
      ErasingAddsNothing(op, s, t);
    }
  }

  // ----- Sticky flags

  function StickyTotal(ops: seq<FlagOp>, m: ModifierFlag, devices: seq<DeviceId>): int {
    if devices == [] then 0 else Counter(ops, Key(Sticky, m, devices[0])) + StickyTotal(ops, m, devices[1..])
  }

  function StickyNets(s: seq<Token>, m: ModifierFlag, devices: seq<DeviceId>): int {
    if devices == [] then 0 else Net(s, Key(Sticky, m, devices[0])) + StickyNets(s, m, devices[1..])
  }

  lemma {:induction false} StickyNetsCons(t: Token, s: seq<Token>, m: ModifierFlag, devices: seq<DeviceId>)
    requires Distinct(devices)
    ensures StickyNets([t] + s, m, devices) ==
            StickyNets(s, m, devices) + if StickyOf(m).Keeps(t) && t.device in devices then t.Count() else 0
  {
    if devices != [] {
      NetCons(t, s, Key(Sticky, m, devices[0]));
      StickyNetsCons(t, s, m, devices[1..]);
    }
  }

  lemma {:induction false} StickyNetsOfNone(m: ModifierFlag, devices: seq<DeviceId>)
    ensures StickyNets([], m, devices) == 0
  {
    if devices != [] {
      StickyNetsOfNone(m, devices[1..]);
    }
  }

  lemma {:induction false} StickySum(s: seq<Token>, m: ModifierFlag, devices: seq<DeviceId>)
    requires Distinct(devices) && forall t :: t in s && StickyOf(m).Keeps(t) ==> t.device in devices
    ensures Sum(Filter(s, StickyOf(m))) == StickyNets(s, m, devices)
  {
    if s == [] {
      StickyNetsOfNone(m, devices);
    } else {
      assert s == [s[0]] + s[1..];
      StickySum(s[1..], m, devices);
      StickyNetsCons(s[0], s[1..], m, devices);
    }
  }

  lemma {:induction false} StickyNetsAreTotal(ops: seq<FlagOp>, m: ModifierFlag, devices: seq<DeviceId>)
    ensures StickyNets(Run(ops), m, devices) == StickyTotal(ops, m, devices)
  {
    if devices != [] {
      RunRefinesCounters(ops, Key(Sticky, m, devices[0]));
      StickyNetsAreTotal(ops, m, devices[1..]);
    }
  }

  /** A flag is active as a sticky one exactly if its sticky counters add up to more than zero over the devices. */
  lemma StickyActiveByCounters(ops: seq<FlagOp>, m: ModifierFlag, devices: seq<DeviceId>)
    requires Distinct(devices)
    requires forall op :: op in ops && op.PushOp? ==> op.device in devices
    ensures StickyActive(Run(ops), m) <==> StickyTotal(ops, m, devices) > 0
  {
    var s := Run(ops);
    forall t | t in s && StickyOf(m).Keeps(t) ensures t.device in devices {
      RunDevices(ops, t);
    }
    StickySum(s, m, devices);
    StickyNetsAreTotal(ops, m, devices);
  }
}
