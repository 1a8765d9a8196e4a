/** The pressed pointing buttons of a queue. Unlike modifier flags, a release takes back every press of the button,
    whichever device it came from. */
module PointingButtons {
  import opened Types

  datatype ButtonType = Increase | Decrease {
    function Inverse(): ButtonType {
      if this == Increase then Decrease else Increase
    }

    function Count(): int {
      if this == Increase then 1 else -1
    }
  }

  datatype Button = Button(typ: ButtonType, pair: UsagePair, device: DeviceId) {
    /** The device is ignored. */
    predicate IsPaired(other: Button) {
      typ == other.typ.Inverse() && pair == other.pair
    }
  }

  function WithoutPairsOf(s: seq<Button>, b: Button): seq<Button> {
    if s == [] then []
    else (if s[0].IsPaired(b) then [] else [s[0]]) + WithoutPairsOf(s[1..], b)
  }

  function WithoutDevice(s: seq<Button>, device: DeviceId): seq<Button> {
    if s == [] then []
    else (if s[0].device == device then [] else [s[0]]) + WithoutDevice(s[1..], device)
  }

  function PushButton(s: seq<Button>, b: Button): seq<Button> {
    if b.pair.usage == UNDEFINED then s
    else if b.typ == Increase then s + [b]
    else WithoutPairsOf(s, b)
  }

  function CountOf(s: seq<Button>, pair: UsagePair): int {
    if s == [] then 0 else (if s[0].pair == pair then s[0].typ.Count() else 0) + CountOf(s[1..], pair)
  }

  predicate ButtonPressed(s: seq<Button>, pair: UsagePair) {
    CountOf(s, pair) > 0
  }

  lemma {:induction false} InWithoutPairs(s: seq<Button>, b: Button, x: Button)
    ensures x in WithoutPairsOf(s, b) <==> x in s && !x.IsPaired(b)
  {
    if s != [] {
      InWithoutPairs(s[1..], b, x);
    }
  }

  lemma {:induction false} InWithoutDevice(s: seq<Button>, device: DeviceId, x: Button)
    ensures x in WithoutDevice(s, device) <==> x in s && x.device != device
  {
    if s != [] {
      InWithoutDevice(s[1..], device, x);
    }
  }

  lemma {:induction false} CountOfPresses(s: seq<Button>, pair: UsagePair)
    requires forall b :: b in s ==> b.typ == Increase
    ensures CountOf(s, pair) >= 0
    ensures CountOf(s, pair) > 0 <==> exists b :: b in s && b.pair == pair
  {
    if s != [] {
      CountOfPresses(s[1..], pair);
      if s[0].pair == pair {
        assert s[0] in s;
      } else if b :| b in s && b.pair == pair {
        assert b in s[1..];
      }
    }
  }

  // ----- Runs

  datatype ButtonOp =
    | PushButtonOp(typ: ButtonType, pair: UsagePair, device: DeviceId)
    | EraseButtonsOp(device: DeviceId)
    | ResetButtonsOp
  {
    /** The operation takes back a press of `pair` on `device`. */
    predicate Clears(p: UsagePair, d: DeviceId) {
      match this
      case PushButtonOp(t, q, _) => t == Decrease && q == p
      case EraseButtonsOp(e) => e == d
      case ResetButtonsOp => true
    }
  }

  function ApplyButton(op: ButtonOp, s: seq<Button>): seq<Button> {
    match op
    case PushButtonOp(typ, pair, device) => PushButton(s, Button(typ, pair, device))
    case EraseButtonsOp(device) => WithoutDevice(s, device)
    case ResetButtonsOp => []
  }

  function RunButtons(ops: seq<ButtonOp>): seq<Button> {
    if ops == [] then [] else ApplyButton(ops[|ops| - 1], RunButtons(ops[..|ops| - 1]))
  }

  /** Operation `i` pressed `pair` on `device` and no later one took the press back. */
  ghost predicate HeldSince(ops: seq<ButtonOp>, i: int, pair: UsagePair, device: DeviceId) {
    && 0 <= i < |ops|
    && ops[i] == PushButtonOp(Increase, pair, device)
    && forall j :: i < j < |ops| ==> !ops[j].Clears(pair, device)
  }

  lemma StoredStep(s: seq<Button>, op: ButtonOp, b: Button)
    requires b in s ==> b.typ == Increase
    ensures b in ApplyButton(op, s) <==>
            (b in s && !op.Clears(b.pair, b.device)) ||
            (b.typ == Increase && b.pair.usage != UNDEFINED && op == PushButtonOp(Increase, b.pair, b.device)) ||
            (b in s && b.pair.usage == UNDEFINED && op.PushButtonOp?)
  {
    match op
    case PushButtonOp(typ, pair, device) => InWithoutPairs(s, Button(typ, pair, device), b);
    case EraseButtonsOp(device) => InWithoutDevice(s, device, b);
    case ResetButtonsOp =>
  }

  lemma HeldStep(ops: seq<ButtonOp>, pair: UsagePair, device: DeviceId)
    requires ops != []
    ensures var n := |ops| - 1;
            (exists i :: HeldSince(ops, i, pair, device)) <==>
            ((exists i :: HeldSince(ops[..n], i, pair, device)) && !ops[n].Clears(pair, device))
            || ops[n] == PushButtonOp(Increase, pair, device)
  {
    var n := |ops| - 1;
    if i :| HeldSince(ops[..n], i, pair, device) && !ops[n].Clears(pair, device) {
      assert HeldSince(ops, i, pair, device);
    }
    if ops[n] == PushButtonOp(Increase, pair, device) {
      assert HeldSince(ops, n, pair, device);
    }
    if i :| HeldSince(ops, i, pair, device) && i < n {
      assert HeldSince(ops[..n], i, pair, device);
    }
  }

  lemma {:induction false} StoredIffHeld(ops: seq<ButtonOp>, b: Button)
    ensures b in RunButtons(ops) <==>
            b.typ == Increase && b.pair.usage != UNDEFINED && exists i :: HeldSince(ops, i, b.pair, b.device)
  {
    if ops != [] {
      var n := |ops| - 1;
      var op, before := ops[n], ops[..n];
      var s := RunButtons(before);
      StoredIffHeld(before, b);
      StoredStep(s, op, b);
      HeldStep(ops, b.pair, b.device);
    }
  }

  /** After any run a button counts as pressed exactly if some device pressed it and nothing took that press back. */
  lemma PressedIffHeld(ops: seq<ButtonOp>, pair: UsagePair)
    ensures ButtonPressed(RunButtons(ops), pair) <==>
            pair.usage != UNDEFINED && exists i, d :: HeldSince(ops, i, pair, d)
  {
    var s := RunButtons(ops);
    forall b | b in s ensures b.typ == Increase {
      StoredIffHeld(ops, b);
    }
    CountOfPresses(s, pair);
    if b :| b in s && b.pair == pair {
      StoredIffHeld(ops, b);
    }
    if pair.usage != UNDEFINED {
      if i, d :| HeldSince(ops, i, pair, d) {
        StoredIffHeld(ops, Button(Increase, pair, d));
      }
    }
  }

  class ButtonManager {
    var buttons: seq<Button>

    constructor ()
      ensures buttons == []
    {
      buttons := [];
    }

    method PushBack(b: Button)
      modifies this
      ensures buttons == PushButton(old(buttons), b)
    {
      if b.pair.usage == UNDEFINED {
        return;
      }
      match b.typ
      case Increase => buttons := buttons + [b];
      case Decrease => buttons := WithoutPairsOf(buttons, b);
    }

    method EraseAll(device: DeviceId)
      modifies this
      ensures buttons == WithoutDevice(old(buttons), device)
    {
      buttons := WithoutDevice(buttons, device);
    }

    method Reset()
      modifies this
      ensures buttons == []
    {
      buttons := [];
    }

    method IsPressed(pair: UsagePair) returns (pressed: bool)
      ensures pressed == ButtonPressed(buttons, pair)
    {
      var count := 0;
      assert buttons[..|buttons|] == buttons;
      for i := 0 to |buttons|
        invariant count == CountOf(buttons[..i], pair)
      {
        assert buttons[..i + 1] == buttons[..i] + [buttons[i]];
        CountSnoc(buttons[..i], buttons[i], pair);
        if buttons[i].pair == pair {
          count := count + buttons[i].typ.Count();
        }
      }
      pressed := count > 0;
    }

    method MakeHidReportButtons() returns (report: set<int>)
      ensures forall u :: u in report <==>
                          BUTTON_1 <= u <= BUTTON_32 && ButtonPressed(buttons, UsagePair(PAGE_BUTTON, u))
    {
      report := {};
      var usage := BUTTON_1;
      while usage <= BUTTON_32
        invariant BUTTON_1 <= usage <= BUTTON_32 + 1
        invariant forall u :: u in report <==>
                    BUTTON_1 <= u < usage && ButtonPressed(buttons, UsagePair(PAGE_BUTTON, u))
      {
        var pressed := IsPressed(UsagePair(PAGE_BUTTON, usage));
        if pressed {
          report := report + {usage};
        }
        usage := usage + 1;
      }
    }
  }

  lemma {:induction false} CountSnoc(s: seq<Button>, b: Button, pair: UsagePair)
    ensures CountOf(s + [b], pair) == CountOf(s, pair) + if b.pair == pair then b.typ.Count() else 0
  {
    if s == [] {
      assert s + [b] == [b];
    } else {
      assert (s + [b])[1..] == s[1..] + [b];
      CountSnoc(s[1..], b, pair);
    }
  }
}
