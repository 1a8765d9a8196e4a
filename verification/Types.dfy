/** Value types shared by the event pipeline: devices, modifier flags, HID usages and the entries of an event queue.

    Time stamps and durations are unbounded integers. */
module Types {

  datatype Option<+T> = None | Some(value: T)

  type DeviceId = nat

  ghost predicate Distinct<T>(s: seq<T>) {
    forall i, j :: 0 <= i < j < |s| ==> s[i] != s[j]
  }

  lemma ConcatAssoc<T>(a: seq<T>, b: seq<T>, c: seq<T>)
    ensures a + (b + c) == (a + b) + c
  {
  }

  /** A floating point number cast to an integer. */
  function Truncate(x: real): int {
    if x >= 0.0 then x.Floor else -((-x).Floor)
  }

  datatype ModifierFlag =
    | Zero
    | CapsLock
    | LeftControl
    | LeftShift
    | LeftOption
    | LeftCommand
    | RightControl
    | RightShift
    | RightOption
    | RightCommand
    | Fn
    | End

  /** The ten flags that the manager reports and that a scope forces, in the order in which it visits them. */
  const TEN_FLAGS: seq<ModifierFlag> :=
    [CapsLock, LeftControl, LeftShift, LeftOption, LeftCommand, RightControl, RightShift, RightOption, RightCommand, Fn]

  // Usage pages and usages of the HID Usage Tables and of Apple's vendor pages.

  const UNDEFINED := 0x00

  const PAGE_GENERIC_DESKTOP := 0x01
  const PAGE_KEYBOARD_OR_KEYPAD := 0x07
  const PAGE_LEDS := 0x08
  const PAGE_BUTTON := 0x09
  const PAGE_CONSUMER := 0x0c
  const PAGE_APPLE_VENDOR_KEYBOARD := 0xff01
  const PAGE_APPLE_VENDOR_TOP_CASE := 0x00ff

  const GENERIC_DESKTOP_X := 0x30
  const GENERIC_DESKTOP_Y := 0x31
  const GENERIC_DESKTOP_WHEEL := 0x38
  const GENERIC_DESKTOP_HAT_SWITCH := 0x39
  const DPAD_UP := 0x90
  const DPAD_DOWN := 0x91
  const DPAD_RIGHT := 0x92
  const DPAD_LEFT := 0x93
  const CONSUMER_AC_PAN := 0x0238
  const LED_CAPS_LOCK := 0x02
  const KEYBOARD_CAPS_LOCK := 0x39
  const APPLE_FUNCTION := 0x0003
  const APPLE_KEYBOARD_FN := 0x0003
  const BUTTON_1 := 0x01
  const BUTTON_32 := 0x20

  datatype UsagePair = UsagePair(page: int, usage: int)

  /** A key, consumer key or pointing button, named by its usage pair. */
  datatype MomentarySwitchEvent = MomentarySwitchEvent(pair: UsagePair) {

    function MakeModifierFlag(): Option<ModifierFlag> {
      if pair.page == PAGE_KEYBOARD_OR_KEYPAD then
        match pair.usage
        case 0xe0 => Some(LeftControl)
        case 0xe1 => Some(LeftShift)
        case 0xe2 => Some(LeftOption)
        case 0xe3 => Some(LeftCommand)
        case 0xe4 => Some(RightControl)
        case 0xe5 => Some(RightShift)
        case 0xe6 => Some(RightOption)
        case 0xe7 => Some(RightCommand)
        case _ => None
      else if pair.page == PAGE_APPLE_VENDOR_KEYBOARD && pair.usage == APPLE_FUNCTION then Some(Fn)
      else if pair.page == PAGE_APPLE_VENDOR_TOP_CASE && pair.usage == APPLE_KEYBOARD_FN then Some(Fn)
      else None
    }

    predicate Valid() {
      pair.page != UNDEFINED && pair.usage != UNDEFINED
    }

    predicate IsModifier() {
      MakeModifierFlag().Some?
    }

    predicate IsCapsLock() {
      pair == UsagePair(PAGE_KEYBOARD_OR_KEYPAD, KEYBOARD_CAPS_LOCK)
    }

    predicate IsPointingButton() {
      pair.page == PAGE_BUTTON
    }
  }

  /** The event that a flag is sent as; the two bounds of the enumeration have none. */
  function SwitchEventOf(flag: ModifierFlag): MomentarySwitchEvent {
    MomentarySwitchEvent(
      match flag
      case Zero => UsagePair(UNDEFINED, UNDEFINED)
      case CapsLock => UsagePair(PAGE_KEYBOARD_OR_KEYPAD, KEYBOARD_CAPS_LOCK)
      case LeftControl => UsagePair(PAGE_KEYBOARD_OR_KEYPAD, 0xe0)
      case LeftShift => UsagePair(PAGE_KEYBOARD_OR_KEYPAD, 0xe1)
      case LeftOption => UsagePair(PAGE_KEYBOARD_OR_KEYPAD, 0xe2)
      case LeftCommand => UsagePair(PAGE_KEYBOARD_OR_KEYPAD, 0xe3)
      case RightControl => UsagePair(PAGE_KEYBOARD_OR_KEYPAD, 0xe4)
      case RightShift => UsagePair(PAGE_KEYBOARD_OR_KEYPAD, 0xe5)
      case RightOption => UsagePair(PAGE_KEYBOARD_OR_KEYPAD, 0xe6)
      case RightCommand => UsagePair(PAGE_KEYBOARD_OR_KEYPAD, 0xe7)
      case Fn => UsagePair(PAGE_APPLE_VENDOR_TOP_CASE, APPLE_KEYBOARD_FN)
      case End => UsagePair(UNDEFINED, UNDEFINED)
    )
  }

  /** The keys of the modifiers, by their usages: the eight of a keyboard follow each other on its page from 0xe0 on,
      and caps lock, which is no modifier to a key event, is 0x39; the bounds of the enumeration have no key. */
  lemma ModifierKeys()
    ensures var keys := [LeftControl, LeftShift, LeftOption, LeftCommand, RightControl, RightShift, RightOption,
                         RightCommand];
            forall i :: 0 <= i < 8 ==> SwitchEventOf(keys[i]).pair == UsagePair(0x07, 0xe0 + i)
    ensures SwitchEventOf(CapsLock).pair == UsagePair(0x07, 0x39) && SwitchEventOf(Fn).pair == UsagePair(0xff, 0x03)
    ensures forall m :: SwitchEventOf(m).Valid() <==> m != Zero && m != End
    ensures forall m :: m in TEN_FLAGS <==> m != Zero && m != End
  {
  }

  /** A key event is one of a modifier exactly if it has its usage; fn has one usage on each of two pages. */
  lemma ModifierOfKey(switch: MomentarySwitchEvent, m: ModifierFlag)
    ensures switch.MakeModifierFlag() == Some(m) <==>
            m != CapsLock && SwitchEventOf(m).Valid()
            && (switch == SwitchEventOf(m) || (m == Fn && switch.pair == UsagePair(0xff01, 0x03)))
  {
  }

  datatype StickyModifierType = On | Off | Toggle

  datatype PointingMotion = PointingMotion(x: int, y: int, verticalWheel: int, horizontalWheel: int)

  /** The kinds of event. `data` stands for a payload that the modelled code stores and forwards but never
      looks into. */
  datatype Event =
    | NoEvent
    | MomentarySwitch(switch: MomentarySwitchEvent)
    | Motion(motion: PointingMotion)
    | ShellCommand(data: nat)
    | SelectInputSource(data: nat)
    | SetVariable(data: nat)
    | SetNotificationMessage(data: nat)
    | MouseKey(data: nat)
    | StickyModifier(flag: ModifierFlag, stickyType: StickyModifierType)
    | SoftwareFunction(data: nat)
    | StopKeyboardRepeat
    | DeviceKeysAndPointingButtonsAreReleased
    | DeviceGrabbed(data: nat)
    | DeviceUngrabbed
    | CapsLockStateChanged(integerValue: int)
    | PointingDeviceEventFromEventTap
    | FrontmostApplicationChanged(data: nat)
    | InputSourceChanged(data: nat)
    | SystemPreferencesPropertiesChanged(data: nat)
    | VirtualHidDevicesStateChanged(data: nat)

  datatype EventType = KeyDown | KeyUp | Single

  datatype Validity = Invalid | Valid

  datatype State = Original | Manipulated | VirtualEvent

  datatype EventTimeStamp = EventTimeStamp(timeStamp: int, inputDelay: int)

  datatype Entry = Entry(
    device: DeviceId,
    time: EventTimeStamp,
    event: Event,
    eventType: EventType,
    originalEvent: Event,
    state: State,
    isLazy: bool,
    validity: Validity
  )
}
