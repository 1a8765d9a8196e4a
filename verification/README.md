# Event pipeline and configuration of Karabiner-Elements, in Dafny

HID values of a grabbed device become queue entries, which flow through a chain of stages: an input queue, a list of
manipulators, an output queue. Each queue keeps modifier flags, pointing buttons and a running time stamp delay in step
with its entries, and puts modifiers before keys of the same time stamp. This project models that pipeline and the part of
the configuration that loads, saves and edits JSON, and proves what both promise over every input and every run.

Objects that the source updates in place are classes here, and each of their methods is proved equal to a function on
values; the properties are lemmas about those functions. `dafny verify dfyconfig.toml` checks everything.

| file | what it models |
|---|---|
| Types.dfy | devices, flags, HID usages, events, entries |
| ModifierFlags.dfy, ScopedFlags.dfy, ModifierFlagManager.dfy | the list of signed modifier tokens, its counters, the scope that forces pressed flags |
| PointingButtons.dfy | pressed pointing buttons |
| EventOrder.dfy | the reordering of entries |
| QueueStates.dfy, EventQueue.dfy | the event queue as a value and as a class |
| LazyModifiers.dfy | the lazy modifier events that manipulators post |
| Stages.dfy, Calls.dfy, Chains.dfy, ManipulatorManager.dfy | one stage, its step and drain loop; how it calls its manipulators; chains of stages; the manager and the connector |
| HidEntries.dfy, HatSwitch.dfy, PressedKeys.dfy | HID values to entries, hat switch to directional pad, release events |
| HidRuns.dfy | what a batch of converted values does next: time order in the queue, keys left pressed |
| StringCodec.dfy, Configuration.dfy, ConfigurationHelper.dfy | JSON strings, schema-driven loading and saving, the helper objects |
| Expressions.dfy | the variables of condition expressions |
| Profiles.dfy | moving elements, editing the profile list |

Where the code and what one would expect of it differ, the code is modelled and the exact condition is proved:

- The comparison of the reordering is not transitive, yet sorting after every push equals sorting once
  (`EventOrder.SortIsOnline`, `Stages.DrainSortsOnce`). A block of key events comes out as presses, keys, releases exactly
  if no modifier release precedes a modifier press (`EventOrder.BlockSorted`; `EventOrder.ReleaseBeforePressStays` is an
  input where it does not).
- `scoped_modifier_flags` pushes every inverse on device 0, where locks are clamped. A flag that two devices
  other than 0 lock stays pressed and is not restored (`ScopedFlags.TwoLocksDefeatTheScope`); the guards `LockResidue` and `LockReturns`, computed
  from the lock tokens before the scope opens, tell exactly when (`ScopedFlags.ScopeForcesPressed`,
  `ScopedFlags.ScopeRestores`). One lock for each flag is harmless, and entries never bring in a lock at all.
- A sticky toggle looks at the tokens of all devices but pushes on its own. The parity of toggles decides only if each
  second toggle came from the device of the one before it (`QueueStates.StickyParity`); three toggles of two devices are an
  input where it does not (`QueueStates.OddTogglesOfTwoDevices`).
- Lazy modifier events that are posted around other events, as manipulators do, leave the flags as those other events
  alone would, exactly if caps lock is not among the modifiers, or no ordinary key is pressed in between and as many toggles
  of caps lock go up on each device as would without the lazy events (`LazyModifiers.LazyAround`). One key press with caps
  lock around it leaves a sticky token behind (`LazyModifiers.KeyPressLosesCapsLock`), and one toggle goes the other way
  (`LazyModifiers.ToggleSeesLazyCapsLock`).
- The downs and ups of a hat switch alternate exactly if no direction that is held when the device is erased comes in a later
  value of the device (`HatSwitch.EventsAlternate`); otherwise it goes down twice (`HatSwitch.ErasureDoublesDown`).
- Marshalling a string and unmarshalling it drops one final newline (`StringCodec.RoundTrip`), so a configuration comes back
  exactly if no string but a default ends with one. When saving what came back gives the same JSON again is told exactly, too
  (`Configuration.ConfigurationRoundTrip`).
- A pending pointing motion is not closed by a key event, so an entry may overtake it. Values in time order become entries
  in time order exactly if every motion that is passed by a later entry goes on with the next pointing value
  (`HidRuns.EntriesInTimeOrder`, and `HidRuns.BatchReachesQueueInOrder` for the queue that they are appended to);
  `HidRuns.KeyOvertakesMotion` is an input where it does not.
- A queue stays in time order exactly if nothing is appended to it that is due before what was appended last
  (`QueueStates.QueueTimeOrder`). The running delay is what makes this so when a manipulator posts several entries for one
  time stamp (`QueueStates.RoundsKeepTimeOrder`).

## Model

| member | source | states |
|---|---|---|
| ModifierFlagManager.Manager.PushBack | src/share/modifier_flag_manager.hpp:20-55 | the three kinds of push, as functions of the old list; well-formedness is kept |
| ModifierFlagManager.Manager.ErasePairs | src/share/modifier_flag_manager.hpp:208-221 | the nested index loops equal the recursive walk, index skip included, on every list |
| ModifierFlags.ErasePairsCancels | src/share/modifier_flag_manager.hpp:208-221 | on a pair-free list with one pushed token the loop cancels exactly the first matching token, in spite of the skip at index 0 |
| ModifierFlags.PushBumps | src/share/modifier_flag_manager.hpp:20-55 | a push moves its own counter by the rule of its kind (additive, clamped lock, LED lock) and no other |
| ModifierFlags.RunRefinesCounters | src/share/modifier_flag_manager.hpp:20-95 | after any run of pushes and erases the list is pair-free and holds, for every kind, flag and device, exactly as many tokens as its counter says, all of one sign |
| ModifierFlags.PressedByCounters | src/share/modifier_flag_manager.hpp:97-121 | `is_pressed` is the same function of the counters, summed over any list of devices that covers the run |
| ModifierFlags.CountersDetermineTokens | src/share/modifier_flag_manager.hpp:223 | two reachable lists with equal counters hold the same tokens |
| ModifierFlags.StickyActiveByCounters | src/share/modifier_flag_manager.hpp:147-158 | a flag is active as a sticky one if and only if its sticky counters add up to more than zero over the devices |
| ModifierFlagManager.Manager.IsPressed | src/share/modifier_flag_manager.hpp:97-121 | the counting loop decides whether LED locks or all other tokens of the flag count |
| ModifierFlagManager.Manager.IsStickyActive | src/share/modifier_flag_manager.hpp:147-158 | the sticky tokens of the flag add up to more than zero |
| ModifierFlagManager.Manager.MakeModifierFlags | src/share/modifier_flag_manager.hpp:184-205 | exactly the pressed ones of the ten flags |
| ModifierFlagManager.Manager.EraseAll | src/share/modifier_flag_manager.hpp:57-64 | every token of the device goes, the others stay in order |
| ModifierFlagManager.Manager.EraseAllExceptLockAndSticky | src/share/modifier_flag_manager.hpp:66-73 | the plain tokens of the device go, all others stay |
| ModifierFlagManager.ScopedModifierFlags.constructor | src/share/modifier_flag_manager/scoped_modifier_flags.hpp:5-39 | the loops end, record exactly what they push, and leave the list with those pushes |
| ModifierFlagManager.ScopedModifierFlags.Close | src/share/modifier_flag_manager/scoped_modifier_flags.hpp:41-59 | the inverses of the record are pushed, in order |
| ScopedFlags.PushPart | src/share/modifier_flag_manager.hpp:20-55 | a push acts on the tokens of its flag as if they were the whole list, and on no others |
| ScopedFlags.ScopePushes | src/share/modifier_flag_manager/scoped_modifier_flags.hpp:21-37 | all pushes are on device 0: for a wanted flag increases, just as many as press it; for an unwanted pressed one the opposites of all its tokens, in order; for any other none |
| ScopedFlags.ScopeForcesPressed | src/share/modifier_flag_manager/scoped_modifier_flags.hpp:5-39 | afterwards a flag of the list is pressed if and only if it is wanted, or was pressed and its locks leave a positive residue at device 0; other flags keep their tokens |
| ScopedFlags.ScopeRestores | src/share/modifier_flag_manager/scoped_modifier_flags.hpp:41-59 | the end restores every token, with plain and sticky pushes in between kept, if and only if the lock counters that the scope moved return |
| ScopedFlags.OneLockUndone | src/share/modifier_flag_manager/scoped_modifier_flags.hpp:28-34 | a single lock of a flag, on whatever device, meets both conditions |
| ScopedFlags.ScopeBracket | src/share/modifier_flag_manager/scoped_modifier_flags.hpp:5-59 | if no flag is locked twice, exactly the wanted ones of the ten flags are pressed and the end restores the tokens |
| ScopedFlags.TwoLocksDefeatTheScope | src/share/modifier_flag_manager/scoped_modifier_flags.hpp:28-34 | devices 1 and 2 locking left shift: the flag stays pressed and the tokens do not come back |
| Types.ModifierKeys | src/share/types/momentary_switch_event.hpp:41-84 | the keys of the flags by usage page and usage, and which flags have one |
| Types.ModifierOfKey | src/share/types/momentary_switch_event.hpp:99-130 | a key event is one of a modifier if and only if it has its usage, of which fn has two |
| PointingButtons.PressedIffHeld | src/share/pointing_button_manager.hpp:68-117 | after any run a button is pressed if and only if some device pressed it and no release of the button, erasure of the device or reset came later |
| PointingButtons.ButtonManager.PushBack | src/share/pointing_button_manager.hpp:68-88 | a press is appended, a release takes every press of the button, an undefined usage does nothing |
| PointingButtons.ButtonManager.IsPressed | src/share/pointing_button_manager.hpp:107-117 | the counting loop decides whether the counts of the button are positive |
| PointingButtons.ButtonManager.MakeHidReportButtons | src/share/pointing_button_manager.hpp:119-134 | exactly the pressed ones of the buttons 1 to 32 |
| EventOrder.SortIsOnline | src/share/event_queue/queue.hpp:261-276 | sorting what was sorted before together with new entries equals sorting all of them once |
| EventOrder.SortSettles | src/share/event_queue/queue.hpp:261-276 | after sorting no two neighbours need a swap, and sorting again changes nothing |
| EventOrder.SortPermutes | src/share/event_queue/queue.hpp:261-276 | the entries are permuted, and the time stamp at each position stays |
| EventOrder.SortIsStable | src/share/event_queue/queue.hpp:261-355 | every position is taken once, and two entries trade places only if the earlier needed to be swapped with the later |
| EventOrder.SortByParts | src/share/event_queue/queue.hpp:278-355 | parts that need no swap across, such as different time stamps, are sorted on their own |
| EventOrder.BlockSorted | src/share/event_queue/queue.hpp:278-355 | key events of one time stamp come out as presses, other keys, releases, each in order, if and only if no modifier release precedes a modifier press |
| EventOrder.ReleaseBeforePressStays | src/share/event_queue/queue.hpp:278-355 | left shift going up and down again is left in that order |
| EventOrder.OtherEntriesStay | src/share/event_queue/queue.hpp:322-354 | an entry that is no key event, such as a release event, stays where it is, and what comes before and after it is sorted on its own |
| EventOrder.SortOfTwo | src/share/event_queue/queue.hpp:322-354 | two entries trade places if and only if they are key events of one time stamp, and either a modifier that is not released follows an ordinary key or an ordinary key follows a modifier that is released |
| EventOrder.SwapTriple | src/share/event_queue/queue.hpp:278-355 | a modifier release, a key and a modifier press of which the first needs a swap with the second and the second with the third, but not the first with the third |
| EventQueue.Queue.SortEvents | src/share/event_queue/queue.hpp:261-276 | the index walk with swaps ends and equals the fold of insertions from the right |
| EventQueue.Queue.PushBack | src/share/event_queue/queue.hpp:20-101 | the entry is stored with its time stamp put off by the delay, and flags and buttons follow it |
| EventQueue.Queue.EraseFront | src/share/event_queue/queue.hpp:202-207 | the front goes, and the delay is dropped when the queue runs empty |
| EventQueue.Queue.ClearEvents | src/share/event_queue/queue.hpp:193-196 | no entry and no delay is left; flags and buttons stay |
| QueueStates.FlagsFollowEntries | src/share/event_queue/queue.hpp:44-101 | over any run of entries the plain counter of a modifier is its key downs minus its releases, and the LED counter of caps lock follows the last reported state |
| QueueStates.StickyStep | src/share/event_queue/queue.hpp:63-90 | on any flags, a valid press of anything but a modifier, pointing buttons included, brings every sticky counter to zero; On and Off move the counter of the flag and device up and down; a toggle goes down if and only if some device holds a sticky token of the flag; nothing else moves a sticky counter |
| QueueStates.PressLeavesNothingSticky | src/share/event_queue/queue.hpp:63-68 | after such a press no sticky token is left, and every other token is |
| QueueStates.LocksStay | src/share/event_queue/queue.hpp:44-101 | no entry moves a lock counter, and only a reported caps lock state an LED counter |
| QueueStates.FlagsOutliveEntries | src/share/event_queue/queue.hpp:193-207 | over any run of queue operations flags and buttons are those of all entries ever handed in: erasing, clearing, sorting and delays do not touch them |
| QueueStates.DelayIsSum | src/share/event_queue/queue.hpp:193-207 | the running delay is the sum of the delays since the queue was last emptied, by taking its last entry or by clearing |
| QueueStates.StoredEntry | src/share/event_queue/queue.hpp:28-38 | an entry is stored last, put off by that sum and else as it was handed in |
| QueueStates.ButtonPressedByEntries | src/share/event_queue/queue.hpp:54-61 | a pointing button is pressed if and only if an entry pressed it and no later entry of any device released it |
| QueueStates.ButtonsStay | src/share/event_queue/queue.hpp:54-61 | entries of other usage pages, and of the undefined usage, touch no button |
| QueueStates.EntriesBringNoLocks | src/share/event_queue/queue.hpp:44-101 | entries never bring in a lock token |
| QueueStates.ScopeOnQueue | src/share/modifier_flag_manager/scoped_modifier_flags.hpp:5-59 | on the flags of any queue the scope forces exactly the wanted flags and its end restores the tokens |
| QueueStates.StickyParity | src/share/event_queue/queue.hpp:63-90 | over any run in which a flag becomes sticky only by toggles, it is sticky if and only if the number of toggles since the last releasing key press is odd and each second toggle came from the device of the one before |
| QueueStates.StickyParityOfOneDevice | src/share/event_queue/queue.hpp:63-90 | with toggles from one device the parity alone decides |
| QueueStates.OddTogglesOfTwoDevices | src/share/event_queue/queue.hpp:63-90 | three toggles of which the second comes from another device do not make the flag sticky |
| QueueStates.QueueTimeOrder | src/share/event_queue/queue.hpp:28-38 | over any run of appends, growing delays, front erasures, sorting and clearing the queue is in time order at every moment if and only if every append to a non-empty queue is due, delay included, no earlier than the append before |
| QueueStates.PostsPutOffTheRest | src/share/manipulator/manipulators/basic/basic.hpp:605-612 | entries posted from a time stamp on, followed by a delay of as much as the last of them is late, leave the queue in time order, and ready for any entry from that time stamp on |
| QueueStates.RoundsKeepTimeOrder | src/share/manipulator/manipulators/basic/basic.hpp:605-612 | over any number of fronts with time stamps that never decrease, posting at each and then putting off the rest, with other operations in between, keeps the queue in time order |
| LazyModifiers.PostLazyModifierKeyEvents | src/share/manipulator/manipulators/base.hpp:52-92 | for each modifier with a key, in the order of the visit, one entry is appended and the delay grows by one |
| LazyModifiers.LazyEntriesAre | src/share/manipulator/manipulators/base.hpp:67-108 | each entry of it field by field: caps lock as a sticky modifier switched on or off at once, any other modifier as its key; lazy, manipulated, and due one unit after the one before |
| LazyModifiers.LazyBracket | src/share/manipulator/manipulators/base.hpp:52-108 | key downs and then key ups of the same modifiers, each in any order, restore the flags of the queue; one entry each, with strictly increasing time stamps |
| LazyModifiers.LazyAround | src/share/manipulator/manipulators/base.hpp:52-108 | lazy events of one kind before and of the other kind after any events leave the flags as those events alone would, if and only if caps lock is not among the modifiers, or no ordinary key is pressed in between and on each device as many toggles of caps lock go up as would without them |
| LazyModifiers.LazyAroundWithoutToggles | src/share/manipulator/manipulators/base.hpp:52-108 | without toggles of caps lock in between, if and only if caps lock is not among the modifiers or no ordinary key is pressed |
| LazyModifiers.KeyPressLosesCapsLock | src/share/manipulator/manipulators/base.hpp:95-108 | caps lock released around a key press: its sticky token is left behind |
| LazyModifiers.ToggleSeesLazyCapsLock | src/share/manipulator/manipulators/base.hpp:95-108 | caps lock released around a toggle of caps lock: the toggle goes the other way |
| Stages.StepFacts | src/share/manipulator/manipulator_manager.hpp:46-173 | a step that reports progress takes exactly the front and forwards it, after what manipulators posted, if and only if it is still valid; any other step keeps all input entries, of which only the front may have got another validity or input delay |
| Calls.ManipulatedInTurn | src/share/manipulator/manipulator_manager.hpp:130-148 | manipulators are called each once and in order, each with the front and the output that its predecessor left, up to the first that asks to wait, or all of them: one that handled the entry does not end the calls |
| Calls.HandledInTurn | src/share/manipulator/manipulator_manager.hpp:63-93 | all manipulators are told of a release, an ungrabbed device or an event tap event, each once and in order |
| Calls.AskedUpTo | src/share/manipulator/manipulator_manager.hpp:121-127 | manipulators are asked in order up to the first that says yes, and each asked one keeps the state that it answers with |
| Calls.FrontIsManipulated | src/share/manipulator/manipulator_manager.hpp:105-173 | the whole step on an entry that no manipulator dealt with before: who is asked and called with what, which state is left to whom, when it waits, and what is forwarded |
| Calls.FrontIsHandled | src/share/manipulator/manipulator_manager.hpp:56-94 | the whole step on a release, an ungrabbed device or an event tap event: the device first lets go, on a release of its plain flags only, then all manipulators are told, and the entry is forwarded |
| Calls.FrontPassesBy | src/share/manipulator/manipulator_manager.hpp:96-103 | the whole step on the other six kinds of event: no manipulator is called, and the entry is forwarded |
| Calls.OfferedIsPlain | src/share/manipulator/manipulator_manager.hpp:105-115 | exactly nine kinds of event are not offered for manipulation |
| Calls.ActionsInTurn | src/share/manipulator/manipulators/base.hpp:67-92 | what a manipulator does to the output queue takes effect one action after the other, posts as appends to the queue |
| Calls.RemainingAre | src/share/manipulator/manipulator_manager.hpp:204-214 | without progress the manipulators that are valid or active are left, in order |
| Stages.UngrabbedClearsDevice | src/share/manipulator/manipulator_manager.hpp:70-85 | using up `device_ungrabbed` leaves no flag or button of the device in the output and those of other devices as they were |
| Stages.AskedInTurn | src/share/manipulator/manipulator_manager.hpp:118-128 | the question whether an entry was dealt with before is answered yes if and only if some manipulator says so |
| Stages.AlreadyManipulatedIsDropped | src/share/manipulator/manipulator_manager.hpp:116-149 | such an entry is used up without being forwarded and without any manipulator acting on it |
| Stages.DrainEnds | src/share/manipulator/manipulator_managers_connector.hpp:31-44 | the drain ends with the input empty or its front waiting, and what is left is the end of the input |
| Stages.DrainSortsOnce | src/share/manipulator/manipulator_managers_connector.hpp:31-44 | with any manipulators, re-sorting after every step gives the queue that sorting once after the last step gives |
| Chains.TreatPasses | src/share/manipulator/manipulator_manager.hpp:55-152 | manipulators that let everything pass change nothing, but the flags and buttons of a released or ungrabbed device go |
| Chains.PassingDrain | src/share/manipulator/manipulator_managers_connector.hpp:31-44 | such a stage empties its input and emits its valid entries in order |
| Chains.PipelineConserves | src/share/manipulator/manipulator_managers_connector.hpp:118-126 | over a chain of any length whose later queues are empty, all queues but the last end empty and the last holds the valid entries of the first, each once, put off by the delays on the way and sorted if reordering is on |
| Chains.PipelineKeepsInStep | src/share/manipulator/manipulator_managers_connector.hpp:118-126 | the flags and buttons of every later queue are those that the entries fed to it leave, one after the other, where released and ungrabbed devices let go |
| Chains.ChainIsNetwork | src/share/manipulator/manipulator_managers_connector.hpp:118-126 | a chain is what the connector runs when each connection reads the queue that the one before it writes |
| ManipulatorManager.Manager.Manipulate | src/share/manipulator/manipulator_manager.hpp:46-173 | manipulators and both queues are left as the step function says, and so is the answer |
| ManipulatorManager.Manager.CallManipulators | src/share/manipulator/manipulator_manager.hpp:130-148 | manipulators run in turn until one waits |
| ManipulatorManager.Manager.InvalidateManipulators | src/share/manipulator/manipulator_manager.hpp:175-185 | only active manipulators are left, and all of them are invalid |
| ManipulatorManager.DrainConnection | src/share/manipulator/manipulator_managers_connector.hpp:31-44 | the loop ends and equals the drain function |
| ManipulatorManager.Connector.Manipulate | src/share/manipulator/manipulator_managers_connector.hpp:118-126 | the connections are drained in turn, however they share managers and queues, and all others are left alone |
| ManipulatorManager.Connector.EmplaceBackNext | src/share/manipulator/manipulator_managers_connector.hpp:105-116 | continues at the last output, refused while there is no connection |
| ManipulatorManager.Connector.MinInputEventTimeStamp | src/share/manipulator/manipulator_managers_connector.hpp:154-168 | the least due time of the fronts of all non-empty inputs, none if all are empty |
| HidEntries.Adjust | src/share/event_queue/utility.hpp:13-29 | the result fits a report and is zero only for a zero value |
| HidEntries.AdjustIsMonotone | src/share/event_queue/utility.hpp:13-29 | a positive multiplier keeps order and direction |
| HidEntries.AdjustScales | src/share/event_queue/utility.hpp:13-29 | the product with the multiplier is rounded toward zero within the range, cut off at 127 beyond it, and one in the direction of the value if it is less than one |
| HidEntries.MakeEntries | src/share/event_queue/utility.hpp:36-172 | the loop over pending axes equals the conversion function, and the hat memory follows |
| HidEntries.MotionsCarryGroups | src/share/event_queue/utility.hpp:44-169 | the motions carry the greedy groups of pointing values, one each, in order, with the time stamp of the last value; all other entries are those of the other values, in order |
| HidEntries.EntriesInTurn | src/share/event_queue/utility.hpp:85-169 | where the motions stand: after any number of values the entries so far begin the result, with a motion for each group closed by then and all other entries of those values |
| HidEntries.OthersByUsage | src/share/event_queue/utility.hpp:85-169 | by usage page and usage, and field by field, the entries of one value: a momentary switch gives a key down if and only if it is nonzero, else a key up; the caps lock LED a report; the hat switch of a game pad pad keys; all else none |
| HidEntries.GroupsAreMinimal | src/share/event_queue/utility.hpp:98-134 | no split of the pointing values into consecutive groups without a repeated axis has fewer groups |
| HidEntries.JoiningConserves | src/share/event_queue/utility.hpp:44-169 | per axis the motions add up to the adjusted values, every component is within 127, and there are as few motions as any such split allows |
| HidEntries.MotionsByUsage | src/share/event_queue/utility.hpp:96-145 | the motions add up, component by component, to the adjusted values of X, Y, wheel and AC pan, told by usage page and usage; X and Y of a game pad are left out |
| HatSwitch.HatSwitchConverter.ToDpadEvents | src/share/hat_switch_convert.hpp:34-94 | the differences to the remembered directions, and the new memory |
| HatSwitch.PadTurns | src/share/hat_switch_convert.hpp:34-94 | one conversion turns the pad keys 0x90 to 0x93, in this order, each if it was not as the hat value tells: up for 7, 0 and 1, down for 3 to 5, right for 1 to 3, left for 5 to 7 |
| HatSwitch.EventsAlternate | src/share/hat_switch_convert.hpp:26-94 | over any run of values and erasures of several devices the downs and ups of a direction strictly alternate if and only if no direction held at an erasure comes in a later value of the device |
| HatSwitch.EventsAlternateUnerased | src/share/hat_switch_convert.hpp:34-94 | without erasures they always do, and end with a down if and only if the last value has the direction |
| HatSwitch.ErasureDoublesDown | src/share/hat_switch_convert.hpp:26-94 | the same value before and after an erasure gives two downs, and a neutral one then an up |
| HatSwitch.ReplayIsLastValue | src/share/hat_switch_convert.hpp:26-94 | replaying the events of a device gives exactly the keys of its last value, and of the directions held at an erasure that no later value has |
| HidRuns.InsertionFollowsHat | src/share/event_queue/utility.hpp:147-194 | of the entries of any values, each with its own time stamp, the release insertion remembers exactly the keys of the last hat value |
| HidRuns.ReleasedIffNeutral | src/share/event_queue/utility.hpp:147-194 | without other keys the device counts as released if and only if its last hat value is neutral |
| HidRuns.NeutralEndsWithRelease | src/share/event_queue/utility.hpp:182-205 | the entries of a hat value end with a release event if and only if it turns from some direction to neutral |
| HidRuns.KeyPressedByLastValue | src/share/event_queue/utility.hpp:88-96 | over any values, a key other than those of the pad is down in the release insertion if and only if the last value of its usage was nonzero, or there was none and it was down before |
| HidRuns.PadPressedByHat | src/share/event_queue/utility.hpp:147-165 | over any values, a pad key is down there if and only if the last hat value has it, in raw usages and hat values |
| HidRuns.EntriesInTimeOrder | src/share/event_queue/utility.hpp:44-169 | values in time order become entries in time order if and only if every motion that is passed by a later entry goes on with the next pointing value |
| HidRuns.KeyOvertakesMotion | src/share/event_queue/utility.hpp:88-106 | a pointing value at 1 and a key at 2 become a key at 2 and a motion at 1 |
| HidRuns.BatchReachesQueueInOrder | src/share/event_queue/queue.hpp:28-38 | with release events inserted and appended to any queue, such a batch leaves the queue in time order if and only if it was before, the same condition holds, and its first entry is due no earlier than the last of the queue |
| PressedKeys.InsertReleaseEvents | src/share/event_queue/utility.hpp:174-209 | the loop equals the insertion function and the manager remembers the pressed keys |
| PressedKeys.PressedIffLastIsDown | src/share/pressed_keys_manager.hpp:11-27 | a key is remembered if and only if its last event on the device was a key down |
| PressedKeys.ReleaseFollowsLastKeyUp | src/share/event_queue/utility.hpp:182-205 | a release event follows exactly those key ups after which no key of the device is down, while one was before |
| PressedKeys.OnlyReleasesInserted | src/share/event_queue/utility.hpp:174-209 | taking the release events out gives the entries back |
| PressedKeys.BatchesCompose | src/share/event_queue/utility.hpp:174-209 | two batches with one manager equal one batch |
| StringCodec.MarshalString | src/share/json_utility.hpp:91-103 | a string without newlines stays one, any other becomes the lines that are read from it |
| StringCodec.UnmarshalString | src/share/json_utility.hpp:59-88 | strings and arrays of strings are accepted, all else is refused |
| StringCodec.MarshalWrites | src/share/json_utility.hpp:91-103 | the lines written for a string have no newline, and put after each other, each with one, are the string with its last line ended |
| StringCodec.UnmarshalReads | src/share/json_utility.hpp:59-88 | exactly strings and arrays of nothing but strings can be read; these are the lines of the text that is read, the last of them without its newline |
| StringCodec.JoinAppend | src/share/json_utility.hpp:68-80 | joining puts the lines one after the other, each with its newline |
| StringCodec.RoundTrip | src/share/json_utility.hpp:59-103 | for every string, one final newline is taken away if there is one; exact if and only if there is none |
| StringCodec.MarshalWithoutNewline | src/share/json_utility.hpp:91-103 | a string without its final newline is written as before if and only if it still holds a newline and no longer ends with one |
| StringCodec.CanonicalRoundTrip | src/share/json_utility.hpp:59-103 | the JSON comes back if and only if it is a newline-free string, or two or more newline-free lines of which the last is not empty |
| Configuration.ConfigurationRoundTrip | src/share/core_configuration/configuration_json_helper.hpp:60-261 | what is written can be read, even strictly; the values come back, but for elements written as nothing, if and only if no string but a default ends with a newline; writing again gives the same JSON if and only if each such string is written the same without that newline and is not the default then; unknown keys are kept |
| Configuration.UnknownKeysKept | src/share/core_configuration/configuration_json_helper.hpp:100-117 | members that the schema does not know are written back unchanged |
| Configuration.LoadMatches | src/share/core_configuration/configuration_json_helper.hpp:60-98 | loading gives each field a value of its type |
| Configuration.LoadMeans | src/share/core_configuration/configuration_json_helper.hpp:60-200 | every field of what is loaded holds what its member stands for, told by the kinds of JSON: a number rounded toward zero for integers and milliseconds, the text of the lines for strings, the default if the member is missing or, when tolerated, of another kind, each array element as loaded on its own; and loading fails if and only if some field can hold nothing |
| Configuration.StandsForOne | src/share/core_configuration/configuration_json_helper.hpp:60-98 | a JSON value stands for at most one value of a type |
| Configuration.SaveMeans | src/share/core_configuration/configuration_json_helper.hpp:100-117 | a field with its default value leaves no member, any other the JSON of its payload; empty objects and arrays are left out |
| ConfigurationHelper.LateDefault | src/share/core_configuration/configuration_json_helper.hpp:52-58 | a default set after loading acts as if it had been the default from the start |
| ConfigurationHelper.ValueHelper.SetDefaultValue | src/share/core_configuration/configuration_json_helper.hpp:52-58 | the value follows the default only while it did not come from JSON |
| ConfigurationHelper.ValueHelper.UpdateValue | src/share/core_configuration/configuration_json_helper.hpp:60-98 | a member of a fitting kind gives the value that it stands for; a missing or malformed one leaves the value alone, and only a malformed one in strict mode fails |
| ConfigurationHelper.ValueHelper.UpdateJson | src/share/core_configuration/configuration_json_helper.hpp:100-117 | the member is the JSON of the value, or taken out for the default |
| ConfigurationHelper.HelperValues.UpdateValue | src/share/core_configuration/configuration_json_helper.hpp:249-255 | the fields are updated in turn until one fails; what was written by then is kept |
| ConfigurationHelper.UpdateMeans | src/share/core_configuration/configuration_json_helper.hpp:60-200 | after a successful update every field holds what its member stands for, or what it held before; array elements are added |
| ConfigurationHelper.LeftMeans | src/share/core_configuration/configuration_json_helper.hpp:179-200 | the field whose update fails is as before, but an array has the elements before the first that could not be loaded added |
| ConfigurationHelper.LeftIfStopped | src/share/core_configuration/configuration_json_helper.hpp:139-200 | after a failure the fields before it are updated, the later ones as they were, and a failed array keeps the elements before the one that failed |
| ConfigurationHelper.PushElements | src/share/core_configuration/configuration_json_helper.hpp:179-200 | array elements are added in turn until one cannot be loaded |
| ConfigurationHelper.FreshFieldsLoad | src/share/core_configuration/configuration_json_helper.hpp:139-200 | on fresh values this is loading |
| ConfigurationHelper.HelperValues.UpdateJson | src/share/core_configuration/configuration_json_helper.hpp:257-261 | every field is put in or taken out |
| Expressions.Manager.Insert | src/share/manipulator/condition_expression_manager.hpp:25-38 | a live expression gets every remembered value that it has a variable for; all live expressions hold the remembered values |
| Expressions.Manager.SetNumber | src/share/manipulator/condition_expression_manager.hpp:40-54 | dead expressions are dropped and unchanged, live ones keep their variables and have the named one set, and the value is remembered if and only if one is alive and the name is that of a number; all live expressions hold the remembered values |
| Expressions.Manager.SetString | src/share/manipulator/condition_expression_manager.hpp:56-70 | the same for strings |
| Expressions.Manager.LiveExpressionsAgree | src/share/manipulator/condition_expression_manager.hpp:25-70 | live expressions agree on every variable that they share, whenever they came in |
| Expressions.StringNames | src/share/exprtk_utility.hpp:31-33 | the names of strings are exactly those that end with `_string` |
| VectorUtility.MoveElement | src/share/vector_utility.hpp:8-31 | the adjacent swaps equal taking the element out and putting it in before the destination |
| VectorUtility.MovedRight | src/share/vector_utility.hpp:15-18 | after a move to the right the element stands right before the destination, what lies in between is one place up, and all else stays |
| VectorUtility.MovedLeft | src/share/vector_utility.hpp:19-30 | the same to the left |
| VectorUtility.MoveHasInverse | src/share/vector_utility.hpp:8-31 | an explicit second move takes the first one back |
| Profiles.EditSelection | src/share/core_configuration/core_configuration.hpp:144-182 | selecting replaces the selection, erasing takes the erased profile out of it, no other edit touches it, and the list never runs empty |
| Profiles.RunKeepsAtMostOne | src/share/core_configuration/core_configuration.hpp:144-182 | over any run of edits at most one profile stays selected |
| Profiles.RunKeepsSelection | src/share/core_configuration/core_configuration.hpp:144-182 | the selected profile changes only when one is selected or when it is itself erased |
| Profiles.ProfileList.MarksTellSelected | src/share/core_configuration/core_configuration.hpp:144-191 | the marks, on which every edit of the list is proved to act as on values, tell which profiles are selected and whether it is at most one |
| Profiles.ProfileList.SetProfileName | src/share/core_configuration/core_configuration.hpp:138-142 | one name changes, and no mark |
| Profiles.ProfileList.SelectProfile | src/share/core_configuration/core_configuration.hpp:144-154 | exactly the chosen profile is selected; an index out of range changes nothing |
| Profiles.ProfileList.PushBackProfile | src/share/core_configuration/core_configuration.hpp:156-161 | a new unselected profile with default settings comes last |
| Profiles.ProfileList.DuplicateProfile | src/share/core_configuration/core_configuration.hpp:163-170 | the copy comes last and is not selected; name and settings are what they are once they went through JSON, so the settings are the same, but for elements written as nothing, if and only if no string but a default ends with a newline |
| Profiles.ProfileList.EraseProfile | src/share/core_configuration/core_configuration.hpp:172-178 | exactly the profile at the index goes, unless it is the last one left |
| Profiles.ProfileList.MoveProfile | src/share/core_configuration/core_configuration.hpp:180-182 | the list is moved as above, and every profile stays as it is |
| Profiles.ProfileList.GetSelectedProfile | src/share/core_configuration/core_configuration.hpp:184-191 | a selected profile if there is one, else the first |

## Left out

- Locks, threads and dispatchers: each locked method is one atomic step.
- Expiry of queues and managers behind weak pointers: they are alive for the whole call. Expressions do expire.
- The concrete manipulators: any behaviour that may change the validity and the input delay of the front entry and act on the
  output queue takes their place; clearing or sorting the output queue is not among its actions.
- The manipulator environment (variables, device properties, front application) that a queue also updates: entries carry such
  payloads without the model looking into them. `set_variable` expressions are not evaluated.
- Events whose payload does not fit their type, which only JSON test input can produce.
- Which usages are momentary switches: `HidEntries.MakeEntries` takes the table as a predicate.
- Floating point: multipliers are reals and values truncate toward zero; integers and times are unbounded.
- Saving to files, backups, and `machine_specific`, which keeps its members by machine instead of along a schema.
- Simple and complex modifications and function keys inside a profile, which have their own JSON code: a profile's settings
  beyond name and selection are an object of any schema.
- Exceptions other than failed reads of the configuration.
- ConfigurationHelper.HelperValues.UpdateValue: nested objects and array elements are values, not objects that share
  references, so aliasing between them is not modelled.
- ManipulatorManager.Connector.Manipulate: a connection whose input is its own output, which need not end.
- Expressions.Manager.SetNumber: the remembered value is stored once after the visit instead of at each live expression.
- `apply_environment_variables` and the evaluation of expressions; the values of the constants `pi`, `epsilon` and `inf` are a
  parameter.
