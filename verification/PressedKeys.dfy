/** The insertion of the event that tells that all keys and buttons of a device are released. */
module PressedKeys {
  import opened Types

  class PressedKeysManager {
    var entries: set<MomentarySwitchEvent>

    constructor ()
      ensures entries == {}
    {
      entries := {};
    }

    method Insert(value: MomentarySwitchEvent)
      modifies this
      ensures entries == old(entries) + {value}
    {
      entries := entries + {value};
    }

    method Erase(value: MomentarySwitchEvent)
      modifies this
      ensures entries == old(entries) - {value}
    {
      entries := entries - {value};
    }

    method Empty() returns (empty: bool)
      ensures empty <==> entries == {}
    {
      empty := entries == {};
    }
  }

  function ReleaseEntry(device: DeviceId, time: EventTimeStamp): Entry {
    Entry(device, time, DeviceKeysAndPointingButtonsAreReleased, Single, DeviceKeysAndPointingButtonsAreReleased,
          VirtualEvent, false, Valid)
  }

  /** The pressed keys after `e`. */
  function PressedAfter(pressed: set<MomentarySwitchEvent>, e: Entry, device: DeviceId): set<MomentarySwitchEvent> {
    if e.device != device || !e.event.MomentarySwitch? then pressed
    else if e.eventType == KeyDown then pressed + {e.event.switch}
    else if e.eventType == KeyUp then pressed - {e.event.switch}
    else pressed
  }

  predicate EndsPressing(pressed: set<MomentarySwitchEvent>, e: Entry, device: DeviceId) {
    e.device == device && e.eventType == KeyUp && pressed != {} && PressedAfter(pressed, e, device) == {}
  }

  function PressedAfterAll(pressed: set<MomentarySwitchEvent>, es: seq<Entry>,
                           device: DeviceId): set<MomentarySwitchEvent> {
    if es == [] then pressed
    else PressedAfter(PressedAfterAll(pressed, es[..|es| - 1], device), es[|es| - 1], device)
  }

  /** The entries with the release events inserted. */
  function WithReleases(pressed: set<MomentarySwitchEvent>, es: seq<Entry>, device: DeviceId): seq<Entry> {
    if es == [] then []
    else
      var e := es[|es| - 1];
      WithReleases(pressed, es[..|es| - 1], device) + [e]
      + if EndsPressing(PressedAfterAll(pressed, es[..|es| - 1], device), e, device)
        then [ReleaseEntry(device, e.time)] else []
  }

  method InsertReleaseEvents(entries: seq<Entry>, device: DeviceId, manager: PressedKeysManager)
    returns (result: seq<Entry>)
    modifies manager
    ensures result == WithReleases(old(manager.entries), entries, device)
    ensures manager.entries == PressedAfterAll(old(manager.entries), entries, device)
  {
    result := [];
    assert entries[..|entries|] == entries;
    for i := 0 to |entries|
      invariant result == WithReleases(old(manager.entries), entries[..i], device)
      invariant manager.entries == PressedAfterAll(old(manager.entries), entries[..i], device)
    {
      assert entries[..i + 1][..i] == entries[..i];
      var entry := entries[i];
      result := result + [entry];
      if entry.device == device {
        if entry.eventType == KeyDown {
          if entry.event.MomentarySwitch? {
            manager.Insert(entry.event.switch);
          }
        } else if entry.eventType == KeyUp {
          var empty := manager.Empty();
          if !empty {
            if entry.event.MomentarySwitch? {
              manager.Erase(entry.event.switch);
            }
            empty := manager.Empty();
            if empty {
              result := result + [ReleaseEntry(device, entry.time)];
            }
          }
        }
      }
    }
  }

  // ----- What the manager remembers

  /** `e` presses or releases `key` on `device`. */
  predicate Concerns(e: Entry, device: DeviceId, key: MomentarySwitchEvent) {
    e.device == device && e.event == MomentarySwitch(key) && e.eventType != Single
  }

  /** The last event of `key` on `device` was a key down. */
  ghost predicate LastIsDown(es: seq<Entry>, device: DeviceId, key: MomentarySwitchEvent) {
    exists i :: 0 <= i < |es| && DownSince(es, i, device, key)
  }

  ghost predicate DownSince(es: seq<Entry>, i: nat, device: DeviceId, key: MomentarySwitchEvent)
    requires i < |es|
  {
    && Concerns(es[i], device, key) && es[i].eventType == KeyDown
    && forall j :: i < j < |es| ==> !Concerns(es[j], device, key)
  }

  lemma {:induction false} PressedIffLastIsDown(es: seq<Entry>, device: DeviceId, key: MomentarySwitchEvent)
    ensures key in PressedAfterAll({}, es, device) <==> LastIsDown(es, device, key)
  {
    if es != [] {
      var n := |es| - 1;
      PressedIffLastIsDown(es[..n], device, key);
      if Concerns(es[n], device, key) {
        if es[n].eventType == KeyDown {
          assert DownSince(es, n, device, key);
        }
      } else {
        if i :| 0 <= i < n && DownSince(es[..n], i, device, key) {
          assert DownSince(es, i, device, key);
        }
        if i :| 0 <= i < |es| && DownSince(es, i, device, key) {
          assert DownSince(es[..n], i, device, key);
        }
      }
    }
  }

  /** Whether some key is down on the device. */
  ghost predicate SomeDown(es: seq<Entry>, device: DeviceId) {
    exists key :: LastIsDown(es, device, key)
  }

  lemma PressedIffSomeDown(es: seq<Entry>, device: DeviceId)
    ensures PressedAfterAll({}, es, device) != {} <==> SomeDown(es, device)
  {
    if key :| key in PressedAfterAll({}, es, device) {
      PressedIffLastIsDown(es, device, key);
    }
    if key :| LastIsDown(es, device, key) {
      PressedIffLastIsDown(es, device, key);
    }
  }

  /** A release event directly follows exactly those key ups of the device that end a time in which some
      key was down. */
  lemma ReleaseFollowsLastKeyUp(es: seq<Entry>, e: Entry, device: DeviceId)
    ensures var before, after := WithReleases({}, es, device), WithReleases({}, es + [e], device);
            after == before + [e]
              + if e.device == device && e.eventType == KeyUp && SomeDown(es, device) && !SomeDown(es + [e], device)
                then [Entry(device, e.time, DeviceKeysAndPointingButtonsAreReleased, Single,
                            DeviceKeysAndPointingButtonsAreReleased, VirtualEvent, false, Valid)]
                else []
  {
    assert (es + [e])[..|es|] == es;
    PressedIffSomeDown(es, device);
    PressedIffSomeDown(es + [e], device);
  }

  /** Two batches handled one after the other with the same manager give what one batch would have given. */
  lemma {:induction false} BatchesCompose(pressed: set<MomentarySwitchEvent>, a: seq<Entry>, b: seq<Entry>,
                                          device: DeviceId)
    ensures WithReleases(pressed, a + b, device) ==
            WithReleases(pressed, a, device) + WithReleases(PressedAfterAll(pressed, a, device), b, device)
    ensures PressedAfterAll(pressed, a + b, device) == PressedAfterAll(PressedAfterAll(pressed, a, device), b, device)
  {
    if b == [] {
      assert a + b == a;
    } else {
      var n := |b| - 1;
      assert (a + b)[..|a + b| - 1] == a + b[..n] && (a + b)[|a + b| - 1] == b[n];
      BatchesCompose(pressed, a, b[..n], device);
    }
  }

  function WithoutReleaseEvents(es: seq<Entry>): seq<Entry> {
    if es == [] then []
    else WithoutReleaseEvents(es[..|es| - 1])
         + if es[|es| - 1].event.DeviceKeysAndPointingButtonsAreReleased? then [] else [es[|es| - 1]]
  }

  lemma {:induction false} NothingToTake(es: seq<Entry>)
    requires forall e :: e in es ==> !e.event.DeviceKeysAndPointingButtonsAreReleased?
    ensures WithoutReleaseEvents(es) == es
  {
    if es != [] {
      assert es == es[..|es| - 1] + [es[|es| - 1]];
      NothingToTake(es[..|es| - 1]);
    }
  }

  lemma {:induction false} ReleasesTakenOut(pressed: set<MomentarySwitchEvent>, es: seq<Entry>, device: DeviceId)
    ensures WithoutReleaseEvents(WithReleases(pressed, es, device)) == WithoutReleaseEvents(es)
  {
    if es != [] {
      var e := es[|es| - 1];
      var before := WithReleases(pressed, es[..|es| - 1], device);
      ReleasesTakenOut(pressed, es[..|es| - 1], device);
      WithoutSnoc(before, e);
      WithoutSnoc(before + [e], ReleaseEntry(device, e.time));
      assert before + [e] + [] == before + [e];
    }
  }

  lemma WithoutSnoc(s: seq<Entry>, e: Entry)
    ensures WithoutReleaseEvents(s + [e]) ==
            WithoutReleaseEvents(s) + if e.event.DeviceKeysAndPointingButtonsAreReleased? then [] else [e]
  {
    assert (s + [e])[..|s|] == s;
  }

  /** Only release events are inserted: taking them out again leaves the entries as they were. */
  lemma OnlyReleasesInserted(pressed: set<MomentarySwitchEvent>, es: seq<Entry>, device: DeviceId)
    ensures WithoutReleaseEvents(WithReleases(pressed, es, device)) == WithoutReleaseEvents(es)
    ensures (forall e :: e in es ==> !e.event.DeviceKeysAndPointingButtonsAreReleased?) ==>
              WithoutReleaseEvents(WithReleases(pressed, es, device)) == es
  {
    ReleasesTakenOut(pressed, es, device);
    if forall e :: e in es ==> !e.event.DeviceKeysAndPointingButtonsAreReleased? {
      NothingToTake(es);
    }
  }
}
