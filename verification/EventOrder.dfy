/** The reordering of queue entries that puts modifiers before the keys of the same time stamp. */
module EventOrder {
  import opened Types

  predicate NeedsSwap(v1: Entry, v2: Entry) {
    if v1.time.timeStamp == v2.time.timeStamp && v1.event.MomentarySwitch? && v2.event.MomentarySwitch? then
      var m1, m2 := v1.event.switch.IsModifier(), v2.event.switch.IsModifier();
      if !m1 && m2 then v2.eventType != KeyUp
      else if m1 && !m2 then v1.eventType == KeyUp
      else false
    else
      false
  }

  /** The relation is asymmetric and as far from transitive as can be: what two swaps in a row lead across needs no
      swap. */
  lemma SwapIsNotTransitive(r: Entry, n: Entry, p: Entry)
    requires NeedsSwap(r, n) && NeedsSwap(n, p)
    ensures !NeedsSwap(n, r) && !NeedsSwap(r, p)
  {
  }

  function KeyEvent(usage: int, eventType: EventType): Entry {
    var event := MomentarySwitch(MomentarySwitchEvent(UsagePair(PAGE_KEYBOARD_OR_KEYPAD, usage)));
    Entry(0, EventTimeStamp(0, 0), event, eventType, event, Original, false, Valid)
  }

  /** Left shift up, `a` down, left shift down. */
  lemma SwapTriple()
    ensures var r, n, p := KeyEvent(0xe1, KeyUp), KeyEvent(0x04, KeyDown), KeyEvent(0xe1, KeyDown);
            NeedsSwap(r, n) && NeedsSwap(n, p) && !NeedsSwap(r, p)
  {
    var n := KeyEvent(0x04, KeyDown).event.switch;
    assert KeyEvent(0xe1, KeyUp).event.switch.MakeModifierFlag() == Some(LeftShift);
    assert n.MakeModifierFlag() == None;
    SwapIsNotTransitive(KeyEvent(0xe1, KeyUp), KeyEvent(0x04, KeyDown), KeyEvent(0xe1, KeyDown));
  }

  /** Moves a new last entry to the left while it needs to be swapped with its neighbour. */
  function Insert(s: seq<Entry>, e: Entry): seq<Entry> {
    if s == [] then [e]
    else if NeedsSwap(s[|s| - 1], e) then Insert(s[..|s| - 1], e) + [s[|s| - 1]]
    else s + [e]
  }

  function InsertAll(s: seq<Entry>, t: seq<Entry>): seq<Entry> {
    if t == [] then s else Insert(InsertAll(s, t[..|t| - 1]), t[|t| - 1])
  }

  function Sort(s: seq<Entry>): seq<Entry> {
    InsertAll([], s)
  }

  /** No two neighbours need to be swapped. */
  ghost predicate Settled(s: seq<Entry>) {
    forall i :: 0 <= i < |s| - 1 ==> !NeedsSwap(s[i], s[i + 1])
  }

  // ----- The fold

  lemma {:induction false} InsertAllAppend(s: seq<Entry>, t: seq<Entry>, u: seq<Entry>)
    ensures InsertAll(s, t + u) == InsertAll(InsertAll(s, t), u)
  {
    if u == [] {
      assert t + u == t;
    } else {
      var n := |u| - 1;
      assert (t + u)[..|t + u| - 1] == t + u[..n];
      InsertAllAppend(s, t, u[..n]);
    }
  }

  lemma SortSnoc(s: seq<Entry>, e: Entry)
    ensures Sort(s + [e]) == Insert(Sort(s), e)
  {
    assert (s + [e])[..|s|] == s;
  }

  lemma {:induction false} InsertSettled(s: seq<Entry>, e: Entry)
    requires Settled(s)
    ensures Settled(Insert(s, e)) && |Insert(s, e)| == |s| + 1
    ensures s != [] ==> Insert(s, e)[|s|] == s[|s| - 1] || Insert(s, e)[|s|] == e
  {
    if s != [] {
      var n := |s| - 1;
      if NeedsSwap(s[n], e) {
        InsertSettled(s[..n], e);
        var r := Insert(s[..n], e);
        assert !NeedsSwap(r[n], s[n]) by {
          if n > 0 { assert !NeedsSwap(s[n - 1], s[n]); }
        }
      }
    }
  }

  lemma {:induction false} InsertAllSettled(s: seq<Entry>, t: seq<Entry>)
    requires Settled(s)
    ensures Settled(InsertAll(s, t))
  {
    if t != [] {
      InsertAllSettled(s, t[..|t| - 1]);
      InsertSettled(InsertAll(s, t[..|t| - 1]), t[|t| - 1]);
    }
  }

  lemma {:induction false} SortOfSettled(s: seq<Entry>)
    requires Settled(s)
    ensures Sort(s) == s
  {
    if s != [] {
      var n := |s| - 1;
      SortOfSettled(s[..n]);
      assert s == s[..n] + [s[n]];
      if n > 0 { assert !NeedsSwap(s[n - 1], s[n]); }
    }
  }

  /** Sorting leaves no two neighbours to swap, and sorting again changes nothing. */
  lemma SortSettles(s: seq<Entry>)
    ensures Settled(Sort(s)) && Sort(Sort(s)) == Sort(s)
  {
    InsertAllSettled([], s);
    SortOfSettled(Sort(s));
  }

  /** Sorting is online: what was already sorted may be sorted together with later entries, with the same result as
      sorting everything once. */
  lemma SortIsOnline(s: seq<Entry>, t: seq<Entry>)
    ensures Sort(s + t) == Sort(Sort(s) + t)
  {
    InsertAllAppend([], s, t);
    InsertAllAppend([], Sort(s), t);
    SortSettles(s);
  }

  // ----- What sorting keeps

  lemma {:induction false} InsertPermutes(s: seq<Entry>, e: Entry)
    ensures multiset(Insert(s, e)) == multiset(s) + multiset{e}
    ensures |Insert(s, e)| == |s| + 1
    ensures forall i :: 0 <= i < |s| ==> Insert(s, e)[i].time.timeStamp == s[i].time.timeStamp
    ensures Insert(s, e)[|s|].time.timeStamp == e.time.timeStamp
  {
    if s != [] {
      var n := |s| - 1;
      assert s == s[..n] + [s[n]];
      if NeedsSwap(s[n], e) {
        InsertPermutes(s[..n], e);
      }
    }
  }

  /** Sorting only permutes, and the time stamp found at each position stays. */
  lemma {:induction false} SortPermutes(s: seq<Entry>)
    ensures multiset(Sort(s)) == multiset(s)
    ensures |Sort(s)| == |s|
    ensures forall i :: 0 <= i < |s| ==> Sort(s)[i].time.timeStamp == s[i].time.timeStamp
  {
    if s != [] {
      var n := |s| - 1;
      assert s == s[..n] + [s[n]];
      SortPermutes(s[..n]);
      InsertPermutes(Sort(s[..n]), s[n]);
    }
  }

  /** `Insert` on positions of `s`: a new position `i` moves to the left past those whose entries need to be swapped
      with its own. */
  function InsertPosition(s: seq<Entry>, o: seq<nat>, i: nat): (r: seq<nat>)
    requires i < |s| && forall k :: 0 <= k < |o| ==> o[k] < |s|
    ensures |r| == |o| + 1 && forall k :: 0 <= k < |r| ==> r[k] < |s|
  {
    if o == [] then [i]
    else if NeedsSwap(s[o[|o| - 1]], s[i]) then InsertPosition(s, o[..|o| - 1], i) + [o[|o| - 1]]
    else o + [i]
  }

  /** The position in `s` from which each entry of the sorted list came. */
  function Origins(s: seq<Entry>): (r: seq<nat>)
    ensures |r| == |s| && forall k :: 0 <= k < |r| ==> r[k] < |s|
  {
    if s == [] then [] else InsertPosition(s, Origins(s[..|s| - 1]), |s| - 1)
  }

  /** `t` has the entries of `s` from the positions `o`. */
  ghost predicate ComesFrom(t: seq<Entry>, s: seq<Entry>, o: seq<nat>) {
    |t| == |o| && forall k :: 0 <= k < |o| ==> o[k] < |s| && t[k] == s[o[k]]
  }

  lemma {:induction false} InsertComesFrom(t: seq<Entry>, s: seq<Entry>, o: seq<nat>, i: nat)
    requires i < |s| && ComesFrom(t, s, o)
    ensures ComesFrom(Insert(t, s[i]), s, InsertPosition(s, o, i))
  {
    hide NeedsSwap;
    if o != [] {
      var n := |o| - 1;
      InsertComesFrom(t[..n], s, o[..n], i);
    }
  }

  /** Positions trade places only if the entry at the lower needs to be swapped with the one at the higher. */
  ghost predicate TradesNeedSwap(s: seq<Entry>, o: seq<nat>)
    requires forall k :: 0 <= k < |o| ==> o[k] < |s|
  {
    forall a, b :: 0 <= a < b < |o| && o[a] > o[b] ==> NeedsSwap(s[o[b]], s[o[a]])
  }

  /** Where the new position goes. */
  lemma {:induction false} InsertGoesTo(s: seq<Entry>, o: seq<nat>, i: nat) returns (p: nat)
    requires i < |s| && forall k :: 0 <= k < |o| ==> o[k] < |s|
    ensures p <= |o| && InsertPosition(s, o, i) == o[..p] + [i] + o[p..]
    ensures forall k :: p <= k < |o| ==> NeedsSwap(s[o[k]], s[i])
  {
    hide NeedsSwap;
    p := |o|;
    assert o[..p] + [i] + o[p..] == o + [i];
    if o != [] && NeedsSwap(s[o[|o| - 1]], s[i]) {
      var n := |o| - 1;
      p := InsertGoesTo(s, o[..n], i);
      assert o[..p] == o[..n][..p] && o[p..] == o[..n][p..] + [o[n]];
      assert o[..p] + [i] + o[p..] == (o[..n][..p] + [i] + o[..n][p..]) + [o[n]];
    }
  }

  lemma InsertTrades(s: seq<Entry>, o: seq<nat>, i: nat)
    requires i < |s| && (forall k :: 0 <= k < |o| ==> o[k] < i) && TradesNeedSwap(s, o) && Distinct(o)
    ensures var r := InsertPosition(s, o, i);
            && TradesNeedSwap(s, r) && Distinct(r) && i in r && forall x :: x in o ==> x in r
  {
    hide NeedsSwap, InsertPosition;
    var p := InsertGoesTo(s, o, i);
    var r := InsertPosition(s, o, i);
    InsertedInto(o, p, i);
    forall a, b | 0 <= a < b < |r| && r[a] > r[b] ensures NeedsSwap(s[r[b]], s[r[a]]) {
      var a', b' := if a < p then a else a - 1, if b < p then b else b - 1;
      assert b != p;
      assert a != p ==> r[a] == o[a'] && r[b] == o[b'];
      assert a == p ==> r[b] == o[b'];
    }
  }

  lemma InsertedInto(o: seq<nat>, p: nat, i: nat)
    requires p <= |o| && Distinct(o) && i !in o
    ensures var r := o[..p] + [i] + o[p..];
            && Distinct(r) && i in r && (forall x :: x in o ==> x in r)
            && r[p] == i && (forall k :: 0 <= k < p ==> r[k] == o[k]) && forall k :: p < k < |r| ==> r[k] == o[k - 1]
  {
    var r := o[..p] + [i] + o[p..];
    assert r[p] == i;
    forall x | x in o ensures x in r {
      var k :| 0 <= k < |o| && o[k] == x;
      assert r[if k < p then k else k + 1] == x;
    }
    forall a, b | 0 <= a < b < |r| ensures r[a] != r[b] {
      assert a != p ==> r[a] == o[if a < p then a else a - 1];
      assert b != p ==> r[b] == o[if b < p then b else b - 1];
    }
  }

  /** `t` has every entry of `s` once, and trades places only where a swap was needed. */
  ghost predicate StablyFrom(t: seq<Entry>, s: seq<Entry>, o: seq<nat>) {
    ComesFrom(t, s, o) && Distinct(o) && (forall i :: 0 <= i < |s| ==> i in o) && TradesNeedSwap(s, o)
  }

  lemma StableLonger(t: seq<Entry>, r: seq<Entry>, e: Entry, o: seq<nat>)
    requires ComesFrom(t, r, o) && TradesNeedSwap(r, o)
    ensures ComesFrom(t, r + [e], o) && TradesNeedSwap(r + [e], o)
  {
    hide NeedsSwap;
    assert forall i :: 0 <= i < |r| ==> (r + [e])[i] == r[i];
  }

  lemma StableSnoc(t: seq<Entry>, r: seq<Entry>, e: Entry, o: seq<nat>)
    requires StablyFrom(t, r, o)
    ensures StablyFrom(Insert(t, e), r + [e], InsertPosition(r + [e], o, |r|))
  {
    hide NeedsSwap, Insert, InsertPosition, TradesNeedSwap;
    var s := r + [e];
    StableLonger(t, r, e, o);
    InsertComesFrom(t, s, o, |r|);
    InsertTrades(s, o, |r|);
    assert s[|r|] == e;
  }

  lemma NothingStable()
    ensures StablyFrom([], [], [])
  {
  }

  /** Sorting takes every position once, and two entries trade places only if the earlier needed to be swapped with the
      later. */
  lemma {:induction false} SortIsStable(s: seq<Entry>)
    ensures StablyFrom(Sort(s), s, Origins(s))
  {
    hide StablyFrom, Insert, InsertPosition, NeedsSwap;
    if s == [] {
      NothingStable();
    } else {
      var r, e := s[..|s| - 1], s[|s| - 1];
      SortIsStable(r);
      StableSnoc(Sort(r), r, e, Origins(r));
      SortSnoc(r, e);
      assert s == r + [e];
    }
  }

  lemma {:induction false} InsertAcross(a: seq<Entry>, b: seq<Entry>, e: Entry)
    requires forall x :: x in a ==> !NeedsSwap(x, e)
    ensures Insert(a + b, e) == a + Insert(b, e)
  {
    if b == [] {
      assert a + b == a;
    } else {
      var n := |b| - 1;
      assert (a + b)[..|a + b| - 1] == a + b[..n] && (a + b)[|a + b| - 1] == b[n];
      InsertAcross(a, b[..n], e);
    }
  }

  /** A part none of whose entries needs to be swapped with a later one, such as all entries of earlier time stamps, is
      sorted on its own. */
  lemma {:induction false} SortByParts(a: seq<Entry>, b: seq<Entry>)
    requires forall x, y :: x in a && y in b ==> !NeedsSwap(x, y)
    ensures Sort(a + b) == Sort(a) + Sort(b)
  {
    if b == [] {
      assert a + b == a;
    } else {
      var n := |b| - 1;
      assert (a + b)[..|a + b| - 1] == a + b[..n] && (a + b)[|a + b| - 1] == b[n];
      SortByParts(a, b[..n]);
      SortPermutes(a);
      forall x | x in Sort(a) ensures !NeedsSwap(x, b[n]) {
        assert x in multiset(Sort(a));
      }
      InsertAcross(Sort(a), Sort(b[..n]), b[n]);
    }
  }

  // ----- Which entries move

  lemma {:induction false} InsertStopsAt(a: seq<Entry>, x: Entry, b: seq<Entry>, e: Entry)
    requires !NeedsSwap(x, e)
    ensures Insert(a + [x] + b, e) == a + [x] + Insert(b, e)
  {
    var s := a + [x] + b;
    if b == [] {
      assert s == a + [x] && s[|s| - 1] == x;
    } else {
      var n := |b| - 1;
      assert s[..|s| - 1] == a + [x] + b[..n] && s[|s| - 1] == b[n];
      InsertStopsAt(a, x, b[..n], e);
    }
  }

  /** An entry that is no key event, such as the one that tells of the release of all keys, stays where it is, and
      nothing is moved past it. */
  lemma {:induction false} OtherEntriesStay(a: seq<Entry>, e: Entry, b: seq<Entry>)
    requires !e.event.MomentarySwitch?
    ensures Sort(a + [e] + b) == Sort(a) + [e] + Sort(b)
  {
    if b == [] {
      SortSnoc(a, e);
      assert a + [e] + b == a + [e];
      assert Sort(a + [e]) == Sort(a) + [e] == Sort(a) + [e] + [];
    } else {
      var n := |b| - 1;
      OtherEntriesStay(a, e, b[..n]);
      SortSnoc(a + [e] + b[..n], b[n]);
      SortSnoc(b[..n], b[n]);
      InsertStopsAt(Sort(a), e, Sort(b[..n]), b[n]);
      assert a + [e] + b == (a + [e] + b[..n]) + [b[n]] && b == b[..n] + [b[n]];
    }
  }

  /** Two entries trade places exactly if they are key events of one time stamp, and the first is an ordinary key and
      the second a modifier that is not released, or the first a modifier that is released and the second an ordinary
      key. */
  lemma SortOfTwo(v: Entry, w: Entry)
    ensures Sort([v, w]) == [v, w] || Sort([v, w]) == [w, v]
    ensures Sort([v, w]) == [w, v] <==>
            || v == w
            || (&& v.time.timeStamp == w.time.timeStamp && v.event.MomentarySwitch? && w.event.MomentarySwitch?
                && match (v.event.switch.MakeModifierFlag(), w.event.switch.MakeModifierFlag())
                   case (None, Some(_)) => w.eventType != KeyUp
                   case (Some(_), None) => v.eventType == KeyUp
                   case _ => false)
  {
    SortSnoc([], v);
    SortSnoc([v], w);
    assert [] + [v] == [v] && [v] + [w] == [v, w];
    assert [v][..0] == [];
    assert Insert([v], w) == if NeedsSwap(v, w) then [w] + [v] else [v] + [w];
  }

  // ----- Blocks of key events

  datatype Class = Press | Ordinary | Release

  function ClassOf(e: Entry): Class
    requires e.event.MomentarySwitch?
  {
    if !e.event.switch.IsModifier() then Ordinary
    else if e.eventType == KeyUp then Release
    else Press
  }

  /** Key events of one time stamp. */
  ghost predicate KeyBlock(s: seq<Entry>) {
    && (forall e :: e in s ==> e.event.MomentarySwitch?)
    && forall d, e :: d in s && e in s ==> d.time.timeStamp == e.time.timeStamp
  }

  function Pick(s: seq<Entry>, c: Class): seq<Entry>
    requires forall e :: e in s ==> e.event.MomentarySwitch?
  {
    if s == [] then [] else Pick(s[..|s| - 1], c) + if ClassOf(s[|s| - 1]) == c then [s[|s| - 1]] else []
  }

  ghost predicate NoReleaseBeforePress(s: seq<Entry>)
    requires forall e :: e in s ==> e.event.MomentarySwitch?
  {
    forall i, j :: 0 <= i < j < |s| ==> !(ClassOf(s[i]) == Release && ClassOf(s[j]) == Press)
  }

  lemma {:induction false} InPick(s: seq<Entry>, c: Class)
    requires KeyBlock(s)
    ensures forall e :: e in Pick(s, c) ==> e in s && ClassOf(e) == c
  {
    if s != [] {
      assert s == s[..|s| - 1] + [s[|s| - 1]];
      InPick(s[..|s| - 1], c);
    }
  }

  lemma {:induction false} PickNone(s: seq<Entry>, c: Class)
    requires KeyBlock(s) && forall e :: e in s ==> ClassOf(e) != c
    ensures Pick(s, c) == []
  {
    if s != [] {
      PickNone(s[..|s| - 1], c);
    }
  }

  lemma {:induction false} InsertPast(a: seq<Entry>, b: seq<Entry>, e: Entry)
    requires forall x :: x in a ==> !NeedsSwap(x, e)
    requires forall x :: x in b ==> NeedsSwap(x, e)
    ensures Insert(a + b, e) == a + [e] + b
  {
    if b == [] {
      assert a + b == a;
    } else {
      var n := |b| - 1;
      assert (a + b)[..|a + b| - 1] == a + b[..n] && (a + b)[|a + b| - 1] == b[n];
      InsertPast(a, b[..n], e);
    }
  }

  ghost predicate AllOf(s: seq<Entry>, c: Class, e: Entry) {
    forall x :: x in s ==> x.event.MomentarySwitch? && ClassOf(x) == c && x.time.timeStamp == e.time.timeStamp
  }

  lemma InsertIntoBlock(p: seq<Entry>, o: seq<Entry>, u: seq<Entry>, e: Entry)
    requires e.event.MomentarySwitch? && AllOf(p, Press, e) && AllOf(o, Ordinary, e) && AllOf(u, Release, e)
    requires ClassOf(e) == Press ==> u == []
    ensures Insert(p + o + u, e) ==
            match ClassOf(e)
            case Press => (p + [e]) + o + u
            case Ordinary => p + (o + [e]) + u
            case Release => p + o + (u + [e])
  {
    match ClassOf(e)
    case Press =>
      InsertPast(p, o, e);
      assert p + o + u == p + o;
      assert (p + [e]) + o + u == p + [e] + o;
    case Ordinary =>
      InsertPast(p + o, u, e);
      assert p + (o + [e]) + u == p + o + [e] + u;
    case Release =>
      InsertPast(p + o + u, [], e);
      assert p + o + u + [] == p + o + u;
      assert p + o + (u + [e]) == p + o + u + [e] + [];
  }

  lemma PickSnoc(r: seq<Entry>, e: Entry, c: Class)
    requires KeyBlock(r + [e]) && KeyBlock(r)
    ensures e.event.MomentarySwitch? && Pick(r + [e], c) == Pick(r, c) + if ClassOf(e) == c then [e] else []
  {
    var s := r + [e];
    assert s[..|s| - 1] == r && s[|s| - 1] == e && e in s;
  }

  lemma PickAllOf(r: seq<Entry>, e: Entry, c: Class)
    requires KeyBlock(r + [e]) && KeyBlock(r)
    ensures AllOf(Pick(r, c), c, e)
  {
    InPick(r, c);
    var s := r + [e];
    assert e in s;
    forall x | x in Pick(r, c) ensures x.time.timeStamp == e.time.timeStamp {
      assert x in s;
    }
  }

  lemma NoReleaseYet(r: seq<Entry>, e: Entry)
    requires KeyBlock(r + [e]) && KeyBlock(r) && NoReleaseBeforePress(r + [e])
    requires e.event.MomentarySwitch? && ClassOf(e) == Press
    ensures Pick(r, Release) == []
  {
    var s := r + [e];
    forall x | x in r ensures ClassOf(x) != Release {
      var i :| 0 <= i < |r| && r[i] == x;
      assert s[i] == x && s[|r|] == e;
    }
    PickNone(r, Release);
  }

  lemma {:induction false} BlockInOrder(s: seq<Entry>)
    requires KeyBlock(s) && NoReleaseBeforePress(s)
    ensures Sort(s) == Pick(s, Press) + Pick(s, Ordinary) + Pick(s, Release)
  {
    if s != [] {
      var r, e := s[..|s| - 1], s[|s| - 1];
      assert s == r + [e];
      BlockInOrder(r);
      PickSnoc(r, e, Press);
      PickSnoc(r, e, Ordinary);
      PickSnoc(r, e, Release);
      PickAllOf(r, e, Press);
      PickAllOf(r, e, Ordinary);
      PickAllOf(r, e, Release);
      if ClassOf(e) == Press {
        NoReleaseYet(r, e);
      }
      SortSnoc(r, e);
      var p, o, u := Pick(r, Press), Pick(r, Ordinary), Pick(r, Release);
      InsertIntoBlock(p, o, u, e);
      match ClassOf(e)
      case Press => assert Pick(s, Press) == p + [e] && Pick(s, Ordinary) == o && Pick(s, Release) == u;
      case Ordinary => assert Pick(s, Press) == p && Pick(s, Ordinary) == o + [e] && Pick(s, Release) == u;
      case Release => assert Pick(s, Press) == p && Pick(s, Ordinary) == o && Pick(s, Release) == u + [e];
    }
  }

  lemma BlockFormHasNoReleaseBeforePress(s: seq<Entry>, i: nat, j: nat)
    requires KeyBlock(s)
    requires i < j < |Pick(s, Press) + Pick(s, Ordinary) + Pick(s, Release)|
    ensures var t := Pick(s, Press) + Pick(s, Ordinary) + Pick(s, Release);
            t[i].event.MomentarySwitch? && t[j].event.MomentarySwitch?
              && !(ClassOf(t[i]) == Release && ClassOf(t[j]) == Press)
  {
    InPick(s, Press);
    InPick(s, Ordinary);
    InPick(s, Release);
  }

  /** A release that precedes a press still does after sorting. */
  lemma ReleaseStaysBeforePress(s: seq<Entry>, i: nat, j: nat) returns (a: nat, b: nat)
    requires KeyBlock(s) && i < j < |s| && ClassOf(s[i]) == Release && ClassOf(s[j]) == Press
    ensures a < b < |Sort(s)| && Sort(s)[a] == s[i] && Sort(s)[b] == s[j]
  {
    assert !NeedsSwap(s[i], s[j]);
    hide NeedsSwap, ClassOf, Sort, Origins, StablyFrom;
    SortIsStable(s);
    a, b := KeptApart(Sort(s), s, Origins(s), i, j);
  }

  lemma KeptApart(t: seq<Entry>, s: seq<Entry>, o: seq<nat>, i: nat, j: nat) returns (a: nat, b: nat)
    requires i < j < |s| && StablyFrom(t, s, o) && !NeedsSwap(s[i], s[j])
    ensures a < b < |t| && t[a] == s[i] && t[b] == s[j]
  {
    hide NeedsSwap;
    assert i in o && j in o;
    a :| 0 <= a < |o| && o[a] == i;
    b :| 0 <= b < |o| && o[b] == j;
  }

  /** A block of key events of one time stamp comes out as modifier presses, other keys, modifier releases, each in
      their original order, exactly if no modifier release precedes a modifier press. */
  lemma BlockSorted(s: seq<Entry>)
    requires KeyBlock(s)
    ensures Sort(s) == Pick(s, Press) + Pick(s, Ordinary) + Pick(s, Release) <==> NoReleaseBeforePress(s)
  {
    if NoReleaseBeforePress(s) {
      BlockInOrder(s);
    } else {
      var i, j :| 0 <= i < j < |s| && ClassOf(s[i]) == Release && ClassOf(s[j]) == Press;
      var a, b := ReleaseStaysBeforePress(s, i, j);
      hide ClassOf, Sort, Pick;
      if Sort(s) == Pick(s, Press) + Pick(s, Ordinary) + Pick(s, Release) {
        BlockFormHasNoReleaseBeforePress(s, a, b);
        assert false;
      }
    }
  }

  /** Left shift going up and down again stays in that order, so the press does not come first. */
  lemma ReleaseBeforePressStays()
    ensures var s := [KeyEvent(0xe1, KeyUp), KeyEvent(0xe1, KeyDown)];
            KeyBlock(s) && Sort(s) == s && Sort(s) != Pick(s, Press) + Pick(s, Ordinary) + Pick(s, Release)
  {
    var r, p := KeyEvent(0xe1, KeyUp), KeyEvent(0xe1, KeyDown);
    var s := [r, p];
    SwapTriple();
    assert Settled(s);
    SortOfSettled(s);
    assert ClassOf(s[0]) == Release && ClassOf(s[1]) == Press;
    BlockSorted(s);
  }
}
