/** Moving an element of a vector, and the editing of the list of profiles. */
module VectorUtility {

  function Removed<T>(v: seq<T>, i: nat): seq<T>
    requires i < |v|
  {
    v[..i] + v[i + 1..]
  }

  function Inserted<T>(v: seq<T>, i: nat, x: T): seq<T>
    requires i <= |v|
  {
    v[..i] + [x] + v[i..]
  }

  /** Where the element from `source` ends up: one place earlier if its removal shifts the destination. */
  function Target(source: nat, destination: nat): nat {
    if source < destination then destination - 1 else destination
  }

  /** The vector with one element taken out and put in before the element that was at the destination. */
  function Moved<T>(v: seq<T>, source: nat, destination: nat): seq<T> {
    if source >= |v| || destination > |v| || source == destination then v
    else Inserted(Removed(v, source), Target(source, destination), v[source])
  }

  method MoveElement<T>(v: seq<T>, source: nat, destination: nat) returns (r: seq<T>)
    ensures r == Moved(v, source, destination)
  {
    r := v;
    if source >= |v| || destination > |v| {
      return;
    }
    MovedIsShifted(v, source, destination);

    if source < destination {
      for i := source to destination - 1
        invariant r == Shifted(v, source, i)
      {
        assert r[i := r[i + 1]][i + 1 := r[i]] == Shifted(v, source, i + 1);
        r := r[i := r[i + 1]][i + 1 := r[i]];
      }
    } else if destination < source {
      var i: int := source - 1;
      while i >= destination
        invariant destination - 1 <= i < source
        invariant r == Shifted(v, source, i + 1)
      {
        assert r[i := r[i + 1]][i + 1 := r[i]] == Shifted(v, source, i);
        r := r[i := r[i + 1]][i + 1 := r[i]];
        i := i - 1;
      }
    }
  }

  /** The vector while the element from `source` is at `at`. */
  function Shifted<T>(v: seq<T>, source: nat, at: nat): seq<T>
    requires source < |v| && at < |v|
  {
    Inserted(Removed(v, source), at, v[source])
  }

  lemma MovedIsShifted<T>(v: seq<T>, source: nat, destination: nat)
    requires source < |v| && destination <= |v|
    ensures Shifted(v, source, source) == v
    ensures Moved(v, source, destination) == Shifted(v, source, Target(source, destination))
  {
    assert Inserted(Removed(v, source), source, v[source]) == v;
  }

  lemma RemovedAt<T>(v: seq<T>, i: nat)
    requires i < |v|
    ensures |Removed(v, i)| == |v| - 1
    ensures forall k :: 0 <= k < i ==> Removed(v, i)[k] == v[k]
    ensures forall k :: i <= k < |v| - 1 ==> Removed(v, i)[k] == v[k + 1]
  {
  }

  lemma InsertedAt<T>(v: seq<T>, i: nat, x: T)
    requires i <= |v|
    ensures |Inserted(v, i, x)| == |v| + 1 && Inserted(v, i, x)[i] == x
    ensures forall k :: 0 <= k < i ==> Inserted(v, i, x)[k] == v[k]
    ensures forall k :: i < k < |v| + 1 ==> Inserted(v, i, x)[k] == v[k - 1]
  {
  }

  /** Where everything is after a move to the right, to before the element at `destination`: what lies in between moves
      up by one place, and nothing else moves. */
  lemma MovedRight<T>(v: seq<T>, source: nat, destination: nat)
    requires source < destination <= |v|
    ensures var r := Moved(v, source, destination);
            && |r| == |v| && r[destination - 1] == v[source]
            && (forall k :: 0 <= k < source || destination <= k < |v| ==> r[k] == v[k])
            && forall k :: source <= k < destination - 1 ==> r[k] == v[k + 1]
  {
    RemovedAt(v, source);
    InsertedAt(Removed(v, source), destination - 1, v[source]);
    hide Removed, Inserted;
  }

  /** The same for a move to the left. */
  lemma MovedLeft<T>(v: seq<T>, source: nat, destination: nat)
    requires destination <= source < |v|
    ensures var r := Moved(v, source, destination);
            && |r| == |v| && r[destination] == v[source]
            && (forall k :: 0 <= k < destination || source < k < |v| ==> r[k] == v[k])
            && forall k :: destination < k <= source ==> r[k] == v[k - 1]
  {
    RemovedAt(v, source);
    InsertedAt(Removed(v, source), destination, v[source]);
    hide Removed, Inserted;
  }

  /** Every move can be taken back by another move. */
  lemma MoveHasInverse<T>(v: seq<T>, source: nat, destination: nat)
    requires source < |v| && destination <= |v|
    ensures Moved(Moved(v, source, destination), Target(source, destination), if source < destination then source
            else source + 1) == v
  {
    var t, x := Target(source, destination), v[source];
    var w := Removed(v, source);
    if source != destination {
      RemovedInserted(w, t, x);
    }
    assert Inserted(w, source, x) == v;
    if source == destination {
      assert Moved(v, source, source + 1) == Inserted(w, source, x);
    }
  }

  lemma RemovedInserted<T>(w: seq<T>, i: nat, x: T)
    requires i <= |w|
    ensures Removed(Inserted(w, i, x), i) == w && Inserted(w, i, x)[i] == x
  {
  }

  /** Moving only permutes. */
  lemma MovePermutes<T>(v: seq<T>, source: nat, destination: nat)
    ensures multiset(Moved(v, source, destination)) == multiset(v)
    ensures |Moved(v, source, destination)| == |v|
  {
    if source < |v| && destination <= |v| {
      var w := Removed(v, source);
      var t := Target(source, destination);
      assert v == v[..source] + [v[source]] + v[source + 1..];
      MovedIsShifted(v, source, destination);
      assert w == w[..t] + w[t..];
      assert multiset(Inserted(w, t, v[source])) == multiset(w) + multiset{v[source]};
    }
  }
}

module Profiles {
  import opened VectorUtility
  import opened StringCodec
  import opened Configuration
  import opened ConfigurationHelper

  /** A profile: its name, whether it is selected, and its other settings, an object of the schema of profiles. */
  class Profile {
    var name: string
    var selected: bool
    const settings: Obj

    constructor (name: string, selected: bool, settings: Obj)
      ensures this.name == name && this.selected == selected && this.settings == settings
    {
      this.name, this.selected, this.settings := name, selected, settings;
    }
  }

  /** The name as it comes back from JSON, where an empty name, the default, is left out. */
  function FromJsonAgain(name: string): string {
    if name == "" then ""
    else match Unmarshal(Marshal(name))
      case Ok(s) => s
      case Error => ""
  }

  function Reloaded(name: string): string {
    if EndsWithNewline(name) then name[..|name| - 1] else name
  }

  lemma NameReloads(name: string)
    ensures FromJsonAgain(name) == Reloaded(name)
  {
    RoundTrip(name);
  }

  // ----- Edits on values

  /** One edit of the list; `id` is the profile that comes in. */
  datatype Edit<T> =
    | SelectEdit(index: nat)
    | PushEdit(id: T)
    | DuplicateEdit(id: T)
    | EraseEdit(index: nat)
    | MoveEdit(source: nat, destination: nat)
    | RenameEdit(index: nat)

  /** A profile by its identity. */
  datatype Mark<T> = Mark(id: T, selected: bool)

  function Marked<T>(v: seq<Mark<T>>, index: nat): seq<Mark<T>> {
    if v == [] then [] else Marked(v[..|v| - 1], index) + [v[|v| - 1].(selected := |v| - 1 == index)]
  }

  /** The list after an edit. */
  function Edited<T>(v: seq<Mark<T>>, edit: Edit<T>): seq<Mark<T>> {
    match edit
    case SelectEdit(index) => if index < |v| then Marked(v, index) else v
    case PushEdit(id) => v + [Mark(id, false)]
    case DuplicateEdit(id) => v + [Mark(id, false)]
    case EraseEdit(index) => if index < |v| && |v| > 1 then Removed(v, index) else v
    case MoveEdit(source, destination) => Moved(v, source, destination)
    case RenameEdit(_) => v
  }

  function EditRun<T>(v: seq<Mark<T>>, edits: seq<Edit<T>>): seq<Mark<T>> {
    if edits == [] then v else Edited(EditRun(v, edits[..|edits| - 1]), edits[|edits| - 1])
  }

  /** The identities of the selected profiles. */
  ghost function SelectedIds<T>(v: seq<Mark<T>>): multiset<T> {
    if v == [] then multiset{} else SelectedIds(v[..|v| - 1]) + IdIfSelected(v[|v| - 1])
  }

  ghost function IdIfSelected<T>(m: Mark<T>): multiset<T> {
    if m.selected then multiset{m.id} else multiset{}
  }

  lemma {:induction false} MarkedAt<T>(v: seq<Mark<T>>, index: nat)
    ensures |Marked(v, index)| == |v|
    ensures forall i :: 0 <= i < |v| ==> Marked(v, index)[i] == v[i].(selected := i == index)
  {
    if v != [] {
      MarkedAt(v[..|v| - 1], index);
    }
  }

  // ----- The list of profiles

  /** The profiles as marks, each its own identity. */
  ghost function MarksOf(ps: seq<Profile>): seq<Mark<Profile>>
    reads ps
  {
    seq(|ps|, i requires 0 <= i < |ps| reads ps => Mark(ps[i], ps[i].selected))
  }

  lemma MarksAt(ps: seq<Profile>)
    ensures |MarksOf(ps)| == |ps|
    ensures forall i :: 0 <= i < |ps| ==> MarksOf(ps)[i] == Mark(ps[i], ps[i].selected)
  {
  }

  lemma MarksRemoved(ps: seq<Profile>, i: nat)
    requires i < |ps|
    ensures MarksOf(Removed(ps, i)) == Removed(MarksOf(ps), i)
  {
    MarksAt(ps);
    MarksAt(Removed(ps, i));
    hide MarksOf, Removed;
    RemovedAt(ps, i);
    RemovedAt(MarksOf(ps), i);
  }

  lemma MarksInserted(ps: seq<Profile>, i: nat, p: Profile)
    requires i <= |ps|
    ensures MarksOf(Inserted(ps, i, p)) == Inserted(MarksOf(ps), i, Mark(p, p.selected))
  {
    MarksAt(ps);
    MarksAt(Inserted(ps, i, p));
    hide MarksOf, Inserted;
    InsertedAt(ps, i, p);
    InsertedAt(MarksOf(ps), i, Mark(p, p.selected));
  }

  lemma MarksMoved(ps: seq<Profile>, source: nat, destination: nat)
    ensures MarksOf(Moved(ps, source, destination)) == Moved(MarksOf(ps), source, destination)
  {
    MarksAt(ps);
    hide MarksOf, Removed, Inserted;
    if source < |ps| && destination <= |ps| && source != destination {
      RemovedAt(ps, source);
      RemovedAt(MarksOf(ps), source);
      MarksRemoved(ps, source);
      MarksInserted(Removed(ps, source), Target(source, destination), ps[source]);
    }
  }

  class ProfileList {
    var profiles: seq<Profile>
    const schema: Schema
    const mode: ErrorHandling

    ghost predicate Valid()
      reads this
    {
      && DistinctKeys(schema)
      && profiles != [] && (forall i, j :: 0 <= i < j < |profiles| ==> profiles[i] != profiles[j])
      && forall p :: p in profiles ==> Matches(schema, p.settings)
    }

    /** The abstract state. */
    ghost function Marks(): seq<Mark<Profile>>
      reads this, profiles
    {
      MarksOf(profiles)
    }

    ghost predicate AtMostOneSelected()
      reads this, profiles
    {
      forall p, q :: p in profiles && q in profiles && p.selected && q.selected ==> p == q
    }

    /** Falls back to a selected default profile. */
    constructor (loaded: seq<Profile>, schema: Schema, mode: ErrorHandling)
      requires DistinctKeys(schema)
      requires forall i, j :: 0 <= i < j < |loaded| ==> loaded[i] != loaded[j]
      requires forall p :: p in loaded ==> Matches(schema, p.settings)
      ensures Valid() && this.schema == schema && this.mode == mode
      ensures loaded != [] ==> profiles == loaded
      ensures loaded == [] ==>
                |profiles| == 1 && fresh(profiles[0]) && profiles[0].selected && profiles[0].name == "Default profile"
                && profiles[0].settings == DefaultObj(schema)
    {
      profiles := loaded;
      this.schema, this.mode := schema, mode;
      new;
      if profiles == [] {
        EmptyLoads(schema, mode);
        LoadMatches(schema, JObject(map[]), mode);
        var p := new Profile("Default profile", true, DefaultObj(schema));
        profiles := [p];
      }
    }

    method SetProfileName(index: nat, name: string)
      requires Valid()
      modifies profiles
      ensures Valid() && Marks() == Edited(old(Marks()), RenameEdit(index))
      ensures forall i :: 0 <= i < |profiles| ==> profiles[i].name == if i == index then name else old(profiles[i].name)
    {
      if index < |profiles| {
        profiles[index].name := name;
      }
    }

    method SelectProfile(index: nat)
      requires Valid()
      modifies profiles
      ensures Valid() && Marks() == Edited(old(Marks()), SelectEdit(index))
      ensures forall p :: p in profiles ==> p.name == old(p.name)
    {
      if index < |profiles| {
        ghost var before := Marks();
        for i := 0 to |profiles|
          invariant forall j :: 0 <= j < i ==> (profiles[j].selected <==> j == index)
          invariant forall p :: p in profiles ==> p.name == old(p.name)
        {
          if i == index {
            profiles[i].selected := true;
          } else {
            profiles[i].selected := false;
          }
        }
        MarkedAt(before, index);
        assert Marks() == Marked(before, index);
      }
    }

    method PushBackProfile()
      requires Valid()
      modifies this
      ensures Valid() && |profiles| == |old(profiles)| + 1 && profiles[..|old(profiles)|] == old(profiles)
      ensures var p := profiles[|old(profiles)|];
              && fresh(p) && Marks() == Edited(old(Marks()), PushEdit(p))
              && p.name == "New profile" && p.settings == DefaultObj(schema)
    {
      EmptyLoads(schema, mode);
      LoadMatches(schema, JObject(map[]), mode);
      var p := new Profile("New profile", false, DefaultObj(schema));
      profiles := profiles + [p];
    }

    /** The copy is made from the JSON of the profile. */
    method DuplicateProfile(profile: Profile)
      requires Valid() && Matches(schema, profile.settings)
      modifies this
      ensures Valid() && |profiles| == |old(profiles)| + 1 && profiles[..|old(profiles)|] == old(profiles)
      ensures var p := profiles[|old(profiles)|];
              && fresh(p) && Marks() == Edited(old(Marks()), DuplicateEdit(p))
              && p.name == Reloaded(profile.name) + " (copy)"
              && Ok(p.settings) == Load(schema, JObject(Save(schema, profile.settings)), mode)
              && (ViewOf(p.settings) == Kept(schema, profile.settings) <==> StringsKept(schema, profile.settings))
    {
      hide Load, Save, Matches, StringsKept, Kept, ViewOf, DistinctKeys;
      NameReloads(profile.name);
      ConfigurationRoundTrip(schema, profile.settings, mode);
      var p := new Profile(FromJsonAgain(profile.name), profile.selected,
        Load(schema, JObject(Save(schema, profile.settings)), mode).value);
      p.name := p.name + " (copy)";
      p.selected := false;
      profiles := profiles + [p];
    }

    /** The last profile is never erased. */
    method EraseProfile(index: nat)
      requires Valid()
      modifies this
      ensures Valid() && Marks() == Edited(old(Marks()), EraseEdit(index))
      ensures profiles == if index < |old(profiles)| && |old(profiles)| > 1
                          then old(profiles)[..index] + old(profiles)[index + 1..] else old(profiles)
    {
      if index < |profiles| && |profiles| > 1 {
        MarksRemoved(profiles, index);
        hide MarksOf, Matches, DistinctKeys;
        profiles := Removed(profiles, index);
      }
    }

    method MoveProfile(source: nat, destination: nat)
      requires Valid()
      modifies this
      ensures Valid() && Marks() == Edited(old(Marks()), MoveEdit(source, destination))
      ensures profiles == Moved(old(profiles), source, destination)
    {
      hide Moved, MarksOf, Matches, DistinctKeys, Marked;
      ghost var before := profiles;
      profiles := MoveElement(profiles, source, destination);
      MovePermutes(before, source, destination);
      SamePermuted(before, profiles);
      MarksMoved(before, source, destination);
    }

    method GetSelectedProfile() returns (profile: Profile)
      requires Valid()
      ensures profile in profiles
      ensures (exists p :: p in profiles && p.selected) ==> profile.selected
      ensures (forall p :: p in profiles ==> !p.selected) ==> profile == profiles[0]
    {
      for i := 0 to |profiles|
        invariant forall j :: 0 <= j < i ==> !profiles[j].selected
      {
        if profiles[i].selected {
          return profiles[i];
        }
      }
      return profiles[0];
    }

    /** The marks tell which profiles are selected, and whether it is at most one. */
    lemma MarksTellSelected()
      requires Valid()
      ensures forall p :: p in profiles ==> (p in SelectedIds(Marks()) <==> p.selected)
      ensures AtMostOneSelected() <==> AtMostOne(Marks())
    {
      SelectedProfiles(profiles);
      var m := SelectedIds(Marks());
      AtMostOneElement(profiles, m);
    }
  }

  lemma AtMostOneElement(v: seq<Profile>, m: multiset<Profile>)
    requires m <= multiset(v) && forall x :: x in v ==> m[x] <= 1
    ensures forall x :: x in m ==> x in v
    ensures |m| <= 1 <==> forall x, y :: x in m && y in m ==> x == y
  {
    forall x | x in m ensures x in v {
      assert x in multiset(v) <==> x in v;
    }
    if x :| x in m {
      var r := m - multiset{x};
      assert m == r + multiset{x};
      assert x !in r;
      if y :| y in r {
        assert y in m && y != x;
      } else {
        assert r == multiset{};
      }
    }
  }

  lemma SelectedSnoc<T>(v: seq<Mark<T>>, m: Mark<T>)
    ensures SelectedIds(v + [m]) == SelectedIds(v) + IdIfSelected(m)
  {
    assert (v + [m])[..|v|] == v;
  }

  lemma NothingSelected()
    ensures SelectedIds<Profile>([]) == multiset{}
  {
  }

  lemma {:induction false} SelectedProfiles(ps: seq<Profile>)
    requires forall i, j :: 0 <= i < j < |ps| ==> ps[i] != ps[j]
    ensures SelectedIds(MarksOf(ps)) <= multiset(ps)
    ensures forall p :: p in ps ==> SelectedIds(MarksOf(ps))[p] == if p.selected then 1 else 0
  {
    MarksAt(ps);
    hide SelectedIds, MarksOf;
    if ps == [] {
      NothingSelected();
      assert MarksOf(ps) == [];
    } else {
      var r, p := ps[..|ps| - 1], ps[|ps| - 1];
      SelectedProfiles(r);
      MarksAt(r);
      assert MarksOf(ps) == MarksOf(r) + [Mark(p, p.selected)];
      SelectedSnoc(MarksOf(r), Mark(p, p.selected));
      assert ps == r + [p] && p !in r;
    }
  }

  lemma {:induction false} CountsOfDistinct<T>(v: seq<T>, x: T)
    requires forall a, b :: 0 <= a < b < |v| ==> v[a] != v[b]
    ensures multiset(v)[x] <= 1
  {
    if v != [] {
      assert v == [v[0]] + v[1..];
      CountsOfDistinct(v[1..], x);
      assert v[0] !in v[1..];
    }
  }

  lemma SamePermuted<T>(v: seq<T>, w: seq<T>)
    requires multiset(v) == multiset(w) && forall a, b :: 0 <= a < b < |v| ==> v[a] != v[b]
    ensures forall x :: x in v <==> x in w
    ensures forall a, b :: 0 <= a < b < |w| ==> w[a] != w[b]
  {
    forall x: T ensures x in v <==> x in w {
      assert x in v <==> x in multiset(v);
      assert x in w <==> x in multiset(w);
    }
    forall a, b | 0 <= a < b < |w| ensures w[a] != w[b] {
      CountsOfDistinct(v, w[a]);
      assert w == w[..b] + [w[b]] + w[b + 1..];
      assert w[a] in w[..b];
    }
  }

  // ----- Runs

  lemma {:induction false} SelectedAppend<T>(a: seq<Mark<T>>, b: seq<Mark<T>>)
    ensures SelectedIds(a + b) == SelectedIds(a) + SelectedIds(b)
  {
    if b == [] {
      assert a + b == a;
    } else {
      var n := |b| - 1;
      assert (a + b)[..|a + b| - 1] == a + b[..n] && (a + b)[|a + b| - 1] == b[n];
      SelectedAppend(a, b[..n]);
    }
  }

  lemma SelectedOfOne<T>(m: Mark<T>)
    ensures SelectedIds([m]) == IdIfSelected(m)
  {
    assert [m][..0] == [];
  }

  lemma SelectedAround<T>(a: seq<Mark<T>>, m: Mark<T>, b: seq<Mark<T>>)
    ensures SelectedIds(a + [m] + b) == SelectedIds(a + b) + IdIfSelected(m)
  {
    SelectedAppend(a + [m], b);
    SelectedAppend(a, [m]);
    SelectedOfOne(m);
    SelectedAppend(a, b);
  }

  lemma SelectedRemoved<T>(v: seq<Mark<T>>, i: nat)
    requires i < |v|
    ensures SelectedIds(v) == SelectedIds(Removed(v, i)) + IdIfSelected(v[i])
  {
    hide SelectedIds;
    var a, m, b := v[..i], v[i], v[i + 1..];
    SelectedAround(a, m, b);
    assert v == a + [m] + b;
    assert Removed(v, i) == a + b;
  }

  lemma SelectedInserted<T>(v: seq<Mark<T>>, i: nat, m: Mark<T>)
    requires i <= |v|
    ensures SelectedIds(Inserted(v, i, m)) == SelectedIds(v) + IdIfSelected(m)
  {
    RemovedInserted(v, i, m);
    SelectedRemoved(Inserted(v, i, m), i);
  }

  lemma {:induction false} SelectedMarked<T>(v: seq<Mark<T>>, index: nat)
    ensures |Marked(v, index)| == |v|
    ensures SelectedIds(Marked(v, index)) == if index < |v| then multiset{v[index].id} else multiset{}
  {
    if v != [] {
      var n := |v| - 1;
      SelectedMarked(v[..n], index);
      SelectedAppend(Marked(v[..n], index), [v[n].(selected := n == index)]);
      SelectedOfOne(v[n].(selected := n == index));
    }
  }

  /** What an edit does to the selection: selecting replaces it, erasing takes the erased profile out of it, and nothing
      else touches it; the list never runs empty. */
  lemma EditSelection<T>(v: seq<Mark<T>>, edit: Edit<T>)
    requires v != []
    ensures Edited(v, edit) != []
    ensures SelectedIds(Edited(v, edit)) ==
            if edit.SelectEdit? && edit.index < |v| then multiset{v[edit.index].id}
            else if edit.EraseEdit? && edit.index < |v| && |v| > 1 then SelectedIds(v) - IdIfSelected(v[edit.index])
            else SelectedIds(v)
  {
    hide SelectedIds, Marked, Moved;
    match edit
    case SelectEdit(index) => SelectedMarked(v, index);
    case PushEdit(id) => SelectedPushed(v, id);
    case DuplicateEdit(id) => SelectedPushed(v, id);
    case EraseEdit(index) =>
      if index < |v| { SelectedRemoved(v, index); }
    case MoveEdit(source, destination) => SelectedMoved(v, source, destination);
    case RenameEdit(_) =>
  }

  lemma SelectedPushed<T>(v: seq<Mark<T>>, id: T)
    ensures SelectedIds(v + [Mark(id, false)]) == SelectedIds(v)
  {
    SelectedAppend(v, [Mark(id, false)]);
    SelectedOfOne(Mark(id, false));
  }

  lemma SelectedMoved<T>(v: seq<Mark<T>>, source: nat, destination: nat)
    ensures SelectedIds(Moved(v, source, destination)) == SelectedIds(v)
    ensures |Moved(v, source, destination)| == |v|
  {
    if source < |v| && destination <= |v| && source != destination {
      SelectedRemoved(v, source);
      SelectedInserted(Removed(v, source), Target(source, destination), v[source]);
    }
  }

  ghost predicate AtMostOne<T>(v: seq<Mark<T>>) {
    v != [] && |SelectedIds(v)| <= 1
  }

  lemma EditKeepsAtMostOne<T>(v: seq<Mark<T>>, edit: Edit<T>)
    requires AtMostOne(v)
    ensures AtMostOne(Edited(v, edit))
  {
    EditSelection(v, edit);
  }

  /** Over any run of edits from a list with at most one selected profile, the list stays non-empty with at most one
      selected. */
  lemma {:induction false} RunKeepsAtMostOne<T>(v: seq<Mark<T>>, edits: seq<Edit<T>>)
    requires AtMostOne(v)
    ensures AtMostOne(EditRun(v, edits))
  {
    if edits != [] {
      var n := |edits| - 1;
      RunKeepsAtMostOne(v, edits[..n]);
      EditKeepsAtMostOne(EditRun(v, edits[..n]), edits[n]);
    }
  }

  /** The edits that may change the selection of `v`: selecting a profile, and erasing a selected one. */
  predicate Reselects<T>(v: seq<Mark<T>>, edit: Edit<T>) {
    match edit
    case SelectEdit(index) => index < |v|
    case EraseEdit(index) => index < |v| && |v| > 1 && v[index].selected
    case _ => false
  }

  predicate NeverReselects<T>(v: seq<Mark<T>>, edits: seq<Edit<T>>) {
    edits == [] ||
    var n := |edits| - 1;
    NeverReselects(v, edits[..n]) && !Reselects(EditRun(v, edits[..n]), edits[n])
  }

  lemma EditKeepsSelection<T>(v: seq<Mark<T>>, edit: Edit<T>)
    requires v != [] && !Reselects(v, edit)
    ensures Edited(v, edit) != [] && SelectedIds(Edited(v, edit)) == SelectedIds(v)
  {
    EditSelection(v, edit);
  }

  /** The selected profile changes only when another is selected or when it is itself erased. */
  lemma {:induction false} RunKeepsSelection<T>(v: seq<Mark<T>>, edits: seq<Edit<T>>)
    requires v != [] && NeverReselects(v, edits)
    ensures EditRun(v, edits) != [] && SelectedIds(EditRun(v, edits)) == SelectedIds(v)
  {
    if edits != [] {
      var n := |edits| - 1;
      RunKeepsSelection(v, edits[..n]);
      EditKeepsSelection(EditRun(v, edits[..n]), edits[n]);
    }
  }
}
