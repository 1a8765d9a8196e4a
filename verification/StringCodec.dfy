/** JSON values, and the codec that stores a multi-line string as an array of lines. */
module StringCodec {
  import Types

  datatype Json =
    | JNull
    | JBool(b: bool)
    | JInt(i: int)
    | JReal(r: real)
    | JString(s: string)
    | JArray(items: seq<Json>)
    | JObject(members: map<string, Json>)

  datatype Result<+T> = Ok(value: T) | Error

  predicate EndsWithNewline(s: string) {
    s != "" && s[|s| - 1] == '\n'
  }

  /** The index of the first newline from `pos` on, or the length. */
  function NextNewline(s: string, pos: nat): (r: nat)
    requires pos <= |s|
    ensures pos <= r <= |s| && (r < |s| ==> s[r] == '\n') && forall i :: pos <= i < r ==> s[i] != '\n'
    decreases |s| - pos
  {
    if pos == |s| || s[pos] == '\n' then pos else NextNewline(s, pos + 1)
  }

  /** The lines that are read from `s`: nothing is read after a final newline. */
  function Lines(s: string): seq<string>
    decreases |s|
  {
    if s == "" then []
    else
      var i := NextNewline(s, 0);
      if i == |s| then [s] else [s[..i]] + Lines(s[i + 1..])
  }

  /** Every line followed by a newline. */
  function Join(lines: seq<string>): string {
    if lines == [] then "" else lines[0] + "\n" + Join(lines[1..])
  }

  function JStrings(lines: seq<string>): seq<Json> {
    if lines == [] then [] else [JString(lines[0])] + JStrings(lines[1..])
  }

  function Marshal(s: string): Json {
    if '\n' !in s then JString(s) else JArray(JStrings(Lines(s)))
  }

  function WithoutLast(s: string): string {
    if s == "" then s else s[..|s| - 1]
  }

  /** The strings of the items, if all of them are strings. */
  function Strings(items: seq<Json>): Result<seq<string>> {
    if items == [] then Ok([])
    else if !items[0].JString? then Error
    else match Strings(items[1..])
      case Ok(rest) => Ok([items[0].s] + rest)
      case Error => Error
  }

  function Unmarshal(j: Json): Result<string> {
    match j
    case JString(s) => Ok(s)
    case JArray(items) =>
      (match Strings(items)
       case Ok(lines) => Ok(WithoutLast(Join(lines)))
       case Error => Error)
    case _ => Error
  }

  method MarshalString(value: string) returns (j: Json)
    ensures j == Marshal(value)
  {
    if '\n' !in value {
      return JString(value);
    }
    var lines := ReadLines(value);
    j := JArray(JStrings(lines));
  }

  method ReadLines(value: string) returns (lines: seq<string>)
    ensures lines == Lines(value)
  {
    hide Lines, NextNewline;
    var pos := 0;
    lines := [];
    assert value[0..] == value;
    while pos < |value|
      invariant pos <= |value|
      invariant lines + Lines(value[pos..]) == Lines(value)
    {
      var i := NextNewline(value, pos);
      LinesOn(value, pos, lines);
      lines := lines + [value[pos..i]];
      pos := if i < |value| then i + 1 else i;
    }
    NoLines(value[pos..]);
    assert lines + [] == lines;
  }

  lemma NoLines(s: string)
    requires s == ""
    ensures Lines(s) == []
  {
  }

  lemma LinesOn(s: string, pos: nat, lines: seq<string>)
    requires pos < |s| && lines + Lines(s[pos..]) == Lines(s)
    ensures var i := NextNewline(s, pos);
            lines + [s[pos..i]] + Lines(s[if i < |s| then i + 1 else i..]) == Lines(s)
  {
    hide Lines, NextNewline;
    var i := NextNewline(s, pos);
    LinesFrom(s, pos);
    Types.ConcatAssoc(lines, [s[pos..i]], Lines(s[if i < |s| then i + 1 else i..]));
  }

  lemma LinesFrom(s: string, pos: nat)
    requires pos < |s|
    ensures var i := NextNewline(s, pos);
            Lines(s[pos..]) == [s[pos..i]] + Lines(s[if i < |s| then i + 1 else i..])
  {
    hide Lines, NextNewline;
    var i, t := NextNewline(s, pos), s[pos..];
    NewlineFrom(s, pos);
    LinesUnfold(t);
    if i < |s| {
      assert t[..i - pos] == s[pos..i] && t[i - pos + 1..] == s[i + 1..];
    } else {
      NoLines(s[i..]);
      assert t == s[pos..i] && [t] + [] == [t];
    }
  }

  lemma NewlineFrom(s: string, pos: nat)
    requires pos < |s|
    ensures NextNewline(s[pos..], 0) == NextNewline(s, pos) - pos
  {
    hide NextNewline;
    var i, t := NextNewline(s, pos), s[pos..];
    var k := NextNewline(t, 0);
    assert forall x :: 0 <= x < |t| ==> t[x] == s[pos + x];
    assert i < |s| ==> t[i - pos] == '\n';
    assert k < |t| ==> s[pos + k] == '\n';
  }

  /** The first line and the rest. */
  lemma LinesUnfold(s: string)
    requires s != ""
    ensures var i := NextNewline(s, 0);
            Lines(s) == if i == |s| then [s] else [s[..i]] + Lines(s[i + 1..])
  {
    hide NextNewline;
  }

  method UnmarshalString(value: Json) returns (r: Result<string>)
    ensures r == Unmarshal(value)
  {
    if value.JString? {
      return Ok(value.s);
    } else if value.JArray? {
      var ss := "";
      for i := 0 to |value.items|
        invariant Strings(value.items[..i]).Ok? && ss == Join(Strings(value.items[..i]).value)
      {
        assert value.items[..i + 1] == value.items[..i] + [value.items[i]];
        StringsSnoc(value.items[..i], value.items[i]);
        if !value.items[i].JString? {
          StringsStop(value.items, i);
          return Error;
        }
        JoinSnoc(Strings(value.items[..i]).value, value.items[i].s);
        ss := ss + value.items[i].s + "\n";
      }
      assert value.items[..|value.items|] == value.items;
      if ss != "" {
        ss := ss[..|ss| - 1];
      }
      return Ok(ss);
    }
    return Error;
  }

  lemma {:induction false} StringsSnoc(items: seq<Json>, j: Json)
    requires Strings(items).Ok?
    ensures Strings(items + [j]) == if j.JString? then Ok(Strings(items).value + [j.s]) else Error
  {
    if items == [] {
      assert items + [j] == [j] && [j][1..] == [];
      assert Strings([j][1..]) == Ok([]);
      assert j.JString? ==> Strings([j]) == Ok([j.s] + []) && [j.s] + [] == [] + [j.s];
    } else {
      assert (items + [j])[1..] == items[1..] + [j];
      StringsSnoc(items[1..], j);
      var rest := Strings(items[1..]).value;
      if j.JString? {
        assert [items[0].s] + (rest + [j.s]) == ([items[0].s] + rest) + [j.s];
      }
    }
  }

  lemma {:induction false} StringsStop(items: seq<Json>, i: nat)
    requires i < |items| && !items[i].JString?
    ensures Strings(items) == Error
  {
    if i > 0 {
      StringsStop(items[1..], i - 1);
    }
  }

  lemma {:induction false} JoinSnoc(lines: seq<string>, line: string)
    ensures Join(lines + [line]) == Join(lines) + line + "\n"
  {
    if lines == [] {
      assert lines + [line] == [line] && [line][1..] == [];
    } else {
      assert (lines + [line])[1..] == lines[1..] + [line];
      JoinSnoc(lines[1..], line);
    }
  }

  /** Joining puts the lines one after the other, each with its newline. */
  lemma {:induction false} JoinAppend(a: seq<string>, b: seq<string>, line: string)
    ensures Join([]) == "" && Join([line]) == line + "\n"
    ensures Join(a + b) == Join(a) + Join(b)
  {
    assert [line][1..] == [];
    if a == [] {
      assert a + b == b;
    } else {
      assert (a + b)[1..] == a[1..] + b;
      JoinAppend(a[1..], b, line);
    }
  }

  // ----- What the JSON of a string is

  ghost predicate AreStrings(items: seq<Json>, lines: seq<string>) {
    |items| == |lines| && forall k :: 0 <= k < |items| ==> items[k] == JString(lines[k])
  }

  lemma {:induction false} JStringsAre(lines: seq<string>)
    ensures AreStrings(JStrings(lines), lines)
  {
    if lines != [] {
      JStringsAre(lines[1..]);
    }
  }

  lemma {:induction false} StringsAre(items: seq<Json>)
    ensures Strings(items).Ok? <==> forall k :: 0 <= k < |items| ==> items[k].JString?
    ensures Strings(items).Ok? ==> AreStrings(items, Strings(items).value)
  {
    if items != [] {
      StringsAre(items[1..]);
      assert forall k :: 1 <= k < |items| ==> items[k] == items[1..][k - 1];
      if forall k :: 0 <= k < |items| ==> items[k].JString? {
        assert forall k :: 0 <= k < |items[1..]| ==> items[1..][k] == items[k + 1];
      }
    }
  }

  /** `s` is the text of the lines, of which each but the last ends with a newline. */
  ghost predicate IsText(s: string, lines: seq<string>) {
    if lines == [] then s == "" else s + "\n" == Join(lines)
  }

  lemma TextOfJoin(s: string, lines: seq<string>)
    ensures WithoutLast(Join(lines)) == s <==> IsText(s, lines)
  {
    if lines != [] {
      var front, last := lines[..|lines| - 1], lines[|lines| - 1];
      assert lines == front + [last];
      JoinSnoc(front, last);
      var t := Join(lines);
      assert t != "" && t[|t| - 1] == '\n' && t == t[..|t| - 1] + "\n";
      assert (s + "\n")[..|s|] == s;
    }
  }

  /** Exactly strings and arrays of strings can be read, as they are and as the text of these lines. */
  lemma UnmarshalReads(j: Json)
    ensures Unmarshal(j).Ok? <==> j.JString? || (j.JArray? && forall k :: 0 <= k < |j.items| ==> j.items[k].JString?)
    ensures j.JString? ==> Unmarshal(j) == Ok(j.s)
    ensures j.JArray? && Unmarshal(j).Ok? ==>
              exists lines :: AreStrings(j.items, lines) && IsText(Unmarshal(j).value, lines)
  {
    hide Join;
    if j.JArray? {
      StringsAre(j.items);
      if Strings(j.items).Ok? {
        TextOfJoin(Unmarshal(j).value, Strings(j.items).value);
      }
    }
  }

  /** A string without newlines is written as it is, and any other as an array of lines without newlines, of which it
      is the text, with a newline at its end or without. */
  lemma MarshalWrites(s: string)
    ensures '\n' !in s ==> Marshal(s) == JString(s)
    ensures '\n' in s ==>
              && Marshal(s).JArray?
              && exists lines :: AreStrings(Marshal(s).items, lines) && (forall l :: l in lines ==> '\n' !in l)
                              && Join(lines) == if s[|s| - 1] == '\n' then s else s + "\n"
  {
    hide Lines, Join, JStrings;
    JStringsAre(Lines(s));
    LinesHaveNoNewlines(s);
    JoinOfLines(s);
  }

  // ----- Round trip

  lemma {:induction false} StringsOfJStrings(lines: seq<string>)
    ensures Strings(JStrings(lines)) == Ok(lines)
  {
    if lines != [] {
      StringsOfJStrings(lines[1..]);
      assert JStrings(lines)[1..] == JStrings(lines[1..]);
      assert [lines[0]] + lines[1..] == lines;
    }
  }

  /** What joining the lines of `s` gives: `s` with its last line ended. */
  function Ended(s: string): string {
    if s == "" || EndsWithNewline(s) then s else s + "\n"
  }

  lemma JoinCons(line: string, lines: seq<string>)
    ensures Join([line] + lines) == line + "\n" + Join(lines)
  {
    assert ([line] + lines)[1..] == lines;
  }

  lemma EndedFirst(l: string, rest: string)
    ensures Ended(l + "\n" + rest) == l + "\n" + Ended(rest)
  {
    var s := l + "\n" + rest;
    assert rest != "" ==> s[|s| - 1] == rest[|rest| - 1];
    assert rest == "" ==> s[|s| - 1] == '\n';
  }

  lemma {:induction false} JoinOfLines(s: string)
    ensures Join(Lines(s)) == Ended(s)
    decreases |s|
  {
    hide Lines, Join, NextNewline;
    if s == "" {
      NoLines(s);
      JoinOfNone();
    } else {
      var i := NextNewline(s, 0);
      LinesUnfold(s);
      if i == |s| {
        JoinCons(s, []);
        JoinOfNone();
        assert [s] + [] == [s] && s + "\n" + "" == s + "\n";
      } else {
        hide Ended;
        var rest := s[i + 1..];
        JoinOfLines(rest);
        JoinCons(s[..i], Lines(rest));
        EndedFirst(s[..i], rest);
        assert s == s[..i] + "\n" + rest;
      }
    }
  }

  /** Marshalling and unmarshalling takes away one final newline, if there is one, and nothing else. */
  lemma RoundTrip(s: string)
    ensures Unmarshal(Marshal(s)) == Ok(if EndsWithNewline(s) then s[..|s| - 1] else s)
    ensures Unmarshal(Marshal(s)) == Ok(s) <==> !EndsWithNewline(s)
  {
    if '\n' in s {
      StringsOfJStrings(Lines(s));
      JoinOfLines(s);
      assert WithoutLast(Ended(s)) == if EndsWithNewline(s) then s[..|s| - 1] else s by {
        assert (s + "\n")[..|s|] == s;
      }
    } else {
      assert !EndsWithNewline(s);
    }
  }

  // ----- The other way round

  /** A string without newlines, or two or more lines without newlines of which the last is not empty. */
  predicate Canonical(j: Json) {
    match j
    case JString(s) => '\n' !in s
    case JArray(items) =>
      (match Strings(items)
       case Ok(lines) => |lines| >= 2 && (forall l :: l in lines ==> '\n' !in l) && lines[|lines| - 1] != ""
       case Error => false)
    case _ => false
  }

  lemma {:induction false} LinesHaveNoNewlines(s: string)
    ensures forall l :: l in Lines(s) ==> '\n' !in l
    decreases |s|
  {
    if s != "" {
      var i := NextNewline(s, 0);
      if i < |s| {
        LinesHaveNoNewlines(s[i + 1..]);
      }
    }
  }

  lemma FirstNewlineAfter(l: string, rest: string)
    requires '\n' !in l
    ensures NextNewline(l + "\n" + rest, 0) == |l|
  {
    var s := l + "\n" + rest;
    assert s[|l|] == '\n';
    assert forall i :: 0 <= i < |l| ==> s[i] == l[i];
  }

  lemma LinesOfFirst(l: string, rest: string)
    requires '\n' !in l
    ensures Lines(l + "\n" + rest) == [l] + Lines(rest)
  {
    var s := l + "\n" + rest;
    FirstNewlineAfter(l, rest);
    assert s[..|l|] == l && s[|l| + 1..] == rest;
  }

  lemma LinesOfLast(last: string)
    requires '\n' !in last
    ensures Lines(last) == if last == "" then [] else [last]
  {
    if last != "" {
      assert NextNewline(last, 0) == |last|;
    }
  }

  lemma {:induction false} LinesOfJoin(lines: seq<string>, last: string)
    requires '\n' !in last && forall l :: l in lines ==> '\n' !in l
    ensures Lines(Join(lines) + last) == lines + if last == "" then [] else [last]
    decreases |lines|
  {
    hide Lines, NextNewline;
    if lines == [] {
      assert Join(lines) + last == last;
      LinesOfLast(last);
    } else {
      var l, rest := lines[0], Join(lines[1..]) + last;
      LinesOfJoin(lines[1..], last);
      assert Join(lines) + last == l + "\n" + rest;
      LinesOfFirst(l, rest);
      assert lines == [l] + lines[1..];
    }
  }

  lemma {:induction false} JStringsOfStrings(items: seq<Json>)
    requires Strings(items).Ok?
    ensures JStrings(Strings(items).value) == items
  {
    if items != [] {
      JStringsOfStrings(items[1..]);
    }
  }

  lemma {:induction false} NewlineInJoin(lines: seq<string>)
    requires lines != []
    ensures '\n' in Join(lines)
  {
    assert Join(lines)[|lines[0]|] == '\n';
  }

  lemma JoinWithoutLast(front: seq<string>, last: string)
    ensures WithoutLast(Join(front + [last])) == Join(front) + last
  {
    hide Join;
    JoinSnoc(front, last);
    var t := Join(front) + last;
    assert (t + "\n")[..|t|] == t;
  }

  ghost predicate NewlineFree(lines: seq<string>) {
    forall l :: l in lines ==> '\n' !in l
  }

  /** The lines of an array come back exactly if none of them has a newline and the last is not empty. */
  lemma LinesComeBack(front: seq<string>, last: string)
    ensures Lines(Join(front) + last) == front + [last] <==> NewlineFree(front + [last]) && last != ""
  {
    hide Lines, Join, NextNewline;
    var lines, t := front + [last], Join(front) + last;
    if NewlineFree(lines) {
      assert '\n' !in last by { assert last in lines; }
      forall l | l in front ensures '\n' !in l { assert l in lines; }
      LinesOfJoin(front, last);
      assert last == "" ==> |Lines(t)| < |lines|;
    } else {
      LinesHaveNoNewlines(t);
    }
  }

  lemma NewlineInJoined(front: seq<string>, last: string)
    ensures '\n' in Join(front) + last <==> front != [] || '\n' in last
  {
    hide Join;
    if front == [] {
      JoinOfNone();
      assert "" + last == last;
    } else {
      NewlineInJoin(front);
    }
  }

  lemma JoinOfNone()
    ensures Join([]) == ""
  {
  }

  /** Unmarshalling and marshalling gives back the same JSON exactly for the canonical encodings. */
  lemma CanonicalRoundTrip(j: Json)
    requires Unmarshal(j).Ok?
    ensures Marshal(Unmarshal(j).value) == j <==> Canonical(j)
  {
    hide Lines, Join, NextNewline, JStrings, Strings;
    if j.JArray? {
      var lines := Strings(j.items).value;
      JStringsOfStrings(j.items);
      StringsOfJStrings(Lines(Unmarshal(j).value));
      if lines == [] {
        JoinOfNone();
      } else {
        var front, last := lines[..|lines| - 1], lines[|lines| - 1];
        assert lines == front + [last];
        JoinWithoutLast(front, last);
        LinesComeBack(front, last);
        NewlineInJoined(front, last);
      }
    }
  }

  /** A final newline can be taken away without a trace in the lines: others remain, and none of them becomes final. */
  predicate FinalNewlineIsSpare(s: string)
    requires EndsWithNewline(s)
  {
    var t := s[..|s| - 1];
    '\n' in t && !EndsWithNewline(t)
  }

  /** The string without its final newline is marshalled as before exactly then. */
  lemma MarshalWithoutNewline(s: string)
    requires EndsWithNewline(s)
    ensures Marshal(s[..|s| - 1]) == Marshal(s) <==> FinalNewlineIsSpare(s)
  {
    hide Lines, Join, NextNewline, JStrings, Unmarshal;
    var t := s[..|s| - 1];
    assert s[|s| - 1] in s;
    RoundTrip(s);
    RoundTrip(t);
    if FinalNewlineIsSpare(s) {
      JoinOfLines(t);
      LinesHaveNoNewlines(t);
      LinesOfJoin(Lines(t), "");
      assert Join(Lines(t)) + "" == Join(Lines(t)) == t + "\n" == s;
      assert Lines(t) + [] == Lines(t);
    }
  }
}
