/** The manager that keeps the variables of all condition expressions in step. It only holds on to expressions that are
    alive elsewhere. */
module Expressions {

  const STRING_SUFFIX := "_string"

  predicate IsStringName(name: string) {
    |STRING_SUFFIX| <= |name| && name[|name| - |STRING_SUFFIX|..] == STRING_SUFFIX
  }

  /** These are exactly the names that are something followed by the suffix. */
  lemma StringNames(name: string)
    ensures IsStringName(name) <==> exists stem :: name == stem + "_string"
  {
    if IsStringName(name) {
      assert name == name[..|name| - 7] + "_string";
    }
    if stem :| name == stem + "_string" {
      assert name[|name| - 7..] == "_string";
    }
  }

  /** What a variable holds until it is set: every expression has the constants `pi`, `epsilon` and `inf`, whose values
      are a parameter here; any other variable is zero or empty. */
  function Initial<V>(constants: map<string, V>, zero: V, name: string): V {
    if name in constants then constants[name] else zero
  }

  /** A compiled expression: its constants and the variables that it mentions, sorted into numbers and strings by their
      names. `alive` tells whether the expression still has an owner. */
  class Expression {
    var numbers: map<string, real>
    var strings: map<string, string>
    var alive: bool

    ghost predicate Sorted()
      reads this
    {
      (forall n :: n in numbers ==> !IsStringName(n)) && forall n :: n in strings ==> IsStringName(n)
    }

    constructor (names: set<string>, constants: map<string, real>)
      requires forall n :: n in constants ==> !IsStringName(n)
      ensures numbers == map n | n in names + constants.Keys && !IsStringName(n) :: Initial(constants, 0.0, n)
      ensures strings == map n | n in names && IsStringName(n) :: ""
      ensures forall n :: n in numbers <==> n in constants || (n in names && !IsStringName(n))
      ensures forall n :: n in numbers ==> numbers[n] == if n in constants then constants[n] else 0.0
      ensures Sorted() && alive
    {
      numbers := map n | n in names + constants.Keys && !IsStringName(n) :: Initial(constants, 0.0, n);
      strings := map n | n in names && IsStringName(n) :: "";
      alive := true;
    }

    method SetNumber(name: string, value: real)
      modifies this`numbers
      ensures numbers == Assigned(old(numbers), name, value, !IsStringName(name))
    {
      if !IsStringName(name) && name in numbers {
        numbers := numbers[name := value];
      }
    }

    method SetString(name: string, value: string)
      modifies this`strings
      ensures strings == Assigned(old(strings), name, value, IsStringName(name))
    {
      if IsStringName(name) && name in strings {
        strings := strings[name := value];
      }
    }
  }

  /** Sets a variable that exists and whose name fits. */
  function Assigned<V>(m: map<string, V>, name: string, value: V, fits: bool): map<string, V> {
    if fits && name in m then m[name := value] else m
  }

  lemma AssignedKeys<V>(m: map<string, V>, name: string, value: V, fits: bool)
    ensures Assigned(m, name, value, fits).Keys == m.Keys
  {
  }

  lemma AssignedAt<V>(m: map<string, V>, name: string, value: V, fits: bool, n: string)
    requires n in m
    ensures n in Assigned(m, name, value, fits)
    ensures Assigned(m, name, value, fits)[n] == if fits && n == name then value else m[n]
  {
  }

  lemma AssignedTwice<V>(m: map<string, V>, name: string, value: V, fits: bool)
    ensures Assigned(Assigned(m, name, value, fits), name, value, fits) == Assigned(m, name, value, fits)
  {
  }

  /** The live ones, in order. */
  ghost function Live(s: seq<Expression>): seq<Expression>
    reads s`alive
  {
    if s == [] then [] else Live(s[..|s| - 1]) + if s[|s| - 1].alive then [s[|s| - 1]] else []
  }

  lemma {:induction false} InLive(s: seq<Expression>, e: Expression)
    ensures e in Live(s) <==> e in s && e.alive
  {
    if s != [] {
      InLive(s[..|s| - 1], e);
      assert s == s[..|s| - 1] + [s[|s| - 1]];
    }
  }

  /** Every variable in `m` has its remembered value, or its initial one if none is remembered. */
  ghost predicate Agrees<V>(m: map<string, V>, remembered: map<string, V>, constants: map<string, V>, zero: V) {
    forall n :: n in m ==> m[n] == if n in remembered then remembered[n] else Initial(constants, zero, n)
  }

  /** Visits the expressions in turn, sets the variable in the live ones and drops the others. */
  method SetNumberInAll(all: seq<Expression>, name: string, value: real) returns (kept: seq<Expression>)
    modifies all`numbers
    ensures kept == Live(all)
    ensures forall e :: e in all ==>
              e.numbers == if e.alive then Assigned(old(e.numbers), name, value, !IsStringName(name))
                else old(e.numbers)
  {
    hide Assigned, IsStringName;
    kept := [];
    assert all[..|all|] == all;
    for i := 0 to |all|
      invariant kept == Live(all[..i])
      invariant forall j :: 0 <= j < i && all[j].alive ==>
                all[j].numbers == Assigned(old(all[j].numbers), name, value, !IsStringName(name))
      invariant forall j :: 0 <= j < |all| && !all[j].alive ==> all[j].numbers == old(all[j].numbers)
      invariant forall j :: i <= j < |all| ==>
                  all[j].numbers == old(all[j].numbers)
                    || all[j].numbers == Assigned(old(all[j].numbers), name, value, !IsStringName(name))
    {
      var e := all[i];
      assert all[..i + 1][..i] == all[..i];
      if e.alive {
        AssignedTwice(old(e.numbers), name, value, !IsStringName(name));
        e.SetNumber(name, value);
        kept := kept + [e];
      }
    }
  }

  /** Visits the expressions in turn, sets the variable in the live ones and drops the others. */
  method SetStringInAll(all: seq<Expression>, name: string, value: string) returns (kept: seq<Expression>)
    modifies all`strings
    ensures kept == Live(all)
    ensures forall e :: e in all ==>
              e.strings == if e.alive then Assigned(old(e.strings), name, value, IsStringName(name)) else old(e.strings)
  {
    hide Assigned, IsStringName;
    kept := [];
    assert all[..|all|] == all;
    for i := 0 to |all|
      invariant kept == Live(all[..i])
      invariant forall j :: 0 <= j < i && all[j].alive ==>
                all[j].strings == Assigned(old(all[j].strings), name, value, IsStringName(name))
      invariant forall j :: 0 <= j < |all| && !all[j].alive ==> all[j].strings == old(all[j].strings)
      invariant forall j :: i <= j < |all| ==>
                  all[j].strings == old(all[j].strings)
                    || all[j].strings == Assigned(old(all[j].strings), name, value, IsStringName(name))
    {
      var e := all[i];
      assert all[..i + 1][..i] == all[..i];
      if e.alive {
        AssignedTwice(old(e.strings), name, value, IsStringName(name));
        e.SetString(name, value);
        kept := kept + [e];
      }
    }
  }

  lemma AgreesAfter<V>(m: map<string, V>, remembered: map<string, V>, constants: map<string, V>, zero: V, name: string,
                       value: V, fits: bool)
    requires Agrees(m, remembered, constants, zero)
    ensures var m', remembered' := Assigned(m, name, value, fits), if fits then remembered[name := value]
            else remembered;
            Agrees(m', remembered', constants, zero) && m'.Keys == m.Keys
  {
  }

  class Manager {
    const constants: map<string, real>
    var expressions: seq<Expression>
    var numbers: map<string, real>
    var strings: map<string, string>

    /** Every live expression holds the remembered value of each of its variables. */
    ghost predicate Valid()
      reads this, expressions
    {
      && (forall n :: n in numbers ==> !IsStringName(n))
      && (forall n :: n in strings ==> IsStringName(n))
      && forall e :: e in expressions && e.alive ==>
           e.Sorted() && Agrees(e.numbers, numbers, constants, 0.0) && Agrees(e.strings, strings, map[], "")
    }

    constructor (constants: map<string, real>)
      ensures Valid() && this.constants == constants && expressions == [] && numbers == map[] && strings == map[]
    {
      this.constants := constants;
      expressions := [];
      numbers := map[];
      strings := map[];
    }

    /** Takes in an expression, and brings it up to date if it is alive. Its variables that were never set elsewhere are
        as they were compiled. */
    method Insert(e: Expression)
      requires Valid()
      requires e.alive && e !in expressions ==>
                 e.Sorted() && (forall n :: n in e.numbers && n !in numbers ==>
                   e.numbers[n] == Initial(constants, 0.0, n))
                 && forall n :: n in e.strings && n !in strings ==> e.strings[n] == ""
      modifies this`expressions, e
      ensures Valid() && expressions == old(expressions) + [e]
      ensures e.alive == old(e.alive) && e.numbers.Keys == old(e.numbers.Keys) && e.strings.Keys == old(e.strings.Keys)
      ensures !e.alive ==> e.numbers == old(e.numbers) && e.strings == old(e.strings)
      ensures e.alive ==>
                forall n :: n in e.numbers ==> e.numbers[n] == if n in numbers then numbers[n] else old(e.numbers)[n]
      ensures e.alive ==>
                forall n :: n in e.strings ==> e.strings[n] == if n in strings then strings[n] else old(e.strings)[n]
    {
      expressions := expressions + [e];
      if e.alive {
        assert e !in old(expressions)
               || (Agrees(e.numbers, numbers, constants, 0.0) && Agrees(e.strings, strings, map[], ""));
        AssignNumbers(e);
        AssignStrings(e);
        assert e.Sorted() && Agrees(e.numbers, numbers, constants, 0.0) && Agrees(e.strings, strings, map[], "");
      }
      assert forall d :: d in expressions ==> d in old(expressions) || d == e;
    }

    method AssignNumbers(e: Expression)
      requires forall n :: n in numbers ==> !IsStringName(n)
      modifies e`numbers
      ensures e.numbers.Keys == old(e.numbers.Keys)
      ensures forall n :: n in e.numbers ==> e.numbers[n] == if n in numbers then numbers[n] else old(e.numbers)[n]
    {
      var names := numbers.Keys;
      while names != {}
        invariant names <= numbers.Keys && e.numbers.Keys == old(e.numbers.Keys)
        invariant forall n :: n in e.numbers ==>
                    e.numbers[n] == if n in numbers && n !in names then numbers[n] else old(e.numbers)[n]
      {
        var n :| n in names;
        e.SetNumber(n, numbers[n]);
        names := names - {n};
      }
    }

    method AssignStrings(e: Expression)
      requires forall n :: n in strings ==> IsStringName(n)
      modifies e`strings
      ensures e.strings.Keys == old(e.strings.Keys)
      ensures forall n :: n in e.strings ==> e.strings[n] == if n in strings then strings[n] else old(e.strings)[n]
    {
      var names := strings.Keys;
      while names != {}
        invariant names <= strings.Keys && e.strings.Keys == old(e.strings.Keys)
        invariant forall n :: n in e.strings ==>
                    e.strings[n] == if n in strings && n !in names then strings[n] else old(e.strings)[n]
      {
        var n :| n in names;
        e.SetString(n, strings[n]);
        names := names - {n};
      }
    }

    /** Sets a number in every live expression and drops the others. The value is remembered only if some expression is
        alive. */
    method SetNumber(name: string, value: real)
      requires Valid()
      modifies this`expressions, this`numbers, expressions`numbers
      ensures Valid()
      ensures expressions == Live(old(expressions))
      ensures forall e :: e in old(expressions) ==>
                e.numbers == if e.alive then Assigned(old(e.numbers), name, value, !IsStringName(name))
                  else old(e.numbers)
      ensures forall e :: e in old(expressions) ==> e.numbers.Keys == old(e.numbers.Keys)
      ensures forall e, n :: e in old(expressions) && n in old(e.numbers) ==>
                e.numbers[n] == if e.alive && n == name then value else old(e.numbers)[n]
      ensures numbers == if !IsStringName(name) && expressions != [] then old(numbers)[name := value] else old(numbers)
    {
      hide Assigned, Agrees, Live;
      ghost var all := expressions;
      expressions := SetNumberInAll(expressions, name, value);
      if !IsStringName(name) && expressions != [] {
        numbers := numbers[name := value];
      }
      forall e: Expression | e in all ensures e.numbers.Keys == old(e.numbers.Keys) {
        AssignedKeys(old(e.numbers), name, value, !IsStringName(name));
      }
      forall e: Expression, n | e in all && n in old(e.numbers)
        ensures n in e.numbers && e.numbers[n] == if e.alive && n == name then value else old(e.numbers)[n]
      {
        AssignedAt(old(e.numbers), name, value, !IsStringName(name), n);
      }
      forall e: Expression | e in expressions && e.alive
        ensures e.Sorted() && Agrees(e.numbers, numbers, constants, 0.0) && Agrees(e.strings, strings, map[], "")
      {
        InLive(all, e);
        AgreesAfter(old(e.numbers), old(numbers), constants, 0.0, name, value, !IsStringName(name));
      }
    }

    method SetString(name: string, value: string)
      requires Valid()
      modifies this`expressions, this`strings, expressions`strings
      ensures Valid()
      ensures expressions == Live(old(expressions))
      ensures forall e :: e in old(expressions) ==>
                e.strings == if e.alive then Assigned(old(e.strings), name, value, IsStringName(name))
                  else old(e.strings)
      ensures forall e :: e in old(expressions) ==> e.strings.Keys == old(e.strings.Keys)
      ensures forall e, n :: e in old(expressions) && n in old(e.strings) ==>
                e.strings[n] == if e.alive && n == name then value else old(e.strings)[n]
      ensures strings == if IsStringName(name) && expressions != [] then old(strings)[name := value] else old(strings)
    {
      hide Assigned, Agrees, Live;
      ghost var all := expressions;
      expressions := SetStringInAll(expressions, name, value);
      if IsStringName(name) && expressions != [] {
        strings := strings[name := value];
      }
      forall e: Expression | e in all ensures e.strings.Keys == old(e.strings.Keys) {
        AssignedKeys(old(e.strings), name, value, IsStringName(name));
      }
      forall e: Expression, n | e in all && n in old(e.strings)
        ensures n in e.strings && e.strings[n] == if e.alive && n == name then value else old(e.strings)[n]
      {
        AssignedAt(old(e.strings), name, value, IsStringName(name), n);
      }
      forall e: Expression | e in expressions && e.alive
        ensures e.Sorted() && Agrees(e.strings, strings, map[], "") && Agrees(e.numbers, numbers, constants, 0.0)
      {
        InLive(all, e);
        AgreesAfter(old(e.strings), old(strings), map[], "", name, value, IsStringName(name));
      }
    }

    /** The owner of an expression lets go of it. */
    method Expire(e: Expression)
      requires Valid()
      modifies e`alive
      ensures Valid() && !e.alive
    {
      e.alive := false;
    }

    /** Live expressions agree on every variable that they share, whenever each of them came in. */
    lemma LiveExpressionsAgree(d: Expression, e: Expression, name: string)
      requires Valid() && d in expressions && e in expressions && d.alive && e.alive
      ensures name in d.numbers && name in e.numbers ==> d.numbers[name] == e.numbers[name]
      ensures name in d.strings && name in e.strings ==> d.strings[name] == e.strings[name]
    {
    }
  }
}
