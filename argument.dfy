/**
 * The command-line argument parser. An argument has a long name ("--run")
 * and a short one ("-r"), both mapped to the same argument object, and one
 * or more secondary arguments ("--dump rj"), each with its own callback and
 * a switch flag: a switch takes no input, any other argument takes the next
 * token as its input. An argument whose only secondary is "" takes no
 * secondary token. Several one-letter switches can be combined ("-xy").
 * The callbacks are outside the model: the parser's result is the list of
 * calls it makes, in order, and how it ends.
 */
module Arguments {

  import opened Wrappers

  /** What a secondary argument carries: its description and switch flag. */
  datatype Properties = Properties(description: string, isSwitch: bool)

  /** One callback invocation: the argument (by its long name), the secondary
    * argument and the input string. */
  datatype Call = Call(arg: string, secondary: string, input: string)

  /** How processing the command line ends: all tokens consumed, help printed,
    * a missing token, an invalid argument, or (as written) a failed assertion. */
  datatype Outcome = Done | HelpShown | Incomplete(arg: string, secondary: string)
                   | Invalid(arg: string, secondary: string) | AssertionFailure

  /** The asserts of `addSecondaryArg` as written: the secondary is new, and
    * "" is not among the secondaries when there are any. */
  predicate AdmitsAsWritten(props: map<string, Properties>, secondary: string)
  {
    secondary !in props && (|props| > 0 ==> "" !in props)
  }

  /** The rule the asserts are there for: besides the above, "" is only
    * admitted as the first secondary. */
  predicate Admits(props: map<string, Properties>, secondary: string)
  {
    AdmitsAsWritten(props, secondary) && (secondary == "" ==> |props| == 0)
  }

  /** "" never stands beside another secondary argument. */
  predicate PlainAlone(props: map<string, Properties>)
  {
    "" in props ==> props.Keys == {""}
  }

  /** Adding an admitted secondary keeps "" alone. */
  lemma AdmitsKeepsPlainAlone(props: map<string, Properties>, secondary: string, p: Properties)
    requires PlainAlone(props) && Admits(props, secondary)
    ensures PlainAlone(props[secondary := p])
  {
    if "" in props[secondary := p] {
      if secondary == "" {
        assert props == map[];
      } else {
        assert false;
      }
    }
  }

  /** As written, "" is admitted after another secondary, and then stands
    * beside it: "--dump" with secondary "rj" can be given "" as well. */
  lemma AsWrittenAdmitsPlainBesideOther(p: Properties, q: Properties)
    ensures AdmitsAsWritten(map["rj" := p], "")
    ensures !PlainAlone(map["rj" := p][""  := q])
    ensures !Admits(map["rj" := p], "")
  {
    assert "rj" in map["rj" := p][""  := q];
  }

  /** An argument: long and short name and its secondary arguments. */
  class Argument {
    const largeArg: string
    const shortArg: string
    var properties: map<string, Properties>

    /** The long name starts with "--", there is at least one secondary, and
      * "" stands alone. */
    predicate Valid()
      reads this
    {
      |largeArg| >= 2 && largeArg[..2] == "--" && |properties| > 0 && PlainAlone(properties)
    }

    /** `Argument(long, short, description, fn, switch, secondary)`: asserts
      * the long name starts with "--". */
    constructor (large: string, short: string, description: string, isSwitch: bool, secondary: string)
      requires |large| >= 2 && large[..2] == "--"
      ensures largeArg == large && shortArg == short
      ensures properties == map[secondary := Properties(description, isSwitch)]
      ensures Valid()
    {
      largeArg := large;
      shortArg := short;
      properties := map[secondary := Properties(description, isSwitch)];
    }

    /** `addSecondaryArg(description, fn, switch, secondary)` as written. */
    method AddSecondaryArgAsWritten(description: string, isSwitch: bool, secondary: string)
      requires AdmitsAsWritten(properties, secondary)
      modifies this`properties
      ensures properties == old(properties)[secondary := Properties(description, isSwitch)]
    {
      properties := properties[secondary := Properties(description, isSwitch)];
    }

    /** `addSecondaryArg` with "" refused once other secondaries exist, which
      * keeps the argument valid. */
    method AddSecondaryArg(description: string, isSwitch: bool, secondary: string)
      requires Valid() && Admits(properties, secondary)
      modifies this`properties
      ensures properties == old(properties)[secondary := Properties(description, isSwitch)]
      ensures Valid()
    {
      AdmitsKeepsPlainAlone(properties, secondary, Properties(description, isSwitch));
      properties := properties[secondary := Properties(description, isSwitch)];
    }

    /** `hasSecondaryArgs()`: "" is not a secondary. */
    predicate HasSecondaryArgs()
      reads this
    {
      "" !in properties
    }
  }

  /** A valid argument has secondary arguments iff none of its secondaries is
    * "", and otherwise "" is its only one. */
  lemma HasSecondaryArgsMeaning(a: Argument)
    requires a.Valid()
    ensures a.HasSecondaryArgs() <==> forall s :: s in a.properties ==> s != ""
    ensures !a.HasSecondaryArgs() ==> a.properties.Keys == {""}
  {
  }

  /** `isSwitch(secondary)` as written: asserts the secondary exists before
    * reading its flag. */
  function IsSwitchAsWritten(props: map<string, Properties>, secondary: string): (r: Result<bool, Outcome>)
    ensures r.Err? <==> secondary !in props
    ensures r.Ok? ==> r.value == props[secondary].isSwitch
  {
    if secondary !in props then Err(AssertionFailure) else Ok(props[secondary].isSwitch)
  }

  /** The parser's table as values: each name with the long name of its
    * argument and that argument's secondaries. */
  type Table = map<string, (string, map<string, Properties>)>

  /** The result of processing the token at one position: the calls made and
    * the position of the next token, or the calls made and how it ends. */
  datatype StepResult = Next(calls: seq<Call>, next: nat) | Stop(calls: seq<Call>, outcome: Outcome)

  /** A name for a one-letter switch that can be combined: an argument with
    * only the "" secondary, which is a switch. */
  predicate PlainSwitch(t: Table, name: string)
  {
    name in t && "" in t[name].1 && t[name].1[""].isSwitch
  }

  /** The combined switch `a` ("-xy"), characters `k` down to 1: the calls made
    * until an invalid letter, and whether every letter was valid. */
  function Combined(t: Table, a: string, k: int): (r: (seq<Call>, bool))
    requires k < |a|
    decreases k
  {
    if k <= 0 then ([], true)
    else if !PlainSwitch(t, ['-', a[k]]) then ([], false)
    else
      var rest := Combined(t, a, k - 1);
      ([Call(t[['-', a[k]]].0, "", "")] + rest.0, rest.1)
  }

  /**
   * One iteration of `processArguments` at token `i`: help; a known name,
   * which takes a secondary token when it has secondaries and an input token
   * when the secondary is not a switch; a combined switch; or an invalid
   * argument. An unknown secondary is an invalid argument.
   */
  function Step(t: Table, argv: seq<string>, i: nat): (r: StepResult)
    requires i < |argv|
    ensures r.Next? ==> i < r.next <= |argv|
  {
    var a := argv[i];
    if a == "--help" || a == "-h" then Stop([], HelpShown)
    else if a in t then
      var props := t[a].1;
      if "" !in props && i >= |argv| - 1 then Stop([], Incomplete(a, ""))
      else
        var secondary := if "" !in props then argv[i + 1] else "";
        var j := if "" !in props then i + 1 else i;
        if secondary !in props then Stop([], Invalid(a, secondary))
        else if !props[secondary].isSwitch && j >= |argv| - 1 then Stop([], Incomplete(a, secondary))
        else
          var input := if !props[secondary].isSwitch then argv[j + 1] else "";
          var last := if !props[secondary].isSwitch then j + 1 else j;
          Next([Call(t[a].0, secondary, input)], last + 1)
    else if |a| > 1 && a[0] == '-' then
      var c := Combined(t, a, |a| - 1);
      if c.1 then Next(c.0, i + 1) else Stop(c.0, Invalid(a, ""))
    else Stop([], Invalid(a, ""))
  }

  /** Processing the command line from token `i` on. */
  function ParseFrom(t: Table, argv: seq<string>, i: nat): (seq<Call>, Outcome)
    requires i <= |argv|
    decreases |argv| - i
  {
    if i == |argv| then ([], Done)
    else
      match Step(t, argv, i)
      case Stop(calls, outcome) => (calls, outcome)
      case Next(calls, j) =>
        var rest := ParseFrom(t, argv, j);
        (calls + rest.0, rest.1)
  }

  /** The secondary argument a known name at `i` reads: the next token when
    * the argument has secondaries and there is one, else "". */
  function SecondaryAt(t: Table, argv: seq<string>, i: nat): string
    requires i < |argv| && argv[i] in t
  {
    if "" !in t[argv[i]].1 && i + 1 < |argv| then argv[i + 1] else ""
  }

  /** The tokens a known name at `i` wants: itself, a secondary when it has
    * secondaries, and an input when the secondary is known and no switch. */
  function Wanted(t: Table, argv: seq<string>, i: nat): nat
    requires i < |argv| && argv[i] in t
  {
    var props := t[argv[i]].1;
    var secondary := SecondaryAt(t, argv, i);
    1 + (if "" !in props then 1 else 0) + (if secondary in props && !props[secondary].isSwitch then 1 else 0)
  }

  /** One step of processing, seen from the calls made before it. */
  lemma ParseStep(t: Table, argv: seq<string>, i: nat, calls: seq<Call>)
    requires i < |argv|
    ensures Step(t, argv, i).Stop? ==>
              (calls + ParseFrom(t, argv, i).0, ParseFrom(t, argv, i).1)
              == (calls + Step(t, argv, i).calls, Step(t, argv, i).outcome)
    ensures Step(t, argv, i).Next? ==>
              (calls + ParseFrom(t, argv, i).0, ParseFrom(t, argv, i).1)
              == (calls + Step(t, argv, i).calls + ParseFrom(t, argv, Step(t, argv, i).next).0,
                  ParseFrom(t, argv, Step(t, argv, i).next).1)
  {
    var r := Step(t, argv, i);
    if r.Next? {
      var rest := ParseFrom(t, argv, r.next).0;
      assert calls + (r.calls + rest) == calls + r.calls + rest;
    }
  }

  /** A known argument consumes exactly the tokens it wants and makes one call
    * with its secondary and input; when they are not all there it is an
    * incomplete argument, and an unknown secondary is an invalid one. */
  lemma KnownArgumentTokens(t: Table, argv: seq<string>, i: nat)
    requires i < |argv| && argv[i] in t && argv[i] != "--help" && argv[i] != "-h"
    ensures var props := t[argv[i]].1;
            var secondary := SecondaryAt(t, argv, i);
            var r := Step(t, argv, i);
            (r.Next? <==> secondary in props && i + Wanted(t, argv, i) <= |argv|)
            && (r.Next? ==> r.next == i + Wanted(t, argv, i)
                            && r.calls == [Call(t[argv[i]].0, secondary,
                                                if props[secondary].isSwitch then "" else argv[r.next - 1])])
            && (r.Stop? ==> r.calls == []
                            && (r.outcome == Invalid(argv[i], secondary) <==> secondary !in props && i + 1 < |argv|)
                            && (r.outcome == Incomplete(argv[i], secondary) <==> !(secondary !in props && i + 1 < |argv|)))
  {
  }

  /** An unknown secondary after an argument with secondaries: as written,
    * `isSwitch` asserts before the invalid-argument error can be reported;
    * the step reports that error. */
  lemma UnknownSecondary(t: Table, argv: seq<string>, i: nat)
    requires i + 1 < |argv| && argv[i] in t && argv[i] != "--help" && argv[i] != "-h"
    requires "" !in t[argv[i]].1 && argv[i + 1] !in t[argv[i]].1
    ensures IsSwitchAsWritten(t[argv[i]].1, argv[i + 1]) == Err(AssertionFailure)
    ensures Step(t, argv, i) == Stop([], Invalid(argv[i], argv[i + 1]))
  {
  }

  /** A combined switch is valid iff each of its letters names a plain switch;
    * then its calls run the letters from right to left. */
  lemma {:induction false} CombinedRightToLeft(t: Table, a: string, k: int)
    requires 0 <= k < |a|
    ensures Combined(t, a, k).1 <==> forall j :: 1 <= j <= k ==> PlainSwitch(t, ['-', a[j]])
    ensures Combined(t, a, k).1 ==> |Combined(t, a, k).0| == k
    ensures Combined(t, a, k).1 ==> forall j :: 0 <= j < k ==> Combined(t, a, k).0[j] == Call(t[['-', a[k - j]]].0, "", "")
    decreases k
  {
    if k > 0 {
      CombinedRightToLeft(t, a, k - 1);
    }
  }

  /** The argument under `k` is valid, `k` is its long or short name, and
    * both its names map to it. */
  predicate Linked(m: map<string, Argument>, k: string)
    reads m.Values
  {
    k in m
    && var a := m[k];
    a.Valid() && (k == a.largeArg || k == a.shortArg)
    && a.largeArg in m && m[a.largeArg] == a
    && a.shortArg in m && m[a.shortArg] == a
  }

  /** Mapping two new names to an argument of which they are the names keeps
    * every name linked. */
  lemma LinkedAfterAdd(m: map<string, Argument>, arg: Argument, k: string)
    requires forall j :: j in m ==> Linked(m, j)
    requires arg.largeArg !in m && arg.shortArg !in m && arg.Valid()
    requires k in m[arg.largeArg := arg][arg.shortArg := arg]
    ensures Linked(m[arg.largeArg := arg][arg.shortArg := arg], k)
  {
    if k != arg.largeArg && k != arg.shortArg {
      assert Linked(m, k);
    }
  }

  /**
   * The parser: every name maps to an argument of which it is the long or
   * the short name, and an argument's long and short names both map to it.
   */
  class ArgumentParser {
    var arguments: map<string, Argument>

    predicate Valid()
      reads this, arguments.Values
    {
      forall k :: k in arguments ==> Linked(arguments, k)
    }

    constructor ()
      ensures arguments == map[] && Valid()
    {
      arguments := map[];
    }

    /** The table the parser reads, as values. */
    function Table(): Table
      reads this, arguments.Values
    {
      map k | k in arguments :: (arguments[k].largeArg, arguments[k].properties)
    }

    /**
     * `addArguments(long, short, description, switch, fn, secondary)`: both
     * names must map to the same argument, or both to none. Without one, a new
     * argument is created and both names map to it; otherwise the secondary is
     * added to the existing argument.
     */
    method AddArguments(large: string, short: string, description: string, isSwitch: bool, secondary: string)
      requires Valid()
      requires (large in arguments) == (short in arguments)
      requires large in arguments ==> arguments[large] == arguments[short]
      requires large !in arguments ==> |large| >= 2 && large[..2] == "--"
      requires large in arguments ==> Admits(arguments[large].properties, secondary)
      modifies this, if large in arguments then {arguments[large]} else {}
      ensures Valid()
      ensures large in arguments && short in arguments && arguments[large] == arguments[short]
      ensures arguments[large].properties
              == (if large in old(arguments) then old(arguments[large].properties) else map[])
                 [secondary := Properties(description, isSwitch)]
      ensures large in old(arguments) ==> arguments == old(arguments)
      ensures large !in old(arguments) ==>
                arguments == old(arguments)[large := arguments[large]][short := arguments[large]]
                && fresh(arguments[large])
      ensures forall k :: k in old(arguments) && old(arguments[k]) != arguments[large] ==>
                arguments[k].properties == old(arguments[k].properties)
    {
      if large !in arguments {
        AddNew(large, short, description, isSwitch, secondary);
      } else {
        AddToExisting(large, description, isSwitch, secondary);
      }
    }

    /** `addArguments` for names not in the parser: a new argument under both. */
    method AddNew(large: string, short: string, description: string, isSwitch: bool, secondary: string)
      requires Valid() && large !in arguments && short !in arguments
      requires |large| >= 2 && large[..2] == "--"
      modifies this
      ensures Valid()
      ensures large in arguments && short in arguments && arguments[large] == arguments[short]
      ensures arguments[large].properties == map[secondary := Properties(description, isSwitch)]
      ensures arguments == old(arguments)[large := arguments[large]][short := arguments[large]]
      ensures fresh(arguments[large])
    {
      var arg := new Argument(large, short, description, isSwitch, secondary);
      ghost var before := arguments;
      assert forall k :: k in before ==> Linked(before, k);
      arguments := arguments[large := arg][short := arg];
      forall k | k in arguments
        ensures Linked(arguments, k)
      {
        LinkedAfterAdd(before, arg, k);
      }
    }

    /** `addArguments` for names already in the parser: the secondary is added
      * to their argument. */
    method AddToExisting(large: string, description: string, isSwitch: bool, secondary: string)
      requires Valid() && large in arguments
      requires Admits(arguments[large].properties, secondary)
      modifies arguments[large]
      ensures Valid()
      ensures arguments[large].properties == old(arguments[large].properties)[secondary := Properties(description, isSwitch)]
      ensures forall k :: k in arguments && arguments[k] != arguments[large] ==>
                arguments[k].properties == old(arguments[k].properties)
    {
      var arg := arguments[large];
      arg.AddSecondaryArg(description, isSwitch, secondary);
      forall k | k in arguments
        ensures Linked(arguments, k)
      {
        assert old(Linked(arguments, k));
      }
    }

    /** The combined switch `a`, its letters from last to first, as the inner
      * loop of `processArguments`. */
    method RunCombined(a: string) returns (calls: seq<Call>, valid: bool)
      requires |a| > 1
      ensures (calls, valid) == Combined(Table(), a, |a| - 1)
    {
      ghost var t := Table();
      calls := [];
      valid := true;
      var k := |a| - 1;
      assert calls + Combined(t, a, k).0 == Combined(t, a, k).0;
      while k > 0
        invariant 0 <= k < |a|
        invariant valid
        invariant Combined(t, a, |a| - 1) == (calls + Combined(t, a, k).0, Combined(t, a, k).1)
      {
        var name := ['-', a[k]];
        if name !in arguments {
          assert name !in t && calls + [] == calls;
          return calls, false;
        }
        var arg := arguments[name];
        assert t[name] == (arg.largeArg, arg.properties);
        if !("" in arg.properties && arg.properties[""].isSwitch) {
          assert !PlainSwitch(t, name) && calls + [] == calls;
          return calls, false;
        }
        var c := Call(arg.largeArg, "", "");
        assert calls + [c] + Combined(t, a, k - 1).0 == calls + ([c] + Combined(t, a, k - 1).0);
        calls := calls + [c];
        k := k - 1;
      }
      assert calls + Combined(t, a, k).0 == calls;
    }

    /** The body of the loop of `processArguments` for the token at `i`. */
    method StepAt(argv: seq<string>, i: nat) returns (r: StepResult)
      requires i < |argv|
      ensures r == Step(Table(), argv, i)
    {
      var a := argv[i];
      if a == "--help" || a == "-h" {
        return Stop([], HelpShown);
      }
      if a in arguments {
        var arg := arguments[a];
        var j := i;
        var secondary := "";
        if "" !in arg.properties {
          if j >= |argv| - 1 {
            return Stop([], Incomplete(a, ""));
          }
          secondary := argv[j + 1];
          j := j + 1;
        }
        if secondary !in arg.properties {
          return Stop([], Invalid(a, secondary));
        }
        var input := "";
        if !arg.properties[secondary].isSwitch {
          if j >= |argv| - 1 {
            return Stop([], Incomplete(a, secondary));
          }
          input := argv[j + 1];
          j := j + 1;
        }
        return Next([Call(arg.largeArg, secondary, input)], j + 1);
      }
      if |a| > 1 && a[0] == '-' {
        var calls, valid := RunCombined(a);
        if valid {
          return Next(calls, i + 1);
        }
        return Stop(calls, Invalid(a, ""));
      }
      return Stop([], Invalid(a, ""));
    }

    /** `processArguments(argc, argv)`: the tokens in order, each step making
      * its calls, until the end of the line, help or an error. */
    method ProcessArguments(argv: seq<string>) returns (calls: seq<Call>, outcome: Outcome)
      ensures (calls, outcome) == ParseFrom(Table(), argv, 0)
    {
      ghost var t := Table();
      calls := [];
      var i := 0;
      assert calls + ParseFrom(t, argv, i).0 == ParseFrom(t, argv, i).0;
      while i < |argv|
        invariant i <= |argv|
        invariant ParseFrom(t, argv, 0) == (calls + ParseFrom(t, argv, i).0, ParseFrom(t, argv, i).1)
        decreases |argv| - i
      {
        var r := StepAt(argv, i);
        ParseStep(t, argv, i, calls);
        if r.Stop? {
          return calls + r.calls, r.outcome;
        }
        calls := calls + r.calls;
        i := r.next;
      }
      assert calls + ParseFrom(t, argv, i).0 == calls;
      outcome := Done;
    }
  }
}
