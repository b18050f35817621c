/**
  `macro run` (cmd/macro_run.go): every macro named by the first argument runs its
  commands in order, each command running the first `raw` subcommand of that name with
  the remaining arguments.

  The macro file arrives decoded, and the `raw` subcommands in the order cobra lists
  them. A run of a subcommand is recorded as an `Invocation` instead of being made.
 */
module MacroRun {
  import opened Text
  import opened RawCli

  /** One entry of the macro file: a name and the subcommand names it runs. */
  datatype Macro = Macro(name: string, commands: seq<string>)

  /** A run of the `raw` subcommand at `subcommand`, with these arguments. */
  datatype Invocation = Invocation(subcommand: nat, args: seq<string>)

  /** The list of macros is shown instead, or these runs happen, with the warning when no macro had the name. */
  datatype Outcome = ListShown | Ran(invocations: seq<Invocation>, warned: bool)

  /** The first subcommand called `name`, or -1 when there is none. */
  function Lookup(subs: seq<SubCommand>, name: string): (k: int)
    ensures -1 <= k < |subs|
    ensures k >= 0 ==> CommandName(subs[k]) == name
    ensures forall j :: 0 <= j < |subs| && (k == -1 || j < k) ==> CommandName(subs[j]) != name
  {
    if |subs| == 0 then -1
    else if CommandName(subs[0]) == name then 0
    else
      var k := Lookup(subs[1..], name);
      if k == -1 then -1 else k + 1
  }

  /** The runs of a macro's commands, in order; a name no subcommand has runs nothing. */
  function CommandRuns(subs: seq<SubCommand>, names: seq<string>, rest: seq<string>): seq<Invocation>
  {
    if |names| == 0 then []
    else
      var k := Lookup(subs, names[|names| - 1]);
      CommandRuns(subs, names[..|names| - 1], rest) + (if k >= 0 then [Invocation(k, rest)] else [])
  }

  /** The runs of every macro called `target`, in the order of the macro file. */
  function MacroRuns(macros: seq<Macro>, subs: seq<SubCommand>, target: string, rest: seq<string>): seq<Invocation>
  {
    if |macros| == 0 then []
    else
      var m := macros[|macros| - 1];
      MacroRuns(macros[..|macros| - 1], subs, target, rest)
        + (if m.name == target then CommandRuns(subs, m.commands, rest) else [])
  }

  /** What `macro run` does with its arguments. */
  function MacroOutcome(macros: seq<Macro>, subs: seq<SubCommand>, args: seq<string>): (o: Outcome)
    ensures |args| == 0 <==> o == ListShown
    ensures o.Ran? ==> (o.warned <==> forall i :: 0 <= i < |macros| ==> macros[i].name != args[0])
  {
    if |args| == 0 then ListShown
    else Ran(MacroRuns(macros, subs, args[0], args[1..]), forall i :: 0 <= i < |macros| ==> macros[i].name != args[0])
  }

  /**
    Each run is of the first subcommand bearing one of the macro's command names, with
    the remaining arguments; when every name has a subcommand, one run per name.
   */
  lemma {:induction false} CommandRunsSpec(subs: seq<SubCommand>, names: seq<string>, rest: seq<string>)
    ensures var r := CommandRuns(subs, names, rest);
      && |r| <= |names|
      && (forall t :: 0 <= t < |r| ==>
            r[t].args == rest && exists c :: 0 <= c < |names| && r[t].subcommand == Lookup(subs, names[c]))
      && ((forall c :: 0 <= c < |names| ==> Lookup(subs, names[c]) >= 0) ==> |r| == |names|)
      && ((forall c :: 0 <= c < |names| ==> Lookup(subs, names[c]) == -1) ==> r == [])
  {
    if |names| > 0 {
      var init := names[..|names| - 1];
      CommandRunsSpec(subs, init, rest);
      var prev := CommandRuns(subs, init, rest);
      var r := CommandRuns(subs, names, rest);
      assert forall c :: 0 <= c < |init| ==> init[c] == names[c];
      forall t | 0 <= t < |r|
        ensures r[t].args == rest && exists c :: 0 <= c < |names| && r[t].subcommand == Lookup(subs, names[c])
      {
        if t < |prev| {
          var c :| 0 <= c < |init| && prev[t].subcommand == Lookup(subs, init[c]);
          assert r[t] == prev[t];
        } else {
          assert r[t].subcommand == Lookup(subs, names[|names| - 1]);
        }
      }
    }
  }

  /** The runs of consecutive parts of the command list follow one another. */
  lemma {:induction false} CommandRunsAppend(subs: seq<SubCommand>, a: seq<string>, b: seq<string>, rest: seq<string>)
    ensures CommandRuns(subs, a + b, rest) == CommandRuns(subs, a, rest) + CommandRuns(subs, b, rest)
  {
    if |b| > 0 {
      var b' := b[..|b| - 1];
      assert (a + b)[..|a + b| - 1] == a + b';
      CommandRunsAppend(subs, a, b', rest);
    } else {
      assert a + b == a;
    }
  }

  /** The runs of consecutive parts of the macro list follow one another. */
  lemma {:induction false} MacroRunsAppend(a: seq<Macro>, b: seq<Macro>, subs: seq<SubCommand>, target: string, rest: seq<string>)
    ensures MacroRuns(a + b, subs, target, rest) == MacroRuns(a, subs, target, rest) + MacroRuns(b, subs, target, rest)
  {
    if |b| > 0 {
      var b' := b[..|b| - 1];
      assert (a + b)[..|a + b| - 1] == a + b';
      MacroRunsAppend(a, b', subs, target, rest);
    } else {
      assert a + b == a;
    }
  }

  /**
    Every macro with the name runs, not only the first: the runs of macro `i` appear,
    whole and in order, right after those of the macros before it.
   */
  lemma EveryMatchingMacroRuns(macros: seq<Macro>, subs: seq<SubCommand>, target: string, rest: seq<string>, i: nat)
    requires i < |macros| && macros[i].name == target
    ensures MacroRuns(macros, subs, target, rest) ==
      MacroRuns(macros[..i], subs, target, rest) + CommandRuns(subs, macros[i].commands, rest)
        + MacroRuns(macros[i + 1..], subs, target, rest)
  {
    assert macros == macros[..i] + [macros[i]] + macros[i + 1..];
    MacroRunsAppend(macros[..i] + [macros[i]], macros[i + 1..], subs, target, rest);
    MacroRunsAppend(macros[..i], [macros[i]], subs, target, rest);
    assert MacroRuns([macros[i]], subs, target, rest) == CommandRuns(subs, macros[i].commands, rest) by {
      assert [macros[i]][..0] == [];
    }
  }

  /** A macro with another name runs nothing; with no macro of the name, nothing runs at all. */
  lemma {:induction false} UnmatchedMacrosRunNothing(macros: seq<Macro>, subs: seq<SubCommand>, target: string, rest: seq<string>)
    requires forall i :: 0 <= i < |macros| ==> macros[i].name != target
    ensures MacroRuns(macros, subs, target, rest) == []
  {
    if |macros| > 0 {
      var init := macros[..|macros| - 1];
      assert forall i :: 0 <= i < |init| ==> init[i] == macros[i];
      UnmatchedMacrosRunNothing(init, subs, target, rest);
    }
  }

  /** Every run receives the arguments after the macro name. */
  lemma {:induction false} RunsGetRemainingArgs(macros: seq<Macro>, subs: seq<SubCommand>, target: string, rest: seq<string>)
    ensures forall t :: 0 <= t < |MacroRuns(macros, subs, target, rest)| ==> MacroRuns(macros, subs, target, rest)[t].args == rest
  {
    if |macros| > 0 {
      var m := macros[|macros| - 1];
      RunsGetRemainingArgs(macros[..|macros| - 1], subs, target, rest);
      CommandRunsSpec(subs, m.commands, rest);
    }
  }

  /**
    The commands of one macro, in order: for each, the subcommands are searched and the
    first with that name is run, the search stopping there.
   */
  method RunCommands(subs: seq<SubCommand>, commands: seq<string>, rest: seq<string>) returns (runs: seq<Invocation>)
    ensures runs == CommandRuns(subs, commands, rest)
  {
    runs := [];
    for c := 0 to |commands|
      invariant runs == CommandRuns(subs, commands[..c], rest)
    {
      var command := commands[c];
      assert commands[..c + 1][..c] == commands[..c];
      var k := 0;
      while k < |subs|
        invariant 0 <= k <= |subs|
        invariant forall j :: 0 <= j < k ==> CommandName(subs[j]) != command
        invariant runs == CommandRuns(subs, commands[..c], rest)
      {
        if CommandName(subs[k]) == command {
          runs := runs + [Invocation(k, rest)];
          break;
        }
        k := k + 1;
      }
    }
    assert commands[..|commands|] == commands;
  }

  /**
    `macro run`: with no arguments the macro list is shown; otherwise every macro named
    by the first argument runs its commands, and a warning follows when none had the name.
   */
  method RunMacroRun(macros: seq<Macro>, subs: seq<SubCommand>, args: seq<string>) returns (o: Outcome)
    ensures o == MacroOutcome(macros, subs, args)
  {
    if |args| == 0 {
      return ListShown;
    }
    var found := false;
    var runs: seq<Invocation> := [];
    for m := 0 to |macros|
      invariant found <==> exists j :: 0 <= j < m && macros[j].name == args[0]
      invariant runs == MacroRuns(macros[..m], subs, args[0], args[1..])
    {
      var macro := macros[m];
      assert macros[..m + 1][..m] == macros[..m];
      if macro.name == args[0] {
        found := true;
        var macroRuns := RunCommands(subs, macro.commands, args[1..]);
        runs := runs + macroRuns;
      }
    }
    assert macros[..|macros|] == macros;
    return Ran(runs, !found);
  }
}
