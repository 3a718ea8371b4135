/** The menu loop of `iniciar`, `mostrarMenu` and `ejecutarAccion` as pure
    specification. Console output becomes a list of events; each input line
    arrives already parsed by `Integer.parseInt`, `None` standing for a line
    that throws `NumberFormatException`. */
module Menu {
  import opened Wrappers
  import opened Config
  import opened Loader

  /** One line of the printed menu: `i. name (description)` or `N+1. Salir`. */
  datatype MenuLine = Item(number: int, name: string, description: string) | ExitItem(number: int)

  /** The menu for a registry: its options numbered from 1 in registry order,
      then the exit option. */
  function MenuLines(acts: seq<Action>): seq<MenuLine> {
    seq(|acts|, i requires 0 <= i < |acts| => Item(i + 1, acts[i].name, acts[i].description))
      + [ExitItem(|acts| + 1)]
  }

  /** What one parsed input line selects, for a registry of size `n`. */
  datatype Choice = Select(index: nat) | Leave | BadOption | BadInput

  /** The dispatch rule: 1..n selects action n-1, n+1 leaves, any other number
      is an invalid option, and a line that is not a number is invalid input. */
  function Classify(line: Option<int>, n: nat): (c: Choice)
    ensures c.Select? <==> line.Some? && 1 <= line.value <= n
    ensures c.Select? ==> c.index == line.value - 1 && c.index < n
    ensures c == Leave <==> line == Some(n + 1)
    ensures c == BadOption <==> line.Some? && (line.value <= 0 || line.value > n + 1)
    ensures c == BadInput <==> line.None?
  {
    match line
    case None => BadInput
    case Some(v) =>
      if 0 < v && v <= n then Select(v - 1)
      else if v == n + 1 then Leave
      else BadOption
  }

  /** What the loop reports on the console. Action events carry the registry
      index of the action, whose name is what the console shows. */
  datatype Event =
    | Rendered(menu: seq<MenuLine>)
    | Executing(index: nat)
    | Succeeded(index: nat)
    | Failed(index: nat, message: string)
    | InvalidOption
    | InvalidInput
    | Exit

  /** The report printed once `ejecutar()` has returned or thrown. */
  function Report(i: nat, a: Action): Event {
    match a.outcome
    case Success => Succeeded(i)
    case Failure(msg) => Failed(i, msg)
  }

  /** The events of `ejecutarAccion` on the action at index `i`. */
  function Execution(i: nat, a: Action): seq<Event> {
    [Executing(i), Report(i, a)]
  }

  /** The events of one loop iteration after the menu is shown. */
  function Dispatch(acts: seq<Action>, line: Option<int>): seq<Event> {
    match Classify(line, |acts|)
    case Select(i) => Execution(i, acts[i])
    case Leave => [Exit]
    case BadOption => [InvalidOption]
    case BadInput => [InvalidInput]
  }

  /** The end of a run: its events, how many input lines it read and whether it
      left through the exit option. A run that is not exited ran out of input:
      `Scanner.nextLine` throws right after the menu is shown again. */
  datatype RunResult = RunResult(events: seq<Event>, consumed: nat, exited: bool)

  /** The whole `do { ... } while (opcion != N + 1)` loop over the input lines. */
  function Run(acts: seq<Action>, input: seq<Option<int>>): (r: RunResult)
    ensures r.consumed <= |input|
    ensures r.exited ==> r.consumed >= 1
    ensures !r.exited ==> r.consumed == |input|
    decreases |input|
  {
    var shown := Rendered(MenuLines(acts));
    if input == [] then RunResult([shown], 0, false)
    else
      var step := [shown] + Dispatch(acts, input[0]);
      if Classify(input[0], |acts|) == Leave then RunResult(step, 1, true)
      else
        var rest := Run(acts, input[1..]);
        RunResult(step + rest.events, 1 + rest.consumed, rest.exited)
  }

  /** One iteration of the loop on the input left from position `c`, seen from
      the console written so far (`before`): the menu is shown, the line is
      dispatched, and the run ends there if it was the exit option or else
      goes on with the lines after it. */
  lemma LoopIteration(acts: seq<Action>, input: seq<Option<int>>, c: nat, before: seq<Event>)
    requires c < |input|
    ensures var r := Run(acts, input[c..]);
      var written := before + [Rendered(MenuLines(acts))] + Dispatch(acts, input[c]);
      if Classify(input[c], |acts|) == Leave then
        written == before + r.events && r.consumed == 1 && r.exited
      else
        var r' := Run(acts, input[c + 1..]);
        written + r'.events == before + r.events &&
        r.consumed == 1 + r'.consumed && r.exited == r'.exited
  {
    var rest := input[c..];
    assert rest[0] == input[c] && rest[1..] == input[c + 1..];
    var step := [Rendered(MenuLines(acts))] + Dispatch(acts, input[c]);
    if Classify(input[c], |acts|) != Leave {
      var r' := Run(acts, input[c + 1..]);
      assert Run(acts, rest).events == step + r'.events;
      ConcatAssoc(before, step, r'.events);
    }
    ConcatAssoc(before, [Rendered(MenuLines(acts))], Dispatch(acts, input[c]));
  }

  /** The loop with no input left shows the menu once more and stops there. */
  lemma LoopEnd(acts: seq<Action>, input: seq<Option<int>>)
    ensures Run(acts, input[|input|..]) == RunResult([Rendered(MenuLines(acts))], 0, false)
  {
    assert input[|input|..] == [];
  }

  // ------------------------------------------------------------- counting

  /** How many actions a list of events starts. */
  function CountExecuting(ev: seq<Event>): nat {
    if ev == [] then 0
    else (if ev[0].Executing? then 1 else 0) + CountExecuting(ev[1..])
  }

  /** How many lines select an action. */
  function CountSelections(lines: seq<Option<int>>, n: nat): nat {
    if lines == [] then 0
    else (if Classify(lines[0], n).Select? then 1 else 0) + CountSelections(lines[1..], n)
  }

  lemma {:induction false} CountExecutingConcat(a: seq<Event>, b: seq<Event>)
    ensures CountExecuting(a + b) == CountExecuting(a) + CountExecuting(b)
  {
    if a == [] {
      assert a + b == b;
    } else {
      assert (a + b)[0] == a[0];
      assert (a + b)[1..] == a[1..] + b;
      CountExecutingConcat(a[1..], b);
    }
  }

  // ------------------------------------------------------------- lemmas

  /** The menu numbers agree with the dispatch rule: option k+1 shows action k
      and selects it, and the single exit option, shown last, is N+1. */
  lemma MenuAgreesWithDispatch(acts: seq<Action>)
    ensures |MenuLines(acts)| == |acts| + 1
    ensures forall k :: 0 <= k < |acts| ==>
      MenuLines(acts)[k] == Item(k + 1, acts[k].name, acts[k].description) &&
      Classify(Some(k + 1), |acts|) == Select(k)
    ensures MenuLines(acts)[|acts|] == ExitItem(|acts| + 1)
    ensures Classify(Some(|acts| + 1), |acts|) == Leave
    ensures forall k :: 0 <= k < |MenuLines(acts)| && MenuLines(acts)[k].ExitItem? ==> k == |acts|
  {
  }

  /** With an empty registry the only option is exit, numbered 1, and choosing
      it ends the loop at once. */
  lemma EmptyRegistryOnlyExits(rest: seq<Option<int>>)
    ensures MenuLines([]) == [ExitItem(1)]
    ensures Run([], [Some(1)] + rest) == RunResult([Rendered([ExitItem(1)]), Exit], 1, true)
  {
    assert ([Some(1)] + rest)[0] == Some(1);
  }

  /** The loop stops exactly at the first line that selects exit; with no such
      line it reads every line and then fails for lack of input. A line that is
      not a number never stops it. */
  lemma {:induction false} RunStopsAtFirstExit(acts: seq<Action>, input: seq<Option<int>>)
    ensures var r := Run(acts, input);
      r.exited <==> Some(|acts| + 1) in input
    ensures var r := Run(acts, input);
      r.exited ==> input[r.consumed - 1] == Some(|acts| + 1) &&
                   Some(|acts| + 1) !in input[..r.consumed - 1]
    decreases |input|
  {
    if input != [] && Classify(input[0], |acts|) != Leave {
      RunStopsAtFirstExit(acts, input[1..]);
      var r := Run(acts, input[1..]);
      assert input == [input[0]] + input[1..];
      if r.exited {
        assert input[..r.consumed] == [input[0]] + input[1..][..r.consumed - 1];
      }
    }
  }

  /** The number of actions run equals the number of lines read that select
      an action. */
  lemma {:induction false} RunExecutions(acts: seq<Action>, input: seq<Option<int>>)
    ensures CountExecuting(Run(acts, input).events) ==
            CountSelections(input[..Run(acts, input).consumed], |acts|)
    decreases |input|
  {
    var shown := Rendered(MenuLines(acts));
    if input != [] {
      var step := [shown] + Dispatch(acts, input[0]);
      assert CountExecuting(step) == (if Classify(input[0], |acts|).Select? then 1 else 0) by {
        var d := Dispatch(acts, input[0]);
        CountExecutingConcat([shown], d);
        assert [shown][1..] == [];
        if Classify(input[0], |acts|).Select? {
          CountExecutingConcat([d[0]], [d[1]]);
          assert d == [d[0]] + [d[1]];
          assert [d[0]][1..] == [] && [d[1]][1..] == [];
        } else {
          assert d[1..] == [];
        }
      }
      var r := Run(acts, input);
      if Classify(input[0], |acts|) == Leave {
        assert input[..1] == [input[0]];
        assert input[..1][1..] == [];
      } else {
        RunExecutions(acts, input[1..]);
        var rest := Run(acts, input[1..]);
        CountExecutingConcat(step, rest.events);
        assert input[..r.consumed][1..] == input[1..][..rest.consumed];
      }
    }
  }

  /** A failing action is reported against its index, the loop carries on with
      the next line, and the registry it runs over is the same one. */
  lemma FailureIsContained(acts: seq<Action>, i: nat, rest: seq<Option<int>>)
    requires i < |acts| && acts[i].outcome.Failure?
    ensures var r := Run(acts, [Some(i + 1)] + rest);
      var r' := Run(acts, rest);
      r.events == [Rendered(MenuLines(acts)), Executing(i), Failed(i, acts[i].outcome.message)] + r'.events &&
      r.consumed == 1 + r'.consumed && r.exited == r'.exited
  {
    assert ([Some(i + 1)] + rest)[0] == Some(i + 1);
    assert ([Some(i + 1)] + rest)[1..] == rest;
  }

  /** Every report of an action's result comes right after the notice that the
      action is executing, and says what that action's `ejecutar` did; and every
      such notice is followed by its report. */
  ghost predicate ReportsFollowExecutions(acts: seq<Action>, ev: seq<Event>) {
    && (forall j :: 0 <= j < |ev| && (ev[j].Succeeded? || ev[j].Failed?) ==>
          0 < j && ev[j - 1] == Executing(ev[j].index) &&
          ev[j].index < |acts| && ev[j] == Report(ev[j].index, acts[ev[j].index]))
    && (forall j :: 0 <= j < |ev| && ev[j].Executing? ==>
          j + 1 < |ev| && ev[j].index < |acts| && ev[j + 1] == Report(ev[j].index, acts[ev[j].index]))
  }

  lemma ReportsFollowExecutionsConcat(acts: seq<Action>, a: seq<Event>, b: seq<Event>)
    requires ReportsFollowExecutions(acts, a) && ReportsFollowExecutions(acts, b)
    requires b != [] && b[0].Rendered?
    ensures ReportsFollowExecutions(acts, a + b)
  {
    var ab := a + b;
    forall j | 0 <= j < |ab| && (ab[j].Succeeded? || ab[j].Failed?)
      ensures 0 < j && ab[j - 1] == Executing(ab[j].index)
    {
      if j >= |a| {
        assert ab[j] == b[j - |a|];
        assert ab[j - 1] == b[j - |a| - 1];
      } else {
        assert ab[j] == a[j];
      }
    }
    forall j | 0 <= j < |ab| && ab[j].Executing?
      ensures j + 1 < |ab| && ab[j + 1] == Report(ab[j].index, acts[ab[j].index])
    {
      if j >= |a| {
        assert ab[j] == b[j - |a|];
        assert ab[j + 1] == b[j + 1 - |a|];
      } else {
        assert ab[j] == a[j];
        if j + 1 < |a| {
          assert ab[j + 1] == a[j + 1];
        }
      }
    }
  }

  /** The events of a whole run are well attributed: an action's success or
      failure is reported only right after it started executing, and is the
      outcome of that very action. */
  lemma {:induction false} RunReportsFollowExecutions(acts: seq<Action>, input: seq<Option<int>>)
    ensures ReportsFollowExecutions(acts, Run(acts, input).events)
    decreases |input|
  {
    var shown := Rendered(MenuLines(acts));
    if input != [] {
      var step := [shown] + Dispatch(acts, input[0]);
      assert ReportsFollowExecutions(acts, step);
      if Classify(input[0], |acts|) != Leave {
        RunReportsFollowExecutions(acts, input[1..]);
        ReportsFollowExecutionsConcat(acts, step, Run(acts, input[1..]).events);
      }
    }
  }
}
