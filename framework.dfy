/** The `MenuFramework` class itself: the constructor fills the `acciones` list
    in place with `CargarAcciones`, and `Iniciar` runs the menu loop. Console
    output is kept as two lists the methods append to: the warnings written while
    loading and the events of the menu loop. */
module Framework {
  import opened Wrappers
  import opened Config
  import opened Loader
  import opened Menu

  class MenuFramework {
    const configFile: string
    /** The registry; only the constructor writes it. */
    var acciones: seq<Action>
    /** What the loader wrote on the error stream. */
    var warnings: seq<Warning>
    /** What the menu loop wrote on the console. */
    var trace: seq<Event>

    /** Builds the framework from a configuration file; `source` is what reading
        that file gives and `table` what reflection gives for each class name. */
    constructor (configFile: string, source: ConfigSource, table: Table)
      ensures this.configFile == configFile
      ensures acciones == Load(configFile, source, table).registry
      ensures warnings == Load(configFile, source, table).warnings
      ensures trace == []
    {
      this.configFile := configFile;
      acciones := [];
      warnings := [];
      trace := [];
      new;
      CargarAcciones(source, table);
    }

    /** Appends to the registry the actions the configuration names and to the
        warnings what went wrong, identifier by identifier. An unreadable file
        is reported and leaves the registry as it was. */
    method CargarAcciones(source: ConfigSource, table: Table)
      modifies this`acciones, this`warnings
      ensures acciones == old(acciones) + Load(configFile, source, table).registry
      ensures warnings == old(warnings) + Load(configFile, source, table).warnings
    {
      match source
      case Unreadable(cause) =>
        warnings := warnings + [ConfigUnreadable(configFile, cause)];
      case Readable(accionesStr) =>
        if accionesStr.None? || IsBlank(accionesStr.value) {
          warnings := warnings + [NoActionsConfigured];
          return;
        }
        var clasesAccion := Split(accionesStr.value, Separator);
        CargarClases(clasesAccion, table);
    }

    /** The `for` loop of the loader over the `;`-separated segments: each one is
        trimmed and skipped when empty; the others are resolved in order. */
    method CargarClases(clasesAccion: seq<string>, table: Table)
      modifies this`acciones, this`warnings
      ensures acciones == old(acciones) + Registry(Identifiers(clasesAccion), table)
      ensures warnings == old(warnings) + Warnings(Identifiers(clasesAccion), table)
    {
      for k := 0 to |clasesAccion|
        invariant acciones == old(acciones) + Registry(Identifiers(clasesAccion[..k]), table)
        invariant warnings == old(warnings) + Warnings(Identifiers(clasesAccion[..k]), table)
      {
        LoadStepAfter(clasesAccion, k, table, old(acciones), old(warnings));
        CargarSegmento(clasesAccion[k], table);
      }
      assert clasesAccion[..|clasesAccion|] == clasesAccion;
    }

    /** One iteration of that loop: the segment is trimmed, and the iteration
        ends there (`continue`) when nothing is left. */
    method CargarSegmento(segment: string, table: Table)
      modifies this`acciones, this`warnings
      ensures acciones == old(acciones) + Step(Trim(segment), table).registry
      ensures warnings == old(warnings) + Step(Trim(segment), table).warnings
    {
      var className := Trim(segment);
      if className == [] {
        return;
      }
      RegistrarClase(className, table);
    }

    /** The `try` block for one class name: its instance is added to the
        registry, or the warning naming it is written. */
    method RegistrarClase(className: string, table: Table)
      requires className != []
      modifies this`acciones, this`warnings
      ensures acciones == old(acciones) + Step(className, table).registry
      ensures warnings == old(warnings) + Step(className, table).warnings
    {
      match Resolve(table, className)
      case NotFound =>
        warnings := warnings + [ClassNotFound(className)];
      case NotAccion =>
        warnings := warnings + [NotAnAction(className)];
      case CtorFails(cause) =>
        warnings := warnings + [InstantiationFailed(className, cause)];
      case Ok(accion) =>
        acciones := acciones + [accion];
    }

    /** The menu lines for the current registry: options 1..N in registry order,
        then the exit option N+1. */
    method MostrarMenu() returns (lines: seq<MenuLine>)
      ensures |lines| == |acciones| + 1
      ensures forall k :: 0 <= k < |acciones| ==>
        lines[k] == Item(k + 1, acciones[k].name, acciones[k].description)
      ensures lines[|acciones|] == ExitItem(|acciones| + 1)
      ensures lines == MenuLines(acciones)
    {
      lines := [];
      var i := 0;
      while i < |acciones|
        invariant 0 <= i <= |acciones|
        invariant |lines| == i
        invariant forall k :: 0 <= k < i ==>
          lines[k] == Item(k + 1, acciones[k].name, acciones[k].description)
      {
        var accion := acciones[i];
        lines := lines + [Item(i + 1, accion.name, accion.description)];
        i := i + 1;
      }
      lines := lines + [ExitItem(|acciones| + 1)];
    }

    /** Runs the action at registry index `i`, catching its failure. */
    method EjecutarAccion(i: nat)
      requires i < |acciones|
      modifies this`trace
      ensures trace == old(trace) + Execution(i, acciones[i])
    {
      var accion := acciones[i];
      trace := trace + [Executing(i)];
      match accion.outcome
      case Success =>
        trace := trace + [Succeeded(i)];
      case Failure(msg) =>
        trace := trace + [Failed(i, msg)];
    }

    /** The body of one loop iteration once a line is read: the parsed option
        is dispatched, or a line that is not a number is reported and the option
        becomes -1, which can never be the exit option. */
    method Despachar(line: Option<int>) returns (opcion: int)
      modifies this`trace
      ensures trace == old(trace) + Dispatch(acciones, line)
      ensures opcion == |acciones| + 1 <==> Classify(line, |acciones|) == Leave
    {
      match line
      case None =>
        trace := trace + [InvalidInput];
        opcion := -1;
      case Some(n) =>
        opcion := n;
        if opcion > 0 && opcion <= |acciones| {
          EjecutarAccion(opcion - 1);
        } else if opcion == |acciones| + 1 {
          trace := trace + [Exit];
        } else {
          trace := trace + [InvalidOption];
        }
    }

    /** The menu loop over the given input lines. Returns how many lines it read
        and whether it ended through the exit option (otherwise it ran out of
        input, where `Scanner.nextLine` throws). The registry is left as it was. */
    method Iniciar(input: seq<Option<int>>) returns (consumed: nat, exited: bool)
      modifies this`trace
      ensures acciones == old(acciones)
      ensures trace == old(trace) + Run(acciones, input).events
      ensures consumed == Run(acciones, input).consumed
      ensures exited == Run(acciones, input).exited
    {
      consumed, exited := 0, false;
      ghost var acts := acciones;
      ghost var whole := Run(acts, input);
      while true
        invariant acciones == acts
        invariant consumed <= |input|
        invariant trace + Run(acts, input[consumed..]).events == old(trace) + whole.events
        invariant consumed + Run(acts, input[consumed..]).consumed == whole.consumed
        invariant Run(acts, input[consumed..]).exited == whole.exited
        decreases |input| - consumed
      {
        var lines := MostrarMenu();
        if consumed == |input| {
          LoopEnd(acts, input);
          trace := trace + [Rendered(lines)];
          return;
        }
        LoopIteration(acts, input, consumed, trace);
        trace := trace + [Rendered(lines)];
        var line := input[consumed];
        consumed := consumed + 1;
        var opcion := Despachar(line);
        if opcion == |acciones| + 1 {
          exited := true;
          return;
        }
      }
    }
  }

  /** Loading `A;B` with both classes resolvable, then choosing 2 and 3: the
      menu lists both actions and exit as 3; B runs, then the loop exits. */
  method TwoActionsScenario(a: Action, b: Action)
    requires a.outcome == Success && b.outcome == Success
  {
    var table := map["A" := Ok(a), "B" := Ok(b)];
    BothResolved("menu.properties", a, b);
    var m := new MenuFramework("menu.properties", Readable(Some("A;B")), table);
    assert m.acciones == [a, b];
    assert m.warnings == [];
    var lines := m.MostrarMenu();
    assert lines == [Item(1, a.name, a.description), Item(2, b.name, b.description), ExitItem(3)];
    var input := [Some(2), Some(3)];
    var consumed, exited := m.Iniciar(input);
    assert input[1..] == [Some(3)];
    assert exited && consumed == 2;
    assert m.trace == [Rendered(lines), Executing(1), Succeeded(1), Rendered(lines), Exit];
  }
}
