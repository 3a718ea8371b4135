/** The action registry and its loader, as pure specification: what
    `cargarAcciones` leaves in the `acciones` list and what it reports on the
    error stream. Java reflection (`Class.forName`, `isAssignableFrom`, the
    no-argument constructor) is replaced by a lookup table from identifier to
    the outcome reflection would have. */
module Loader {
  import opened Wrappers
  import opened Config

  /** What happens when an action runs: it returns normally or throws an
      `Exception`. */
  datatype Outcome = Success | Failure(message: string)

  /** An instance of `Accion`: its menu name, its menu description and the
      outcome of `ejecutar()`. */
  datatype Action = Action(name: string, description: string, outcome: Outcome)

  /** What resolving a class name by reflection gives. */
  datatype Resolution =
    | NotFound                  // ClassNotFoundException
    | NotAccion                 // the class does not implement Accion
    | CtorFails(cause: string)  // the no-argument constructor is missing, inaccessible or throws
    | Ok(action: Action)        // a fresh instance

  /** The reflection stand-in: identifiers absent from the table are not found. */
  type Table = map<string, Resolution>

  function Resolve(table: Table, id: string): Resolution {
    if id in table then table[id] else NotFound
  }

  /** A line written to the error stream while loading. */
  datatype Warning =
    | NoActionsConfigured
    | ConfigUnreadable(file: string, cause: string)
    | ClassNotFound(id: string)
    | NotAnAction(id: string)
    | InstantiationFailed(id: string, cause: string)
  {
    /** The warnings about one identifier. */
    predicate IsAbout(identifier: string) {
      (ClassNotFound? || NotAnAction? || InstantiationFailed?) && id == identifier
    }
  }

  /** The warning for an identifier that did not resolve to an action. */
  function WarningFor(id: string, res: Resolution): (w: Warning)
    requires !res.Ok?
    ensures w.IsAbout(id)
  {
    match res
    case NotFound => ClassNotFound(id)
    case NotAccion => NotAnAction(id)
    case CtorFails(cause) => InstantiationFailed(id, cause)
  }

  /** The instances built from `ids`, in order, duplicates kept. */
  function Registry(ids: seq<string>, table: Table): seq<Action> {
    if ids == [] then []
    else
      var res := Resolve(table, ids[0]);
      (if res.Ok? then [res.action] else []) + Registry(ids[1..], table)
  }

  /** The warnings about `ids`, in order: one per identifier that did not resolve. */
  function Warnings(ids: seq<string>, table: Table): seq<Warning> {
    if ids == [] then []
    else
      var res := Resolve(table, ids[0]);
      (if res.Ok? then [] else [WarningFor(ids[0], res)]) + Warnings(ids[1..], table)
  }

  /** The configuration as the loader sees it: the file could not be read, or
      it was read and the `acciones` key is present with a value or absent. */
  datatype ConfigSource = Unreadable(cause: string) | Readable(acciones: Option<string>)

  datatype LoadResult = LoadResult(registry: seq<Action>, warnings: seq<Warning>)

  /** Everything `cargarAcciones` does, as one value. */
  function Load(file: string, source: ConfigSource, table: Table): LoadResult {
    match source
    case Unreadable(cause) => LoadResult([], [ConfigUnreadable(file, cause)])
    case Readable(value) =>
      if value.None? || IsBlank(value.value) then LoadResult([], [NoActionsConfigured])
      else
        var ids := ParseIdentifiers(value.value);
        LoadResult(Registry(ids, table), Warnings(ids, table))
  }

  // ------------------------------------------------------------------ lemmas

  /** Loading consecutive groups of identifiers gives consecutive registries:
      order is configuration order and one identifier never affects another. */
  lemma {:induction false} RegistryConcat(a: seq<string>, b: seq<string>, table: Table)
    ensures Registry(a + b, table) == Registry(a, table) + Registry(b, table)
  {
    if a == [] {
      assert a + b == b;
    } else {
      assert (a + b)[0] == a[0];
      assert (a + b)[1..] == a[1..] + b;
      RegistryConcat(a[1..], b, table);
    }
  }

  /** The same for warnings: their order is the order of the identifiers. */
  lemma {:induction false} WarningsConcat(a: seq<string>, b: seq<string>, table: Table)
    ensures Warnings(a + b, table) == Warnings(a, table) + Warnings(b, table)
  {
    if a == [] {
      assert a + b == b;
    } else {
      assert (a + b)[0] == a[0];
      assert (a + b)[1..] == a[1..] + b;
      WarningsConcat(a[1..], b, table);
    }
  }

  /** What one trimmed segment contributes: nothing when it is empty, else its
      action or its warning. */
  function Step(t: string, table: Table): LoadResult {
    var res := Resolve(table, t);
    if t == [] then LoadResult([], [])
    else if res.Ok? then LoadResult([res.action], [])
    else LoadResult([], [WarningFor(t, res)])
  }

  /** A lone identifier loads as its step. */
  lemma SingleStep(t: string, table: Table)
    requires t != []
    ensures Registry([t], table) == Step(t, table).registry
    ensures Warnings([t], table) == Step(t, table).warnings
  {
    assert [t][1..] == [];
  }

  /** One more segment, as the loader's loop sees it: its trimmed text adds
      its step at the end of the registry and of the warnings. */
  lemma LoadStep(segments: seq<string>, k: nat, table: Table)
    requires k < |segments|
    ensures Registry(Identifiers(segments[..k + 1]), table) ==
            Registry(Identifiers(segments[..k]), table) + Step(Trim(segments[k]), table).registry
    ensures Warnings(Identifiers(segments[..k + 1]), table) ==
            Warnings(Identifiers(segments[..k]), table) + Step(Trim(segments[k]), table).warnings
  {
    var t := Trim(segments[k]);
    assert segments[..k + 1] == segments[..k] + [segments[k]];
    IdentifiersConcat(segments[..k], [segments[k]]);
    assert Identifiers([segments[k]]) == (if t == [] then [] else [t]) + Identifiers([]);
    RegistryConcat(Identifiers(segments[..k]), Identifiers([segments[k]]), table);
    WarningsConcat(Identifiers(segments[..k]), Identifiers([segments[k]]), table);
    if t != [] {
      assert [t][1..] == [];
    }
  }

  /** LoadStep after what was loaded before (`acc`, `warn`), in the shape the
      loader's loop keeps. */
  lemma LoadStepAfter(segments: seq<string>, k: nat, table: Table, acc: seq<Action>, warn: seq<Warning>)
    requires k < |segments|
    ensures acc + Registry(Identifiers(segments[..k]), table) + Step(Trim(segments[k]), table).registry
         == acc + Registry(Identifiers(segments[..k + 1]), table)
    ensures warn + Warnings(Identifiers(segments[..k]), table) + Step(Trim(segments[k]), table).warnings
         == warn + Warnings(Identifiers(segments[..k + 1]), table)
  {
    var ids := Identifiers(segments[..k]);
    var st := Step(Trim(segments[k]), table);
    LoadStep(segments, k, table);
    ConcatAssoc(acc, Registry(ids, table), st.registry);
    ConcatAssoc(warn, Warnings(ids, table), st.warnings);
  }

  /** Every identifier ends up in exactly one place: as an action or as a warning. */
  lemma {:induction false} EveryIdentifierAccountedFor(ids: seq<string>, table: Table)
    ensures |Registry(ids, table)| + |Warnings(ids, table)| == |ids|
  {
    if ids != [] {
      EveryIdentifierAccountedFor(ids[1..], table);
    }
  }

  /** An action is in the registry exactly when some identifier resolved to it. */
  lemma {:induction false} RegistryMembership(ids: seq<string>, table: Table, a: Action)
    ensures a in Registry(ids, table) <==>
            exists k :: 0 <= k < |ids| && Resolve(table, ids[k]) == Ok(a)
  {
    if ids != [] {
      RegistryMembership(ids[1..], table, a);
      if exists k :: 0 <= k < |ids| && Resolve(table, ids[k]) == Ok(a) {
        var k :| 0 <= k < |ids| && Resolve(table, ids[k]) == Ok(a);
        if k > 0 {
          assert ids[1..][k - 1] == ids[k];
        }
      }
      if exists k :: 0 <= k < |ids[1..]| && Resolve(table, ids[1..][k]) == Ok(a) {
        var k :| 0 <= k < |ids[1..]| && Resolve(table, ids[1..][k]) == Ok(a);
        assert ids[k + 1] == ids[1..][k];
      }
    }
  }

  /** A warning is reported exactly for an identifier that failed to resolve,
      and it says why. */
  lemma {:induction false} WarningMembership(ids: seq<string>, table: Table, w: Warning)
    ensures w in Warnings(ids, table) <==>
            exists k :: 0 <= k < |ids| && !Resolve(table, ids[k]).Ok? &&
                        w == WarningFor(ids[k], Resolve(table, ids[k]))
  {
    if ids != [] {
      WarningMembership(ids[1..], table, w);
      if exists k :: 0 <= k < |ids| && !Resolve(table, ids[k]).Ok? &&
                     w == WarningFor(ids[k], Resolve(table, ids[k])) {
        var k :| 0 <= k < |ids| && !Resolve(table, ids[k]).Ok? &&
                 w == WarningFor(ids[k], Resolve(table, ids[k]));
        if k > 0 {
          assert ids[1..][k - 1] == ids[k];
        }
      }
      if exists k :: 0 <= k < |ids[1..]| && !Resolve(table, ids[1..][k]).Ok? &&
                     w == WarningFor(ids[1..][k], Resolve(table, ids[1..][k])) {
        var k :| 0 <= k < |ids[1..]| && !Resolve(table, ids[1..][k]).Ok? &&
                 w == WarningFor(ids[1..][k], Resolve(table, ids[1..][k]));
        assert ids[k + 1] == ids[1..][k];
      }
    }
  }

  /** With K identifiers that all resolve, the registry has exactly K entries,
      the k-th built from the k-th identifier, and there are no warnings. */
  lemma {:induction false} AllResolvedKeepsOrder(ids: seq<string>, table: Table)
    requires forall k :: 0 <= k < |ids| ==> Resolve(table, ids[k]).Ok?
    ensures |Registry(ids, table)| == |ids|
    ensures forall k :: 0 <= k < |ids| ==> Registry(ids, table)[k] == Resolve(table, ids[k]).action
    ensures Warnings(ids, table) == []
  {
    if ids != [] {
      AllResolvedKeepsOrder(ids[1..], table);
      assert Registry(ids, table) == [Resolve(table, ids[0]).action] + Registry(ids[1..], table);
      forall k | 1 <= k < |ids|
        ensures Registry(ids, table)[k] == Resolve(table, ids[k]).action
      {
        assert ids[1..][k - 1] == ids[k];
      }
    }
  }

  /** A missing or blank `acciones` value, or an unreadable file, gives an empty
      registry and exactly one warning; otherwise the only warnings are about
      identifiers, and the registry is built from the parsed identifiers. */
  lemma LoadWithoutActions(file: string, source: ConfigSource, table: Table)
    ensures var r := Load(file, source, table);
      (source.Unreadable? || source.acciones.None? || IsBlank(source.acciones.value)) ==>
        r.registry == [] && |r.warnings| == 1
    ensures var r := Load(file, source, table);
      (source.Readable? && source.acciones.Some? && !IsBlank(source.acciones.value)) ==>
        r.registry == Registry(ParseIdentifiers(source.acciones.value), table) &&
        forall w :: w in r.warnings ==> exists id :: id in ParseIdentifiers(source.acciones.value) && w.IsAbout(id)
  {
    if source.Readable? && source.acciones.Some? && !IsBlank(source.acciones.value) {
      var ids := ParseIdentifiers(source.acciones.value);
      forall w | w in Warnings(ids, table)
        ensures exists id :: id in ids && w.IsAbout(id)
      {
        WarningMembership(ids, table, w);
        var k :| 0 <= k < |ids| && !Resolve(table, ids[k]).Ok? &&
                 w == WarningFor(ids[k], Resolve(table, ids[k]));
        assert ids[k] in ids;
      }
    }
  }

  /** A value made only of separators and whitespace, with at least one
      separator (`;`, `; ;`), is not blank, so it is not warned about, and it
      names no identifier: an empty registry with no warning at all. */
  lemma OnlySeparatorsLoadsNothingSilently(file: string, value: string, table: Table)
    requires !IsBlank(value)
    requires forall k :: 0 <= k < |value| ==> IsWhitespace(value[k]) || value[k] == Separator
    ensures ParseIdentifiers(value) == []
    ensures Load(file, Readable(Some(value)), table) == LoadResult([], [])
  {
    SplitOfBlanks(value, Separator);
    IdentifiersOfBlanks(Split(value, Separator));
  }

  /** `;` and `; ;` are such values. */
  lemma SeparatorValuesAreNotBlank()
    ensures !IsBlank([Separator])
    ensures !IsBlank([Separator, ' ', Separator])
  {
    BlankIffAllWhitespace([Separator]);
    BlankIffAllWhitespace([Separator, ' ', Separator]);
    assert [Separator][0] == Separator;
    assert [Separator, ' ', Separator][0] == Separator;
  }

  /** A clean identifier is its own only segment. */
  lemma SingleIdentifier(id: string)
    requires id != [] && Separator !in id
    requires !IsWhitespace(id[0]) && !IsWhitespace(id[|id| - 1])
    ensures ParseIdentifiers(id) == [id]
  {
    SplitJoin([id], Separator);
    TrimStartSpec(id);
    TrimEndSpec(id);
    assert Trim(id) == id;
    assert Identifiers([id]) == [id] + Identifiers([]);
  }

  /** A value `x;y` of two one-character class names is not blank and names
      `x` then `y`. */
  lemma ParseTwo(x: char, y: char)
    requires !IsWhitespace(x) && x != Separator && !IsWhitespace(y) && y != Separator
    ensures !IsBlank([x, Separator, y])
    ensures ParseIdentifiers([x, Separator, y]) == [[x], [y]]
  {
    var v := [x, Separator, y];
    assert [x] + [Separator] + [y] == v;
    ParseConcat([x], [y]);
    SingleIdentifier([x]);
    SingleIdentifier([y]);
    assert TrimStart(v) == v;
    assert TrimEnd(v) == v;
  }

  /** Such a value loads as the step of `x` followed by the step of `y`. */
  lemma LoadTwo(file: string, x: char, y: char, table: Table)
    requires !IsWhitespace(x) && x != Separator && !IsWhitespace(y) && y != Separator
    ensures var r := Load(file, Readable(Some([x, Separator, y])), table);
      r.registry == Step([x], table).registry + Step([y], table).registry &&
      r.warnings == Step([x], table).warnings + Step([y], table).warnings
  {
    ParseTwo(x, y);
    assert [[x], [y]] == [[x]] + [[y]];
    RegistryConcat([[x]], [[y]], table);
    WarningsConcat([[x]], [[y]], table);
    SingleStep([x], table);
    SingleStep([y], table);
  }

  /** The scenario of a class that does not implement `Accion` followed by a
      good one: one action, one warning naming the bad class. */
  lemma BadThenGood(file: string, good: Action)
    ensures var table := map["B" := NotAccion, "G" := Ok(good)];
      Load(file, Readable(Some("B;G")), table) == LoadResult([good], [NotAnAction("B")])
  {
    var table := map["B" := NotAccion, "G" := Ok(good)];
    LoadTwo(file, 'B', 'G', table);
    assert Resolve(table, "B") == NotAccion;
    assert Resolve(table, "G") == Ok(good);
  }

  /** The scenario of two resolvable classes: both, in order, no warning. */
  lemma BothResolved(file: string, a: Action, b: Action)
    ensures var table := map["A" := Ok(a), "B" := Ok(b)];
      Load(file, Readable(Some("A;B")), table) == LoadResult([a, b], [])
  {
    var table := map["A" := Ok(a), "B" := Ok(b)];
    LoadTwo(file, 'A', 'B', table);
    assert Resolve(table, "A") == Ok(a) && Resolve(table, "B") == Ok(b);
  }
}
