# MenuFramework in Dafny

A model of `MenuFramework`, the single class of a configuration-driven console
menu. The constructor reads the `acciones` key of a properties file. It splits
the value on `;` and trims each segment, skipping the segments that trim to
nothing. Each non-empty trimmed class name is loaded by reflection. A class
that implements `Accion` is built with its no-argument constructor and goes
into `acciones`. A name that is not found, is not an `Accion`, or whose
constructor fails is reported and skipped. `iniciar` then loops: it prints the numbered menu, reads a
line, runs the chosen action (catching its failure), and stops when the user
picks the option after the last action.

Files (one module each):

- `wrappers.dfy` — `Option`.
- `config.dfy` (`Config`) — `String.split(";")` as `Split` with its inverse
  `Join`, `String.trim()` as `Trim`, and the identifier list `Identifiers` /
  `ParseIdentifiers`.
- `registry.dfy` (`Loader`) — actions, the reflection outcome per class name
  (`NotFound | NotAccion | CtorFails | Ok`) looked up in a `Table`, the
  warnings, and `Load`, the whole effect of `cargarAcciones` as one value.
- `menu.dfy` (`Menu`) — the menu lines, the dispatch rule `Classify`, the
  console events, and `Run`, the whole `do … while` loop over a list of
  already-parsed input lines.
- `framework.dfy` (`Framework`) — the class `MenuFramework`. Its fields
  `acciones`, `warnings` (the error stream while loading) and `trace` (the
  console while running) are updated in place by its methods. Each method is
  proved against the functions above. The `for` loop of `cargarAcciones` is
  its own method, `CargarClases`, which `CargarAcciones` calls once the value
  has been found non-blank; one iteration is `CargarSegmento` and its `try`
  block is `RegistrarClase`. One iteration of the `iniciar` loop after the
  line is read is `Despachar`.

In three places the code behaves in a way a reader may not expect; the model
follows the code:

- An unreadable configuration file is not fatal. The `IOException` is caught
  and reported, the registry stays empty, and the menu still runs with only
  the exit option (`MenuFramework.java:52-54`).
- Only a missing value, or one that trims to nothing, is warned about. A
  non-blank value made only of separators (`;`, `; ;`) loads nothing and
  warns about nothing (`Loader.OnlySeparatorsLoadsNothingSilently`).
- When input runs out, the loop does not exit cleanly. The menu is printed
  again, then `Scanner.nextLine` throws an exception nobody catches. `Run`
  reports this as `exited == false` after that last menu.

## Model

| member | source | states |
|---|---|---|
| `Config.Split` | src/main/java/MolinaCorujo/framework/MenuFramework.java:33 | the value cut at every `;`, empty segments included; never an empty list |
| `Config.SplitSegmentsFree` | src/main/java/MolinaCorujo/framework/MenuFramework.java:33 | no segment contains the separator |
| `Config.SplitConcat` | src/main/java/MolinaCorujo/framework/MenuFramework.java:33 | the segments of `a;b` are the segments of `a` followed by those of `b` (segment order is text order) |
| `Config.JoinSplit` | src/main/java/MolinaCorujo/framework/MenuFramework.java:33 | gluing the segments back with `;` gives the original value: splitting loses nothing |
| `Config.SplitPlain` | src/main/java/MolinaCorujo/framework/MenuFramework.java:33 | a value without `;` is one segment, itself |
| `Config.SplitJoin` | src/main/java/MolinaCorujo/framework/MenuFramework.java:33 | separator-free parts are recovered from their join: `Split` and `Join` are inverses |
| `Config.Trim` | src/main/java/MolinaCorujo/framework/MenuFramework.java:35 | `String.trim()`: leading whitespace removed, then trailing whitespace; described by `TrimStartSpec`, `TrimEndSpec`, `TrimIsSlice` and `TrimIdempotent` |
| `Config.TrimStartSpec` | src/main/java/MolinaCorujo/framework/MenuFramework.java:35 | leading trim drops only characters up to U+0020 and keeps a suffix that starts with none |
| `Config.TrimEndSpec` | src/main/java/MolinaCorujo/framework/MenuFramework.java:35 | trailing trim drops only characters up to U+0020 and keeps a prefix that ends with none |
| `Config.TrimIsSlice` | src/main/java/MolinaCorujo/framework/MenuFramework.java:35 | `trim()` keeps a contiguous middle slice, everything cut on either side is whitespace, and the result has no whitespace at either end |
| `Config.TrimIdempotent` | src/main/java/MolinaCorujo/framework/MenuFramework.java:35 | trimming a trimmed name changes nothing |
| `Config.TrimKeepsSeparatorOut` | src/main/java/MolinaCorujo/framework/MenuFramework.java:33-35 | trimming a segment cannot bring back a `;` |
| `Config.IsBlank` | src/main/java/MolinaCorujo/framework/MenuFramework.java:28 | `trim().isEmpty()`: nothing left after trimming; `BlankIffAllWhitespace` says this means every character is at most U+0020 |
| `Config.BlankIffAllWhitespace` | src/main/java/MolinaCorujo/framework/MenuFramework.java:28 | `trim().isEmpty()` holds exactly when every character is whitespace |
| `Config.Identifiers` | src/main/java/MolinaCorujo/framework/MenuFramework.java:34-36 | no more identifiers than segments, and none of them empty |
| `Config.IdentifiersConcat` | src/main/java/MolinaCorujo/framework/MenuFramework.java:34-36 | identifiers of consecutive segment groups are consecutive: original order kept |
| `Config.IdentifiersAreTrimmedSegments` | src/main/java/MolinaCorujo/framework/MenuFramework.java:33-36 | a string is an identifier iff it is non-empty and is the trim of some segment (both directions) |
| `Config.ParseIdentifiers` | src/main/java/MolinaCorujo/framework/MenuFramework.java:33-36 | the class names of an `acciones` value: its `;`-segments trimmed, empty ones skipped, in order; described by `ParsedIdentifiersAreClean` and `ParseConcat` |
| `Config.ParsedIdentifiersAreClean` | src/main/java/MolinaCorujo/framework/MenuFramework.java:33-36 | every parsed identifier is non-empty, already trimmed and free of `;` |
| `Config.ParseConcat` | src/main/java/MolinaCorujo/framework/MenuFramework.java:33-36 | the identifiers of `a;b` are those of `a` then those of `b` |
| `Config.SplitOfBlanks` | src/main/java/MolinaCorujo/framework/MenuFramework.java:33 | a value made only of `;` and whitespace splits into segments that are all whitespace |
| `Config.IdentifiersOfBlanks` | src/main/java/MolinaCorujo/framework/MenuFramework.java:34-36 | segments that are all whitespace all trim to empty, so every one is skipped and no class name results |
| `Loader.Resolve` | src/main/java/MolinaCorujo/framework/MenuFramework.java:39-41 | what reflection gives for a class name: not found, not an `Accion`, a failing constructor, or an instance; names outside the table are not found |
| `Loader.WarningFor` | src/main/java/MolinaCorujo/framework/MenuFramework.java:43-50 | the warning for a failed resolution names the identifier |
| `Loader.Registry` | src/main/java/MolinaCorujo/framework/MenuFramework.java:38-42 | the instances built from the class names, in order, one per name that resolves (duplicates kept); described by `RegistryMembership`, `RegistryConcat`, `AllResolvedKeepsOrder` and, for one name, `SingleStep` |
| `Loader.Warnings` | src/main/java/MolinaCorujo/framework/MenuFramework.java:43-50 | one warning per class name that does not resolve, in order; described by `WarningMembership`, `WarningsConcat` and, for one name, `SingleStep` |
| `Loader.Load` | src/main/java/MolinaCorujo/framework/MenuFramework.java:23-54 | the whole of `cargarAcciones`: one warning for an unreadable file or a missing or blank value, else the registry and warnings of the parsed class names; described by `LoadWithoutActions` and `OnlySeparatorsLoadsNothingSilently` |
| `Loader.Step` | src/main/java/MolinaCorujo/framework/MenuFramework.java:35-50 | what one trimmed segment adds: nothing when empty, else its instance or its warning; `LoadStep` shows the loop adds exactly this per segment |
| `Loader.RegistryConcat` | src/main/java/MolinaCorujo/framework/MenuFramework.java:34-42 | the registry of `a + b` is the registry of `a` then that of `b`: configuration order, duplicates kept, identifiers independent |
| `Loader.WarningsConcat` | src/main/java/MolinaCorujo/framework/MenuFramework.java:38-50 | warnings come out in processing order, and a failure never affects the identifiers after it |
| `Loader.LoadStep` | src/main/java/MolinaCorujo/framework/MenuFramework.java:34-51 | one more segment appends exactly its own action or its own warning (or nothing if it trims to empty) |
| `Loader.EveryIdentifierAccountedFor` | src/main/java/MolinaCorujo/framework/MenuFramework.java:38-50 | registry size plus warning count equals the number of identifiers: each yields exactly one of the two |
| `Loader.RegistryMembership` | src/main/java/MolinaCorujo/framework/MenuFramework.java:38-42 | an action is registered iff some identifier resolved to it (both directions) |
| `Loader.WarningMembership` | src/main/java/MolinaCorujo/framework/MenuFramework.java:43-50 | a warning is written iff some identifier failed to resolve, and it is that identifier's warning (both directions) |
| `Loader.AllResolvedKeepsOrder` | src/main/java/MolinaCorujo/framework/MenuFramework.java:34-42 | K identifiers that all resolve give exactly K actions, the k-th from the k-th identifier, and no warnings |
| `Loader.LoadWithoutActions` | src/main/java/MolinaCorujo/framework/MenuFramework.java:23-54 | unreadable file, missing or blank value: empty registry and exactly one warning; otherwise the registry comes from the parsed identifiers and every warning is about one of them |
| `Loader.OnlySeparatorsLoadsNothingSilently` | src/main/java/MolinaCorujo/framework/MenuFramework.java:28-36 | every non-blank value made only of `;` and whitespace names no class, and loads nothing with no warning at all |
| `Loader.SeparatorValuesAreNotBlank` | src/main/java/MolinaCorujo/framework/MenuFramework.java:28 | `;` and `; ;` are not blank, so the missing-actions warning is not written for them |
| `Loader.SingleIdentifier` | src/main/java/MolinaCorujo/framework/MenuFramework.java:33-36 | a trimmed, separator-free name is parsed as itself alone |
| `Loader.ParseTwo` | src/main/java/MolinaCorujo/framework/MenuFramework.java:28-36 | `x;y` with one-character names is not blank and names `x` then `y` |
| `Loader.LoadTwo` | src/main/java/MolinaCorujo/framework/MenuFramework.java:28-51 | loading `x;y` gives the step of `x` followed by the step of `y`, for any table |
| `Loader.BadThenGood` | src/main/java/MolinaCorujo/framework/MenuFramework.java:33-50 | `B;G` where `B` does not implement `Accion` and `G` resolves: registry `[G]`, one warning naming `B` |
| `Loader.BothResolved` | src/main/java/MolinaCorujo/framework/MenuFramework.java:33-42 | `A;B`, both resolvable: registry `[A, B]`, no warning |
| `Menu.MenuLines` | src/main/java/MolinaCorujo/framework/MenuFramework.java:84-91 | the menu: `i. name (description)` for each action in registry order, then `N+1. Salir`; described by `MenuAgreesWithDispatch` |
| `Menu.Classify` | src/main/java/MolinaCorujo/framework/MenuFramework.java:65-76 | dispatch rule: 1..N selects action n-1, N+1 exits, any other number is an invalid option, a non-number is invalid input (each an iff) |
| `Menu.Report` | src/main/java/MolinaCorujo/framework/MenuFramework.java:96-99 | the report after `ejecutar()`: success, or the caught failure with its message; described by `RunReportsFollowExecutions` |
| `Menu.Execution` | src/main/java/MolinaCorujo/framework/MenuFramework.java:93-100 | the events of `ejecutarAccion`: the executing notice, then the report; described by `FailureIsContained` and `RunReportsFollowExecutions` |
| `Menu.Dispatch` | src/main/java/MolinaCorujo/framework/MenuFramework.java:67-76 | the events after a line is read: the chosen action's execution, the exit notice, or an invalid option or input message; `MenuAgreesWithDispatch` ties it to the menu shown |
| `Menu.MenuAgreesWithDispatch` | src/main/java/MolinaCorujo/framework/MenuFramework.java:84-91 | options 1..N show the actions in registry order, the single exit option is N+1 and shown last, and each number selects what it shows |
| `Menu.EmptyRegistryOnlyExits` | src/main/java/MolinaCorujo/framework/MenuFramework.java:67-79 | with no actions the menu is just `1. Salir`, and choosing 1 ends the loop at once |
| `Menu.Run` | src/main/java/MolinaCorujo/framework/MenuFramework.java:61-79 | the loop reads at most all the lines; it either exits after reading at least one line or has read them all; its unfolding on an empty remainder (menu shown once more, not exited) is `LoopEnd` |
| `Menu.LoopIteration` | src/main/java/MolinaCorujo/framework/MenuFramework.java:61-79 | one iteration on the remaining input: menu, dispatch of the next line, then the end of the run on the exit option or the run over the lines after it |
| `Menu.RunStopsAtFirstExit` | src/main/java/MolinaCorujo/framework/MenuFramework.java:61-79 | the loop exits iff some line is N+1, and then exactly at the first such line; non-numbers never stop it |
| `Menu.RunExecutions` | src/main/java/MolinaCorujo/framework/MenuFramework.java:61-79 | the number of executions equals the number of lines read that parse into 1..N |
| `Menu.FailureIsContained` | src/main/java/MolinaCorujo/framework/MenuFramework.java:93-100 | a failing action is reported against its own index and message, and the loop continues with the next line over the same registry |
| `Menu.RunReportsFollowExecutions` | src/main/java/MolinaCorujo/framework/MenuFramework.java:93-100 | each success or failure report comes right after that action's "executing" notice and matches what its `ejecutar` did; every notice is followed by its report |
| `Framework.MenuFramework.constructor` | src/main/java/MolinaCorujo/framework/MenuFramework.java:17-21 | the new object holds the configuration file name, the loaded registry and warnings, and an empty console |
| `Framework.MenuFramework.CargarAcciones` | src/main/java/MolinaCorujo/framework/MenuFramework.java:23-55 | appends to `acciones` and to the warnings exactly what `Load` gives |
| `Framework.MenuFramework.CargarClases` | src/main/java/MolinaCorujo/framework/MenuFramework.java:34-51 | the `for` loop over segments appends exactly the registry and warnings of their identifiers |
| `Framework.MenuFramework.CargarSegmento` | src/main/java/MolinaCorujo/framework/MenuFramework.java:35-36 | one iteration: the trimmed segment adds its step, and nothing when it trims to empty (`continue`) |
| `Framework.MenuFramework.RegistrarClase` | src/main/java/MolinaCorujo/framework/MenuFramework.java:38-50 | the `try` block: the instance is appended to `acciones` when the class resolves to an `Accion`, else exactly the matching warning naming the class |
| `Framework.MenuFramework.MostrarMenu` | src/main/java/MolinaCorujo/framework/MenuFramework.java:84-91 | N+1 lines: `i. name (description)` for each action in registry order, then `N+1. Salir` |
| `Framework.MenuFramework.EjecutarAccion` | src/main/java/MolinaCorujo/framework/MenuFramework.java:93-101 | appends the "executing" notice and then the success or the caught failure of that action |
| `Framework.MenuFramework.Despachar` | src/main/java/MolinaCorujo/framework/MenuFramework.java:65-77 | appends the dispatch events of one line, and the option equals N+1 iff the line is the exit option (a non-number becomes -1) |
| `Framework.MenuFramework.Iniciar` | src/main/java/MolinaCorujo/framework/MenuFramework.java:57-82 | appends exactly the events of `Run`, returns its line count and exit flag, and leaves `acciones` unchanged |

## Left out

- Config.Split: keeps trailing empty segments, which Java's `split` drops. This makes
  no difference to the loader: empty segments are skipped after trimming.
- Reading the properties file (`java.util.Properties`). The model takes what
  reading gives as input: the file could not be read (with the exception
  message), or the `acciones` value is present or absent.
- Reflection (`Class.forName`, `isAssignableFrom`, `newInstance`). A `Table`
  maps each class name to the outcome reflection would have; names not in the
  table are not found. Throwables outside the caught set are not modelled
  (`ExceptionInInitializerError`, `LinkageError`, `SecurityException`). In the
  code they escape the constructor.
- Console text. Output is abstract events and warnings, not the Spanish
  strings. Not modelled: the welcome line before the menu, the prompt, and the
  `---` separator after each iteration.
- `Integer.parseInt`. Each input line arrives already parsed, with `None` for
  a `NumberFormatException`. Values outside the 32-bit range would be parse
  errors in the code; here they are left to the caller.
- End of input. The `NoSuchElementException` from `Scanner.nextLine` is not
  caught. It appears only as a run that ends without exiting, after the menu
  has been shown once more.
- Closing the `Scanner`.
- Loader.Outcome: `ejecutarAccion` catches only `Exception`s
  (`MenuFramework.java:98`). An `Error` thrown by `ejecutar` (an
  `AssertionError`, a `StackOverflowError`) escapes `iniciar` and ends the
  program; the model treats every throw as a caught `Failure`.
- Loader.Resolve: a class name always resolves the same way. In the code a
  repeated name runs its constructor again (`MenuFramework.java:41`), and a
  later call may fail where an earlier one succeeded.
- What actions do. An `Action` has a fixed outcome, so every run of the same
  action succeeds, or every run fails with the same message. An action whose
  behaviour changes between calls is not modelled.
- Exceptions thrown by `nombreItemMenu` or `descripcionItemMenu`. Name and
  description are plain values here.
- Action names in events. Events carry the action's registry index, not its
  name; the name printed is `acciones[i].name`.
