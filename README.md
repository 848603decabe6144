# A dependency-injection container, modelled in Dafny

The repository is a small dependency-injection container in the style of
AngularJS modules. Its public surface has three calls:

- `DI.module(name, requires)` creates a module with a fixed list of
  required module names. It files the module in a process-wide registry,
  replacing any earlier module of the same name (last in wins).
- `module.register(key, value)` binds a name in the module's own binding
  table. A later binding of the same key overwrites the earlier one.
- `module.inject(fn)` reads the parameter names from the text of `fn`'s
  declaration, taking only the first parenthesised list. It returns a
  wrapper. When called, the wrapper looks each name up on the module's
  lookup path and passes the values in declared order, with `undefined`
  for a name that nothing binds. The lookup path is the module itself,
  then the modules it requires, transitively, each consulted once even
  when requires form a cycle.

The repository ships only the two test suites, `lib/di/DI.spec.js` and
`lib/di-simple/DI.spec.js`. The engine they load (`require('./DI')`) is
not among the repository's files. This model is a reconstruction of that
engine, as far as those tests pin it down.

- `wrappers.dfy` holds `Option`, which stands for JavaScript
  `undefined`.
- `params.dfy` (module `Params`) models parameter-name extraction. It is
  a pure function on the declaration text: find the first `(`, then the
  first `)` after it, split the text between them on commas, trim white
  space, and drop blank pieces. White space is what JavaScript's `trim`
  removes: the ECMAScript white-space and line-terminator characters,
  the Unicode space separators among them.
- `require_graph.dfy` (module `RequireGraph`) models the require closure.
  - The closure is a depth-first walk of the requires graph in
    declaration order, with a visited set of module names. It is defined
    by the functions `Visit`/`VisitAll`.
  - `Closure` is proved sound, complete and duplicate-free.
  - `CollectClosure` computes the same walk with an explicit stack and a
    `while` loop, and is proved equal to `Closure`.
- `di.dfy` (module `DI`) models the registry, modules and injection.
  - Registered values are the datatype `Value`: `Opaque(id)` for a
    function or value registered by the program, and `Wrapper(owner,
    params)` for what `inject` returns.
  - `Module` is a class with a `bindings` map that `Register` updates in
    place. `Registry` is a class with a `modules` map that
    `CreateModule` updates.
  - `Registry.Call` models calling a wrapper: it yields the argument
    sequence the wrapped function receives. Each name is resolved at
    call time against the current bindings.
- `scenarios.dfy`, `scenarios_inject.dfy` and `scenarios_simple.dfy`
  restate each test case as a method on a registry. The method's
  `ensures` is the test's expectation, phrased on argument sequences.
  In both suites the `before` hook runs once and the tests share one
  `app` module. So each test starts from the state the earlier tests
  leave. `SimpleScenarios.Suite` runs the single-module suite in its
  order.

Design decisions made where the tests say nothing:

- Visited modules are tracked by name. The root's own name counts as
  visited from the start.
- A required name with no registered module is skipped.
- A module's own bindings come first on its lookup path, so they shadow
  those of the modules it requires.
- A text with no parenthesised parameter list makes `Inject` return
  `None`. This covers a value that is not a function. It also covers an
  arrow function whose single parameter has no parentheses, which the
  model does not read (see "Left out").

## Model

| member | source | states |
|---|---|---|
| DI.Registry.constructor | lib/di/DI.spec.js:4 | the registry starts empty and well formed |
| DI.Registry.CreateModule | lib/di/DI.spec.js:18-22 | `module(name, requires)` returns a fresh module with the given name and requires list and no bindings; the registry maps `name` to it, every other entry is unchanged, and every entry stays filed under its module's own name |
| DI.Module.constructor | lib/di/DI.spec.js:11 | a new module has the given name and requires list and an empty binding table |
| DI.Module.Register | lib/di/DI.spec.js:30-31 | binds `key` to `value`, overwriting an earlier binding of `key`; every other binding is unchanged |
| DI.Module.Inject | lib/di/DI.spec.js:33-41 | `inject` gives a wrapper owned by this module whose parameter list is exactly the names extracted from the declaration text; `None` exactly when the text has no parameter list |
| DI.Module.InjectDeclaration | lib/di/DI.spec.js:150-154 | injecting `head(a, b, c) body` gives a wrapper over exactly `[a, b, c]`, whatever the body contains |
| DI.FirstBinding | lib/di/DI.spec.js:46-67 | the scan finds nothing exactly when no module in the sequence binds the key; otherwise its value is the binding of the first module that binds the key |
| DI.FirstBindingAt | lib/di/DI.spec.js:46-67 | if module `i` is the first that binds the key, the scan returns module `i`'s value |
| DI.FirstBindingOnly | lib/di/DI.spec.js:46-67 | a module in the sequence binding the key makes the scan succeed, with that module's value when it is the only binder |
| DI.Registry.Graph | lib/di/DI.spec.js:73-75 | the requires graph has one node per registered module name, with that module's requires list as its edges |
| DI.Registry.ModulesOf | lib/di/DI.spec.js:73-75 | the registered modules filed under the given names, position by position |
| DI.Registry.Visible | lib/di/DI.spec.js:46-103 | the lookup path starts with the root; its other entries are the registered modules of the closure, in closure order |
| DI.Registry.VisibleModules | lib/di/DI.spec.js:99-103 | the lookup path built from the worklist walk equals `Visible` |
| DI.Registry.Resolve | lib/di/DI.spec.js:132-137 | a name resolves to `None` exactly when no module on the lookup path binds it; otherwise to the binding of the first module on the path that binds it |
| DI.Registry.Arguments | lib/di-simple/DI.spec.js:23-30 | one argument per parameter name, in declared order, each being that name's resolution |
| DI.Registry.Call | lib/di/DI.spec.js:42-44 | calling a wrapper yields one argument per declared name, in order, each resolved in the wrapper's module at call time; an opaque value is not a wrapper and yields `None` |
| DI.Registry.ResolveOwn | lib/di/DI.spec.js:24-44 | a name a module binds itself resolves to its own binding, whatever it requires |
| DI.Registry.ResolveVisible | lib/di/DI.spec.js:46-97 | a name bound by any module on the lookup path resolves; when only one module on the path binds it, it resolves to that module's value |
| DI.Registry.ResolveFirst | lib/di/DI.spec.js:46-97 | a lookup is decided by the first module on the path that binds the name |
| DI.Registry.ResolveUnbound | lib/di/DI.spec.js:132-137 | a name that neither the module nor any registered module binds resolves to `None`, not to an error |
| DI.Registry.ResolveAlone | lib/di-simple/DI.spec.js:23-37 | a module that requires nothing has itself as its whole lookup path and resolves a name to its own binding or to `None` |
| DI.Registry.CallAlone | lib/di-simple/DI.spec.js:23-37 | a wrapper made in a module that requires nothing passes, position by position, that module's binding of each name or `None` |
| DI.Registry.VisibleClosed | lib/di/DI.spec.js:70-97 | a registered module required by any module on the lookup path is itself on the path, unless it is filed under the root's name |
| DI.Registry.ResolveRequired | lib/di/DI.spec.js:46-67 | a name bound in a directly required module resolves, and to that module's value when no other module on the path binds it |
| DI.Registry.ResolveTransitive | lib/di/DI.spec.js:70-97 | a name bound in a module required by a required module resolves, and to that module's value when no other module on the path binds it |
| DI.Registry.VisibleOnce | lib/di/DI.spec.js:99-103 | in a well-formed registry, no module appears twice on a lookup path, even with cyclic requires |
| RequireGraph.Visit | lib/di/DI.spec.js:99-103 | the walk from one name has no duplicates, lists only registered and not yet visited names, and starts with the name when that name is registered and unvisited |
| RequireGraph.VisitAll | lib/di/DI.spec.js:99-103 | the walk over a requires list has no duplicates and lists only registered, not yet visited names |
| RequireGraph.Closure | lib/di/DI.spec.js:99-103 | the closure has no duplicates, holds only registered names, and never the root's name |
| RequireGraph.VisitAllOne | lib/di/DI.spec.js:46-67 | walking a one-name list is walking from that name |
| RequireGraph.VisitDiscovered | lib/di/DI.spec.js:70-97 | each module the walk from one name reaches is that name or is required by a module reached before it |
| RequireGraph.VisitAllDiscovered | lib/di/DI.spec.js:70-97 | each module the walk over a list reaches is in the list or is required by a module reached before it |
| RequireGraph.DiscoveredEnter | lib/di/DI.spec.js:70-97 | entering a module keeps every reached module accounted for by the requires graph |
| RequireGraph.ClosureSound | lib/di/DI.spec.js:70-97 | every module in the closure is required by the root or by a module listed before it |
| RequireGraph.VisitCloses | lib/di/DI.spec.js:70-97 | every registered module required by a module the walk reaches is reached or was already visited |
| RequireGraph.VisitAllCloses | lib/di/DI.spec.js:70-97 | every registered name in the list, and every registered module required by a reached module, is reached or was already visited |
| RequireGraph.ClosureComplete | lib/di/DI.spec.js:70-97 | every registered module the root requires, and every registered module required by a closure member, is in the closure, unless it is the root itself |
| RequireGraph.CollectClosure | lib/di/DI.spec.js:99-103 | the worklist loop with an explicit stack and visited set ends, and it yields exactly `Closure` |
| RequireGraph.Shrinks | lib/di/DI.spec.js:99-103 | visiting more names never increases the number of unvisited modules, and visiting a new one decreases it; this is why the walk ends on cycles |
| Params.IndexOf | lib/di/DI.spec.js:148-156 | the position of the first occurrence of the character, or the text's length when it does not occur |
| Params.TrimStart | lib/di/DI.spec.js:124 | the text without its leading white space: a suffix of the input, everything dropped is white space, and the result does not start with white space |
| Params.TrimEnd | lib/di/DI.spec.js:124 | the text without its trailing white space: a prefix of the input, everything dropped is white space, and the result does not end with white space |
| Params.Trim | lib/di/DI.spec.js:124 | a trimmed piece neither starts nor ends with white space and holds only characters of the input |
| Params.TrimSlice | lib/di/DI.spec.js:124 | `Trim` keeps exactly the slice of the text between its leading and its trailing white space, and gives the empty text exactly for a blank text |
| Params.Split | lib/di/DI.spec.js:124 | splitting on commas gives at least one piece and no piece contains a comma |
| Params.JoinSplit | lib/di/DI.spec.js:124 | joining the pieces back with commas gives the original text, so no text is lost or reordered |
| Params.Clean | lib/di/DI.spec.js:139-146 | the kept pieces are trimmed and non-blank, and there are no more of them than the input pieces |
| Params.CleanOne | lib/di/DI.spec.js:139-146 | a single piece is dropped exactly when it is blank, and is otherwise kept trimmed |
| Params.CleanAppend | lib/di/DI.spec.js:124 | cleaning works piece by piece, keeping order: the names of `a + b` are those of `a` followed by those of `b` |
| Params.Names | lib/di/DI.spec.js:124 | every name read from a parameter list is non-empty and contains no comma |
| Params.ParamNames | lib/di/DI.spec.js:148-156 | the names are `None` exactly when the text has no `(` or no `)` after it; every extracted name is non-empty and contains no comma and no `)` |
| Params.NamesKeepOut | lib/di/DI.spec.js:148-156 | a character absent from the parameter list text is absent from every extracted name |
| Params.NamesOfPadded | lib/di/DI.spec.js:124 | a parameter list whose names carry any white space before and after them, such as `(a,b)`, `(a ,b)` or a list across lines, reads back exactly those names, in order |
| Params.Padded | lib/di/DI.spec.js:124 | the pieces of a padded list: one per name, the name with its white space before and after it |
| Params.PieceName | lib/di/DI.spec.js:124 | a name with white space around it has no comma and reads as that name |
| Params.SplitWhole | lib/di/DI.spec.js:124 | a text without commas is a single piece |
| Params.NamesOfRendered | lib/di/DI.spec.js:124 | rendering well-formed names as `a, b, c`, after any blank prefix, and reading them back gives the same names in the same order |
| Params.SignatureOnly | lib/di/DI.spec.js:148-156 | only the first parenthesised list counts: whatever follows its `)`, nested functions and their parameter lists included, the names are those of that list |
| Params.DeclarationNames | lib/di-simple/DI.spec.js:48-56 | the declaration text `head(a, b, c) body` yields exactly `[a, b, c]` |
| Params.NoParameters | lib/di/DI.spec.js:139-146 | an empty or blank parameter list yields no names |
| Scenarios.RegisterModule | lib/di/DI.spec.js:10-13 | `module('module1', [])` yields a module, filed under its name, with no requires and no bindings |
| Scenarios.ReplaceModule | lib/di/DI.spec.js:18-22 | creating `module` twice gives two distinct modules; the registry holds only the second, and the first is no longer in it |
| Scenarios.InjectOne | lib/di/DI.spec.js:33-41 | injecting `function (name) { ... }` gives a wrapper of that module over `[name]` |
| Scenarios.LoadMultiple | lib/di/DI.spec.js:24-44 | each of two unrelated modules resolves its own binding, and module A does not see B's binding |
| Scenarios.CallAlone | lib/di/DI.spec.js:24-44 | a one-name wrapper of a module requiring nothing passes that module's binding or `None` |
| Scenarios.CallResolved | lib/di/DI.spec.js:42-43 | a one-name wrapper passes exactly what the name resolves to |
| Scenarios.LoadRequired | lib/di/DI.spec.js:46-67 | `moduleB`, requiring `moduleA`, resolves its own `bFunc` and A's `aFunc`; A resolves `aFunc` |
| Scenarios.RequiredOutcome | lib/di/DI.spec.js:64-66 | the three expectations of the required-module test, for any registry in that state |
| Scenarios.PathOfB | lib/di/DI.spec.js:47-48 | the lookup path of `moduleB` is `[moduleB, moduleA]` |
| Scenarios.LoadTransitive | lib/di/DI.spec.js:70-97 | `moduleC` requires B, which requires A, and C resolves `aFunc`, which only A binds, to A's function |
| Scenarios.TransitiveOutcome | lib/di/DI.spec.js:96 | the transitive expectation, for any registry in that state |
| Scenarios.PathOfC | lib/di/DI.spec.js:73-75 | the lookup path of `moduleC` is `[moduleC, moduleB, moduleA]` |
| Scenarios.LoadEachOnce | lib/di/DI.spec.js:99-103 | with `moduleA` and `moduleB` requiring each other, the walks end and the paths are `[A, B]` and `[B, A]`, each module once |
| Scenarios.MutualPath | lib/di/DI.spec.js:101-102 | for two modules requiring each other, the lookup path of one is itself followed by the other |
| InjectScenarios.BeforeAll | lib/di/DI.spec.js:114-121 | the hook creates `app`, requiring nothing, with exactly its four bindings |
| InjectScenarios.InjectNames | lib/di/DI.spec.js:124 | injecting a declaration over well-formed names gives a wrapper over exactly those names |
| InjectScenarios.AreNames | lib/di/DI.spec.js:124 | the parameter names the tests declare are well-formed identifiers |
| InjectScenarios.LettersAreNames | lib/di/DI.spec.js:124 | a non-empty word of ASCII letters is a well-formed name |
| InjectScenarios.ResolveAll | lib/di/DI.spec.js:123-130 | the wrapper passes `Auth, User, MainCtrl, sum` in declared order, each its registered function |
| InjectScenarios.AllOutcome | lib/di/DI.spec.js:127-129 | the same expectation, for any `app` that requires nothing and holds at least the four bindings |
| InjectScenarios.Unregistered | lib/di/DI.spec.js:132-137 | the wrapper passes one argument, `undefined` |
| InjectScenarios.UnregisteredOutcome | lib/di/DI.spec.js:136 | the same expectation, for any `app` with the hook's bindings |
| InjectScenarios.NoDependencies | lib/di/DI.spec.js:139-146 | `function ()` gives a wrapper that passes no arguments |
| InjectScenarios.NestedIgnored | lib/di/DI.spec.js:148-156 | the wrapper's names are `app, login, Auth`; it passes three arguments, the first two `undefined`; the nested `(d, e, f)` is ignored |
| InjectScenarios.NestedOutcome | lib/di/DI.spec.js:155 | the same argument sequence, for any `app` with the hook's bindings |
| InjectScenarios.LaterRegistrations | lib/di/DI.spec.js:158-168 | after `mult` and `subtract` are registered, `app` holds exactly the hook's bindings plus those two, and the wrapper passes `sum, subtract, mult` in order |
| InjectScenarios.LaterOutcome | lib/di/DI.spec.js:164-167 | the same argument sequence, for any `app` holding those six bindings |
| InjectScenarios.RecursiveWrapper | lib/di/DI.spec.js:170-183 | starting from the module the later-registrations test leaves, `app` ends with the hook's bindings, `mult`, `subtract` and `injectedFunc`; the inner wrapper passes the four functions; the outer one passes `User` and then the inner wrapper itself |
| InjectScenarios.RecursiveOutcome | lib/di/DI.spec.js:176-182 | the same two argument sequences, for any `app` requiring nothing that holds at least the hook's bindings and binds `injectedFunc` to the inner wrapper |
| SimpleScenarios.SetUp | lib/di-simple/DI.spec.js:14-21 | the hook re-creates the module named `app`, requiring nothing, with exactly its four bindings; the other registry entries are unchanged |
| SimpleScenarios.ResolveAll | lib/di-simple/DI.spec.js:23-30 | on the shared `app`, the wrapper passes the four registered functions in declared order |
| SimpleScenarios.Unregistered | lib/di-simple/DI.spec.js:32-37 | a name that `app` does not bind is passed as `undefined` |
| SimpleScenarios.NoDependencies | lib/di-simple/DI.spec.js:39-46 | a wrapper over `function ()` passes no arguments, whatever the module binds |
| SimpleScenarios.NestedIgnored | lib/di-simple/DI.spec.js:48-56 | the wrapper's names are exactly `app, login, Auth`, so the nested parameter list is ignored; it passes `undefined, undefined, Auth` |
| SimpleScenarios.NestedResolved | lib/di-simple/DI.spec.js:55 | the same argument sequence, for any `app` requiring nothing that holds the hook's bindings and binds neither `app` nor `login` |
| SimpleScenarios.LaterRegistrations | lib/di-simple/DI.spec.js:58-68 | the binding table becomes the old one plus `mult` and `subtract`, so the earlier bindings are kept; the wrapper passes `sum, subtract, mult` |
| SimpleScenarios.LaterResolved | lib/di-simple/DI.spec.js:64-67 | the same argument sequence, for any `app` holding those bindings |
| SimpleScenarios.RecursiveWrapper | lib/di-simple/DI.spec.js:70-84 | the binding table becomes the old one plus `injectedFunc` bound to the inner wrapper; the inner wrapper passes the four functions; the outer one passes `User` and the inner wrapper |
| SimpleScenarios.Suite | lib/di-simple/DI.spec.js:7-85 | the hook once, then the six tests in order on the same module: at the end the registry is as before except that `"app"` now files `app`, which holds the hook's bindings plus `mult`, `subtract` and `injectedFunc`, and the last wrapper passes `User` and the registered wrapper |
| SimpleScenarios.Unbound | lib/di-simple/DI.spec.js:32-37 | `nonExistingVar`, `app` and `login` are not among the hook's bindings |

## Left out

- Executing JavaScript is left out. What `Auth`, `User`, `sum`, `mult`
  and `subtract` compute, `join` and string concatenation are outside the
  model. A registered function is an `Opaque` value. The tests'
  expectations on returned strings and numbers are stated as which value
  reaches which argument position.
- `Function.prototype.toString` and the `arguments` object are left out.
  A function's declaration text is an input string, built with
  `Params.Declaration` in the scenarios.
- Comments inside a parameter list are not stripped. Default values,
  destructuring and rest parameters are not treated specially; each
  comma-separated piece, once trimmed, is a name. No test uses any of
  these.
- The process-wide singleton registry is modelled as an explicit
  `Registry` object.
- The test harness (`describe`, `it`, `before`, `expect`) is left out.
  Each test case is a method whose `ensures` states the expectation.
- DI.Registry.Call: it models one call step only. Calling a wrapper
  yields its argument sequence; an argument that is itself a wrapper is
  passed as a value and not called. Whether nested self-referential
  wrappers terminate when invoked is not modelled.
- DI.Module.Inject: a text that is not a function is modelled as `None`.
  The engine's behaviour for a non-function argument is not observable
  from the tests.
- DI.Module.Inject: an arrow function whose single parameter has no
  parentheses (`x => x`) has no parenthesised list. The model gives
  `None` for it, not a wrapper over `[x]`. No test uses arrow functions.
- DI.Value: a wrapper records its module and its parameter names, not
  the function it wraps. So two wrappers over the same names in the same
  module are the same value in the model, whereas in JavaScript they are
  distinct functions. This is because the model states only which
  arguments a wrapper passes, never what the wrapped function returns.
- Shadowing of required modules' bindings by a module's own bindings is
  a design choice (`ResolveOwn`, `ResolveFirst`). No test checks it.
- DI.Registry.ResolveRequired and DI.Registry.ResolveTransitive: the
  resolved value is fixed only when the binding module is the only one
  on the lookup path that binds the name. Otherwise the first binder on
  the path decides, as `ResolveFirst` states.
