/** The injection tests of the multi-module container. The `before` hook
    runs once: it creates module `app` requiring nothing and registers four
    functions in it, and the tests then run in order on that one module.
    The tests up to the nested-function one register nothing, so each of
    them starts from the state the hook leaves; the later-registrations test
    adds `mult` and `subtract`, and the recursive test starts from the state
    it leaves. Each test injects a function text, and its expectation is
    stated on the arguments the wrapper passes when called. */
module InjectScenarios {
  import opened Wrappers
  import Params
  import opened DI

  const MainCtrl := Opaque(11)
  const User := Opaque(12)
  const Auth := Opaque(13)
  const Sum := Opaque(14)
  const Mult := Opaque(15)
  const Subtract := Opaque(16)

  /** The body of the function injected by the nested-function test: it
      declares a function of its own, with a parameter list of its own. */
  const NestedBody := " { function nested(d, e, f) {} var args = Array.prototype.slice.call(arguments, 0); return args.length; }"

  /** The body of the function that uses all four registered functions. */
  const AllBody := " { return [Auth(), User(), MainCtrl(), sum(1, 2)].join(', '); }"

  /** The bindings the `before` hook registers. */
  const Registered := map["MainCtrl" := MainCtrl, "User" := User, "Auth" := Auth, "sum" := Sum]

  /** `app` binds at least what `b` binds, to the same values. */
  ghost predicate Holds(app: Module, b: map<string, Value>)
    reads app
  {
    forall n :: n in b ==> n in app.bindings && app.bindings[n] == b[n]
  }

  /** The `before` hook: `app` with its four bindings. */
  method BeforeAll() returns (reg: Registry, app: Module)
    ensures fresh(reg) && fresh(app)
    ensures reg.modules == map["app" := app]
    ensures app.name == "app" && app.required == [] && app.bindings == Registered
  {
    reg := new Registry();
    app := reg.CreateModule("app", []);
    app.Register("MainCtrl", MainCtrl);
    app.Register("User", User);
    app.Register("Auth", Auth);
    app.Register("sum", Sum);
  }

  /** `m.inject(function (n1, n2, ...) body)`. */
  method InjectNames(m: Module, names: seq<string>, body: string) returns (w: Value)
    requires forall k :: 0 <= k < |names| ==> Params.IsName(names[k])
    ensures w == Wrapper(m, names)
  {
    m.InjectDeclaration("function ", names, body);
    w := m.Inject(Params.Declaration("function ", names, body)).value;
  }

  /** The parameter names the tests declare are plain identifiers. */
  lemma AreNames(names: seq<string>)
    requires names in [["Auth", "User", "MainCtrl", "sum"], ["nonExistingVar"], ["app", "login", "Auth"],
                       ["sum", "subtract", "mult"], ["User", "injectedFunc"]]
    ensures forall k :: 0 <= k < |names| ==> Params.IsName(names[k])
  {
    forall k | 0 <= k < |names| ensures Params.IsName(names[k]) {
      var n := names[k];
      assert n in {"Auth", "User", "MainCtrl", "sum", "nonExistingVar", "app", "login", "subtract", "mult", "injectedFunc"};
      assert forall i :: 0 <= i < |n| ==> 'A' <= n[i] <= 'z';
      LettersAreNames(n);
    }
  }

  /** A non-empty word of ASCII letters is a name. */
  lemma LettersAreNames(n: string)
    requires n != [] && forall i :: 0 <= i < |n| ==> 'A' <= n[i] <= 'z'
    ensures Params.IsName(n)
  {
  }

  /** Every parameter is resolved, each to its own binding, in declared order. */
  method ResolveAll() returns (reg: Registry, app: Module, w: Value)
    ensures reg.Call(w) == Some([Some(Auth), Some(User), Some(MainCtrl), Some(Sum)])
  {
    reg, app := BeforeAll();
    AreNames(["Auth", "User", "MainCtrl", "sum"]);
    w := InjectNames(app, ["Auth", "User", "MainCtrl", "sum"], AllBody);
    AllOutcome(reg, app);
  }

  /** For any `app` requiring nothing that holds at least the hook's
      bindings, the four names resolve to the four functions, in order. */
  lemma AllOutcome(reg: Registry, app: Module)
    requires app.required == [] && Holds(app, Registered)
    ensures reg.Call(Wrapper(app, ["Auth", "User", "MainCtrl", "sum"])) == Some([Some(Auth), Some(User), Some(MainCtrl), Some(Sum)])
  {
    reg.CallAlone(app, ["Auth", "User", "MainCtrl", "sum"]);
    assert "Auth" in Registered && "User" in Registered && "MainCtrl" in Registered && "sum" in Registered;
    assert reg.Call(Wrapper(app, ["Auth", "User", "MainCtrl", "sum"])).value == [Some(Auth), Some(User), Some(MainCtrl), Some(Sum)];
  }

  /** A name bound nowhere is passed as `undefined`. */
  method Unregistered() returns (reg: Registry, app: Module, w: Value)
    ensures reg.Call(w) == Some([None])
  {
    reg, app := BeforeAll();
    AreNames(["nonExistingVar"]);
    w := InjectNames(app, ["nonExistingVar"], " { return nonExistingVar; }");
    UnregisteredOutcome(reg, app);
  }

  lemma UnregisteredOutcome(reg: Registry, app: Module)
    requires app.required == [] && app.bindings == Registered
    ensures reg.Call(Wrapper(app, ["nonExistingVar"])) == Some([None])
  {
    reg.ResolveAlone(app, "nonExistingVar");
    var args := reg.Call(Wrapper(app, ["nonExistingVar"])).value;
    assert args == [None];
  }

  /** A function declaring no parameters receives no arguments. */
  method NoDependencies() returns (reg: Registry, app: Module, w: Value)
    ensures reg.Call(w) == Some([])
  {
    reg, app := BeforeAll();
    w := InjectNames(app, [], " { return arguments.length; }");
  }

  /** Only the outer parameter list counts: three arguments, two of them
      unresolved, the nested `(d, e, f)` ignored. */
  method NestedIgnored() returns (reg: Registry, app: Module, w: Value)
    ensures w.Wrapper? && w.params == ["app", "login", "Auth"]
    ensures reg.Call(w) == Some([None, None, Some(Auth)])
  {
    reg, app := BeforeAll();
    AreNames(["app", "login", "Auth"]);
    w := InjectNames(app, ["app", "login", "Auth"], NestedBody);
    NestedOutcome(reg, app);
  }

  lemma NestedOutcome(reg: Registry, app: Module)
    requires app.required == [] && app.bindings == Registered
    ensures reg.Call(Wrapper(app, ["app", "login", "Auth"])) == Some([None, None, Some(Auth)])
  {
    var names := ["app", "login", "Auth"];
    var args := reg.Call(Wrapper(app, names)).value;
    reg.ResolveAlone(app, "app");
    reg.ResolveAlone(app, "login");
    reg.ResolveAlone(app, "Auth");
    assert args[0] == None && args[1] == None && args[2] == Some(Auth);
    assert args == [None, None, Some(Auth)];
  }

  /** Functions registered by the test itself are resolved beside the ones
      from the hook, which keep their bindings. */
  method LaterRegistrations() returns (reg: Registry, app: Module, w: Value)
    ensures fresh(app)
    ensures app.required == [] && app.bindings == Registered["mult" := Mult]["subtract" := Subtract]
    ensures reg.Call(w) == Some([Some(Sum), Some(Subtract), Some(Mult)])
  {
    reg, app := BeforeAll();
    app.Register("mult", Mult);
    app.Register("subtract", Subtract);
    AreNames(["sum", "subtract", "mult"]);
    w := InjectNames(app, ["sum", "subtract", "mult"], " { return subtract(mult(5, 4), sum(5, 4)); }");
    LaterOutcome(reg, app);
  }

  lemma LaterOutcome(reg: Registry, app: Module)
    requires app.required == [] && app.bindings == Registered["mult" := Mult]["subtract" := Subtract]
    ensures reg.Call(Wrapper(app, ["sum", "subtract", "mult"])) == Some([Some(Sum), Some(Subtract), Some(Mult)])
  {
    var names := ["sum", "subtract", "mult"];
    var args := reg.Call(Wrapper(app, names)).value;
    reg.ResolveAlone(app, "sum");
    reg.ResolveAlone(app, "subtract");
    reg.ResolveAlone(app, "mult");
    assert args[0] == Some(Sum) && args[1] == Some(Subtract) && args[2] == Some(Mult);
    assert args == [Some(Sum), Some(Subtract), Some(Mult)];
  }

  /** A wrapper registered as a binding is passed, as a wrapper, to a later
      one; calling it still resolves its own parameters. The test runs on
      the module the later-registrations test leaves, `mult` and
      `subtract` bound. */
  method RecursiveWrapper() returns (reg: Registry, app: Module, inner: Value, outer: Value)
    ensures app.bindings == Registered["mult" := Mult]["subtract" := Subtract]["injectedFunc" := inner]
    ensures reg.Call(inner) == Some([Some(Auth), Some(User), Some(MainCtrl), Some(Sum)])
    ensures reg.Call(outer) == Some([Some(User), Some(inner)])
  {
    var later;
    reg, app, later := LaterRegistrations();
    AreNames(["Auth", "User", "MainCtrl", "sum"]);
    inner := InjectNames(app, ["Auth", "User", "MainCtrl", "sum"], AllBody);
    app.Register("injectedFunc", inner);
    AreNames(["User", "injectedFunc"]);
    outer := InjectNames(app, ["User", "injectedFunc"], " { return [User(), injectedFunc()].join(', '); }");
    RecursiveOutcome(reg, app, inner);
  }

  /** For any `app` requiring nothing that holds at least the hook's
      bindings and binds `injectedFunc` to `inner`, the inner wrapper passes
      the four functions and the outer one passes `User` and `inner`. */
  lemma RecursiveOutcome(reg: Registry, app: Module, inner: Value)
    requires app.required == [] && Holds(app, Registered)
    requires inner == Wrapper(app, ["Auth", "User", "MainCtrl", "sum"])
    requires "injectedFunc" in app.bindings && app.bindings["injectedFunc"] == inner
    ensures reg.Call(inner) == Some([Some(Auth), Some(User), Some(MainCtrl), Some(Sum)])
    ensures reg.Call(Wrapper(app, ["User", "injectedFunc"])) == Some([Some(User), Some(inner)])
  {
    AllOutcome(reg, app);
    var outerArgs := reg.Call(Wrapper(app, ["User", "injectedFunc"])).value;
    reg.ResolveAlone(app, "User");
    reg.ResolveAlone(app, "injectedFunc");
    assert "User" in Registered;
    assert outerArgs == [Some(User), Some(inner)];
  }
}
