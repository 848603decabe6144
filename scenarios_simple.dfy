/** The tests of the single-module container. Its `before` hook runs once,
    so the tests share one `app` module whose bindings only grow; each test
    is stated for any registry and any `app` that requires nothing and holds
    at least the bindings the earlier steps made. */
module SimpleScenarios {
  import opened Wrappers
  import opened DI
  import opened InjectScenarios

  /** The `before` hook: `app` is (re)created in the registry, whatever it
      held, and the four functions are registered in it. */
  method SetUp(reg: Registry) returns (app: Module)
    modifies reg
    ensures fresh(app)
    ensures reg.modules == old(reg.modules)["app" := app]
    ensures app.name == "app" && app.required == [] && app.bindings == Registered
  {
    app := reg.CreateModule("app", []);
    app.Register("MainCtrl", MainCtrl);
    app.Register("User", User);
    app.Register("Auth", Auth);
    app.Register("sum", Sum);
  }

  /** Every parameter is resolved, each to its own binding, in declared order. */
  method ResolveAll(reg: Registry, app: Module) returns (w: Value)
    requires app.required == [] && Holds(app, Registered)
    ensures reg.Call(w) == Some([Some(Auth), Some(User), Some(MainCtrl), Some(Sum)])
  {
    AreNames(["Auth", "User", "MainCtrl", "sum"]);
    w := InjectNames(app, ["Auth", "User", "MainCtrl", "sum"], AllBody);
    AllOutcome(reg, app);
  }

  /** A name the module does not bind is passed as `undefined`. */
  method Unregistered(reg: Registry, app: Module) returns (w: Value)
    requires app.required == [] && "nonExistingVar" !in app.bindings
    ensures reg.Call(w) == Some([None])
  {
    AreNames(["nonExistingVar"]);
    w := InjectNames(app, ["nonExistingVar"], " { return nonExistingVar; }");
    reg.CallAlone(app, ["nonExistingVar"]);
    assert reg.Call(Wrapper(app, ["nonExistingVar"])).value == [None];
  }

  /** A function declaring no parameters receives no arguments, whatever the
      module binds. */
  method NoDependencies(reg: Registry, app: Module) returns (w: Value)
    ensures reg.Call(w) == Some([])
  {
    w := InjectNames(app, [], " { return arguments.length; }");
  }

  /** Three arguments for the outer parameters, `app` and `login` among them
      unresolved; the nested `(d, e, f)` is ignored. */
  method NestedIgnored(reg: Registry, app: Module) returns (w: Value)
    requires app.required == [] && Holds(app, Registered)
    requires "app" !in app.bindings && "login" !in app.bindings
    ensures w == Wrapper(app, ["app", "login", "Auth"])
    ensures reg.Call(w) == Some([None, None, Some(Auth)])
  {
    AreNames(["app", "login", "Auth"]);
    w := InjectNames(app, ["app", "login", "Auth"], NestedBody);
    NestedResolved(reg, app);
  }

  lemma NestedResolved(reg: Registry, app: Module)
    requires app.required == [] && Holds(app, Registered)
    requires "app" !in app.bindings && "login" !in app.bindings
    ensures reg.Call(Wrapper(app, ["app", "login", "Auth"])) == Some([None, None, Some(Auth)])
  {
    reg.CallAlone(app, ["app", "login", "Auth"]);
    assert "Auth" in Registered;
    assert reg.Call(Wrapper(app, ["app", "login", "Auth"])).value == [None, None, Some(Auth)];
  }

  /** `mult` and `subtract` registered by the test resolve beside `sum`, and
      the bindings made before stay as they were. */
  method LaterRegistrations(reg: Registry, app: Module) returns (w: Value)
    requires app.required == [] && Holds(app, Registered)
    modifies app
    ensures app.bindings == old(app.bindings)["mult" := Mult]["subtract" := Subtract]
    ensures Holds(app, Registered)
    ensures Holds(app, map["mult" := Mult, "subtract" := Subtract])
    ensures reg.Call(w) == Some([Some(Sum), Some(Subtract), Some(Mult)])
  {
    app.Register("mult", Mult);
    app.Register("subtract", Subtract);
    AreNames(["sum", "subtract", "mult"]);
    w := InjectNames(app, ["sum", "subtract", "mult"], " { return subtract(mult(5, 4), sum(5, 4)); }");
    LaterResolved(reg, app);
  }

  lemma LaterResolved(reg: Registry, app: Module)
    requires app.required == [] && Holds(app, Registered) && Holds(app, map["mult" := Mult, "subtract" := Subtract])
    ensures reg.Call(Wrapper(app, ["sum", "subtract", "mult"])) == Some([Some(Sum), Some(Subtract), Some(Mult)])
  {
    reg.CallAlone(app, ["sum", "subtract", "mult"]);
    assert "sum" in Registered;
    assert "mult" in map["mult" := Mult, "subtract" := Subtract] && "subtract" in map["mult" := Mult, "subtract" := Subtract];
    assert reg.Call(Wrapper(app, ["sum", "subtract", "mult"])).value == [Some(Sum), Some(Subtract), Some(Mult)];
  }

  /** A wrapper registered as `injectedFunc` reaches a later wrapper's second
      argument as that very wrapper, and calling it resolves its own names. */
  method RecursiveWrapper(reg: Registry, app: Module) returns (inner: Value, outer: Value)
    requires app.required == [] && Holds(app, Registered)
    modifies app
    ensures app.bindings == old(app.bindings)["injectedFunc" := inner]
    ensures reg.Call(inner) == Some([Some(Auth), Some(User), Some(MainCtrl), Some(Sum)])
    ensures reg.Call(outer) == Some([Some(User), Some(inner)])
  {
    AreNames(["Auth", "User", "MainCtrl", "sum"]);
    inner := InjectNames(app, ["Auth", "User", "MainCtrl", "sum"], AllBody);
    app.Register("injectedFunc", inner);
    AreNames(["User", "injectedFunc"]);
    outer := InjectNames(app, ["User", "injectedFunc"], " { return [User(), injectedFunc()].join(', '); }");
    RecursiveOutcome(reg, app, inner);
  }

  /** The names the tests leave unbound are not among the hook's. */
  lemma Unbound()
    ensures "nonExistingVar" !in Registered && "app" !in Registered && "login" !in Registered
  {
    assert Registered.Keys == {"MainCtrl", "User", "Auth", "sum"};
    assert |"nonExistingVar"| == 14 && |"app"| == 3 && |"login"| == 5;
    assert "app" != "sum" by { assert "app"[0] != "sum"[0]; }
  }

  /** The suite in its order: the hook once, then each test on the same
      module. At the end `app` is the module filed under its name, every
      other registry entry is as it was,
      holding the hook's bindings and those the tests added, and the last
      wrapper still passes `User` and the registered wrapper. */
  method Suite(reg: Registry) returns (app: Module, inner: Value, outer: Value)
    modifies reg
    ensures reg.modules == old(reg.modules)["app" := app]
    ensures app.bindings == Registered["mult" := Mult]["subtract" := Subtract]["injectedFunc" := inner]
    ensures reg.Call(outer) == Some([Some(User), Some(inner)])
  {
    app := SetUp(reg);
    Unbound();
    var all := ResolveAll(reg, app);
    var none := Unregistered(reg, app);
    var zero := NoDependencies(reg, app);
    var nested := NestedIgnored(reg, app);
    var later := LaterRegistrations(reg, app);
    inner, outer := RecursiveWrapper(reg, app);
  }
}
