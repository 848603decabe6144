/** The module tests of the multi-module container, each replayed on a fresh
    registry. Registered functions are stand-ins with distinct identities;
    function texts are built with `Params.Declaration`, so the parameter
    list is exactly the one written in the test. */
module Scenarios {
  import opened Wrappers
  import Params
  import opened DI

  const AFunc := Opaque(1)
  const BFunc := Opaque(2)
  const CFunc := Opaque(3)

  /** `DI.module('module1', [])` yields a module, filed under its name. */
  method RegisterModule() returns (reg: Registry, m: Module)
    ensures reg.modules == map["module1" := m]
    ensures m.name == "module1" && m.required == [] && m.bindings == map[]
  {
    reg := new Registry();
    m := reg.CreateModule("module1", []);
  }

  /** Creating `module` twice gives two distinct modules; the second one is
      the one filed under the name. */
  method ReplaceModule() returns (reg: Registry, m1: Module, m2: Module)
    ensures m1 != m2
    ensures reg.modules == map["module" := m2]
    ensures m1 !in reg.modules.Values
  {
    reg := new Registry();
    m1 := reg.CreateModule("module", []);
    m2 := reg.CreateModule("module", []);
  }

  /** A wrapper over `(name)` made in `m`. */
  method InjectOne(m: Module, name: string) returns (w: Value)
    requires Params.IsName(name)
    ensures w == Wrapper(m, [name])
  {
    m.InjectDeclaration("function ", [name], " { return f(); }");
    w := m.Inject(Params.Declaration("function ", [name], " { return f(); }")).value;
  }

  /** Two unrelated modules: each resolves its own binding, and one does not
      see the other's. */
  method LoadMultiple() returns (reg: Registry, a: Module, b: Module, intoA: Value, intoB: Value, intoAFromB: Value)
    ensures reg.Call(intoA) == Some([Some(AFunc)])
    ensures reg.Call(intoB) == Some([Some(BFunc)])
    ensures reg.Call(intoAFromB) == Some([None])
  {
    reg := new Registry();
    a := reg.CreateModule("moduleA", []);
    b := reg.CreateModule("moduleB", []);
    a.Register("aFunc", AFunc);
    b.Register("bFunc", BFunc);
    intoA := InjectOne(a, "aFunc");
    intoB := InjectOne(b, "bFunc");
    intoAFromB := InjectOne(a, "bFunc");
    CallAlone(reg, a, "aFunc");
    CallAlone(reg, b, "bFunc");
    CallAlone(reg, a, "bFunc");
  }

  /** A one-parameter wrapper made in a module that requires nothing. */
  lemma CallAlone(reg: Registry, m: Module, name: string)
    requires m.required == []
    ensures reg.Call(Wrapper(m, [name])) == Some([if name in m.bindings then Some(m.bindings[name]) else None])
  {
    reg.ResolveAlone(m, name);
    CallResolved(reg, m, name, if name in m.bindings then Some(m.bindings[name]) else None);
  }

  /** A one-parameter wrapper whose name resolves to `v`. */
  lemma CallResolved(reg: Registry, m: Module, name: string, v: Option<Value>)
    requires reg.Resolve(m, name) == v
    ensures reg.Call(Wrapper(m, [name])) == Some([v])
  {
    var r := reg.Call(Wrapper(m, [name]));
    assert r.value == [v];
  }

  /** `moduleB` requires `moduleA`: it resolves its own name and A's. */
  method LoadRequired() returns (reg: Registry, a: Module, b: Module, intoA: Value, intoB: Value, intoBFromA: Value)
    ensures reg.Call(intoA) == Some([Some(AFunc)])
    ensures reg.Call(intoB) == Some([Some(BFunc)])
    ensures reg.Call(intoBFromA) == Some([Some(AFunc)])
  {
    reg := new Registry();
    a := reg.CreateModule("moduleA", []);
    b := reg.CreateModule("moduleB", ["moduleA"]);
    a.Register("aFunc", AFunc);
    b.Register("bFunc", BFunc);
    intoA := InjectOne(a, "aFunc");
    intoB := InjectOne(b, "bFunc");
    intoBFromA := InjectOne(b, "aFunc");
    RequiredOutcome(reg, a, b);
  }

  lemma RequiredOutcome(reg: Registry, a: Module, b: Module)
    requires "moduleA" in reg.modules && reg.modules["moduleA"] == a
    requires a.required == [] && a.bindings == map["aFunc" := AFunc]
    requires b.name == "moduleB" && b.required == ["moduleA"] && b.bindings == map["bFunc" := BFunc]
    ensures reg.Call(Wrapper(a, ["aFunc"])) == Some([Some(AFunc)])
    ensures reg.Call(Wrapper(b, ["bFunc"])) == Some([Some(BFunc)])
    ensures reg.Call(Wrapper(b, ["aFunc"])) == Some([Some(AFunc)])
  {
    CallAlone(reg, a, "aFunc");
    reg.ResolveOwn(b, "bFunc");
    CallResolved(reg, b, "bFunc", Some(BFunc));
    PathOfB(reg, a, b);
    reg.ResolveFirst(b, "aFunc", 1);
    CallResolved(reg, b, "aFunc", Some(AFunc));
  }

  lemma PathOfB(reg: Registry, a: Module, b: Module)
    requires "moduleA" in reg.modules && reg.modules["moduleA"] == a && a.required == []
    requires b.name == "moduleB" && b.required == ["moduleA"]
    ensures reg.Visible(b) == [b, a]
  {
    var g := reg.Graph();
    RequireGraph.VisitAllOne(g, "moduleA", {"moduleB"});
    assert RequireGraph.Visit(g, "moduleA", {"moduleB"}) == ["moduleA"] + RequireGraph.VisitAll(g, [], {"moduleB", "moduleA"});
    assert RequireGraph.Closure(g, "moduleB", ["moduleA"]) == ["moduleA"];
  }

  /** `moduleC` requires `moduleB`, which requires `moduleA`: C resolves a
      name bound only in A. */
  method LoadTransitive() returns (reg: Registry, a: Module, b: Module, c: Module, intoCFromA: Value)
    ensures reg.Call(intoCFromA) == Some([Some(AFunc)])
  {
    reg := new Registry();
    a := reg.CreateModule("moduleA", []);
    b := reg.CreateModule("moduleB", ["moduleA"]);
    c := reg.CreateModule("moduleC", ["moduleB"]);
    a.Register("aFunc", AFunc);
    b.Register("bFunc", BFunc);
    c.Register("cFunc", CFunc);
    intoCFromA := InjectOne(c, "aFunc");
    TransitiveOutcome(reg, a, b, c);
  }

  lemma TransitiveOutcome(reg: Registry, a: Module, b: Module, c: Module)
    requires "moduleA" in reg.modules && reg.modules["moduleA"] == a
    requires "moduleB" in reg.modules && reg.modules["moduleB"] == b
    requires a.required == [] && a.bindings == map["aFunc" := AFunc]
    requires b.required == ["moduleA"] && b.bindings == map["bFunc" := BFunc]
    requires c.name == "moduleC" && c.required == ["moduleB"] && c.bindings == map["cFunc" := CFunc]
    ensures reg.Call(Wrapper(c, ["aFunc"])) == Some([Some(AFunc)])
  {
    PathOfC(reg, a, b, c);
    reg.ResolveFirst(c, "aFunc", 2);
    CallResolved(reg, c, "aFunc", Some(AFunc));
  }

  lemma PathOfC(reg: Registry, a: Module, b: Module, c: Module)
    requires "moduleA" in reg.modules && reg.modules["moduleA"] == a && a.required == []
    requires "moduleB" in reg.modules && reg.modules["moduleB"] == b && b.required == ["moduleA"]
    requires c.name == "moduleC" && c.required == ["moduleB"]
    ensures reg.Visible(c) == [c, b, a]
  {
    var g := reg.Graph();
    var v := {"moduleC", "moduleB"};
    RequireGraph.VisitAllOne(g, "moduleA", v);
    assert RequireGraph.Visit(g, "moduleA", v) == ["moduleA"] + RequireGraph.VisitAll(g, [], v + {"moduleA"});
    RequireGraph.VisitAllOne(g, "moduleB", {"moduleC"});
    assert "moduleB" in g && g["moduleB"] == ["moduleA"];
    assert {"moduleC"} + {"moduleB"} == v;
    assert RequireGraph.Visit(g, "moduleB", {"moduleC"}) == ["moduleB"] + RequireGraph.VisitAll(g, ["moduleA"], v);
    assert RequireGraph.Closure(g, "moduleC", ["moduleB"]) == ["moduleB", "moduleA"];
  }

  /** `moduleA` and `moduleB` require each other: building them and walking
      their requires ends, and each lookup path holds both modules once. */
  method LoadEachOnce() returns (reg: Registry, a: Module, b: Module, pathA: seq<Module>, pathB: seq<Module>)
    ensures a != b
    ensures pathA == [a, b] && pathB == [b, a]
  {
    reg := new Registry();
    a := reg.CreateModule("moduleA", ["moduleB"]);
    b := reg.CreateModule("moduleB", ["moduleA"]);
    pathA := reg.VisibleModules(a);
    pathB := reg.VisibleModules(b);
    MutualPath(reg, a, b);
    MutualPath(reg, b, a);
  }

  /** With `x` and `y` requiring each other, the path of `x` is `[x, y]`. */
  lemma MutualPath(reg: Registry, x: Module, y: Module)
    requires x.name in reg.modules && y.name in reg.modules && reg.modules[y.name] == y
    requires x.name != y.name && x.required == [y.name] && y.required == [x.name]
    ensures reg.Visible(x) == [x, y]
  {
    var g := reg.Graph();
    var v := {x.name, y.name};
    RequireGraph.VisitAllOne(g, x.name, v);
    assert RequireGraph.Visit(g, x.name, v) == [];
    RequireGraph.VisitAllOne(g, y.name, {x.name});
    assert y.name in g && g[y.name] == [x.name];
    assert {x.name} + {y.name} == v;
    assert RequireGraph.Visit(g, y.name, {x.name}) == [y.name] + RequireGraph.VisitAll(g, [x.name], v);
    assert RequireGraph.Closure(g, x.name, [y.name]) == [y.name];
  }
}
