/** The container: a registry of named modules, each with a fixed requires
    list and a binding table that `register` fills in place, and the
    injector that resolves a function's parameter names against the
    module's own bindings and then those of its require closure.

    Registered JavaScript values are abstract: `Opaque(id)` stands for any
    value or function registered by the program, `Wrapper(owner, params)`
    for a function produced by `inject`, remembering the module it was made
    in and the parameter names read from the target's declaration.
    Resolution is late-bound: a wrapper stores names, not values, and
    `Registry.Call` resolves them against the state at the time of the
    call. */
module DI {
  import opened Wrappers
  import Params
  import RequireGraph

  datatype Value = Opaque(id: nat) | Wrapper(owner: Module, params: seq<string>)

  /** A module: its name and requires list are fixed at creation; its
      binding table grows with `Register`. */
  class Module {
    const name: string
    const required: seq<string>
    var bindings: map<string, Value>

    constructor (name: string, required: seq<string>)
      ensures this.name == name && this.required == required
      ensures bindings == map[]
    {
      this.name := name;
      this.required := required;
      bindings := map[];
    }

    /** Binds `key` to `value`, overwriting an earlier binding of `key` in
        this module and leaving every other binding as it was. */
    method Register(key: string, value: Value)
      modifies this
      ensures bindings == old(bindings)[key := value]
      ensures forall k :: k in old(bindings) && k != key ==> k in bindings && bindings[k] == old(bindings)[k]
    {
      bindings := bindings[key := value];
    }

    /** The wrapper `inject` makes from the declaration text `source`: it
        remembers this module and the parameter names in declared order.
        `None` when the text has no parenthesised parameter list (a
        non-function, or an arrow function with a bare parameter). */
    function Inject(source: string): (r: Option<Value>)
      ensures r.None? <==> Params.ParamNames(source).None?
      ensures r.Some? ==> r.value.Wrapper? && r.value.owner == this
      ensures r.Some? ==> r.value.params == Params.ParamNames(source).value
    {
      match Params.ParamNames(source)
      case None => None
      case Some(names) => Some(Wrapper(this, names))
    }

    /** Injecting a declaration `head(a, b, c) body` gives a wrapper of this
        module over exactly the names `a, b, c`, whatever the body holds. */
    lemma InjectDeclaration(head: string, names: seq<string>, body: string)
      requires '(' !in head
      requires forall k :: 0 <= k < |names| ==> Params.IsName(names[k])
      ensures Inject(Params.Declaration(head, names, body)) == Some(Wrapper(this, names))
    {
      Params.DeclarationNames(head, names, body);
    }
  }

  /** The first binding of `key` in `ms`, scanning in order. */
  function FirstBinding(ms: seq<Module>, key: string): (r: Option<Value>)
    reads ms
    ensures r.None? <==> forall i :: 0 <= i < |ms| ==> key !in ms[i].bindings
    ensures r.Some? ==> exists i :: 0 <= i < |ms| && key in ms[i].bindings && r.value == ms[i].bindings[key] &&
                           forall j :: 0 <= j < i ==> key !in ms[j].bindings
  {
    if ms == [] then None
    else if key in ms[0].bindings then Some(ms[0].bindings[key])
    else
      var r := FirstBinding(ms[1..], key);
      assert forall j :: 1 <= j < |ms| ==> ms[j] == ms[1..][j - 1];
      r
  }

  /** A module in `ms` binding the key makes the scan succeed, with that
      module's value when no other module in `ms` binds the key. */
  lemma FirstBindingOnly(ms: seq<Module>, key: string, m: Module)
    requires m in ms && key in m.bindings
    ensures FirstBinding(ms, key).Some?
    ensures (forall i :: 0 <= i < |ms| && key in ms[i].bindings ==> ms[i] == m) ==>
              FirstBinding(ms, key) == Some(m.bindings[key])
  {
    var r := FirstBinding(ms, key);
    if forall i :: 0 <= i < |ms| && key in ms[i].bindings ==> ms[i] == m {
      var i :| 0 <= i < |ms| && key in ms[i].bindings && r.value == ms[i].bindings[key];
      assert ms[i] == m;
    }
  }

  /** The scan stops at the first module binding the key. */
  lemma {:induction false} FirstBindingAt(ms: seq<Module>, key: string, i: nat)
    requires i < |ms| && key in ms[i].bindings
    requires forall j :: 0 <= j < i ==> key !in ms[j].bindings
    ensures FirstBinding(ms, key) == Some(ms[i].bindings[key])
  {
    if i > 0 {
      assert key !in ms[0].bindings;
      assert ms[1..][i - 1] == ms[i];
      FirstBindingAt(ms[1..], key, i - 1);
    }
  }

  /** The module registry: module name to the module last created under it. */
  class Registry {
    var modules: map<string, Module>

    /** Every entry is filed under its module's own name. */
    ghost predicate Valid()
      reads this
    {
      forall n :: n in modules ==> modules[n].name == n
    }

    constructor ()
      ensures modules == map[] && Valid()
    {
      modules := map[];
    }

    /** `module(name, requires)`: a fresh module with no bindings, which
        replaces any earlier module of that name (last in wins). */
    method CreateModule(name: string, required: seq<string>) returns (m: Module)
      modifies this
      ensures fresh(m)
      ensures m.name == name && m.required == required && m.bindings == map[]
      ensures modules == old(modules)[name := m]
      ensures old(Valid()) ==> Valid()
    {
      m := new Module(name, required);
      modules := modules[name := m];
    }

    /** The requires graph of the registered modules. */
    function Graph(): (g: RequireGraph.Graph)
      reads this
      ensures g.Keys == modules.Keys
      ensures forall n :: n in g ==> g[n] == modules[n].required
    {
      map n | n in modules :: modules[n].required
    }

    /** The registered modules filed under `names`. */
    function ModulesOf(names: seq<string>): (ms: seq<Module>)
      reads this
      requires forall i :: 0 <= i < |names| ==> names[i] in modules
      ensures |ms| == |names|
      ensures forall i :: 0 <= i < |names| ==> ms[i] == modules[names[i]]
    {
      if names == [] then [] else [modules[names[0]]] + ModulesOf(names[1..])
    }

    /** The lookup path of `root`: the module itself, then the registered
        modules of its require closure in depth-first declaration order. */
    function Visible(root: Module): (ms: seq<Module>)
      reads this
      ensures ms != [] && ms[0] == root
      ensures forall i :: 0 <= i < |ms| ==> ms[i] == root || ms[i] in modules.Values
      ensures |ms| == 1 + |RequireGraph.Closure(Graph(), root.name, root.required)|
      ensures forall i :: 1 <= i < |ms| ==> ms[i] == modules[RequireGraph.Closure(Graph(), root.name, root.required)[i - 1]]
    {
      [root] + ModulesOf(RequireGraph.Closure(Graph(), root.name, root.required))
    }

    /** The value `key` resolves to in `root`: the binding of the first
        module on the lookup path that binds it, or `None` (JavaScript
        `undefined`) when none does. */
    function Resolve(root: Module, key: string): (r: Option<Value>)
      reads this, root, modules.Values
      ensures r.None? <==> forall m :: m in Visible(root) ==> key !in m.bindings
      ensures r.Some? ==> exists i :: 0 <= i < |Visible(root)| && key in Visible(root)[i].bindings &&
                             r.value == Visible(root)[i].bindings[key] &&
                             forall j :: 0 <= j < i ==> key !in Visible(root)[j].bindings
    {
      FirstBinding(Visible(root), key)
    }

    /** The arguments a wrapper made in `owner` passes, in declared order:
        one per parameter name, unresolved names included as `None`. */
    function Arguments(owner: Module, params: seq<string>): (args: seq<Option<Value>>)
      reads this, owner, modules.Values
      ensures |args| == |params|
      ensures forall i :: 0 <= i < |params| ==> args[i] == Resolve(owner, params[i])
    {
      seq(|params|, i requires 0 <= i < |params| reads this, owner, modules.Values => Resolve(owner, params[i]))
    }

    /** Calling a value: a wrapper resolves its parameter names now, in the
        current state, and yields the argument sequence the target receives.
        What an opaque function computes is outside the model (`None`). */
    function Call(w: Value): (r: Option<seq<Option<Value>>>)
      reads this, modules.Values, if w.Wrapper? then {w.owner} else {}
      ensures r.Some? <==> w.Wrapper?
      ensures r.Some? ==> |r.value| == |w.params|
      ensures r.Some? ==> forall i :: 0 <= i < |w.params| ==> r.value[i] == Resolve(w.owner, w.params[i])
    {
      match w
      case Opaque(_) => None
      case Wrapper(owner, params) => Some(Arguments(owner, params))
    }

    /** The lookup path computed with the worklist walk. */
    method VisibleModules(root: Module) returns (ms: seq<Module>)
      ensures ms == Visible(root)
    {
      var names := RequireGraph.CollectClosure(Graph(), root.name, root.required);
      ms := [root];
      var i := 0;
      while i < |names|
        invariant 0 <= i <= |names|
        invariant |ms| == i + 1 && ms[0] == root
        invariant forall k :: 1 <= k < |ms| ==> ms[k] == modules[names[k - 1]]
      {
        ms := ms + [modules[names[i]]];
        i := i + 1;
      }
    }

    // -------------------------------------------------------------------
    // Properties of resolution

    /** `m` is the only module binding `key` that `root` can see. */
    ghost predicate OnlyBinder(root: Module, key: string, m: Module)
      reads this, root, modules.Values
    {
      forall i :: 0 <= i < |Visible(root)| && key in Visible(root)[i].bindings ==> Visible(root)[i] == m
    }

    /** A module's own binding wins over anything it requires. */
    lemma ResolveOwn(root: Module, key: string)
      requires key in root.bindings
      ensures Resolve(root, key) == Some(root.bindings[key])
    {
    }

    /** A name bound on the lookup path resolves; when only one module on
        the path binds it, it resolves to that module's value. */
    lemma ResolveVisible(root: Module, m: Module, key: string)
      requires m in Visible(root) && key in m.bindings
      ensures Resolve(root, key).Some?
      ensures OnlyBinder(root, key, m) ==> Resolve(root, key) == Some(m.bindings[key])
    {
      FirstBindingOnly(Visible(root), key, m);
    }

    /** The module that decides a lookup: the first one on the path binding
        the name gives its value. */
    lemma ResolveFirst(root: Module, key: string, i: nat)
      requires i < |Visible(root)| && key in Visible(root)[i].bindings
      requires forall j :: 0 <= j < i ==> key !in Visible(root)[j].bindings
      ensures Resolve(root, key) == Some(Visible(root)[i].bindings[key])
    {
      FirstBindingAt(Visible(root), key, i);
    }

    /** A name bound nowhere on the lookup path resolves to `None`. */
    lemma ResolveUnbound(root: Module, key: string)
      requires key !in root.bindings
      requires forall n :: n in modules ==> key !in modules[n].bindings
      ensures Resolve(root, key) == None
    {
    }

    /** A module that requires nothing sees only its own bindings. */
    lemma ResolveAlone(root: Module, key: string)
      requires root.required == []
      ensures Visible(root) == [root]
      ensures Resolve(root, key) == if key in root.bindings then Some(root.bindings[key]) else None
    {
      assert RequireGraph.Closure(Graph(), root.name, []) == [];
    }

    /** A wrapper made in a module that requires nothing passes, position
        by position, that module's own binding of each name, or `None`. */
    lemma CallAlone(owner: Module, params: seq<string>)
      requires owner.required == []
      ensures Call(Wrapper(owner, params)).Some?
      ensures |Call(Wrapper(owner, params)).value| == |params|
      ensures forall i :: 0 <= i < |params| ==>
                Call(Wrapper(owner, params)).value[i] == (if params[i] in owner.bindings then Some(owner.bindings[params[i]]) else None)
    {
      forall i | 0 <= i < |params|
        ensures Resolve(owner, params[i]) == if params[i] in owner.bindings then Some(owner.bindings[params[i]]) else None
      {
        ResolveAlone(owner, params[i]);
      }
    }

    /** The lookup path is closed under requires: a registered module
        required by a module on the path is on the path, unless it is
        filed under the root's own name. */
    lemma VisibleClosed(root: Module, i: nat, n: string)
      requires i < |Visible(root)| && n in Visible(root)[i].required
      requires n in modules && n != root.name
      ensures modules[n] in Visible(root)
    {
      var g := Graph();
      var c := RequireGraph.Closure(g, root.name, root.required);
      RequireGraph.ClosureComplete(g, root.name, root.required);
      var ms := Visible(root);
      var k :| 0 <= k < |ms[i].required| && ms[i].required[k] == n;
      var p: nat;
      if i == 0 {
        assert root.required[k] == n;
        p :| p < |c| && c[p] == n;
      } else {
        assert g[c[i - 1]][k] == n;
        p :| p < |c| && c[p] == n;
      }
      assert ms[p + 1] == modules[n];
    }

    /** A name bound in a directly required module resolves. */
    lemma ResolveRequired(root: Module, name: string, key: string)
      requires name in root.required && name in modules && name != root.name
      requires key in modules[name].bindings
      ensures Resolve(root, key).Some?
      ensures OnlyBinder(root, key, modules[name]) ==> Resolve(root, key) == Some(modules[name].bindings[key])
    {
      VisibleClosed(root, 0, name);
      ResolveVisible(root, modules[name], key);
    }

    /** Resolution is transitive: a name bound in a module required by a
        required module resolves. */
    lemma ResolveTransitive(root: Module, b: string, a: string, key: string)
      requires b in root.required && b in modules && b != root.name
      requires a in modules[b].required && a in modules && a != root.name
      requires key in modules[a].bindings
      ensures Resolve(root, key).Some?
      ensures OnlyBinder(root, key, modules[a]) ==> Resolve(root, key) == Some(modules[a].bindings[key])
    {
      VisibleClosed(root, 0, b);
      var ms := Visible(root);
      var i :| 0 <= i < |ms| && ms[i] == modules[b];
      VisibleClosed(root, i, a);
      ResolveVisible(root, modules[a], key);
    }

    /** Every module is consulted at most once, cycles in the requires
        graph included. */
    lemma VisibleOnce(root: Module)
      requires Valid()
      ensures forall i, j :: 0 <= i < j < |Visible(root)| ==> Visible(root)[i] != Visible(root)[j]
    {
      var c := RequireGraph.Closure(Graph(), root.name, root.required);
      var ms := Visible(root);
      forall i, j | 0 <= i < j < |ms| ensures ms[i] != ms[j] {
        assert ms[j].name == c[j - 1];
        if i > 0 {
          assert ms[i].name == c[i - 1];
        }
      }
    }
  }
}
