/** The current assembly engine: the dependency resolver, the service
    scheduler run against it, and the application assembler. Every object
    the factories build is recorded in a call trace; the object built by
    call `i` is `Inst(i)`, so sharing is equality of values and a fresh
    build is a new position in the trace. */
module Assembly {
  import opened Wrappers
  import opened Dicts
  import opened Config
  import opened Dispatch
  import opened Schedule

  /** Why a build failed, as raised at the innermost point of failure. */
  datatype Cause =
    | NoSuchEntity(name: string)     // `conf[name]` has no entry
    | UnresolvedReference            // a "reference" argument without a global value
    | SpawnFailed(error: SpawnError) // the factory was missing, raised or returned a falsy object
    | TooDeep                        // the interpreter's recursion limit (cyclic `deps`)

  /** `GestaltCreateInstanceException`: every failure inside a build is
      re-raised naming the entity whose build was requested. */
  datatype BuildError = Failed(entity: string, cause: Cause)

  /** `t` is a prefix of `t'`: calls once made stay made. */
  predicate Extends(t': Trace, t: Trace) {
    |t| <= |t'| && t'[..|t|] == t
  }

  lemma ExtendsTrans(t3: Trace, t2: Trace, t1: Trace)
    requires Extends(t3, t2) && Extends(t2, t1)
    ensures Extends(t3, t1)
  {
    assert t3[..|t1|] == t3[..|t2|][..|t1|];
  }

  /** Argument substitution: every argument equal to the sentinel is
      replaced by the global value of the same name. `None` when such an
      argument has no global value (or there is no table at all). */
  function Substitute(args: map<string, Json>, globals: Option<map<string, Json>>): (r: Option<map<string, Json>>)
    ensures r.Some? <==> forall k | k in args && args[k] == Sentinel :: globals.Some? && k in globals.value
    ensures r.Some? ==> r.value.Keys == args.Keys
    ensures r.Some? ==> forall k | k in args && args[k] != Sentinel :: r.value[k] == args[k]
    ensures r.Some? ==> forall k | k in args && args[k] == Sentinel :: r.value[k] == globals.value[k]
  {
    if forall k | k in args && args[k] == Sentinel :: globals.Some? && k in globals.value then
      Some(map k | k in args :: if args[k] == Sentinel then globals.value[k] else args[k])
    else None
  }

  /** Substituting an already substituted mapping changes nothing: a global
      value that is itself the sentinel is replaced by itself again. So the
      source's in-place rewrite of a descriptor's arguments gives the same
      arguments on every later build of that descriptor. */
  lemma SubstituteIdempotent(args: map<string, Json>, globals: Option<map<string, Json>>)
    requires Substitute(args, globals).Some?
    ensures Substitute(Substitute(args, globals).value, globals) == Substitute(args, globals)
  {
    var s := Substitute(args, globals).value;
    var s2 := Substitute(s, globals);
    assert s2.Some?;
    assert s2.value == s;
  }

  /** The keyword arguments of a build: resolved dependencies over the
      literal arguments. */
  function Merge(args: map<string, Json>, deps: map<string, Value>): (m: map<string, Value>)
    ensures m.Keys == args.Keys + deps.Keys
    ensures forall k | k in deps :: m[k] == deps[k]
  {
    map k | k in args.Keys + deps.Keys :: if k in deps then deps[k] else Lit(args[k])
  }

  /** The three branches of the merge: without dependencies the literal
      arguments are passed; without arguments the dependencies are the
      whole mapping; otherwise a literal argument survives only when no
      dependency has its name. */
  lemma MergeCases(args: map<string, Json>, deps: map<string, Value>)
    ensures |deps| == 0 ==> Merge(args, deps) == map k | k in args :: Lit(args[k])
    ensures |args| == 0 ==> Merge(args, deps) == deps
    ensures forall k | k in args && k !in deps :: Merge(args, deps)[k] == Lit(args[k])
  {
  }

  /** `create_instance(name, conf, services)`: an entry without a `type`
      is returned as it is; otherwise the arguments are substituted, the
      dependencies resolved in order, and the factory called with the
      merged mapping. `depth` is how many levels of nested dependency builds
      the interpreter's stack still allows. */
  function Build(depth: nat, name: string, conf: Conf, services: map<string, Value>, fac: Factory, t: Trace)
    : (r: Result<(Value, Trace), BuildError>)
    ensures r.Failure? ==> r.error.entity == name
    ensures r.Success? ==> Extends(r.value.1, t) && name in conf.items
    ensures r.Success? && conf.items[name].Raw? ==> r.value == (Lit(JObj(conf.items[name].fields)), t)
    ensures r.Success? && conf.items[name].Obj? ==> Made(r.value, t, name, conf.items[name].typ)
    decreases depth, 5, 0
  {
    if name !in conf.items then Failure(Failed(name, NoSuchEntity(name)))
    else match conf.items[name]
      case Raw(f) => Success((Lit(JObj(f)), t))
      case Obj(_, _, _, _, _, _, _) => BuildObj(depth, name, conf.items[name], conf, services, fac, t)
  }

  /** The result of a build appended one call for `name` of type `typ` to
      `t`, and is the object that call made. */
  predicate Made(res: (Value, Trace), t: Trace, name: string, typ: string) {
    var (v, t') := res;
    |t'| > |t| && v == Inst(|t'| - 1) && t'[|t'| - 1].entity == name && t'[|t'| - 1].typ == typ
  }

  /** The object case of `Build`. */
  function BuildObj(depth: nat, name: string, d: Descriptor, conf: Conf, services: map<string, Value>, fac: Factory, t: Trace)
    : (r: Result<(Value, Trace), BuildError>)
    requires d.Obj?
    ensures r.Failure? ==> r.error.entity == name
    ensures r.Success? ==> Extends(r.value.1, t) && Made(r.value, t, name, d.typ)
    decreases depth, 4, 0
  {
    match Substitute(d.args, Globals(conf))
    case None => Failure(Failed(name, UnresolvedReference))
    case Some(sargs) =>
      match ResolveDeps(depth, d.deps.keys, d.deps, conf, services, fac, map[], t)
      case Failure(e) => Failure(Failed(name, e.cause))
      case Success((dvals, t1)) => Invoke(name, d.typ, Merge(sargs, dvals), fac, t1)
  }

  /** `spawn`, then the new object is tagged with its entity name. */
  function Invoke(name: string, typ: string, args: map<string, Value>, fac: Factory, t: Trace)
    : (r: Result<(Value, Trace), BuildError>)
    ensures r.Failure? ==> r.error.entity == name && r.error.cause.SpawnFailed?
    ensures r.Success? <==> Spawn(fac, typ, args).Success?
    ensures r.Success? ==> Extends(r.value.1, t) && Made(r.value, t, name, typ)
    ensures r.Success? ==> r.value.1 == t + [Call(name, typ, InvocationFor(args))]
  {
    match Spawn(fac, typ, args)
    case Failure(se) => Failure(Failed(name, SpawnFailed(se)))
    case Success(inv) => Success((Inst(|t|), t + [Call(name, typ, inv)]))
  }

  /** One dependency name: the registered service when there is one,
      otherwise a new build one level deeper (nothing is cached). */
  function Fetch(depth: nat, n: string, conf: Conf, services: map<string, Value>, fac: Factory, t: Trace)
    : (r: Result<(Value, Trace), BuildError>)
    ensures r.Success? ==> Extends(r.value.1, t)
    ensures n in services ==> r == Success((services[n], t))
    decreases depth, 0, 0
  {
    if n in services then Success((services[n], t))
    else if depth == 0 then Failure(Failed(n, TooDeep))
    else Build(depth - 1, n, conf, services, fac, t)
  }

  /** A list dependency: each name fetched in list order. */
  function FetchAll(depth: nat, names: seq<string>, conf: Conf, services: map<string, Value>, fac: Factory, t: Trace)
    : (r: Result<(seq<Value>, Trace), BuildError>)
    ensures r.Success? ==> Extends(r.value.1, t) && |r.value.0| == |names|
    decreases depth, 1, |names|
  {
    if names == [] then Success(([], t))
    else
      match Fetch(depth, names[0], conf, services, fac, t)
      case Failure(e) => Failure(e)
      case Success((v, t1)) =>
        match FetchAll(depth, names[1..], conf, services, fac, t1)
        case Failure(e) => Failure(e)
        case Success((vs, t2)) =>
          ExtendsTrans(t2, t1, t);
          Success(([v] + vs, t2))
  }

  /** The `deps` entries named by `keys`, resolved in order into `acc`. */
  function ResolveDeps(depth: nat, keys: seq<string>, deps: Dict<Dep>, conf: Conf, services: map<string, Value>,
                       fac: Factory, acc: map<string, Value>, t: Trace)
    : (r: Result<(map<string, Value>, Trace), BuildError>)
    requires forall k | k in keys :: k in deps.items
    ensures r.Success? ==> Extends(r.value.1, t) && r.value.0.Keys == acc.Keys + set k | k in keys
    decreases depth, 3, |keys|
  {
    if keys == [] then Success((acc, t))
    else
      match ResolveOne(depth, deps.items[keys[0]], conf, services, fac, t)
      case Failure(e) => Failure(e)
      case Success((v, t1)) =>
        match ResolveDeps(depth, keys[1..], deps, conf, services, fac, acc[keys[0] := v], t1)
        case Failure(e) => Failure(e)
        case Success((m, t2)) =>
          ExtendsTrans(t2, t1, t);
          Success((m, t2))
  }

  // ---------------------------------------------------------------------
  // Sharing and fresh construction.
  // ---------------------------------------------------------------------

  /** `v` is an object made by a call of `t'` after the prefix `t`, for
      the entity `n`. */
  predicate MadeAfter(v: Value, t: Trace, t': Trace, n: string) {
    v.Inst? && |t| <= v.id < |t'| && t'[v.id].entity == n
  }

  /** The dependency names an object to build: no service of that name is
      registered and the entry has a `type`. */
  predicate Unregistered(n: string, conf: Conf, services: map<string, Value>) {
    n !in services && n in conf.items && conf.items[n].Obj?
  }

  lemma MadeAfterExtends(v: Value, t: Trace, t1: Trace, t2: Trace, n: string)
    requires MadeAfter(v, t, t1, n) && Extends(t2, t1)
    ensures MadeAfter(v, t, t2, n)
  {
    assert t2[v.id] == t2[..|t1|][v.id];
  }

  /** A list element naming a registered service is that service: the
      very object in the registry. */
  lemma {:induction false} FetchAllShared(depth: nat, names: seq<string>, conf: Conf, services: map<string, Value>,
                                         fac: Factory, t: Trace)
    requires FetchAll(depth, names, conf, services, fac, t).Success?
    ensures forall i | 0 <= i < |names| && names[i] in services ::
      FetchAll(depth, names, conf, services, fac, t).value.0[i] == services[names[i]]
    decreases |names|
  {
    if names != [] {
      var (v, t1) := Fetch(depth, names[0], conf, services, fac, t).value;
      FetchAllShared(depth, names[1..], conf, services, fac, t1);
    }
  }

  /** A list element naming an unregistered entity is a new object, made
      for that entity during this resolution, and later elements are made
      later: a name listed twice yields two distinct objects. */
  lemma {:induction false} FetchAllFresh(depth: nat, names: seq<string>, conf: Conf, services: map<string, Value>,
                                        fac: Factory, t: Trace)
    requires FetchAll(depth, names, conf, services, fac, t).Success?
    ensures var (vs, t') := FetchAll(depth, names, conf, services, fac, t).value;
      forall i | 0 <= i < |names| && Unregistered(names[i], conf, services) :: MadeAfter(vs[i], t, t', names[i])
    ensures var (vs, t') := FetchAll(depth, names, conf, services, fac, t).value;
      forall i, j | 0 <= i < j < |names| && Unregistered(names[i], conf, services) && Unregistered(names[j], conf, services) ::
        vs[i].id < vs[j].id
    decreases |names|
  {
    if names != [] {
      var (v, t1) := Fetch(depth, names[0], conf, services, fac, t).value;
      var (vs, t') := FetchAll(depth, names, conf, services, fac, t).value;
      FetchAllFresh(depth, names[1..], conf, services, fac, t1);
      if Unregistered(names[0], conf, services) {
        assert MadeAfter(v, t, t1, names[0]);
        MadeAfterExtends(v, t, t1, t', names[0]);
      }
      forall i | 1 <= i < |names| && Unregistered(names[i], conf, services)
        ensures MadeAfter(vs[i], t, t', names[i])
      {
        assert vs[i] == FetchAll(depth, names[1..], conf, services, fac, t1).value.0[i - 1];
      }
    }
  }

  /** All names of the dependency are registered services. */
  predicate Shared(dep: Dep, services: map<string, Value>) {
    match dep
    case Single(n) => n in services
    case Listed(ns) => forall i | 0 <= i < |ns| :: ns[i] in services
  }

  /** What a dependency on registered services resolves to: the registered
      objects themselves, a list keeping the list's order. */
  function SharedValue(dep: Dep, services: map<string, Value>): Value
    requires Shared(dep, services)
  {
    match dep
    case Single(n) => services[n]
    case Listed(ns) => Items(seq(|ns|, i requires 0 <= i < |ns| => services[ns[i]]))
  }

  /** The value `ResolveDeps` computes for the entry `k` before moving on. */
  function ResolveOne(depth: nat, dep: Dep, conf: Conf, services: map<string, Value>, fac: Factory, t: Trace)
    : (r: Result<(Value, Trace), BuildError>)
    ensures r.Success? ==> Extends(r.value.1, t)
    ensures r.Success? && dep.Single? && Unregistered(dep.name, conf, services) ==>
      MadeAfter(r.value.0, t, r.value.1, dep.name)
    decreases depth, 2, 0
  {
    match dep
    case Single(n) => Fetch(depth, n, conf, services, fac, t)
    case Listed(ns) =>
      match FetchAll(depth, ns, conf, services, fac, t)
      case Failure(e) => Failure(e)
      case Success((vs, t1)) => Success((Items(vs), t1))
  }

  /** Resolving the `deps` entries keeps the entries of `acc` it does not
      resolve. */
  lemma {:induction false} ResolveDepsKeeps(depth: nat, keys: seq<string>, deps: Dict<Dep>, conf: Conf,
                                           services: map<string, Value>, fac: Factory, acc: map<string, Value>, t: Trace)
    requires forall k | k in keys :: k in deps.items
    requires ResolveDeps(depth, keys, deps, conf, services, fac, acc, t).Success?
    ensures var m := ResolveDeps(depth, keys, deps, conf, services, fac, acc, t).value.0;
      forall k | k in acc && k !in keys :: m[k] == acc[k]
    decreases |keys|
  {
    if keys != [] {
      var (v, t1) := ResolveOne(depth, deps.items[keys[0]], conf, services, fac, t).value;
      ResolveDepsKeeps(depth, keys[1..], deps, conf, services, fac, acc[keys[0] := v], t1);
    }
  }

  /** A dependency on registered services resolves to those very objects. */
  lemma {:induction false} ResolveDepsShared(depth: nat, keys: seq<string>, deps: Dict<Dep>, conf: Conf,
                                            services: map<string, Value>, fac: Factory, acc: map<string, Value>, t: Trace, k: string)
    requires forall k | k in keys :: k in deps.items
    requires ResolveDeps(depth, keys, deps, conf, services, fac, acc, t).Success?
    requires k in keys && Shared(deps.items[k], services)
    ensures ResolveDeps(depth, keys, deps, conf, services, fac, acc, t).value.0[k] == SharedValue(deps.items[k], services)
    decreases |keys|
  {
    var (v, t1) := ResolveOne(depth, deps.items[keys[0]], conf, services, fac, t).value;
    if k in keys[1..] {
      ResolveDepsShared(depth, keys[1..], deps, conf, services, fac, acc[keys[0] := v], t1, k);
    } else {
      ResolveDepsKeeps(depth, keys[1..], deps, conf, services, fac, acc[keys[0] := v], t1);
      var dep := deps.items[k];
      if dep.Listed? {
        FetchAllShared(depth, dep.names, conf, services, fac, t);
      }
    }
  }

  /** A single dependency on an unregistered entity resolves to a new
      object made during this resolution. */
  lemma {:induction false} ResolveDepsFresh(depth: nat, keys: seq<string>, deps: Dict<Dep>, conf: Conf,
                                           services: map<string, Value>, fac: Factory, acc: map<string, Value>, t: Trace, k: string)
    requires forall k | k in keys :: k in deps.items
    requires ResolveDeps(depth, keys, deps, conf, services, fac, acc, t).Success?
    requires k in keys && deps.items[k].Single? && Unregistered(deps.items[k].name, conf, services)
    ensures var (m, t') := ResolveDeps(depth, keys, deps, conf, services, fac, acc, t).value;
      MadeAfter(m[k], t, t', deps.items[k].name)
    decreases |keys|
  {
    var (v, t1) := ResolveOne(depth, deps.items[keys[0]], conf, services, fac, t).value;
    var (m, t') := ResolveDeps(depth, keys, deps, conf, services, fac, acc, t).value;
    assert (m, t') == ResolveDeps(depth, keys[1..], deps, conf, services, fac, acc[keys[0] := v], t1).value;
    if k in keys[1..] {
      ResolveDepsFresh(depth, keys[1..], deps, conf, services, fac, acc[keys[0] := v], t1, k);
      assert MadeAfter(m[k], t1, t', deps.items[k].name);
    } else {
      ResolveDepsKeeps(depth, keys[1..], deps, conf, services, fac, acc[keys[0] := v], t1);
      MadeAfterExtends(v, t, t1, t', deps.items[k].name);
    }
  }

  /** The last call of a trace. */
  function LastCall(t: Trace): Call
    requires |t| > 0
  {
    t[|t| - 1]
  }

  /** A successful object build substituted its arguments, resolved its
      dependencies and then made exactly one more call, with the merge of
      the two. */
  lemma BuildUnfold(depth: nat, name: string, conf: Conf, services: map<string, Value>, fac: Factory, t: Trace)
    requires name in conf.items && conf.items[name].Obj?
    requires Build(depth, name, conf, services, fac, t).Success?
    ensures Substitute(conf.items[name].args, Globals(conf)).Some?
    ensures ResolveDeps(depth, conf.items[name].deps.keys, conf.items[name].deps, conf, services, fac, map[], t).Success?
    ensures var d := conf.items[name];
      var (dvals, t1) := ResolveDeps(depth, d.deps.keys, d.deps, conf, services, fac, map[], t).value;
      Build(depth, name, conf, services, fac, t).value.1 ==
        t1 + [Call(name, d.typ, InvocationFor(Merge(Substitute(d.args, Globals(conf)).value, dvals)))]
  {
  }

  /** The call that makes an object receives every literal argument no
      dependency overrides, substituted from the global values when it is
      the sentinel; and it is called with no arguments exactly when the
      descriptor has neither arguments nor dependencies. */
  lemma BuildLiteralArguments(depth: nat, name: string, conf: Conf, services: map<string, Value>, fac: Factory, t: Trace)
    requires name in conf.items && conf.items[name].Obj?
    requires Build(depth, name, conf, services, fac, t).Success?
    ensures var d := conf.items[name];
      var a := ArgsOf(LastCall(Build(depth, name, conf, services, fac, t).value.1).inv);
      && a.Keys == d.args.Keys + d.deps.items.Keys
      && (forall k | k in d.args && k !in d.deps.items && d.args[k] != Sentinel :: a[k] == Lit(d.args[k]))
      && (forall k | k in d.args && k !in d.deps.items && d.args[k] == Sentinel ::
            Globals(conf).Some? && k in Globals(conf).value && a[k] == Lit(Globals(conf).value[k]))
      && (LastCall(Build(depth, name, conf, services, fac, t).value.1).inv.NoArgs? <==>
            |d.args| == 0 && |d.deps.items| == 0)
  {
    var d := conf.items[name];
    BuildUnfold(depth, name, conf, services, fac, t);
    var (dvals, t1) := ResolveDeps(depth, d.deps.keys, d.deps, conf, services, fac, map[], t).value;
    assert dvals.Keys == d.deps.items.Keys;
  }

  /** A dependency on registered services is passed those very objects. */
  lemma BuildSharedDependency(depth: nat, name: string, conf: Conf, services: map<string, Value>, fac: Factory, t: Trace, k: string)
    requires name in conf.items && conf.items[name].Obj?
    requires Build(depth, name, conf, services, fac, t).Success?
    requires k in conf.items[name].deps.items && Shared(conf.items[name].deps.items[k], services)
    ensures var a := ArgsOf(LastCall(Build(depth, name, conf, services, fac, t).value.1).inv);
      k in a && a[k] == SharedValue(conf.items[name].deps.items[k], services)
  {
    var d := conf.items[name];
    BuildUnfold(depth, name, conf, services, fac, t);
    SharedDependencyResolved(depth, d.deps, conf, services, fac, t, k);
  }

  lemma SharedDependencyResolved(depth: nat, deps: Dict<Dep>, conf: Conf, services: map<string, Value>, fac: Factory, t: Trace, k: string)
    requires ResolveDeps(depth, deps.keys, deps, conf, services, fac, map[], t).Success?
    requires k in deps.items && Shared(deps.items[k], services)
    ensures ResolveDeps(depth, deps.keys, deps, conf, services, fac, map[], t).value.0[k] == SharedValue(deps.items[k], services)
  {
    DictKeys(deps);
    ResolveDepsShared(depth, deps.keys, deps, conf, services, fac, map[], t, k);
  }

  /** A single dependency on an unregistered entity is a new object made
      before the object that depends on it. */
  lemma BuildFreshDependency(depth: nat, name: string, conf: Conf, services: map<string, Value>, fac: Factory, t: Trace, k: string)
    requires name in conf.items && conf.items[name].Obj?
    requires Build(depth, name, conf, services, fac, t).Success?
    requires k in conf.items[name].deps.items && conf.items[name].deps.items[k].Single?
    requires Unregistered(conf.items[name].deps.items[k].name, conf, services)
    ensures var t' := Build(depth, name, conf, services, fac, t).value.1;
      var a := ArgsOf(LastCall(t').inv);
      k in a && MadeAfter(a[k], t, t', conf.items[name].deps.items[k].name) && a[k].id < |t'| - 1
  {
    var d := conf.items[name];
    BuildUnfold(depth, name, conf, services, fac, t);
    var (dvals, t1) := ResolveDeps(depth, d.deps.keys, d.deps, conf, services, fac, map[], t).value;
    DictKeys(d.deps);
    ResolveDepsFresh(depth, d.deps.keys, d.deps, conf, services, fac, map[], t, k);
    var sargs := Substitute(d.args, Globals(conf)).value;
    var t' := Build(depth, name, conf, services, fac, t).value.1;
    assert LastCall(t').inv == InvocationFor(Merge(sargs, dvals));
    assert ArgsOf(LastCall(t').inv)[k] == dvals[k];
    assert t'[..|t1|] == t1;
    MadeAfterExtends(dvals[k], t, t1, t', d.deps.items[k].name);
  }

  /** An entry without a `type` is returned as it is, with no factory call. */
  lemma RawReturnedAsIs(depth: nat, name: string, conf: Conf, services: map<string, Value>, fac: Factory, t: Trace)
    requires name in conf.items && conf.items[name].Raw?
    ensures Build(depth, name, conf, services, fac, t) == Success((Lit(JObj(conf.items[name].fields)), t))
  {
  }

  /** A "reference" argument with no global value of its name fails the
      build, before any dependency is built. */
  lemma UnresolvedReferenceFails(depth: nat, name: string, conf: Conf, services: map<string, Value>, fac: Factory, t: Trace, k: string)
    requires name in conf.items && conf.items[name].Obj?
    requires k in conf.items[name].args && conf.items[name].args[k] == Sentinel
    requires Globals(conf).None? || k !in Globals(conf).value
    ensures Build(depth, name, conf, services, fac, t) == Failure(Failed(name, UnresolvedReference))
  {
  }

  /** A failure anywhere below a build is reported for the entity whose
      build was requested, with the innermost cause. */
  lemma DependencyFailureWrapped(depth: nat, name: string, conf: Conf, services: map<string, Value>, fac: Factory, t: Trace)
    requires name in conf.items && conf.items[name].Obj?
    requires Substitute(conf.items[name].args, Globals(conf)).Some?
    requires ResolveDeps(depth, conf.items[name].deps.keys, conf.items[name].deps, conf, services, fac, map[], t).Failure?
    ensures Build(depth, name, conf, services, fac, t) ==
      Failure(Failed(name, ResolveDeps(depth, conf.items[name].deps.keys, conf.items[name].deps, conf, services, fac, map[], t).error.cause))
  {
  }

  // ---------------------------------------------------------------------
  // The service scheduler and the application assembler.
  // ---------------------------------------------------------------------

  /** `v` is what building the entry `d` named `k` gives, as recorded in
      `t`: the entry itself for a raw value, otherwise an object made by a
      call for `k` with the entry's type. */
  predicate BuiltFrom(v: Value, d: Descriptor, k: string, t: Trace) {
    match d
    case Raw(f) => v == Lit(JObj(f))
    case Obj(typ, _, _, _, _, _, _) => v.Inst? && v.id < |t| && t[v.id].entity == k && t[v.id].typ == typ
  }

  /** Every registered service is stored under its own name and was built
      from its entry in `c0`. */
  ghost predicate Registered(reg: Dict<Value>, c0: Conf, t: Trace) {
    forall k | k in reg.items :: k in c0.items && BuiltFrom(reg.items[k], c0.items[k], k, t)
  }

  lemma BuiltFromExtends(v: Value, d: Descriptor, k: string, t: Trace, t': Trace)
    requires BuiltFrom(v, d, k, t) && Extends(t', t)
    ensures BuiltFrom(v, d, k, t')
  {
    if d.Obj? {
      assert t'[v.id] == t'[..|t|][v.id];
    }
  }

  lemma RegisteredExtends(reg: Dict<Value>, c0: Conf, t: Trace, t': Trace)
    requires Registered(reg, c0, t) && Extends(t', t)
    ensures Registered(reg, c0, t')
  {
    forall k | k in reg.items ensures BuiltFrom(reg.items[k], c0.items[k], k, t') {
      BuiltFromExtends(reg.items[k], c0.items[k], k, t, t');
    }
  }

  /** A build that succeeds gives what its entry promises. */
  lemma BuildBuiltFrom(depth: nat, name: string, conf: Conf, services: map<string, Value>, fac: Factory, t: Trace)
    requires Build(depth, name, conf, services, fac, t).Success?
    ensures var (v, t') := Build(depth, name, conf, services, fac, t).value;
      BuiltFrom(v, conf.items[name], name, t')
  {
  }

  /** One scan: the due keys built in order against `conf` (the document
      as the scan sees it), each registered as soon as it is built. */
  function RunPass(depth: nat, due: seq<string>, conf: Conf, reg: Dict<Value>, fac: Factory, t: Trace)
    : (r: Result<(Dict<Value>, Trace), BuildError>)
    ensures r.Success? ==> Extends(r.value.1, t)
    ensures r.Success? ==> r.value.0.items.Keys == reg.items.Keys + set k | k in due
    ensures r.Success? && Distinct(reg.keys + due) ==> r.value.0.keys == reg.keys + due
    decreases |due|
  {
    if due == [] then Success((reg, t))
    else
      match Build(depth, due[0], conf, reg.items, fac, t)
      case Failure(e) => Failure(e)
      case Success((v, t1)) =>
        var reg' := Put(reg, due[0], v);
        assert Distinct(reg.keys + due) ==> reg'.keys + due[1..] == reg.keys + due by {
          if Distinct(reg.keys + due) {
            DictKeys(reg);
            forall j | 0 <= j < |reg.keys| ensures reg.keys[j] != due[0] {
              assert (reg.keys + due)[j] == reg.keys[j] && (reg.keys + due)[|reg.keys|] == due[0];
            }
            assert due[0] !in reg.items;
            assert reg.keys + due == reg.keys + [due[0]] + due[1..];
          }
        }
        match RunPass(depth, due[1..], conf, reg', fac, t1)
        case Failure(e) => Failure(e)
        case Success((reg2, t2)) =>
          ExtendsTrans(t2, t1, t);
          Success((reg2, t2))
  }

  /** A scan keeps the registry faithful to `c0` when its document agrees
      with `c0` on the keys it builds. */
  lemma {:induction false} RunPassRegistered(depth: nat, due: seq<string>, conf: Conf, reg: Dict<Value>, fac: Factory,
                                            t: Trace, c0: Conf)
    requires RunPass(depth, due, conf, reg, fac, t).Success?
    requires Registered(reg, c0, t)
    requires forall k | k in due :: k in conf.items && k in c0.items && conf.items[k] == c0.items[k]
    ensures var (reg', t') := RunPass(depth, due, conf, reg, fac, t).value; Registered(reg', c0, t')
    decreases |due|
  {
    if due != [] {
      var (v, t1) := Build(depth, due[0], conf, reg.items, fac, t).value;
      BuildBuiltFrom(depth, due[0], conf, reg.items, fac, t);
      RegisteredExtends(reg, c0, t, t1);
      var reg' := Put(reg, due[0], v);
      assert Registered(reg', c0, t1);
      RunPassRegistered(depth, due[1..], conf, reg', fac, t1, c0);
    }
  }

  /** The passes of the scheduler run one after the other. */
  function RunPasses(depth: nat, ps: seq<Pass>, reg: Dict<Value>, fac: Factory, t: Trace)
    : (r: Result<(Dict<Value>, Trace), BuildError>)
    ensures r.Success? ==> Extends(r.value.1, t)
    ensures r.Success? ==> r.value.0.items.Keys == reg.items.Keys + set k | k in Order(ps)
    ensures r.Success? && Distinct(reg.keys + Order(ps)) ==> r.value.0.keys == reg.keys + Order(ps)
    decreases |ps|
  {
    if ps == [] then Success((reg, t))
    else
      match RunPass(depth, ps[0].due, ps[0].conf, reg, fac, t)
      case Failure(e) => Failure(e)
      case Success((reg1, t1)) =>
        OrderCons(reg.keys, ps);
        match RunPasses(depth, ps[1..], reg1, fac, t1)
        case Failure(e) => Failure(e)
        case Success((reg2, t2)) =>
          ExtendsTrans(t2, t1, t);
          Success((reg2, t2))
  }

  /** Passes over snapshots of `c0` keep the registry faithful to `c0`. */
  lemma {:induction false} RunPassesRegistered(depth: nat, ps: seq<Pass>, reg: Dict<Value>, fac: Factory, t: Trace, c0: Conf)
    requires RunPasses(depth, ps, reg, fac, t).Success?
    requires Registered(reg, c0, t)
    requires forall j | 0 <= j < |ps| ::
      forall k | k in ps[j].due :: k in ps[j].conf.items && k in c0.items && ps[j].conf.items[k] == c0.items[k]
    ensures var (reg', t') := RunPasses(depth, ps, reg, fac, t).value; Registered(reg', c0, t')
    decreases |ps|
  {
    if ps != [] {
      var (reg1, t1) := RunPass(depth, ps[0].due, ps[0].conf, reg, fac, t).value;
      RunPassRegistered(depth, ps[0].due, ps[0].conf, reg, fac, t, c0);
      assert forall j | 0 <= j < |ps[1..]| ::
        forall k | k in ps[1..][j].due :: k in ps[1..][j].conf.items && k in c0.items && ps[1..][j].conf.items[k] == c0.items[k] by {
        forall j | 0 <= j < |ps[1..]| ensures ps[1..][j] == ps[j + 1] {}
      }
      RunPassesRegistered(depth, ps[1..], reg1, fac, t1, c0);
    }
  }

  /** `construct_services`: the scheduler's passes, each building its due
      services against the document as the pass sees it. Returns the
      registry and the document that remains. */
  function ConstructServices(depth: nat, conf: Conf, fac: Factory, t: Trace)
    : (r: Result<(Dict<Value>, Conf, Trace), BuildError>)
    ensures r.Success? ==> Extends(r.value.2, t)
  {
    var (ps, rest) := Plan(Flagged, conf);
    match RunPasses(depth, ps, Empty(), fac, t)
    case Failure(e) => Failure(e)
    case Success((reg, t1)) => Success((reg, rest, t1))
  }

  /** `construct_services` registers every service exactly once, in pass
      order and within a pass in document order, stores each under its
      own name with the object its pass built from its own entry, and
      leaves exactly the entries that are not services. A service named in
      `deps` by an entity built before it may also have been built fresh
      for that entity (`BuildFreshDependency`): registration is once, a
      factory call need not be. */
  lemma ServicesRegisteredOnce(depth: nat, conf: Conf, fac: Factory, t: Trace)
    requires ConstructServices(depth, conf, fac, t).Success?
    ensures var (reg, rest, t') := ConstructServices(depth, conf, fac, t).value;
      && reg.keys == Order(Levels(Flagged, conf, 0))
      && Distinct(reg.keys)
      && (forall k :: k in reg.items <==> k in ServiceKeys(Flagged, conf))
      && SortedByPass(Flagged, conf, reg.keys)
      && Registered(reg, conf, t')
      && rest.items == conf.items - ServiceKeys(Flagged, conf)
  {
    ServicesInOrder(depth, conf, fac, t);
    ServicesRegistered(depth, conf, fac, t);
  }

  lemma ServicesInOrder(depth: nat, conf: Conf, fac: Factory, t: Trace)
    requires ConstructServices(depth, conf, fac, t).Success?
    ensures var (reg, rest, _) := ConstructServices(depth, conf, fac, t).value;
      && reg.keys == Order(Levels(Flagged, conf, 0))
      && Distinct(reg.keys)
      && (forall k :: k in reg.items <==> k in ServiceKeys(Flagged, conf))
      && SortedByPass(Flagged, conf, reg.keys)
      && rest.items == conf.items - ServiceKeys(Flagged, conf)
  {
    var ps := Levels(Flagged, conf, 0);
    ConstructServicesUnfold(depth, conf, fac, t);
    PlanBuildsServices(Flagged, conf);
    OrderSorted(Flagged, conf, 0);
    RemainderIsNonServices(Flagged, conf);
    var e: Dict<Value> := Empty();
    assert e.keys + Order(ps) == Order(ps);
  }

  lemma ServicesRegistered(depth: nat, conf: Conf, fac: Factory, t: Trace)
    requires ConstructServices(depth, conf, fac, t).Success?
    ensures var (reg, _, t') := ConstructServices(depth, conf, fac, t).value; Registered(reg, conf, t')
  {
    ConstructServicesUnfold(depth, conf, fac, t);
    PassSeesOwnEntries(Flagged, conf);
    RunPassesRegistered(depth, Levels(Flagged, conf, 0), Empty(), fac, t, conf);
  }

  /** `construct_services` runs the passes of the reference schedule on an
      empty registry and leaves the document without its services. */
  lemma ConstructServicesUnfold(depth: nat, conf: Conf, fac: Factory, t: Trace)
    requires ConstructServices(depth, conf, fac, t).Success?
    ensures RunPasses(depth, Levels(Flagged, conf, 0), Empty(), fac, t).Success?
    ensures var (reg, t') := RunPasses(depth, Levels(Flagged, conf, 0), Empty(), fac, t).value;
      ConstructServices(depth, conf, fac, t).value == (reg, Snapshot(Flagged, conf, Top(Flagged, conf) + 1), t')
    ensures Plan(Flagged, conf).0 == Levels(Flagged, conf, 0)
  {
    PlanIsLevels(Flagged, conf);
  }

  /** What `construct_application` returns: the entry point and the
      service registry. */
  datatype Application = Application(main: Value, services: Dict<Value>)

  datatype AppError = BuildFailed(error: BuildError) | NoEntryPoint

  /** The last of `keys` whose entry is flagged `main`. */
  function LastMain(keys: seq<string>, conf: Conf): (r: Option<string>)
    requires forall k | k in keys :: k in conf.items
    ensures r.Some? ==> r.value in keys && IsMain(conf.items[r.value])
    ensures r.None? <==> forall k | k in keys :: !IsMain(conf.items[k])
    decreases |keys|
  {
    if keys == [] then None
    else if IsMain(conf.items[keys[|keys| - 1]]) then Some(keys[|keys| - 1])
    else
      var r := LastMain(keys[..|keys| - 1], conf);
      assert forall k | k in keys :: k in keys[..|keys| - 1] || k == keys[|keys| - 1];
      r
  }

  /** The scan over the remaining entries: every `main`-flagged entry is
      built, and the last one built is kept. */
  function BuildMains(depth: nat, keys: seq<string>, conf: Conf, services: map<string, Value>, fac: Factory,
                      main: Option<Value>, t: Trace)
    : (r: Result<(Option<Value>, Trace), BuildError>)
    requires forall k | k in keys :: k in conf.items
    ensures r.Success? ==> Extends(r.value.1, t)
    decreases |keys|
  {
    if keys == [] then Success((main, t))
    else if IsMain(conf.items[keys[0]]) then
      match Build(depth, keys[0], conf, services, fac, t)
      case Failure(e) => Failure(e)
      case Success((v, t1)) =>
        match BuildMains(depth, keys[1..], conf, services, fac, Some(v), t1)
        case Failure(e) => Failure(e)
        case Success((m, t2)) =>
          ExtendsTrans(t2, t1, t);
          Success((m, t2))
    else BuildMains(depth, keys[1..], conf, services, fac, main, t)
  }

  /** The entry point kept by the scan is the build of the last
      `main`-flagged entry; without one, the value given at the start. */
  lemma {:induction false} BuildMainsLast(depth: nat, keys: seq<string>, conf: Conf, services: map<string, Value>,
                                         fac: Factory, main: Option<Value>, t: Trace)
    requires forall k | k in keys :: k in conf.items
    requires BuildMains(depth, keys, conf, services, fac, main, t).Success?
    ensures var (m, t') := BuildMains(depth, keys, conf, services, fac, main, t).value;
      match LastMain(keys, conf)
      case None => m == main
      case Some(k) => m.Some? && BuiltFrom(m.value, conf.items[k], k, t')
    decreases |keys|
  {
    if keys != [] {
      var (m, t') := BuildMains(depth, keys, conf, services, fac, main, t).value;
      var tail := keys[1..];
      assert forall k | k in tail :: k in conf.items;
      assert LastMain(keys, conf) == (if LastMain(tail, conf).Some? then LastMain(tail, conf)
                                     else if IsMain(conf.items[keys[0]]) then Some(keys[0]) else None) by {
        LastMainCons(keys, conf);
      }
      if IsMain(conf.items[keys[0]]) {
        var (v, t1) := Build(depth, keys[0], conf, services, fac, t).value;
        BuildBuiltFrom(depth, keys[0], conf, services, fac, t);
        BuildMainsLast(depth, tail, conf, services, fac, Some(v), t1);
        if LastMain(tail, conf).None? {
          BuiltFromExtends(v, conf.items[keys[0]], keys[0], t1, t');
        }
      } else {
        BuildMainsLast(depth, tail, conf, services, fac, main, t);
      }
    }
  }

  /** The last `main` entry of a list is the last of its tail, if any, and
      otherwise its head when that is one. */
  lemma {:induction false} LastMainCons(keys: seq<string>, conf: Conf)
    requires |keys| > 0 && forall k | k in keys :: k in conf.items
    ensures LastMain(keys, conf) == (if LastMain(keys[1..], conf).Some? then LastMain(keys[1..], conf)
                                    else if IsMain(conf.items[keys[0]]) then Some(keys[0]) else None)
    decreases |keys|
  {
    if |keys| > 1 {
      var init := keys[..|keys| - 1];
      assert init[1..] == keys[1..][..|keys[1..]| - 1];
      assert keys[1..][|keys[1..]| - 1] == keys[|keys| - 1];
      assert init[0] == keys[0];
      LastMainCons(init, conf);
    }
  }

  /** `construct_application`: the services first; then every remaining
      `main`-flagged entry is built against the registry, the last one
      winning; without one, the final assertion fails. */
  function ConstructApplication(depth: nat, conf: Conf, fac: Factory, t: Trace)
    : (r: Result<(Application, Trace), AppError>)
    ensures r.Success? ==> Extends(r.value.1, t)
  {
    match ConstructServices(depth, conf, fac, t)
    case Failure(e) => Failure(BuildFailed(e))
    case Success((reg, rest, t1)) =>
      DictKeys(rest);
      match BuildMains(depth, rest.keys, rest, reg.items, fac, None, t1)
      case Failure(e) => Failure(BuildFailed(e))
      case Success((main, t2)) =>
        ExtendsTrans(t2, t1, t);
        if main.None? || !IsTruthy(main.value) then Failure(NoEntryPoint)
        else Success((Application(main.value, reg), t2))
  }

  /** A built entry point is truthy: a raw entry flagged `main` has at
      least that key, and a built object is never falsy. */
  lemma MainIsTruthy(v: Value, d: Descriptor, k: string, t: Trace)
    requires IsMain(d) && BuiltFrom(v, d, k, t)
    ensures IsTruthy(v)
  {
    if d.Raw? {
      assert "main" in d.fields;
    }
  }

  /** The assembled application: its services are the scheduler's
      registry and its entry point is the build of the last `main`-flagged
      entry the scheduler left; the assembly fails for want of an entry
      point exactly when no such entry is left. */
  lemma ApplicationEntryPoint(depth: nat, conf: Conf, fac: Factory, t: Trace)
    requires ConstructServices(depth, conf, fac, t).Success?
    ensures var (reg, rest, t1) := ConstructServices(depth, conf, fac, t).value;
      match ConstructApplication(depth, conf, fac, t)
      case Success((app, t')) =>
        app.services == reg && LastMain(rest.keys, rest).Some? &&
        BuiltFrom(app.main, rest.items[LastMain(rest.keys, rest).value], LastMain(rest.keys, rest).value, t')
      case Failure(NoEntryPoint) => LastMain(rest.keys, rest).None?
      case Failure(BuildFailed(_)) => LastMain(rest.keys, rest).Some?
  {
    var (reg, rest, t1) := ConstructServices(depth, conf, fac, t).value;
    DictKeys(rest);
    var bm := BuildMains(depth, rest.keys, rest, reg.items, fac, None, t1);
    if LastMain(rest.keys, rest).None? {
      NoMainBuildsNothing(depth, rest.keys, rest, reg.items, fac, t1);
    }
    if bm.Success? {
      BuildMainsLast(depth, rest.keys, rest, reg.items, fac, None, t1);
      var (m, t2) := bm.value;
      if LastMain(rest.keys, rest).Some? {
        var k := LastMain(rest.keys, rest).value;
        MainIsTruthy(m.value, rest.items[k], k, t2);
      }
    }
  }

  /** Without a `main`-flagged entry the scan builds nothing. */
  lemma {:induction false} NoMainBuildsNothing(depth: nat, keys: seq<string>, conf: Conf, services: map<string, Value>,
                                              fac: Factory, t: Trace)
    requires forall k | k in keys :: k in conf.items && !IsMain(conf.items[k])
    ensures BuildMains(depth, keys, conf, services, fac, None, t) == Success((None, t))
    decreases |keys|
  {
    if keys != [] {
      NoMainBuildsNothing(depth, keys[1..], conf, services, fac, t);
    }
  }
}
