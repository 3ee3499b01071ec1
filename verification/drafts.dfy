/** The older drafts of the engine: `GestaltFactory.create`, the uncached
    resolver shared by gestalt/factory.py and gestalt/configuration.py, and
    the `DependencyInjector` / `Assembler` scheduler built on it, in which
    the `service` value itself is the level and a `controller` flag marks
    the entry point. Also the scheduler and assembler of
    gestalt/assembly.py, run with the same resolver. */
module Drafts {
  import opened Wrappers
  import opened Dicts
  import opened Config
  import opened Dispatch
  import opened Schedule
  import Assembly

  /** What stops a draft build. The drafts do not wrap errors: the
      innermost exception propagates as it is. */
  datatype Fault =
    | NoSuchEntity(name: string)   // `config[name]` raises KeyError
    | Untyped(name: string)        // the entry has no `type`, or a falsy one
    | SpawnFault(error: SpawnError) // lookup failed, the callable raised, or it returned a falsy object
    | TooDeep                      // the interpreter's recursion limit (cyclic `deps`)

  /** `GestaltFactory.create(name, config)`: the entry must have a truthy
      type; every dependency is built anew by recursion, a list in list
      order; the built dependencies are merged over the literal arguments
      and the factory is called. Nothing is substituted and nothing is
      cached. `depth` is how many levels of nested builds the stack still
      allows. */
  function Create(depth: nat, name: string, config: Conf, fac: Factory, t: Trace)
    : (r: Result<(Value, Trace), Fault>)
    ensures r.Success? ==> name in config.items && config.items[name].Obj? && config.items[name].typ != ""
    ensures r.Success? ==> Assembly.Extends(r.value.1, t) && Assembly.Made(r.value, t, name, config.items[name].typ)
    decreases depth, 5, 0
  {
    if name !in config.items then Failure(NoSuchEntity(name))
    else match config.items[name]
      case Raw(_) => Failure(Untyped(name))
      case Obj(typ, _, _, _, _, _, _) =>
        if typ == "" then Failure(Untyped(name))
        else CreateObj(depth, name, config.items[name], config, fac, t)
  }

  /** The typed case of `Create`: dependencies, then the factory call. */
  function CreateObj(depth: nat, name: string, d: Descriptor, config: Conf, fac: Factory, t: Trace)
    : (r: Result<(Value, Trace), Fault>)
    requires d.Obj?
    ensures r.Success? ==> Assembly.Extends(r.value.1, t) && Assembly.Made(r.value, t, name, d.typ)
    decreases depth, 4, 0
  {
    match CreateDeps(depth, d.deps.keys, d.deps, config, fac, map[], t)
    case Failure(e) => Failure(e)
    case Success((dvals, t1)) => Construct(name, d.typ, Assembly.Merge(d.args, dvals), fac, t1)
  }

  /** The factory call itself: with no arguments when the mapping is empty;
      the new object is the next position of the trace. */
  function Construct(name: string, typ: string, args: map<string, Value>, fac: Factory, t: Trace)
    : (r: Result<(Value, Trace), Fault>)
    ensures r.Success? <==> Spawn(fac, typ, args).Success?
    ensures r.Failure? ==> r.error == SpawnFault(Spawn(fac, typ, args).error)
    ensures r.Success? ==> Assembly.Extends(r.value.1, t) && Assembly.Made(r.value, t, name, typ)
    ensures r.Success? ==> r.value.1 == t + [Call(name, typ, InvocationFor(args))]
  {
    match Spawn(fac, typ, args)
    case Failure(se) => Failure(SpawnFault(se))
    case Success(inv) => Success((Inst(|t|), t + [Call(name, typ, inv)]))
  }

  /** One dependency name, built one level deeper. */
  function CreateNamed(depth: nat, n: string, config: Conf, fac: Factory, t: Trace)
    : (r: Result<(Value, Trace), Fault>)
    ensures r.Success? ==> Assembly.Extends(r.value.1, t) && Assembly.MadeAfter(r.value.0, t, r.value.1, n)
    decreases depth, 0, 0
  {
    if depth == 0 then Failure(TooDeep)
    else Create(depth - 1, n, config, fac, t)
  }

  /** A list dependency: each name built in list order, each a new object,
      and each made after the one before it. */
  function CreateAll(depth: nat, names: seq<string>, config: Conf, fac: Factory, t: Trace)
    : (r: Result<(seq<Value>, Trace), Fault>)
    ensures r.Success? ==> Assembly.Extends(r.value.1, t) && |r.value.0| == |names|
    ensures r.Success? ==> forall i | 0 <= i < |names| :: Assembly.MadeAfter(r.value.0[i], t, r.value.1, names[i])
    ensures r.Success? ==> forall i, j | 0 <= i < j < |names| ::
      r.value.0[i].Inst? && r.value.0[j].Inst? && r.value.0[i].id < r.value.0[j].id
    decreases depth, 1, |names|
  {
    if names == [] then Success(([], t))
    else
      match CreateNamed(depth, names[0], config, fac, t)
      case Failure(e) => Failure(e)
      case Success((v, t1)) =>
        match CreateAll(depth, names[1..], config, fac, t1)
        case Failure(e) => Failure(e)
        case Success((vs, t2)) =>
          Assembly.ExtendsTrans(t2, t1, t);
          Assembly.MadeAfterExtends(v, t, t1, t2, names[0]);
          var r := [v] + vs;
          assert forall i | 1 <= i < |names| :: r[i] == vs[i - 1];
          Success((r, t2))
  }

  /** What a dependency resolves to in the drafts: a new object made for
      its name, or for a list, new objects in list order, each made after
      the one before. */
  ghost predicate FreshFor(v: Value, dep: Dep, t: Trace, t': Trace) {
    match dep
    case Single(n) => Assembly.MadeAfter(v, t, t', n)
    case Listed(ns) =>
      && v.Items? && |v.elems| == |ns|
      && (forall i | 0 <= i < |ns| :: Assembly.MadeAfter(v.elems[i], t, t', ns[i]))
      && (forall i, j | 0 <= i < j < |ns| :: v.elems[i].Inst? && v.elems[j].Inst? && v.elems[i].id < v.elems[j].id)
  }

  lemma FreshForExtends(v: Value, dep: Dep, t: Trace, t1: Trace, t2: Trace)
    requires FreshFor(v, dep, t, t1) && Assembly.Extends(t2, t1)
    ensures FreshFor(v, dep, t, t2)
  {
    match dep
    case Single(n) => Assembly.MadeAfterExtends(v, t, t1, t2, n);
    case Listed(ns) =>
      forall i | 0 <= i < |ns| ensures Assembly.MadeAfter(v.elems[i], t, t2, ns[i]) {
        Assembly.MadeAfterExtends(v.elems[i], t, t1, t2, ns[i]);
      }
  }

  /** The value built for one `deps` entry. */
  function CreateDep(depth: nat, dep: Dep, config: Conf, fac: Factory, t: Trace)
    : (r: Result<(Value, Trace), Fault>)
    ensures r.Success? ==> Assembly.Extends(r.value.1, t) && FreshFor(r.value.0, dep, t, r.value.1)
    decreases depth, 2, 0
  {
    match dep
    case Single(n) => CreateNamed(depth, n, config, fac, t)
    case Listed(ns) =>
      match CreateAll(depth, ns, config, fac, t)
      case Failure(e) => Failure(e)
      case Success((vs, t1)) => Success((Items(vs), t1))
  }

  /** The `deps` entries named by `keys`, built in order into `acc`. */
  function CreateDeps(depth: nat, keys: seq<string>, deps: Dict<Dep>, config: Conf, fac: Factory,
                      acc: map<string, Value>, t: Trace)
    : (r: Result<(map<string, Value>, Trace), Fault>)
    requires forall k | k in keys :: k in deps.items
    ensures r.Success? ==> Assembly.Extends(r.value.1, t) && r.value.0.Keys == acc.Keys + set k | k in keys
    decreases depth, 3, |keys|
  {
    if keys == [] then Success((acc, t))
    else
      match CreateDep(depth, deps.items[keys[0]], config, fac, t)
      case Failure(e) => Failure(e)
      case Success((v, t1)) =>
        match CreateDeps(depth, keys[1..], deps, config, fac, acc[keys[0] := v], t1)
        case Failure(e) => Failure(e)
        case Success((m, t2)) =>
          Assembly.ExtendsTrans(t2, t1, t);
          Success((m, t2))
  }

  /** Every entry `CreateDeps` builds is fresh: nothing a dependency
      resolves to existed before the resolution began. */
  lemma {:induction false} CreateDepsFresh(depth: nat, keys: seq<string>, deps: Dict<Dep>, config: Conf, fac: Factory,
                                          acc: map<string, Value>, t: Trace)
    requires forall k | k in keys :: k in deps.items
    requires CreateDeps(depth, keys, deps, config, fac, acc, t).Success?
    ensures var (m, t') := CreateDeps(depth, keys, deps, config, fac, acc, t).value;
      forall k | k in keys :: FreshFor(m[k], deps.items[k], t, t')
    ensures var (m, t') := CreateDeps(depth, keys, deps, config, fac, acc, t).value;
      forall k | k in acc && k !in keys :: m[k] == acc[k]
    decreases |keys|
  {
    if keys != [] {
      var (v, t1) := CreateDep(depth, deps.items[keys[0]], config, fac, t).value;
      var (m, t') := CreateDeps(depth, keys, deps, config, fac, acc, t).value;
      assert (m, t') == CreateDeps(depth, keys[1..], deps, config, fac, acc[keys[0] := v], t1).value;
      CreateDepsFresh(depth, keys[1..], deps, config, fac, acc[keys[0] := v], t1);
      forall k | k in keys ensures FreshFor(m[k], deps.items[k], t, t') {
        if k in keys[1..] {
          FreshForFrom(m[k], deps.items[k], t, t1, t');
        } else {
          FreshForExtends(v, deps.items[k], t, t1, t');
        }
      }
    }
  }

  /** Made after a later prefix is made after an earlier one. */
  lemma FreshForFrom(v: Value, dep: Dep, t: Trace, t1: Trace, t2: Trace)
    requires FreshFor(v, dep, t1, t2) && Assembly.Extends(t1, t)
    ensures FreshFor(v, dep, t, t2)
  {
  }

  /** A successful draft build resolved its dependencies and then made
      exactly one more call, with the dependencies merged over the literal
      arguments. */
  lemma CreateUnfold(depth: nat, name: string, config: Conf, fac: Factory, t: Trace)
    requires Create(depth, name, config, fac, t).Success?
    ensures var d := config.items[name];
      && CreateDeps(depth, d.deps.keys, d.deps, config, fac, map[], t).Success?
      && var (dvals, t1) := CreateDeps(depth, d.deps.keys, d.deps, config, fac, map[], t).value;
         Create(depth, name, config, fac, t).value.1 ==
           t1 + [Call(name, d.typ, InvocationFor(Assembly.Merge(d.args, dvals)))]
  {
  }

  /** Every dependency of a draft build is constructed afresh, before the
      object that receives it: a dependency named twice, or a service
      already built, is built again. */
  lemma CreateFreshDependency(depth: nat, name: string, config: Conf, fac: Factory, t: Trace, k: string)
    requires Create(depth, name, config, fac, t).Success?
    requires k in config.items[name].deps.items
    ensures var t' := Create(depth, name, config, fac, t).value.1;
      var a := ArgsOf(Assembly.LastCall(t').inv);
      k in a && FreshFor(a[k], config.items[name].deps.items[k], t, t')
  {
    var d := config.items[name];
    CreateUnfold(depth, name, config, fac, t);
    var (dvals, t1) := CreateDeps(depth, d.deps.keys, d.deps, config, fac, map[], t).value;
    DictKeys(d.deps);
    CreateDepsFresh(depth, d.deps.keys, d.deps, config, fac, map[], t);
    var t' := Create(depth, name, config, fac, t).value.1;
    assert Assembly.LastCall(t').inv == InvocationFor(Assembly.Merge(d.args, dvals));
    assert ArgsOf(Assembly.LastCall(t').inv)[k] == dvals[k];
    assert t'[..|t1|] == t1;
    FreshForExtends(dvals[k], d.deps.items[k], t, t1, t');
  }

  /** The call a draft build makes receives every literal argument no
      dependency overrides, unchanged (a "reference" is passed as it is),
      and is a no-argument call exactly when the entry has neither
      arguments nor dependencies. */
  lemma CreateLiteralArguments(depth: nat, name: string, config: Conf, fac: Factory, t: Trace)
    requires Create(depth, name, config, fac, t).Success?
    ensures var d := config.items[name];
      var c := Assembly.LastCall(Create(depth, name, config, fac, t).value.1);
      && ArgsOf(c.inv).Keys == d.args.Keys + d.deps.items.Keys
      && (forall k | k in d.args && k !in d.deps.items :: ArgsOf(c.inv)[k] == Lit(d.args[k]))
      && (c.inv.NoArgs? <==> |d.args| == 0 && |d.deps.items| == 0)
  {
    var d := config.items[name];
    CreateUnfold(depth, name, config, fac, t);
    var (dvals, t1) := CreateDeps(depth, d.deps.keys, d.deps, config, fac, map[], t).value;
    DictKeys(d.deps);
    assert dvals.Keys == d.deps.items.Keys;
  }

  /** An entry without a truthy `type` cannot be built: a raw entry fails
      on the missing key, an empty type on the assertion. */
  lemma UntypedFails(depth: nat, name: string, config: Conf, fac: Factory, t: Trace)
    requires name in config.items
    requires config.items[name].Raw? || config.items[name].typ == ""
    ensures Create(depth, name, config, fac, t) == Failure(Untyped(name))
  {
  }

  /** A dependency whose entry is missing fails the build with the
      lookup's KeyError, when it is the first dependency resolved. */
  lemma MissingFirstDependencyFails(depth: nat, name: string, config: Conf, fac: Factory, t: Trace)
    requires depth > 0
    requires name in config.items && config.items[name].Obj? && config.items[name].typ != ""
    requires var deps := config.items[name].deps;
      |deps.keys| > 0 && deps.items[deps.keys[0]].Single? && deps.items[deps.keys[0]].name !in config.items
    ensures var deps := config.items[name].deps;
      Create(depth, name, config, fac, t) == Failure(NoSuchEntity(deps.items[deps.keys[0]].name))
  {
    var deps := config.items[name].deps;
    var n := deps.items[deps.keys[0]].name;
    DictKeys(deps);
    assert Create(depth - 1, n, config, fac, t) == Failure(NoSuchEntity(n));
    assert CreateNamed(depth, n, config, fac, t) == Failure(NoSuchEntity(n));
    assert CreateDep(depth, deps.items[deps.keys[0]], config, fac, t) == Failure(NoSuchEntity(n));
    assert CreateDeps(depth, deps.keys, deps, config, fac, map[], t) == Failure(NoSuchEntity(n));
    assert CreateObj(depth, name, config.items[name], config, fac, t) == Failure(NoSuchEntity(n));
  }

  // ---------------------------------------------------------------------
  // `DependencyInjector` / `Assembler`: the leveled scheduler keeping a
  // list of services and a controller.
  // ---------------------------------------------------------------------

  /** The injector's state: its default factory, the services built so far
      in build order, and the controller. */
  datatype Injector = Injector(factory: Option<Factory>, services: seq<Value>, controller: Option<Value>)

  /** One build of the scheduler: the key and the document as its scan
      sees it. */
  datatype Job = Job(key: string, config: Conf)

  /** The builds of a list of passes, pass by pass, each pass in its own
      order. */
  function Jobs(ps: seq<Pass>): (js: seq<Job>)
    ensures |js| == |Order(ps)|
    ensures forall i | 0 <= i < |js| :: js[i].key == Order(ps)[i]
  {
    if ps == [] then []
    else
      var here := seq(|ps[0].due|, i requires 0 <= i < |ps[0].due| => Job(ps[0].due[i], ps[0].conf));
      var js := here + Jobs(ps[1..]);
      assert forall i | |here| <= i < |js| :: js[i] == Jobs(ps[1..])[i - |here|];
      js
  }

  /** Every job sees its entry as `c0` has it. */
  ghost predicate JobsFaithful(js: seq<Job>, c0: Conf) {
    forall i | 0 <= i < |js| ::
      js[i].key in js[i].config.items && js[i].key in c0.items && js[i].config.items[js[i].key] == c0.items[js[i].key]
  }

  /** Every job of the reference schedule sees its entry as the original
      document has it. */
  lemma JobsSeeOwnEntries(schema: Schema, c0: Conf)
    ensures JobsFaithful(Jobs(Levels(schema, c0, 0)), c0)
  {
    PassSeesOwnEntries(schema, c0);
    JobsFrom(Levels(schema, c0, 0), c0);
  }

  lemma {:induction false} JobsFrom(ps: seq<Pass>, c0: Conf)
    requires forall j | 0 <= j < |ps| ::
      forall k | k in ps[j].due :: k in ps[j].conf.items && k in c0.items && ps[j].conf.items[k] == c0.items[k]
    ensures JobsFaithful(Jobs(ps), c0)
    decreases |ps|
  {
    if ps != [] {
      assert forall j | 0 <= j < |ps[1..]| :: ps[1..][j] == ps[j + 1];
      JobsFrom(ps[1..], c0);
      var here := seq(|ps[0].due|, i requires 0 <= i < |ps[0].due| => Job(ps[0].due[i], ps[0].conf));
      var js := Jobs(ps);
      forall i | 0 <= i < |js|
        ensures js[i].key in js[i].config.items && js[i].key in c0.items && js[i].config.items[js[i].key] == c0.items[js[i].key]
      {
        if i < |here| {
          assert js[i] == here[i];
          assert ps[0].due[i] in ps[0].due;
        } else {
          assert js[i] == Jobs(ps[1..])[i - |here|];
        }
      }
    }
  }

  /** One build of the scan: the service, and, for an entry flagged
      `controller`, a second object built for it to be the controller. */
  function Serve(depth: nat, job: Job, fac: Factory, t: Trace)
    : (r: Result<(Value, Option<Value>, Trace), Fault>)
    ensures r.Success? ==> Assembly.Extends(r.value.2, t) && MadeFor(r.value.0, job, t, r.value.2)
    ensures r.Success? ==> (r.value.1.Some? <==> Flagged(job))
    ensures r.Success? && r.value.1.Some? ==>
      MadeFor(r.value.1.value, job, t, r.value.2) && r.value.0.id < r.value.1.value.id
  {
    match Create(depth, job.key, job.config, fac, t)
    case Failure(e) => Failure(e)
    case Success((v, t1)) =>
      if IsController(job.config.items[job.key]) then
        match Create(depth, job.key, job.config, fac, t1)
        case Failure(e) => Failure(e)
        case Success((c, t2)) =>
          Assembly.ExtendsTrans(t2, t1, t);
          MadeForExtends(v, job, t, t1, t2);
          Success((v, Some(c), t2))
      else Success((v, None, t1))
  }

  /** The builds one after the other: the services in build order, and the
      controller, which each flagged entry replaces. */
  function ServeAll(depth: nat, js: seq<Job>, ctl: Option<Value>, fac: Factory, t: Trace)
    : (r: Result<(seq<Value>, Option<Value>, Trace), Fault>)
    ensures r.Success? ==> Assembly.Extends(r.value.2, t) && |r.value.0| == |js|
    decreases |js|
  {
    if js == [] then Success(([], ctl, t))
    else
      match Serve(depth, js[0], fac, t)
      case Failure(e) => Failure(e)
      case Success((v, c, t1)) =>
        match ServeAll(depth, js[1..], if c.Some? then c else ctl, fac, t1)
        case Failure(e) => Failure(e)
        case Success((vs, ctl', t2)) =>
          Assembly.ExtendsTrans(t2, t1, t);
          Success(([v] + vs, ctl', t2))
  }

  /** `configure_services`: the passes of the leveled scheduler, run with
      the draft resolver; the services are appended to the injector's list.
      Returns the injector and the document with the services popped. */
  function ConfigureServices(depth: nat, inj: Injector, config: Conf, fac: Factory, t: Trace)
    : (r: Result<(Injector, Conf, Trace), Fault>)
    ensures r.Success? ==> Assembly.Extends(r.value.2, t) && r.value.0.factory == inj.factory
  {
    var (ps, rest) := Plan(Leveled, config);
    match ServeAll(depth, Jobs(ps), inj.controller, fac, t)
    case Failure(e) => Failure(e)
    case Success((vs, ctl, t')) => Success((inj.(services := inj.services + vs, controller := ctl), rest, t'))
  }

  /** `v` is an object made during the step from `t` to `t'`, by a call for
      the job's key with the type of its entry. */
  ghost predicate MadeFor(v: Value, job: Job, t: Trace, t': Trace) {
    job.key in job.config.items && job.config.items[job.key].Obj? &&
    v.Inst? && |t| <= v.id < |t'| && t'[v.id].entity == job.key && t'[v.id].typ == job.config.items[job.key].typ
  }

  lemma MadeForExtends(v: Value, job: Job, t: Trace, t1: Trace, t2: Trace)
    requires MadeFor(v, job, t, t1) && Assembly.Extends(t2, t1)
    ensures MadeFor(v, job, t, t2)
  {
    assert t2[v.id] == t2[..|t1|][v.id];
  }

  /** The scan yields one new object per build, in build order, each made
      for its own key during the scan. */
  lemma {:induction false} ServeAllServices(depth: nat, js: seq<Job>, ctl: Option<Value>, fac: Factory, t: Trace)
    requires ServeAll(depth, js, ctl, fac, t).Success?
    ensures var (vs, _, t') := ServeAll(depth, js, ctl, fac, t).value;
      forall i | 0 <= i < |js| :: MadeFor(vs[i], js[i], t, t')
    decreases |js|
  {
    if js != [] {
      var (v, c, t1) := Serve(depth, js[0], fac, t).value;
      var ctl1 := if c.Some? then c else ctl;
      var (vs, _, t') := ServeAll(depth, js, ctl, fac, t).value;
      ServeAllServices(depth, js[1..], ctl1, fac, t1);
      MadeForExtends(v, js[0], t, t1, t');
      forall i | 1 <= i < |js| ensures MadeFor(vs[i], js[i], t, t') {
        assert vs[i] == ServeAll(depth, js[1..], ctl1, fac, t1).value.0[i - 1];
      }
    }
  }

  /** The position of the last build whose entry is flagged `controller`. */
  function LastController(js: seq<Job>): (r: Option<nat>)
    ensures r.Some? ==> r.value < |js| && Flagged(js[r.value])
    ensures r.Some? ==> forall i | r.value < i < |js| :: !Flagged(js[i])
    ensures r.None? ==> forall i | 0 <= i < |js| :: !Flagged(js[i])
    decreases |js|
  {
    if js == [] then None
    else match LastController(js[1..])
      case Some(i) => Some(i + 1)
      case None => if Flagged(js[0]) then Some(0) else None
  }

  /** The job's entry carries the `controller` key. */
  predicate Flagged(job: Job) {
    job.key in job.config.items && IsController(job.config.items[job.key])
  }

  /** The controller after the scan is the second object built for the
      last `controller`-flagged entry: an object of its own, never one of
      the listed services. Without such an entry the controller is the one
      the injector had. */
  lemma {:induction false} ServeAllController(depth: nat, js: seq<Job>, ctl: Option<Value>, fac: Factory, t: Trace)
    requires ServeAll(depth, js, ctl, fac, t).Success?
    ensures var (vs, ctl', t') := ServeAll(depth, js, ctl, fac, t).value;
      match LastController(js)
      case None => ctl' == ctl
      case Some(i) => ctl'.Some? && MadeFor(ctl'.value, js[i], t, t') && ctl'.value !in vs
    decreases |js|
  {
    if js != [] {
      var (v, c, t1) := Serve(depth, js[0], fac, t).value;
      var ctl1 := if c.Some? then c else ctl;
      var (vs, ctl', t') := ServeAll(depth, js, ctl, fac, t).value;
      var tail := ServeAll(depth, js[1..], ctl1, fac, t1).value.0;
      assert vs == [v] + tail;
      ServeAllController(depth, js[1..], ctl1, fac, t1);
      ServeAllServices(depth, js[1..], ctl1, fac, t1);
      assert forall x | x in tail :: x.Inst? && x.id >= |t1| by {
        forall x | x in tail ensures x.Inst? && x.id >= |t1| {
          var i :| 0 <= i < |tail| && tail[i] == x;
          assert MadeFor(tail[i], js[1..][i], t1, t');
        }
      }
      match LastController(js[1..])
      case Some(i) =>
        assert MadeFor(ctl'.value, js[1..][i], t1, t');
      case None =>
        if Flagged(js[0]) {
          MadeForExtends(c.value, js[0], t, t1, t');
        }
    }
  }

  /** Jobs that see their entries as `c0` has them build objects from
      `c0`'s entries. */
  lemma ServeAllBuiltFrom(depth: nat, js: seq<Job>, ctl: Option<Value>, fac: Factory, t: Trace, c0: Conf)
    requires ServeAll(depth, js, ctl, fac, t).Success?
    requires JobsFaithful(js, c0)
    ensures var (vs, _, t') := ServeAll(depth, js, ctl, fac, t).value;
      forall i | 0 <= i < |js| ::
        js[i].key in c0.items && vs[i].Inst? && vs[i].id < |t'| && t'[vs[i].id].entity == js[i].key &&
        Assembly.BuiltFrom(vs[i], c0.items[js[i].key], js[i].key, t')
  {
    ServeAllServices(depth, js, ctl, fac, t);
  }

  /** `after` is `before` followed by one object per key of `order`, each
      built from that key's entry in `config`. */
  ghost predicate AppendedInOrder(before: seq<Value>, after: seq<Value>, order: seq<string>, config: Conf, t': Trace) {
    && |after| == |before| + |order|
    && after[..|before|] == before
    && forall i | 0 <= i < |order| ::
         order[i] in config.items && after[|before| + i].Inst? &&
         Assembly.BuiltFrom(after[|before| + i], config.items[order[i]], order[i], t')
  }

  /** `configure_services` appends one object per service, pass by pass in
      ascending level and within a pass in document order; entries without
      `service` are left in the document. */
  lemma ConfigureServicesOrder(depth: nat, inj: Injector, config: Conf, fac: Factory, t: Trace)
    requires ConfigureServices(depth, inj, config, fac, t).Success?
    ensures var (inj', rest, t') := ConfigureServices(depth, inj, config, fac, t).value;
      var order := Order(Levels(Leveled, config, 0));
      && AppendedInOrder(inj.services, inj'.services, order, config, t')
      && SortedByPass(Leveled, config, order)
      && rest.items == config.items - ServiceKeys(Leveled, config)
  {
    PlanIsLevels(Leveled, config);
    OrderSorted(Leveled, config, 0);
    RemainderIsNonServices(Leveled, config);
    ConfigureServicesBuiltFrom(depth, inj, config, fac, t);
  }

  lemma ConfigureServicesBuiltFrom(depth: nat, inj: Injector, config: Conf, fac: Factory, t: Trace)
    requires ConfigureServices(depth, inj, config, fac, t).Success?
    ensures var (inj', rest, t') := ConfigureServices(depth, inj, config, fac, t).value;
      var order := Order(Levels(Leveled, config, 0));
      AppendedInOrder(inj.services, inj'.services, order, config, t')
  {
    ConfigureServicesUnfold(depth, inj, config, fac, t);
    var js := Jobs(Levels(Leveled, config, 0));
    var (vs, ctl, t') := ServeAll(depth, js, inj.controller, fac, t).value;
    JobsSeeOwnEntries(Leveled, config);
    ServeAllBuiltFrom(depth, js, inj.controller, fac, t, config);
    var s := inj.services + vs;
    assert s[..|inj.services|] == inj.services;
    assert forall i | 0 <= i < |vs| :: s[|inj.services| + i] == vs[i];
  }

  /** `configure_services` runs the jobs of the reference schedule and
      leaves the document without its services. */
  lemma ConfigureServicesUnfold(depth: nat, inj: Injector, config: Conf, fac: Factory, t: Trace)
    requires ConfigureServices(depth, inj, config, fac, t).Success?
    ensures ServeAll(depth, Jobs(Levels(Leveled, config, 0)), inj.controller, fac, t).Success?
    ensures var (vs, ctl, t') := ServeAll(depth, Jobs(Levels(Leveled, config, 0)), inj.controller, fac, t).value;
      ConfigureServices(depth, inj, config, fac, t).value ==
        (inj.(services := inj.services + vs, controller := ctl), Snapshot(Leveled, config, Top(Leveled, config) + 1), t')
  {
    PlanIsLevels(Leveled, config);
  }

  /** The controller `configure_services` leaves: the second object built
      for the last `controller`-flagged service in build order, distinct
      from every service it appended; without one, the injector's own. */
  lemma ConfigureServicesController(depth: nat, inj: Injector, config: Conf, fac: Factory, t: Trace)
    requires ConfigureServices(depth, inj, config, fac, t).Success?
    ensures var (inj', _, t') := ConfigureServices(depth, inj, config, fac, t).value;
      var js := Jobs(Levels(Leveled, config, 0));
      match LastController(js)
      case None => inj'.controller == inj.controller
      case Some(i) =>
        && inj'.controller.Some?
        && MadeFor(inj'.controller.value, js[i], t, t')
        && inj'.controller.value !in inj'.services[|inj.services|..]
  {
    ConfigureServicesUnfold(depth, inj, config, fac, t);
    var js := Jobs(Levels(Leveled, config, 0));
    ServeAllController(depth, js, inj.controller, fac, t);
    var (vs, ctl, t') := ServeAll(depth, js, inj.controller, fac, t).value;
    assert (inj.services + vs)[|inj.services|..] == vs;
  }

  /** A service cannot depend on a service of an earlier pass: that entry
      was popped before the scan that builds the dependant, so the lookup
      of its first dependency fails. */
  lemma EarlierServiceUnavailable(depth: nat, config: Conf, j: nat, k: string, fac: Factory, t: Trace)
    requires depth > 0
    requires j < |Levels(Leveled, config, 0)| && k in Levels(Leveled, config, 0)[j].due
    requires k in config.items && config.items[k].Obj? && config.items[k].typ != ""
    requires var deps := config.items[k].deps;
      |deps.keys| > 0 && deps.items[deps.keys[0]].Single? &&
      Scheduled(Leveled, config, deps.items[deps.keys[0]].name) &&
      PassOf(LevelOf(Leveled, config, deps.items[deps.keys[0]].name)) < j
    ensures var deps := config.items[k].deps;
      Create(depth, k, Levels(Leveled, config, 0)[j].conf, fac, t) == Failure(NoSuchEntity(deps.items[deps.keys[0]].name))
  {
    var deps := config.items[k].deps;
    var n := deps.items[deps.keys[0]].name;
    LevelAt(Leveled, config, j);
    PassSeesOwnEntries(Leveled, config);
    var snap := Snapshot(Leveled, config, j);
    assert snap.items[k] == config.items[k];
    assert n in Popped(Leveled, config, j);
    assert n !in snap.items;
    MissingFirstDependencyFails(depth, k, snap, fac, t);
  }

  /** Why `configure_application` stops. */
  datatype InjectorFault =
    | Unconfigured           // neither a factory nor a configuration
    | BuildFault(fault: Fault)
    | NoController           // no controller after the services were built

  /** The factory a call uses: the one given, else the injector's own. */
  function ChosenFactory(factory: Option<Factory>, inj: Injector): Factory
    requires factory.Some? || inj.factory.Some?
  {
    if factory.Some? then factory.value else inj.factory.value
  }

  /** `configure_application`: there must be a factory (the one given or
      the injector's) and a non-empty configuration; the services are
      built, and a controller must exist afterwards. Returns the
      controller and the injector's new state. */
  function ConfigureApplication(depth: nat, inj: Injector, config: Conf, factory: Option<Factory>, t: Trace)
    : (r: Result<(Value, Injector, Trace), InjectorFault>)
    ensures (factory.None? && inj.factory.None?) || |config.keys| == 0 <==> r == Failure(Unconfigured)
    ensures r.Success? ==> r.value.1.controller == Some(r.value.0) && Assembly.Extends(r.value.2, t)
  {
    if !((factory.Some? || inj.factory.Some?) && |config.keys| > 0) then Failure(Unconfigured)
    else
      match ConfigureServices(depth, inj, config, ChosenFactory(factory, inj), t)
      case Failure(e) => Failure(BuildFault(e))
      case Success((inj', _, t')) =>
        if inj'.controller.None? then Failure(NoController)
        else Success((inj'.controller.value, inj', t'))
  }

  /** On an injector without a controller, `configure_application` has a
      controller to return exactly when some service is flagged
      `controller`; it returns the second object built for the last such
      service, which is none of the services listed. */
  lemma ApplicationController(depth: nat, inj: Injector, config: Conf, factory: Option<Factory>, t: Trace)
    requires factory.Some? || inj.factory.Some?
    requires |config.keys| > 0 && inj.controller.None?
    requires ConfigureServices(depth, inj, config, ChosenFactory(factory, inj), t).Success?
    ensures var js := Jobs(Levels(Leveled, config, 0));
      var r := ConfigureApplication(depth, inj, config, factory, t);
      && (r.Success? <==> LastController(js).Some?)
      && (r.Failure? ==> r.error == NoController)
      && (r.Success? ==>
            var (c, inj', t') := r.value;
            MadeFor(c, js[LastController(js).value], t, t') && c !in inj'.services[|inj.services|..])
  {
    ConfigureServicesController(depth, inj, config, ChosenFactory(factory, inj), t);
  }

  // ---------------------------------------------------------------------
  // gestalt/assembly.py: the scheduler keyed by the built object's name,
  // and the assembler, run with the draft resolver.
  // ---------------------------------------------------------------------

  /** The name an object was built for: the `__name__` attribute the
      resolver sets on it. */
  function NameOf(v: Value, t: Trace): string
    requires v.Inst? && v.id < |t|
  {
    t[v.id].entity
  }

  /** One scan: each due key built against the scan's document and stored
      under the name of what was built. */
  function TagPass(depth: nat, due: seq<string>, conf: Conf, reg: Dict<Value>, fac: Factory, t: Trace)
    : (r: Result<(Dict<Value>, Trace), Fault>)
    ensures r.Success? ==> Assembly.Extends(r.value.1, t)
    ensures r.Success? ==> r.value.0.items.Keys == reg.items.Keys + set k | k in due
    ensures r.Success? && Distinct(reg.keys + due) ==> r.value.0.keys == reg.keys + due
    decreases |due|
  {
    if due == [] then Success((reg, t))
    else
      match Create(depth, due[0], conf, fac, t)
      case Failure(e) => Failure(e)
      case Success((v, t1)) =>
        var name := NameOf(v, t1);
        assert name == due[0];
        var reg' := Put(reg, name, v);
        assert Distinct(reg.keys + due) ==> reg'.keys + due[1..] == reg.keys + due by {
          if Distinct(reg.keys + due) {
            DictKeys(reg);
            forall j | 0 <= j < |reg.keys| ensures reg.keys[j] != due[0] {
              assert (reg.keys + due)[j] == reg.keys[j] && (reg.keys + due)[|reg.keys|] == due[0];
            }
            assert due[0] !in reg.items;
            assert reg.keys + due == reg.keys + [due[0]] + due[1..];
          }
        }
        match TagPass(depth, due[1..], conf, reg', fac, t1)
        case Failure(e) => Failure(e)
        case Success((reg2, t2)) =>
          Assembly.ExtendsTrans(t2, t1, t);
          Success((reg2, t2))
  }

  /** The passes one after the other. */
  function TagPasses(depth: nat, ps: seq<Pass>, reg: Dict<Value>, fac: Factory, t: Trace)
    : (r: Result<(Dict<Value>, Trace), Fault>)
    ensures r.Success? ==> Assembly.Extends(r.value.1, t)
    ensures r.Success? ==> r.value.0.items.Keys == reg.items.Keys + set k | k in Order(ps)
    ensures r.Success? && Distinct(reg.keys + Order(ps)) ==> r.value.0.keys == reg.keys + Order(ps)
    decreases |ps|
  {
    if ps == [] then Success((reg, t))
    else
      match TagPass(depth, ps[0].due, ps[0].conf, reg, fac, t)
      case Failure(e) => Failure(e)
      case Success((reg1, t1)) =>
        OrderCons(reg.keys, ps);
        match TagPasses(depth, ps[1..], reg1, fac, t1)
        case Failure(e) => Failure(e)
        case Success((reg2, t2)) =>
          Assembly.ExtendsTrans(t2, t1, t);
          Success((reg2, t2))
  }

  /** A scan keeps the registry faithful to `c0` when its document agrees
      with `c0` on the keys it builds. */
  lemma {:induction false} TagPassRegistered(depth: nat, due: seq<string>, conf: Conf, reg: Dict<Value>, fac: Factory,
                                            t: Trace, c0: Conf)
    requires TagPass(depth, due, conf, reg, fac, t).Success?
    requires Assembly.Registered(reg, c0, t)
    requires forall k | k in due :: k in conf.items && k in c0.items && conf.items[k] == c0.items[k]
    ensures var (reg', t') := TagPass(depth, due, conf, reg, fac, t).value; Assembly.Registered(reg', c0, t')
    decreases |due|
  {
    if due != [] {
      var (v, t1) := Create(depth, due[0], conf, fac, t).value;
      TagPassStep(depth, due, conf, reg, fac, t);
      var reg' := Put(reg, due[0], v);
      RegisteredPut(reg, c0, t, t1, due[0], v);
      TagPassRegistered(depth, due[1..], conf, reg', fac, t1, c0);
    }
  }

  /** The first build of a scan stores its object under the key it was
      built for. */
  lemma TagPassStep(depth: nat, due: seq<string>, conf: Conf, reg: Dict<Value>, fac: Factory, t: Trace)
    requires due != [] && Create(depth, due[0], conf, fac, t).Success?
    ensures var (v, t1) := Create(depth, due[0], conf, fac, t).value;
      TagPass(depth, due, conf, reg, fac, t) == TagPass(depth, due[1..], conf, Put(reg, due[0], v), fac, t1)
  {
    var (v, t1) := Create(depth, due[0], conf, fac, t).value;
    assert NameOf(v, t1) == due[0];
  }

  /** Storing an object built for `k` from its entry keeps the registry
      faithful, across a longer trace. */
  lemma RegisteredPut(reg: Dict<Value>, c0: Conf, t: Trace, t1: Trace, k: string, v: Value)
    requires Assembly.Registered(reg, c0, t) && Assembly.Extends(t1, t)
    requires k in c0.items && Assembly.BuiltFrom(v, c0.items[k], k, t1)
    ensures Assembly.Registered(Put(reg, k, v), c0, t1)
  {
    Assembly.RegisteredExtends(reg, c0, t, t1);
  }

  lemma {:induction false} TagPassesRegistered(depth: nat, ps: seq<Pass>, reg: Dict<Value>, fac: Factory, t: Trace, c0: Conf)
    requires TagPasses(depth, ps, reg, fac, t).Success?
    requires Assembly.Registered(reg, c0, t)
    requires forall j | 0 <= j < |ps| ::
      forall k | k in ps[j].due :: k in ps[j].conf.items && k in c0.items && ps[j].conf.items[k] == c0.items[k]
    ensures var (reg', t') := TagPasses(depth, ps, reg, fac, t).value; Assembly.Registered(reg', c0, t')
    decreases |ps|
  {
    if ps != [] {
      var (reg1, t1) := TagPass(depth, ps[0].due, ps[0].conf, reg, fac, t).value;
      TagPassRegistered(depth, ps[0].due, ps[0].conf, reg, fac, t, c0);
      assert forall j | 0 <= j < |ps[1..]| ::
        forall k | k in ps[1..][j].due :: k in ps[1..][j].conf.items && k in c0.items && ps[1..][j].conf.items[k] == c0.items[k] by {
        forall j | 0 <= j < |ps[1..]| ensures ps[1..][j] == ps[j + 1] {}
      }
      TagPassesRegistered(depth, ps[1..], reg1, fac, t1, c0);
    }
  }

  /** `construct_services` of gestalt/assembly.py: the leveled passes, each
      object stored under its `__name__`. */
  function AssembleServices(depth: nat, conf: Conf, fac: Factory, t: Trace)
    : (r: Result<(Dict<Value>, Conf, Trace), Fault>)
    ensures r.Success? ==> Assembly.Extends(r.value.2, t)
  {
    var (ps, rest) := Plan(Leveled, conf);
    match TagPasses(depth, ps, Empty(), fac, t)
    case Failure(e) => Failure(e)
    case Success((reg, t1)) => Success((reg, rest, t1))
  }

  /** Keying the registry by `__name__` keys it by entity name: every
      service is stored once under its own name, in build order, built
      from its own entry, and the non-services are left. */
  lemma ServicesKeyedByName(depth: nat, conf: Conf, fac: Factory, t: Trace)
    requires AssembleServices(depth, conf, fac, t).Success?
    ensures var (reg, rest, t') := AssembleServices(depth, conf, fac, t).value;
      && reg.keys == Order(Levels(Leveled, conf, 0))
      && (forall k :: k in reg.items <==> k in ServiceKeys(Leveled, conf))
      && Assembly.Registered(reg, conf, t')
      && rest.items == conf.items - ServiceKeys(Leveled, conf)
  {
    var (ps, rest) := Plan(Leveled, conf);
    PlanIsLevels(Leveled, conf);
    PlanBuildsServices(Leveled, conf);
    RemainderIsNonServices(Leveled, conf);
    PassSeesOwnEntries(Leveled, conf);
    var e: Dict<Value> := Empty();
    assert e.keys + Order(ps) == Order(ps);
    TagPassesRegistered(depth, ps, e, fac, t, conf);
  }

  /** Why the draft assembler stops. */
  datatype AssemblyFault = Broken(fault: Fault) | NoMain

  /** The scan over the remaining entries: every `main`-flagged entry is
      built, and the last one built is kept. */
  function DraftMains(depth: nat, keys: seq<string>, conf: Conf, fac: Factory, main: Option<Value>, t: Trace)
    : (r: Result<(Option<Value>, Trace), Fault>)
    requires forall k | k in keys :: k in conf.items
    ensures r.Success? ==> Assembly.Extends(r.value.1, t)
    decreases |keys|
  {
    if keys == [] then Success((main, t))
    else if IsMain(conf.items[keys[0]]) then
      match Create(depth, keys[0], conf, fac, t)
      case Failure(e) => Failure(e)
      case Success((v, t1)) =>
        match DraftMains(depth, keys[1..], conf, fac, Some(v), t1)
        case Failure(e) => Failure(e)
        case Success((m, t2)) =>
          Assembly.ExtendsTrans(t2, t1, t);
          Success((m, t2))
    else DraftMains(depth, keys[1..], conf, fac, main, t)
  }

  lemma {:induction false} DraftMainsLast(depth: nat, keys: seq<string>, conf: Conf, fac: Factory, main: Option<Value>, t: Trace)
    requires forall k | k in keys :: k in conf.items
    requires DraftMains(depth, keys, conf, fac, main, t).Success?
    ensures var (m, t') := DraftMains(depth, keys, conf, fac, main, t).value;
      match Assembly.LastMain(keys, conf)
      case None => m == main
      case Some(k) => m.Some? && Assembly.BuiltFrom(m.value, conf.items[k], k, t')
    decreases |keys|
  {
    if keys != [] {
      var (m, t') := DraftMains(depth, keys, conf, fac, main, t).value;
      var tail := keys[1..];
      Assembly.LastMainCons(keys, conf);
      if IsMain(conf.items[keys[0]]) {
        var (v, t1) := Create(depth, keys[0], conf, fac, t).value;
        DraftMainsLast(depth, tail, conf, fac, Some(v), t1);
        if Assembly.LastMain(tail, conf).None? {
          Assembly.BuiltFromExtends(v, conf.items[keys[0]], keys[0], t1, t');
        }
      } else {
        DraftMainsLast(depth, tail, conf, fac, main, t);
      }
    }
  }

  lemma {:induction false} DraftNoMainBuildsNothing(depth: nat, keys: seq<string>, conf: Conf, fac: Factory, t: Trace)
    requires forall k | k in keys :: k in conf.items && !IsMain(conf.items[k])
    ensures DraftMains(depth, keys, conf, fac, None, t) == Success((None, t))
    decreases |keys|
  {
    if keys != [] {
      DraftNoMainBuildsNothing(depth, keys[1..], conf, fac, t);
    }
  }

  /** `construct_application` of gestalt/assembly.py: the services, then
      the last remaining `main`-flagged entry; without one the final
      assertion fails. */
  function AssembleApplication(depth: nat, conf: Conf, fac: Factory, t: Trace)
    : (r: Result<(Assembly.Application, Trace), AssemblyFault>)
    ensures r.Success? ==> Assembly.Extends(r.value.1, t)
  {
    match AssembleServices(depth, conf, fac, t)
    case Failure(e) => Failure(Broken(e))
    case Success((reg, rest, t1)) =>
      DictKeys(rest);
      match DraftMains(depth, rest.keys, rest, fac, None, t1)
      case Failure(e) => Failure(Broken(e))
      case Success((main, t2)) =>
        Assembly.ExtendsTrans(t2, t1, t);
        if main.None? then Failure(NoMain)
        else Success((Assembly.Application(main.value, reg), t2))
  }

  /** The draft application: its services are the registry and its entry
      point is the last `main`-flagged entry left after the scheduler; the
      assembly fails for want of one exactly when none is left. */
  lemma DraftEntryPoint(depth: nat, conf: Conf, fac: Factory, t: Trace)
    requires AssembleServices(depth, conf, fac, t).Success?
    ensures var (reg, rest, t1) := AssembleServices(depth, conf, fac, t).value;
      match AssembleApplication(depth, conf, fac, t)
      case Success((app, t')) =>
        app.services == reg && Assembly.LastMain(rest.keys, rest).Some? &&
        Assembly.BuiltFrom(app.main, rest.items[Assembly.LastMain(rest.keys, rest).value], Assembly.LastMain(rest.keys, rest).value, t')
      case Failure(NoMain) => Assembly.LastMain(rest.keys, rest).None?
      case Failure(Broken(_)) => Assembly.LastMain(rest.keys, rest).Some?
  {
    var (reg, rest, t1) := AssembleServices(depth, conf, fac, t).value;
    DictKeys(rest);
    if Assembly.LastMain(rest.keys, rest).None? {
      DraftNoMainBuildsNothing(depth, rest.keys, rest, fac, t1);
    }
    if DraftMains(depth, rest.keys, rest, fac, None, t1).Success? {
      DraftMainsLast(depth, rest.keys, rest, fac, None, t1);
    }
  }
}
