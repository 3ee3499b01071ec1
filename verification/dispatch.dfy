/** Factory dispatch: a dotted type name is resolved to a callable by
    splitting it on '.', and the callable is invoked with the resolved
    argument mapping. Module import and attribute lookup are replaced by an
    explicit namespace tree; what a callable returns is left to an
    uninterpreted `call` function, of which only truthiness matters. */
module Dispatch {
  import opened Wrappers
  import opened Config

  /** Python's `s.split(sep)`: never empty; "" splits to [""]. */
  function Split(s: string, sep: char): (parts: seq<string>)
    ensures |parts| >= 1
    ensures forall i | 0 <= i < |parts| :: sep !in parts[i]
  {
    if s == [] then [[]]
    else
      var rest := Split(s[1..], sep);
      if s[0] == sep then [[]] + rest
      else [[s[0]] + rest[0]] + rest[1..]
  }

  /** Python's `sep.join(parts)`. */
  function Join(parts: seq<string>, sep: char): string
    requires |parts| >= 1
  {
    if |parts| == 1 then parts[0] else parts[0] + [sep] + Join(parts[1..], sep)
  }

  /** Joining the pieces of a split gives back the name. */
  lemma {:induction false} JoinSplit(s: string, sep: char)
    ensures Join(Split(s, sep), sep) == s
  {
    if s != [] {
      var rest := Split(s[1..], sep);
      JoinSplit(s[1..], sep);
      if s[0] == sep {
        assert ([[]] + rest)[1..] == rest;
      } else {
        var parts := [[s[0]] + rest[0]] + rest[1..];
        if |rest| == 1 {
          assert Join(parts, sep) == [s[0]] + rest[0];
        } else {
          assert parts[1..] == rest[1..];
          assert Join(rest, sep) == rest[0] + [sep] + Join(rest[1..], sep);
        }
        assert s == [s[0]] + s[1..];
      }
    }
  }

  lemma {:induction false} SplitPlain(a: string, sep: char)
    requires sep !in a
    ensures Split(a, sep) == [a]
  {
    if a != [] {
      SplitPlain(a[1..], sep);
      assert [a[0]] + a[1..] == a;
    }
  }

  lemma {:induction false} SplitAtSep(a: string, b: string, sep: char)
    requires sep !in a
    ensures Split(a + [sep] + b, sep) == [a] + Split(b, sep)
  {
    if a == [] {
      assert [sep] + b == ([sep] + b);
      assert ([sep] + b)[1..] == b;
    } else {
      SplitAtSep(a[1..], b, sep);
      assert (a + [sep] + b)[1..] == a[1..] + [sep] + b;
      assert [a[0]] + a[1..] == a;
    }
  }

  /** Splitting a join of dot-free pieces gives back the pieces. */
  lemma {:induction false} SplitJoin(parts: seq<string>, sep: char)
    requires |parts| >= 1
    requires forall i | 0 <= i < |parts| :: sep !in parts[i]
    ensures Split(Join(parts, sep), sep) == parts
  {
    if |parts| == 1 {
      SplitPlain(parts[0], sep);
    } else {
      SplitJoin(parts[1..], sep);
      SplitAtSep(parts[0], Join(parts[1..], sep), sep);
      assert [parts[0]] + parts[1..] == parts;
    }
  }

  /** A module, class or function reachable by attribute lookup; `id`
      distinguishes callables. */
  datatype Member = Member(id: nat, attrs: map<string, Member>)

  /** What a name can be resolved against: the dispatching module's own
      globals, and the importable top-level modules. */
  datatype Namespace = Namespace(globals: map<string, Member>, modules: map<string, Member>)

  /** Successive attribute lookups along `path`. */
  function Traverse(m: Member, path: seq<string>): Option<Member>
    decreases |path|
  {
    if path == [] then Some(m)
    else if path[0] in m.attrs then Traverse(m.attrs[path[0]], path[1..])
    else None
  }

  /** Attribute lookup along a concatenated path is lookup along the first
      part, then along the second from where the first ended. */
  lemma {:induction false} TraverseAppend(m: Member, p: seq<string>, q: seq<string>)
    ensures Traverse(m, p + q) ==
      match Traverse(m, p)
      case None => None
      case Some(m') => Traverse(m', q)
    decreases |p|
  {
    if p != [] {
      assert (p + q)[0] == p[0];
      assert (p + q)[1..] == p[1..] + q;
      if p[0] in m.attrs {
        TraverseAppend(m.attrs[p[0]], p[1..], q);
      }
    } else {
      assert p + q == q;
    }
  }

  /** `get_factory_method`: a name without a dot is looked up in the
      globals; otherwise the first segment names a module and the remaining
      segments are attributes, followed in order. */
  function GetFactoryMethod(ns: Namespace, name: string): Option<Member> {
    var parts := Split(name, '.');
    if |parts| <= 1 then
      if name in ns.globals then Some(ns.globals[name]) else None
    else if parts[0] in ns.modules then Traverse(ns.modules[parts[0]], parts[1..])
    else None
  }

  /** A name without a dot resolves exactly to its global binding. */
  lemma UnqualifiedLookup(ns: Namespace, name: string)
    requires '.' !in name
    ensures GetFactoryMethod(ns, name) == (if name in ns.globals then Some(ns.globals[name]) else None)
  {
    SplitPlain(name, '.');
  }

  /** `top.a.b` resolves by importing `top` and then following the
      attributes `a`, `b` in order. */
  lemma QualifiedLookup(ns: Namespace, top: string, path: seq<string>)
    requires |path| >= 1
    requires '.' !in top
    requires forall i | 0 <= i < |path| :: '.' !in path[i]
    ensures GetFactoryMethod(ns, Join([top] + path, '.')) ==
      (if top in ns.modules then Traverse(ns.modules[top], path) else None)
  {
    var parts := [top] + path;
    SplitJoin(parts, '.');
    assert parts[1..] == path;
  }

  /** How the factory is called: with no arguments when the mapping is
      empty, with keyword arguments otherwise. */
  datatype Invocation = NoArgs | Kwargs(kwargs: map<string, Value>)

  /** What calling a factory does: return a truthy or falsy object, or raise. */
  datatype Outcome = Returned(truthy: bool) | Raised

  /** The factory registry: the namespace names are resolved in, and the
      behaviour of each callable. */
  datatype Factory = Factory(ns: Namespace, call: (Member, Invocation) -> Outcome)

  datatype SpawnError =
    | FactoryNotFound(typ: string)
    | FactoryRaised(typ: string)
    | NothingCreated(typ: string)

  /** The way `spawn` calls a factory for an argument mapping. */
  function InvocationFor(args: map<string, Value>): (inv: Invocation)
    ensures inv.NoArgs? <==> |args| == 0
    ensures ArgsOf(inv) == args
  {
    if |args| == 0 then NoArgs else Kwargs(args)
  }

  /** `spawn`: resolve the type name and call it; a falsy result is an
      error distinct from the callable raising. On success the result is
      how the callable was invoked: with no arguments exactly when the
      mapping is empty. */
  function Spawn(fac: Factory, typ: string, args: map<string, Value>): (r: Result<Invocation, SpawnError>)
    ensures GetFactoryMethod(fac.ns, typ).None? ==> r == Failure(FactoryNotFound(typ))
    ensures r.Success? <==>
      GetFactoryMethod(fac.ns, typ).Some? &&
      fac.call(GetFactoryMethod(fac.ns, typ).value, InvocationFor(args)) == Returned(true)
    ensures r.Success? ==> r.value == InvocationFor(args)
    ensures r.Failure? && GetFactoryMethod(fac.ns, typ).Some? ==>
      r.error == (if fac.call(GetFactoryMethod(fac.ns, typ).value, InvocationFor(args)) == Raised
                  then FactoryRaised(typ) else NothingCreated(typ))
  {
    match GetFactoryMethod(fac.ns, typ)
    case None => Failure(FactoryNotFound(typ))
    case Some(f) =>
      var inv := InvocationFor(args);
      match fac.call(f, inv)
      case Raised => Failure(FactoryRaised(typ))
      case Returned(truthy) => if truthy then Success(inv) else Failure(NothingCreated(typ))
  }

  /** One successful factory call: the entity it was made for (the name the
      source attaches to the new object), its type and how it was invoked. */
  datatype Call = Call(entity: string, typ: string, inv: Invocation)

  /** The factory calls of one assembly, in order; an object built by call
      `i` is `Inst(i)`. */
  type Trace = seq<Call>

  /** The keyword arguments a call received (none for a no-argument call). */
  function ArgsOf(inv: Invocation): map<string, Value> {
    match inv
    case NoArgs => map[]
    case Kwargs(a) => a
  }
}
