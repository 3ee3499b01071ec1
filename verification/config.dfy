/** The configuration document: JSON values, entity descriptors and the
    values the resolver produces from them. */
module Config {
  import opened Wrappers
  import opened Dicts

  /** A parsed JSON value (floating-point numbers are not modelled). */
  datatype Json =
    | JNull
    | JBool(b: bool)
    | JNum(n: int)
    | JStr(s: string)
    | JArr(elems: seq<Json>)
    | JObj(fields: map<string, Json>)

  /** Python truthiness of a parsed JSON value. */
  predicate Truthy(j: Json) {
    match j
    case JNull => false
    case JBool(b) => b
    case JNum(n) => n != 0
    case JStr(s) => |s| > 0
    case JArr(e) => |e| > 0
    case JObj(f) => |f| > 0
  }

  /** An argument equal to this string is filled from `global_values`. */
  const Sentinel: Json := JStr("reference")

  /** The entry of the document that holds the substitution table. */
  const GlobalValues: string := "global_values"

  /** A `deps` entry: one entity name, or an ordered list of them. */
  datatype Dep = Single(name: string) | Listed(names: seq<string>)

  /** One entry of the document. An entry without a `type` key is a raw
      value; otherwise it describes an object to build. The integer flags
      hold JSON numbers, with `true`/`false` read as 1/0, and are `None`
      when the key is absent. */
  datatype Descriptor =
    | Raw(fields: map<string, Json>)
    | Obj(typ: string, args: map<string, Json>, deps: Dict<Dep>,
          service: Option<int>, serviceLevel: Option<int>,
          main: bool, controller: bool)

  /** A configuration document: entity name to descriptor, in document order. */
  type Conf = Dict<Descriptor>

  /** A numeric field of a raw value, as Python compares it with an int. */
  function NumberField(fields: map<string, Json>, key: string): (r: Option<int>) {
    if key !in fields then None
    else match fields[key]
      case JNum(n) => Some(n)
      case JBool(b) => Some(if b then 1 else 0)
      case _ => None
  }

  /** The two schemas for scheduled services. `Flagged` (the current one):
      a truthy `service` key opts in and `service-level` (default 0) is the
      level. `Leveled` (the older drafts): the presence of `service` opts in
      and its value is the level. */
  datatype Schema = Flagged | Leveled

  predicate IsFlaggedService(d: Descriptor) {
    match d
    case Raw(f) => "service" in f && Truthy(f["service"])
    case Obj(_, _, _, s, _, _, _) => s.Some? && s.value != 0
  }

  function LevelField(d: Descriptor): int {
    match d
    case Raw(f) => NumberField(f, "service-level").GetOr(0)
    case Obj(_, _, _, _, l, _, _) => l.GetOr(0)
  }

  /** The build level of a descriptor the scheduler picks up, `None` when
      the scheduler skips it. */
  function ServiceLevel(schema: Schema, d: Descriptor): Option<int> {
    match schema
    case Flagged => if IsFlaggedService(d) then Some(LevelField(d)) else None
    case Leveled =>
      match d
      case Raw(f) => NumberField(f, "service")
      case Obj(_, _, _, s, _, _, _) => s
  }

  /** The presence of a `main` key marks the entry point. */
  predicate IsMain(d: Descriptor) {
    match d
    case Raw(f) => "main" in f
    case Obj(_, _, _, _, _, m, _) => m
  }

  /** The presence of a `controller` key marks the drafts' entry point. */
  predicate IsController(d: Descriptor) {
    match d
    case Raw(f) => "controller" in f
    case Obj(_, _, _, _, _, _, c) => c
  }

  /** The substitution table, when the document has one. A `global_values`
      entry that itself has a `type` key is read as an empty table. */
  function Globals(conf: Conf): Option<map<string, Json>> {
    if GlobalValues !in conf.items then None
    else match conf.items[GlobalValues]
      case Raw(f) => Some(f)
      case Obj(_, _, _, _, _, _, _) => Some(map[])
  }

  /** What resolution produces: a literal JSON value (an argument, or a raw
      entry returned as is), an object built by a factory, identified by the
      position of its factory call in the call trace, or the ordered results
      of a list dependency. */
  datatype Value = Lit(json: Json) | Inst(id: nat) | Items(elems: seq<Value>)

  /** Python truthiness of a resolved value; a built object is always truthy
      because a falsy factory result is rejected. */
  predicate IsTruthy(v: Value) {
    match v
    case Lit(j) => Truthy(j)
    case Inst(_) => true
    case Items(vs) => |vs| > 0
  }
}
