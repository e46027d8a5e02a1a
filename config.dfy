/**
 * Construction of initializers from configuration: the registry of named
 * initializers, `Initializer.from_params` and `InitializerApplicator.from_params`.
 *
 * An initializer is a wrapper that binds keyword arguments to a numeric
 * routine; the routines themselves are left opaque, so an `Initializer` here is
 * the wrapper's state: which routine, and which keyword arguments.
 */
module Config {
  import opened Checks

  /** The numeric routines the registry wraps, one per registered name. */
  datatype Routine =
    | Normal | Uniform | Orthogonal | Constant | Dirac
    | XavierNormal | XavierUniform | KaimingNormal | KaimingUniform
    | Sparse | Eye | BlockOrthogonal

  /** The registry: a fixed table from name to routine, built once and only read. */
  const Registry: map<string, Routine> := map[
    "normal" := Normal,
    "uniform" := Uniform,
    "orthogonal" := Orthogonal,
    "constant" := Constant,
    "dirac" := Dirac,
    "xavier_normal" := XavierNormal,
    "xavier_uniform" := XavierUniform,
    "kaiming_normal" := KaimingNormal,
    "kaiming_uniform" := KaimingUniform,
    "sparse" := Sparse,
    "eye" := Eye,
    "block_orthogonal" := BlockOrthogonal
  ]

  /** A configuration value; it is only forwarded, so anything but a string is kept as its literal text. */
  datatype ConfigValue = Text(text: string) | Literal(source: string)

  /** What configuration gives for one initializer: a bare name, or an object with a `type` key. */
  datatype InitializerParams = Name(name: string) | Object(entries: map<string, ConfigValue>)

  /** A wrapped routine together with the keyword arguments bound to it. */
  datatype Initializer = Initializer(routine: Routine, kwargs: map<string, ConfigValue>)

  /** The name under which a routine is registered. */
  function NameOf(r: Routine): (name: string)
    ensures name in Registry && Registry[name] == r
  {
    match r
    case Normal => "normal"
    case Uniform => "uniform"
    case Orthogonal => "orthogonal"
    case Constant => "constant"
    case Dirac => "dirac"
    case XavierNormal => "xavier_normal"
    case XavierUniform => "xavier_uniform"
    case KaimingNormal => "kaiming_normal"
    case KaimingUniform => "kaiming_uniform"
    case Sparse => "sparse"
    case Eye => "eye"
    case BlockOrthogonal => "block_orthogonal"
  }

  /** No two names are registered for the same routine, so NameOf inverts the registry. */
  lemma NameOfInvertsRegistry(name: string)
    requires name in Registry
    ensures NameOf(Registry[name]) == name
  {
  }

  /** Registry lookup by name; an unregistered name is a configuration error. */
  function ByName(name: string): (r: Result<Routine>)
    ensures r.Ok? <==> name in Registry
    ensures r.Ok? ==> NameOf(r.value) == name
    ensures r.Err? ==> r.error == UnknownInitializer(name)
  {
    if name in Registry then NameOfInvertsRegistry(name); Ok(Registry[name])
    else Err(UnknownInitializer(name))
  }

  /** The `type` entry of a configuration object, checked against the registered names. */
  function PopType(entries: map<string, ConfigValue>): (r: Result<Routine>)
    ensures r.Ok? <==> "type" in entries && entries["type"].Text? && entries["type"].text in Registry
    ensures r.Ok? ==> NameOf(r.value) == entries["type"].text
    ensures "type" !in entries ==> r == Err(MissingKey("type"))
    ensures "type" in entries && entries["type"].Text? && r.Err? ==>
              r.error == UnknownInitializer(entries["type"].text)
    ensures "type" in entries && entries["type"].Literal? ==>
              r == Err(UnknownInitializer(entries["type"].source))
  {
    if "type" !in entries then Err(MissingKey("type"))
    else match entries["type"]
      case Text(t) => ByName(t)
      case Literal(s) => Err(UnknownInitializer(s))
  }

  /**
   * `Initializer.from_params`: a bare name builds the routine with no keyword
   * arguments; an object names the routine under `type` and passes every other
   * entry on as a keyword argument.
   */
  function InitializerFromParams(params: InitializerParams): (r: Result<Initializer>)
    ensures params.Name? ==> (r.Ok? <==> params.name in Registry)
    ensures params.Name? && r.Ok? ==> NameOf(r.value.routine) == params.name && r.value.kwargs == map[]
    ensures params.Name? && r.Err? ==> r.error == UnknownInitializer(params.name)
    ensures params.Object? ==> (r.Ok? <==> PopType(params.entries).Ok?)
    ensures params.Object? && r.Ok? ==>
              NameOf(r.value.routine) == params.entries["type"].text &&
              r.value.kwargs == params.entries - {"type"}
    ensures params.Object? && r.Err? ==> r.error == PopType(params.entries).error
  {
    match params
    case Name(name) =>
      (match ByName(name)
       case Ok(routine) => Ok(Initializer(routine, map[]))
       case Err(e) => Err(e))
    case Object(entries) =>
      (match PopType(entries)
       case Ok(routine) => Ok(Initializer(routine, entries - {"type"}))
       case Err(e) => Err(e))
  }

  /** The configuration object an initializer is written back as: its arguments plus its `type`. */
  function ParamsOf(init: Initializer): InitializerParams
  {
    Object(init.kwargs["type" := Text(NameOf(init.routine))])
  }

  /** Writing an initializer out as configuration and reading it back gives it again. */
  lemma ParamsRoundTrip(init: Initializer)
    requires "type" !in init.kwargs
    ensures InitializerFromParams(ParamsOf(init)) == Ok(init)
  {
    var entries := init.kwargs["type" := Text(NameOf(init.routine))];
    NameOfInvertsRegistry(NameOf(init.routine));
    assert entries - {"type"} == init.kwargs;
  }

  /** A bare registered name reads back as that routine with no arguments. */
  lemma NameRoundTrip(r: Routine)
    ensures InitializerFromParams(Name(NameOf(r))) == Ok(Initializer(r, map[]))
  {
    NameOfInvertsRegistry(NameOf(r));
  }

  /** An unregistered name builds nothing and is a configuration error. */
  lemma UnknownNameRejected()
    ensures InitializerFromParams(Name("not_a_real_name")) == Err(UnknownInitializer("not_a_real_name"))
  {
  }

  /**
   * `InitializerApplicator.from_params`: every `[pattern, params]` entry becomes
   * `(pattern, initializer)`, in configuration order; the first entry that
   * fails to build makes the whole construction fail with its error.
   */
  function ApplicatorFromParams(params: seq<(string, InitializerParams)>): (r: Result<seq<(string, Initializer)>>)
    ensures r.Ok? <==> forall i :: 0 <= i < |params| ==> InitializerFromParams(params[i].1).Ok?
    ensures r.Ok? ==> |r.value| == |params|
    ensures r.Ok? ==> forall i :: 0 <= i < |params| ==>
              r.value[i].0 == params[i].0 && InitializerFromParams(params[i].1) == Ok(r.value[i].1)
    ensures r.Err? ==>
              exists i :: 0 <= i < |params| && InitializerFromParams(params[i].1) == Err(r.error) &&
                          forall k :: 0 <= k < i ==> InitializerFromParams(params[k].1).Ok?
  {
    if params == [] then Ok([])
    else
      match InitializerFromParams(params[0].1)
      case Err(e) => Err(e)
      case Ok(init) =>
        match ApplicatorFromParams(params[1..])
        case Err(e) =>
          assert forall i :: 0 <= i < |params[1..]| ==> params[1..][i] == params[i + 1];
          var i :| 0 <= i < |params[1..]| && InitializerFromParams(params[1..][i].1) == Err(e) &&
                   forall k :: 0 <= k < i ==> InitializerFromParams(params[1..][k].1).Ok?;
          assert InitializerFromParams(params[i + 1].1) == Err(e);
          Err(e)
        case Ok(rest) => Ok([(params[0].0, init)] + rest)
  }
}
