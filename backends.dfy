/** The backend registry: the module-level `processors` dictionary, filled in
    place at import time, one assignment per backend whose template engine
    could be imported. A processor maps a source text and its file name to the
    rendered text, or signals that it does not support a construct of the
    source (`CurrentlyNotSupported`). */
module Backends {
  import opened Exclusions
  import opened Generator

  datatype Option<T> = None | Some(value: T)

  /** What a processor call produces. */
  datatype Rendered = Output(text: string) | NotSupported

  /** `process(src, filename)`; the engines behind it are not part of this model. */
  type Processor = (string, string) -> Rendered

  class Registry {
    /** `processors.keys()`, in insertion order. */
    var keys: seq<string>
    /** `processors` itself. */
    var processors: map<string, Processor>

    /** The keys are those of the dictionary, each once, and each one of the
        names the module registers. */
    ghost predicate Valid()
      reads this
    {
      (forall b :: b in processors <==> b in keys) &&
      Distinct(keys) &&
      (forall b :: b in keys ==> b in RegistrableBackends)
    }

    /** `processors = {}` */
    constructor ()
      ensures Valid()
      ensures keys == [] && processors == map[]
    {
      keys := [];
      processors := map[];
    }

    /** `processors[name] = process`: a new name goes last, an existing one
        keeps its place and gets the new processor. */
    method Register(name: string, process: Processor)
      requires Valid()
      requires name in RegistrableBackends
      modifies this
      ensures Valid()
      ensures processors == old(processors)[name := process]
      ensures keys == if name in old(keys) then old(keys) else old(keys) + [name]
    {
      if name !in processors {
        keys := keys + [name];
      }
      processors := processors[name := process];
    }
  }

  /** `[name]` when the engine behind `name` could be imported. */
  function Present(name: string, process: Option<Processor>): seq<string> {
    if process.Some? then [name] else []
  }

  /** The entry `name: process` when the engine behind `name` could be imported. */
  function Entry(name: string, process: Option<Processor>): map<string, Processor> {
    if process.Some? then map[name := process.value] else map[]
  }

  /** `processors[name] = process` when the engine behind `name` could be
      imported, nothing otherwise. */
  method RegisterPresent(registry: Registry, name: string, process: Option<Processor>)
    requires registry.Valid()
    requires name in RegistrableBackends
    requires name !in registry.keys
    modifies registry
    ensures registry.Valid()
    ensures registry.keys == old(registry.keys) + Present(name, process)
    ensures registry.processors == old(registry.processors) + Entry(name, process)
  {
    if process.Some? {
      registry.Register(name, process.value);
      assert registry.processors == old(registry.processors) + map[name := process.value];
    }
  }

  /** The first three registrations at import time (source lines 17-62): each
      of Jinja2, Jinja2 with custom variable delimiters and Tornado, when its
      engine could be imported (`None` when its import fails). */
  method StartupOptional(jinja2: Option<Processor>, jinja2VariableStartString: Option<Processor>, tornado: Option<Processor>)
    returns (registry: Registry)
    ensures fresh(registry) && registry.Valid()
    ensures registry.keys == Present(Jinja2, jinja2) + Present(Jinja2VariableStartString, jinja2VariableStartString)
                             + Present(Tornado, tornado)
    ensures registry.processors == Entry(Jinja2, jinja2) + Entry(Jinja2VariableStartString, jinja2VariableStartString)
                                   + Entry(Tornado, tornado)
  {
    BackendNamesDistinct();
    registry := new Registry();
    RegisterPresent(registry, Jinja2, jinja2);
    assert registry.keys == Present(Jinja2, jinja2);
    assert map[] + Entry(Jinja2, jinja2) == Entry(Jinja2, jinja2);
    assert Jinja2VariableStartString !in registry.keys;
    RegisterPresent(registry, Jinja2VariableStartString, jinja2VariableStartString);
    assert Tornado !in registry.keys;
    RegisterPresent(registry, Tornado, tornado);
  }

  /** The registrations at import time, in file order. Each optional engine
      is an input, `None` when its import fails. Django is not optional: its
      `ImportError` is re-raised, so without it no test runs at all. `Html`
      is always registered, last. */
  method Startup(jinja2: Option<Processor>, jinja2VariableStartString: Option<Processor>, tornado: Option<Processor>,
                 django: Processor, mako: Option<Processor>, html: Processor)
    returns (registry: Registry)
    ensures fresh(registry) && registry.Valid()
    ensures registry.keys == Present(Jinja2, jinja2) + Present(Jinja2VariableStartString, jinja2VariableStartString)
                             + Present(Tornado, tornado) + [Django] + Present(Mako, mako) + [Html]
    ensures registry.processors == Entry(Jinja2, jinja2) + Entry(Jinja2VariableStartString, jinja2VariableStartString)
                                   + Entry(Tornado, tornado) + map[Django := django] + Entry(Mako, mako) + map[Html := html]
  {
    BackendNamesDistinct();
    registry := StartupOptional(jinja2, jinja2VariableStartString, tornado);
    PresentLacks(Django, Jinja2, jinja2);
    PresentLacks(Django, Jinja2VariableStartString, jinja2VariableStartString);
    PresentLacks(Django, Tornado, tornado);
    RegisterPresent(registry, Django, Some(django));
    assert Entry(Django, Some(django)) == map[Django := django];
    PresentLacks(Mako, Jinja2, jinja2);
    PresentLacks(Mako, Jinja2VariableStartString, jinja2VariableStartString);
    PresentLacks(Mako, Tornado, tornado);
    RegisterPresent(registry, Mako, mako);
    PresentLacks(Html, Jinja2, jinja2);
    PresentLacks(Html, Jinja2VariableStartString, jinja2VariableStartString);
    PresentLacks(Html, Tornado, tornado);
    PresentLacks(Html, Mako, mako);
    RegisterPresent(registry, Html, Some(html));
    assert Entry(Html, Some(html)) == map[Html := html];
  }

  lemma PresentLacks(other: string, name: string, process: Option<Processor>)
    requires other != name
    ensures other !in Present(name, process)
  {
  }

  /** Every key of a registry the module builds has an exclusion entry, so the
      generator's `exclusions[processor]` never faults. */
  lemma RegisteredBackendsCovered(registry: Registry)
    requires registry.Valid()
    ensures Covered(registry.keys, Table)
    ensures Distinct(registry.keys)
  {
    TableCoversRegistrable();
  }
}
