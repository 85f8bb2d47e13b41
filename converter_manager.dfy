/** The converter registry (src/converter_manager.rs): the converter
    factories in registration order, each known by its format name, and the
    lookup of a factory by name. */
module ConverterManager {
  import opened Prelude

  /** A converter factory, known by its format name: the three the program
      embeds, or one registered from outside under a name of its own. */
  datatype Factory = DebugFactory | ChromeTracingFactory | FlamegraphFactory | PluginFactory(format: string)

  /** `ConverterFactory::get_name`. */
  function Name(f: Factory): string {
    match f
    case DebugFactory => "debug"
    case ChromeTracingFactory => "chrome-tracing"
    case FlamegraphFactory => "flamegraph"
    case PluginFactory(format) => format
  }

  /** The embedded factories, in the order they are registered. */
  const Embedded: seq<Factory> := [DebugFactory, ChromeTracingFactory, FlamegraphFactory]

  /** The format names of `factories`, in order. */
  function Names(factories: seq<Factory>): (r: seq<string>)
    ensures |r| == |factories|
    ensures forall i :: 0 <= i < |factories| ==> r[i] == Name(factories[i])
    decreases |factories|
  {
    if factories == [] then [] else Names(factories[..|factories| - 1]) + [Name(factories[|factories| - 1])]
  }

  /** The factory `create_converter` picks for `name`: the first one
      registered under that name, if any. */
  function Find(factories: seq<Factory>, name: string): (r: Option<Factory>)
    ensures r.None? <==> forall i :: 0 <= i < |factories| ==> Name(factories[i]) != name
    ensures r.Some? ==> exists i :: 0 <= i < |factories| && factories[i] == r.value && Name(r.value) == name
                          && forall j :: 0 <= j < i ==> Name(factories[j]) != name
    decreases |factories|
  {
    if factories == [] then None
    else if Name(factories[0]) == name then Some(factories[0])
    else
      var r := Find(factories[1..], name);
      assert forall i :: 1 <= i < |factories| ==> factories[i] == factories[1..][i - 1];
      assert r.Some? ==> exists i :: 1 <= i < |factories| && factories[i] == r.value
                           && forall j :: 1 <= j < i ==> Name(factories[j]) != name;
      r
  }

  /** The embedded names are distinct, so each picks its own factory. */
  lemma EmbeddedLookup()
    ensures Find(Embedded, "debug") == Some(DebugFactory)
    ensures Find(Embedded, "chrome-tracing") == Some(ChromeTracingFactory)
    ensures Find(Embedded, "flamegraph") == Some(FlamegraphFactory)
    ensures forall name :: name !in Names(Embedded) ==> Find(Embedded, name) == None
  {
    assert Names(Embedded) == ["debug", "chrome-tracing", "flamegraph"];
    forall name | name !in Names(Embedded)
      ensures Find(Embedded, name) == None
    {
      FindNames(Embedded, name);
    }
  }

  /** A name finds a factory exactly when it is one of the listed names. */
  lemma FindNames(factories: seq<Factory>, name: string)
    ensures Find(factories, name).Some? <==> name in Names(factories)
  {
    var names := Names(factories);
    if name in names {
      var i :| 0 <= i < |names| && names[i] == name;
      assert Name(factories[i]) == name;
    }
  }

  /** A factory registered later under a name already taken is never picked. */
  lemma LaterFactoryShadowed(factories: seq<Factory>, f: Factory)
    requires Find(factories, Name(f)).Some?
    ensures Find(factories + [f], Name(f)) == Find(factories, Name(f))
  {
    FindAppend(factories, [f], Name(f));
  }

  /** A factory registered under a name no earlier factory has is the one
      that name finds, whatever registered before it. */
  lemma NewNameFound(factories: seq<Factory>, f: Factory)
    requires Name(f) !in Names(factories)
    ensures Find(factories + [f], Name(f)) == Some(f)
  {
    FindNames(factories, Name(f));
    FindAppend(factories, [f], Name(f));
  }

  /** A plug-in factory named `custom`, registered after the embedded ones,
      is found by its name; the embedded names still find their own. */
  lemma PluginLookup()
    ensures Find(Embedded + [PluginFactory("custom")], "custom") == Some(PluginFactory("custom"))
    ensures Find(Embedded + [PluginFactory("custom")], "debug") == Some(DebugFactory)
  {
    EmbeddedLookup();
    NewNameFound(Embedded, PluginFactory("custom"));
    FindAppend(Embedded, [PluginFactory("custom")], "debug");
  }

  /** Registering more factories changes the lookup only of names not yet
      registered. */
  lemma {:induction false} FindAppend(factories: seq<Factory>, more: seq<Factory>, name: string)
    ensures Find(factories + more, name) == if Find(factories, name).Some? then Find(factories, name) else Find(more, name)
    decreases |factories|
  {
    var all := factories + more;
    if factories == [] {
      assert all == more;
    } else {
      assert all[0] == factories[0] && all[1..] == factories[1..] + more;
      FindAppend(factories[1..], more, name);
    }
  }

  /** `ConverterManager`: the registered factories. */
  class ConverterManager {
    var factories: seq<Factory>

    /** `ConverterManager::new`: the debug, Chrome tracing and flamegraph
        factories, in that order. */
    constructor ()
      ensures factories == Embedded
    {
      factories := [];
      new;
      LoadEmbeddedConverters();
    }

    /** `load_embedded_converters`. */
    method LoadEmbeddedConverters()
      modifies this
      ensures factories == old(factories) + Embedded
    {
      RegisterStaticFactory(DebugFactory);
      RegisterStaticFactory(ChromeTracingFactory);
      RegisterStaticFactory(FlamegraphFactory);
    }

    /** `create_converter`: the first factory registered under `name`, or
        none; the converter it constructs is the one of that format. */
    method CreateConverter(name: string) returns (r: Option<Factory>)
      ensures r == Find(factories, name)
    {
      var i := 0;
      while i < |factories|
        invariant 0 <= i <= |factories|
        invariant forall j :: 0 <= j < i ==> Name(factories[j]) != name
        invariant Find(factories, name) == Find(factories[i..], name)
      {
        assert factories[i..][1..] == factories[i + 1..];
        if name == Name(factories[i]) {
          return Some(factories[i]);
        }
        i := i + 1;
      }
      return None;
    }

    /** `get_converters`: the format names, in registration order. */
    method GetConverters() returns (v: seq<string>)
      ensures v == Names(factories)
    {
      v := [];
      var i := 0;
      while i < |factories|
        invariant 0 <= i <= |factories|
        invariant v == Names(factories[..i])
      {
        assert factories[..i + 1][..i] == factories[..i];
        v := v + [Name(factories[i])];
        i := i + 1;
      }
      assert factories[..i] == factories;
    }

    /** `register_static_factory`: the factory goes last. */
    method RegisterStaticFactory(f: Factory)
      modifies this
      ensures factories == old(factories) + [f]
    {
      factories := factories + [f];
    }
  }

  /** The default format is the first one registered, `debug`. */
  method DefaultFormat() returns (format: string)
    ensures format == "debug"
  {
    var manager := new ConverterManager();
    var names := manager.GetConverters();
    format := names[0];
  }
}
