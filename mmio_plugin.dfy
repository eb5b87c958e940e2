/**
  The MMIO plugin registry and the device that wraps a plugin instance.
  A plugin is the table of callbacks it registers; its instance state (the
  `user_data` its `alloc` returns) is the type parameter `S`, and a store
  gives the plugin its new instance state.
*/
module MmioPlugin {
  import opened Types

  /** `mmio_plugin_t`: the callbacks a plugin registers. */
  datatype Plugin<!S> = Plugin(
    alloc: string -> S,
    load: (S, U64, U64, seq<Byte>) -> (bool, seq<Byte>),
    store: (S, U64, U64, seq<Byte>) -> (bool, S))

  /** The process-wide `mmio_plugin_map`. Entries are only ever added. */
  class Registry<S> {
    var plugins: map<string, Plugin<S>>

    constructor ()
      ensures plugins == map[]
    {
      plugins := map[];
    }

    /** `register_mmio_plugin`: add `plugin` under a new `name`; throw for a name already taken. */
    method Register(name: string, plugin: Plugin<S>) returns (r: Result<(), SetupError>)
      modifies this
      ensures name in old(plugins) ==> r == Err(PluginAlreadyRegistered(name)) && plugins == old(plugins)
      ensures name !in old(plugins) ==> r == Ok(()) && plugins == old(plugins)[name := plugin]
      ensures old(plugins).Keys <= plugins.Keys
      ensures forall n :: n in old(plugins) ==> plugins[n] == old(plugins)[n]
    {
      if name in plugins {
        return Err(PluginAlreadyRegistered(name));
      }
      plugins := plugins[name := plugin];
      return Ok(());
    }
  }

  /** `mmio_plugin_device_t`: a device whose accesses go to a plugin instance. */
  class PluginDevice<S> {
    const plugin: Plugin<S>
    var userData: S

    constructor (plugin: Plugin<S>, args: string)
      ensures this.plugin == plugin && userData == plugin.alloc(args)
    {
      this.plugin := plugin;
      userData := plugin.alloc(args);
    }

    /** `load`: the plugin's answer for this instance, verbatim. */
    function Load(addr: U64, len: U64, bytes: seq<Byte>): (r: (bool, seq<Byte>))
      reads this
      ensures r == plugin.load(userData, addr, len, bytes)
    {
      plugin.load(userData, addr, len, bytes)
    }

    /** `store`: the plugin's answer for this instance, verbatim. */
    method Store(addr: U64, len: U64, bytes: seq<Byte>) returns (ok: bool)
      modifies this
      ensures (ok, userData) == plugin.store(old(userData), addr, len, bytes)
    {
      var res := plugin.store(userData, addr, len, bytes);
      ok, userData := res.0, res.1;
    }
  }

  /**
    Constructing a plugin device by name: an unknown name is an error of its
    own (`mmio_plugin_map().at` throws); otherwise the instance is whatever
    the plugin's `alloc` makes of `args`, a rejecting plugin included.
  */
  method NewPluginDevice<S>(registry: Registry<S>, name: string, args: string)
    returns (r: Result<PluginDevice<S>, SetupError>)
    ensures name !in registry.plugins <==> r.Err?
    ensures r.Err? ==> r.error == UnknownPlugin(name)
    ensures r.Ok? ==> fresh(r.value) && r.value.plugin == registry.plugins[name] &&
                      r.value.userData == registry.plugins[name].alloc(args)
  {
    if name !in registry.plugins {
      return Err(UnknownPlugin(name));
    }
    var dev := new PluginDevice(registry.plugins[name], args);
    return Ok(dev);
  }
}
