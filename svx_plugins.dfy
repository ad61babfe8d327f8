/** The plugin registry of the core object: `pub.use(name, factory)` calls
    the factory at most once per name, stores what it returns in the private
    `plugins` object and in the public `pub.plugins` object, and then runs the
    plugin's `init` hook if it has one. Exceptions from the factory or from
    `init` are caught. */
module SvxPlugins {

  /** What a plugin's `init` property holds. */
  datatype InitHook = NoInit | InitReturns | InitThrows

  /** What a factory can return: a falsy value (`null` and `undefined` are
      nullish: reading `.init` on them throws), or a truthy value with an
      `init` hook. A truthy value that is not a function-valued `init` holder
      is modelled as `Object(_, NoInit)`. */
  datatype Plugin = Falsy(nullish: bool) | Object(id: nat, init: InitHook)

  /** The factory either throws or returns a value. */
  datatype FactoryOutcome = Throws | Returns(plugin: Plugin)

  /** The names that every plain object `{}` sees through `Object.prototype`;
      each of them reads as a function or an object, so as truthy. */
  const PrototypeNames: set<string> :=
    {"constructor", "hasOwnProperty", "isPrototypeOf", "propertyIsEnumerable",
     "toString", "toLocaleString", "valueOf", "__proto__", "__defineGetter__",
     "__defineSetter__", "__lookupGetter__", "__lookupSetter__"}

  /** The guard `if (plugins[pluginName])` as written: an own property is read
      when there is one, otherwise the lookup falls through to `Object.prototype`. */
  predicate Blocks(plugins: map<string, Plugin>, name: string)
  {
    if name in plugins then plugins[name].Object? else name in PrototypeNames
  }

  /** The guard as evidently intended: only a truthy plugin registered under
      the name itself blocks a new registration. */
  predicate OwnBlocks(plugins: map<string, Plugin>, name: string)
  {
    name in plugins && plugins[name].Object?
  }

  /** Whether storing `p` runs an `init` hook (which may then throw). */
  predicate RunsInit(p: Plugin)
  {
    p.Object? && p.init != NoInit
  }

  class Registry {
    /** The private `plugins` object. */
    var plugins: map<string, Plugin>
    /** The public `pub.plugins` object, written alongside it. */
    var exposed: map<string, Plugin>
    /** The names whose `init` hook has been called, in call order. */
    var initCalls: seq<string>

    predicate Valid()
      reads this
    {
      exposed == plugins
    }

    constructor()
      ensures Valid() && plugins == map[] && initCalls == []
    {
      plugins, exposed, initCalls := map[], map[], [];
    }

    /** `pub.use` as written. */
    method Use(name: string, outcome: FactoryOutcome)
      requires Valid()
      modifies this
      ensures Valid()
      ensures Blocks(old(plugins), name) || outcome.Throws? ==>
                plugins == old(plugins) && initCalls == old(initCalls)
      ensures !Blocks(old(plugins), name) && outcome.Returns? ==>
                plugins == old(plugins)[name := outcome.plugin] &&
                initCalls == old(initCalls) + (if RunsInit(outcome.plugin) then [name] else [])
    {
      if Blocks(plugins, name) {
        return;
      }
      Install(name, outcome);
    }

    /** `pub.use` with the guard reading own properties only. */
    method UseOwn(name: string, outcome: FactoryOutcome)
      requires Valid()
      modifies this
      ensures Valid()
      ensures OwnBlocks(old(plugins), name) || outcome.Throws? ==>
                plugins == old(plugins) && initCalls == old(initCalls)
      ensures !OwnBlocks(old(plugins), name) && outcome.Returns? ==>
                plugins == old(plugins)[name := outcome.plugin] &&
                initCalls == old(initCalls) + (if RunsInit(outcome.plugin) then [name] else [])
    {
      if OwnBlocks(plugins, name) {
        return;
      }
      Install(name, outcome);
    }

    /** The `try` block: a throwing factory changes nothing; otherwise the
        plugin is stored in both objects before `init` runs, so a throwing
        `init` (or a nullish plugin, whose `.init` read throws) leaves it stored. */
    method Install(name: string, outcome: FactoryOutcome)
      requires Valid()
      modifies this
      ensures Valid()
      ensures outcome.Throws? ==> plugins == old(plugins) && initCalls == old(initCalls)
      ensures outcome.Returns? ==>
                plugins == old(plugins)[name := outcome.plugin] &&
                initCalls == old(initCalls) + (if RunsInit(outcome.plugin) then [name] else [])
    {
      if outcome.Throws? {
        return;
      }
      var plugin := outcome.plugin;
      plugins := plugins[name := plugin];
      exposed := exposed[name := plugin];
      if RunsInit(plugin) {
        initCalls := initCalls + [name];
      }
    }
  }

  /** Once a truthy plugin is stored under a name, every later `use` of that
      name is refused, whatever else is stored meanwhile under other names. */
  lemma FirstWriterWins(plugins: map<string, Plugin>, name: string, p: Plugin, other: string, q: Plugin)
    requires p.Object? && other != name
    ensures Blocks(plugins[name := p], name)
    ensures Blocks(plugins[name := p][other := q], name)
  {
  }

  /** A stored falsy plugin does not block: the name can be registered again. */
  lemma FalsyDoesNotBlock(plugins: map<string, Plugin>, name: string, nullish: bool)
    ensures !Blocks(plugins[name := Falsy(nullish)], name)
    ensures !OwnBlocks(plugins[name := Falsy(nullish)], name)
  {
  }

  /** As written, a fresh registry refuses `toString`: the lookup finds
      `Object.prototype.toString`, a function, so the factory is never called. */
  lemma InheritedNameRefused()
    ensures Blocks(map[], "toString")
    ensures !OwnBlocks(map[], "toString")
  {
  }

  /** With the own-property guard a fresh registry accepts every name, and
      the two guards differ only on the names `Object.prototype` provides. */
  lemma OwnGuardAcceptsFresh(plugins: map<string, Plugin>, name: string)
    ensures !OwnBlocks(map[], name)
    ensures name !in PrototypeNames || name in plugins ==> (Blocks(plugins, name) <==> OwnBlocks(plugins, name))
  {
  }
}
