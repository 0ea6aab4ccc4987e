/**
 * The source manager: it rebuilds the table of source-provider instances
 * from the instance configurations, fans `search` and `schedule` out to
 * the capable instances, activates one instance by id, and lists the
 * provider specs.
 */
module SourceManager {
  import opened Wrappers
  import PyDict
  import opened PyValue

  /** The capabilities an instance may advertise in its `apis`. */
  datatype Api = SearchApi | ScheduleApi | ActiveApi

  /** What the SDK provider constructor reports about the instance it built. */
  datatype Profile = Profile(name: string, apis: set<Api>)

  /** One live provider instance, keyed in the table by `id`. */
  datatype Instance = Instance(
    id: Value,
    bin: Value,
    params: PyDict.Dict<string, Value>,
    name: string,
    apis: set<Api>)

  /** The instance table: an insertion-ordered dict from id to instance. */
  type Table = PyDict.Dict<Value, Instance>

  /**
   * The SDK provider constructor, called with the executable path, the
   * instance id and the resolved init parameters; `None` means it raised.
   */
  type Builder = (Value, Value, PyDict.Dict<string, Value>) -> Option<Profile>

  /** Why building an instance raised. */
  datatype LoadError =
    | NotADict          // `.get` on something that is not a dict
    | MissingKey(key: string)
    | NotIterable       // `instance_params` absent or not iterable
    | Unhashable        // a list or dict used as a dict key
    | BadKeywords       // a parameter name that cannot be a keyword argument
    | ConstructorFailed

  /** Keyword arguments the constructor call already passes explicitly. */
  const ReservedKeywords: set<string> := {"bin_path", "pid"}

  // ---------------------------------------------------------------------
  // Instance-table reload
  // ---------------------------------------------------------------------

  predicate Enabled(c: Value) {
    c.VDict? && Truthy(Get(c.entries, "enable", VNone))
  }

  function IdOf(c: Value): Option<Value> {
    if c.VDict? then Index(c.entries, "id") else None
  }

  /** The id an enabled configuration registers under, if it has one. */
  function ContributedId(c: Value): Option<Value> {
    if Enabled(c) then IdOf(c) else None
  }

  function NameOf(item: Value): Value
    requires item.VDict?
  {
    Get(item.entries, "name", VNone)
  }

  function ValueOf(item: Value): Value
    requires item.VDict?
  {
    Get(item.entries, "value", VNone)
  }

  /**
   * `{item.get("name"): item.get("value") for item in items}`: every item
   * must be a dict and every name hashable; a repeated name keeps its first
   * position and takes the later value.
   */
  function CollectParams(items: seq<Value>): (r: Result<PyDict.Dict<Value, Value>, LoadError>)
    decreases |items|
    ensures r.Success? <==> forall i :: 0 <= i < |items| ==> items[i].VDict? && Hashable(NameOf(items[i]))
    ensures r.Success? ==> PyDict.UniqueKeys(r.value)
  {
    if |items| == 0 then Success([])
    else
      var raw :- CollectParams(items[..|items| - 1]);
      var item := items[|items| - 1];
      assert forall i :: 0 <= i < |items| - 1 ==> items[..|items| - 1][i] == items[i];
      if !item.VDict? then Failure(NotADict)
      else if !Hashable(NameOf(item)) then Failure(Unhashable)
      else Success(PyDict.Put(raw, NameOf(item), ValueOf(item)))
  }

  /** Reference: the value of the last item (a dict) whose name is `n`. */
  function LastValueFor(items: seq<Value>, n: Value): Option<Value>
    decreases |items|
  {
    if |items| == 0 then None
    else
      var item := items[|items| - 1];
      if item.VDict? && NameOf(item) == n then Some(ValueOf(item))
      else LastValueFor(items[..|items| - 1], n)
  }

  /** A later parameter with a repeated name overwrites the earlier one. */
  lemma {:induction false} ParamsLastWins(items: seq<Value>, n: Value)
    requires CollectParams(items).Success?
    ensures PyDict.Get(CollectParams(items).value, n) == LastValueFor(items, n)
    decreases |items|
  {
    if |items| > 0 {
      var item := items[|items| - 1];
      ParamsLastWins(items[..|items| - 1], n);
      if NameOf(item) != n {
        PyDict.GetPutOther(CollectParams(items[..|items| - 1]).value, NameOf(item), ValueOf(item), n);
      }
    }
  }

  /**
   * `**init_params`: every name must be a string and must not repeat an
   * explicit keyword of the call; otherwise the call raises `TypeError`.
   */
  function AsKeywords(raw: PyDict.Dict<Value, Value>): (r: Option<PyDict.Dict<string, Value>>)
    ensures r.Some? <==> forall i :: 0 <= i < |raw| ==> raw[i].0.VStr? && raw[i].0.s !in ReservedKeywords
  {
    if forall i :: 0 <= i < |raw| ==> raw[i].0.VStr? && raw[i].0.s !in ReservedKeywords
    then Some(seq(|raw|, i requires 0 <= i < |raw| && raw[i].0.VStr? => (raw[i].0.s, raw[i].1)))
    else None
  }

  /** The keyword form of the parameters answers every lookup as the dict did. */
  lemma KeywordsLookup(raw: PyDict.Dict<Value, Value>, n: string)
    requires AsKeywords(raw).Some?
    ensures PyDict.Get(AsKeywords(raw).value, n) == PyDict.Get(raw, VStr(n))
  {
    var kw := AsKeywords(raw).value;
    match PyDict.IndexOf(raw, VStr(n))
    case Some(i) =>
      PyDict.IndexOfAt(kw, n, i);
    case None =>
  }

  /**
   * One configuration of the reload loop: `Success(None)` when it is not
   * enabled, `Success(Some((id, instance)))` when an instance was built,
   * `Failure` when any step raised.
   */
  function Step(c: Value, build: Builder): (r: Result<Option<(Value, Instance)>, LoadError>)
    ensures !c.VDict? ==> r == Failure(NotADict)
    ensures (r.Success? && r.value.None?) <==> (c.VDict? && !Enabled(c))
    ensures r.Success? && r.value.Some? ==>
      && Enabled(c)
      && IdOf(c) == Some(r.value.value.0)
      && Hashable(r.value.value.0)
      && r.value.value.1.id == r.value.value.0
    // each thing the loop body reads or calls can raise
    ensures c.VDict? && Enabled(c) && Index(c.entries, "conf").None? ==> r == Failure(MissingKey("conf"))
    ensures c.VDict? && Enabled(c) && Index(c.entries, "conf").Some? && !Index(c.entries, "conf").value.VDict?
      ==> r == Failure(NotADict)
    ensures c.VDict? && Enabled(c) && Index(c.entries, "conf").Some? && Index(c.entries, "conf").value.VDict?
      ==> var conf := Index(c.entries, "conf").value.entries;
          var items := Iterate(Get(conf, "instance_params", VNone));
          && (items.None? ==> r == Failure(NotIterable))
          && (items.Some? && CollectParams(items.value).Failure? ==> r.Failure?)
          && ((items.Some? && CollectParams(items.value).Success? && AsKeywords(CollectParams(items.value).value).None?)
              ==> r.Failure?)
          && ((items.Some? && CollectParams(items.value).Success? && AsKeywords(CollectParams(items.value).value).Some?
               && Index(c.entries, "id").Some?
               && build(Get(conf, "bin", VNone), Index(c.entries, "id").value,
                        AsKeywords(CollectParams(items.value).value).value).None?)
              ==> r.Failure?)
    ensures c.VDict? && Enabled(c) && Index(c.entries, "id").None? ==> r.Failure?
    // and when none of them raises, the configuration yields an instance
    ensures c.VDict? && Enabled(c) && Index(c.entries, "conf").Some? && Index(c.entries, "conf").value.VDict?
      ==> var conf := Index(c.entries, "conf").value.entries;
          var items := Iterate(Get(conf, "instance_params", VNone));
          ((items.Some? && CollectParams(items.value).Success? && AsKeywords(CollectParams(items.value).value).Some?
            && IdOf(c).Some? && Hashable(IdOf(c).value)
            && build(Get(conf, "bin", VNone), IdOf(c).value, AsKeywords(CollectParams(items.value).value).value).Some?)
           ==> r.Success? && r.value.Some?)
    ensures c.VDict? && Enabled(c) && IdOf(c).Some? && !Hashable(IdOf(c).value) ==> r.Failure?
    // a built instance is what the constructor made of `conf["bin"]`, the id and the parameters
    ensures r.Success? && r.value.Some? ==>
      var id := r.value.value.0;
      var instance := r.value.value.1;
      && Index(c.entries, "conf").Some? && Index(c.entries, "conf").value.VDict?
      && var conf := Index(c.entries, "conf").value.entries;
         var items := Iterate(Get(conf, "instance_params", VNone));
         && items.Some? && CollectParams(items.value).Success?
         && AsKeywords(CollectParams(items.value).value) == Some(instance.params)
         && instance.bin == Get(conf, "bin", VNone)
         && build(instance.bin, id, instance.params) == Some(Profile(instance.name, instance.apis))
  {
    if !c.VDict? then Failure(NotADict)
    else if !Truthy(Get(c.entries, "enable", VNone)) then Success(None)
    else
      var conf :- Index(c.entries, "conf").ToResult(MissingKey("conf"));
      if !conf.VDict? then Failure(NotADict)
      else
        var items :- Iterate(Get(conf.entries, "instance_params", VNone)).ToResult(NotIterable);
        var raw :- CollectParams(items);
        var bin := Get(conf.entries, "bin", VNone);
        var id :- Index(c.entries, "id").ToResult(MissingKey("id"));
        var params :- AsKeywords(raw).ToResult(BadKeywords);
        var profile :- build(bin, id, params).ToResult(ConstructorFailed);
        if !Hashable(id) then Failure(Unhashable)
        else Success(Some((id, Instance(id, bin, params, profile.name, profile.apis))))
  }

  /**
   * The body of `reload_instance` up to the final assignment: the table
   * built from all configurations, or the first error raised.
   */
  function LoadAll(confs: seq<Value>, build: Builder): (r: Result<Table, LoadError>)
    decreases |confs|
    ensures r.Success? <==> forall i :: 0 <= i < |confs| ==> Step(confs[i], build).Success?
    ensures r.Success? ==> PyDict.UniqueKeys(r.value)
    ensures r.Success? ==> forall i :: 0 <= i < |r.value| ==> r.value[i].1.id == r.value[i].0
  {
    if |confs| == 0 then Success([])
    else
      var t :- LoadAll(confs[..|confs| - 1], build);
      assert forall i :: 0 <= i < |confs| - 1 ==> confs[..|confs| - 1][i] == confs[i];
      var s :- Step(confs[|confs| - 1], build);
      Success(Extend(t, s))
  }

  /** Records one step's instance, if it built one, under its id. */
  function Extend(t: Table, s: Option<(Value, Instance)>): (r: Table)
    ensures s.None? ==> r == t
    ensures s.Some? ==> r == PyDict.Put(t, s.value.0, s.value.1)
    ensures (forall i :: 0 <= i < |t| ==> t[i].1.id == t[i].0) && (s.Some? ==> s.value.1.id == s.value.0)
      ==> forall i :: 0 <= i < |r| ==> r[i].1.id == r[i].0
  {
    match s
    case None => t
    case Some(entry) =>
      var r := PyDict.Put(t, entry.0, entry.1);
      assert forall i :: 0 <= i < |r| ==> r[i] == entry || r[i] in t;
      r
  }

  lemma LoadAllLast(confs: seq<Value>, build: Builder)
    requires |confs| > 0 && LoadAll(confs, build).Success?
    ensures LoadAll(confs[..|confs| - 1], build).Success?
    ensures Step(confs[|confs| - 1], build).Success?
    ensures LoadAll(confs, build).value
      == Extend(LoadAll(confs[..|confs| - 1], build).value, Step(confs[|confs| - 1], build).value)
  {
  }

  /** The ids of the enabled configurations. */
  ghost function EnabledIds(confs: seq<Value>): set<Value> {
    set i | 0 <= i < |confs| && ContributedId(confs[i]).Some? :: ContributedId(confs[i]).value
  }

  /** The enabled ids in configuration order, repeats included. */
  function EnabledIdSeq(confs: seq<Value>): seq<Value>
    decreases |confs|
  {
    if |confs| == 0 then []
    else
      var c := confs[|confs| - 1];
      EnabledIdSeq(confs[..|confs| - 1]) + (if ContributedId(c).Some? then [ContributedId(c).value] else [])
  }

  /** The elements of `s` in order of first appearance. */
  function FirstSeen<T(==)>(s: seq<T>): seq<T>
    decreases |s|
  {
    if |s| == 0 then []
    else
      var p := FirstSeen(s[..|s| - 1]);
      if s[|s| - 1] in p then p else p + [s[|s| - 1]]
  }

  /** Reference: the instance built from the last enabled configuration with id `k`. */
  function LastBuilt(confs: seq<Value>, build: Builder, k: Value): Option<Instance>
    decreases |confs|
  {
    if |confs| == 0 then None
    else
      var s := Step(confs[|confs| - 1], build);
      if s.Success? && s.value.Some? && s.value.value.0 == k then Some(s.value.value.1)
      else LastBuilt(confs[..|confs| - 1], build, k)
  }

  /** The id an enabled configuration contributes, if any. */
  ghost function IdsOfOne(c: Value): set<Value> {
    if ContributedId(c).Some? then {ContributedId(c).value} else {}
  }

  lemma EnabledIdsLast(confs: seq<Value>)
    requires |confs| > 0
    ensures EnabledIds(confs) == EnabledIds(confs[..|confs| - 1]) + IdsOfOne(confs[|confs| - 1])
  {
    var pre := confs[..|confs| - 1];
    forall x | x in EnabledIds(confs)
      ensures x in EnabledIds(pre) + IdsOfOne(confs[|confs| - 1])
    {
      var i :| 0 <= i < |confs| && ContributedId(confs[i]).Some? && ContributedId(confs[i]).value == x;
      if i < |pre| { assert pre[i] == confs[i]; }
    }
    forall x | x in EnabledIds(pre) ensures x in EnabledIds(confs) {
      var i :| 0 <= i < |pre| && ContributedId(pre[i]).Some? && ContributedId(pre[i]).value == x;
      assert pre[i] == confs[i];
    }
  }

  /** A completed reload holds exactly the ids of the enabled configurations. */
  lemma {:induction false} LoadAllKeys(confs: seq<Value>, build: Builder)
    requires LoadAll(confs, build).Success?
    ensures PyDict.KeySet(LoadAll(confs, build).value) == EnabledIds(confs)
    decreases |confs|
  {
    if |confs| > 0 {
      var pre := confs[..|confs| - 1];
      var c := confs[|confs| - 1];
      LoadAllLast(confs, build);
      LoadAllKeys(pre, build);
      EnabledIdsLast(confs);
      var s := Step(c, build).value;
      if s.Some? {
        assert IdsOfOne(c) == {s.value.0};
      } else {
        assert IdsOfOne(c) == {};
      }
    }
  }

  /** With repeated ids, the later enabled configuration's instance wins. */
  lemma {:induction false} LoadAllLastWins(confs: seq<Value>, build: Builder, k: Value)
    requires LoadAll(confs, build).Success?
    ensures PyDict.Get(LoadAll(confs, build).value, k) == LastBuilt(confs, build, k)
    decreases |confs|
  {
    if |confs| > 0 {
      var pre := confs[..|confs| - 1];
      assert forall i :: 0 <= i < |pre| ==> pre[i] == confs[i];
      LoadAllLastWins(pre, build, k);
      var t := LoadAll(pre, build).value;
      match Step(confs[|confs| - 1], build)
      case Success(Some(entry)) =>
        if entry.0 != k {
          PyDict.GetPutOther(t, entry.0, entry.1, k);
        }
      case _ =>
    }
  }

  /** Instances sit in the table in the order their ids were first enabled. */
  lemma {:induction false} LoadAllKeyOrder(confs: seq<Value>, build: Builder)
    requires LoadAll(confs, build).Success?
    ensures PyDict.Keys(LoadAll(confs, build).value) == FirstSeen(EnabledIdSeq(confs))
    decreases |confs|
  {
    if |confs| > 0 {
      var pre := confs[..|confs| - 1];
      var c := confs[|confs| - 1];
      LoadAllLast(confs, build);
      LoadAllKeyOrder(pre, build);
      var t := LoadAll(pre, build).value;
      PyDict.KeySetIsKeys(t);
      var s := Step(c, build).value;
      var ids := EnabledIdSeq(confs);
      if s.Some? {
        var k := s.value.0;
        assert ContributedId(c) == Some(k);
        assert ids == EnabledIdSeq(pre) + [k];
        assert ids[..|ids| - 1] == EnabledIdSeq(pre);
        assert FirstSeen(ids) == if k in FirstSeen(EnabledIdSeq(pre)) then FirstSeen(EnabledIdSeq(pre))
          else FirstSeen(EnabledIdSeq(pre)) + [k];
        assert LoadAll(confs, build).value == PyDict.Put(t, k, s.value.1);
      } else {
        assert ContributedId(c).None?;
        assert ids == EnabledIdSeq(pre);
      }
    }
  }

  /** The result of `reload_instance`: the table afterwards, and the error if it raised. */
  datatype ReloadOutcome = ReloadOutcome(table: Table, error: Option<LoadError>)

  /**
   * `reload_instance`: the freshly built table replaces `prev` in one
   * assignment after the loop; if any configuration raises, the error
   * propagates and `prev` stays in place.
   */
  function Reload(prev: Table, confs: seq<Value>, build: Builder): (r: ReloadOutcome)
    ensures r.error.Some? ==> r.table == prev
    ensures r.error.None? <==> forall i :: 0 <= i < |confs| ==> Step(confs[i], build).Success?
    ensures r.error.None? ==> PyDict.UniqueKeys(r.table) && PyDict.KeySet(r.table) == EnabledIds(confs)
    ensures r.error.None? ==> forall k :: PyDict.Get(r.table, k) == LastBuilt(confs, build, k)
  {
    match LoadAll(confs, build)
    case Failure(e) => ReloadOutcome(prev, Some(e))
    case Success(t) =>
      LoadAllKeys(confs, build);
      assert forall k :: PyDict.Get(t, k) == LastBuilt(confs, build, k) by {
        forall k ensures PyDict.Get(t, k) == LastBuilt(confs, build, k) {
          LoadAllLastWins(confs, build, k);
        }
      }
      ReloadOutcome(t, None)
  }

  /** Reloading again with the same configurations changes nothing. */
  lemma ReloadIdempotent(prev: Table, confs: seq<Value>, build: Builder)
    ensures Reload(Reload(prev, confs, build).table, confs, build) == Reload(prev, confs, build)
  {
  }

  // ---------------------------------------------------------------------
  // Registration on the web application
  // ---------------------------------------------------------------------

  /** The key under which the manager registers itself in `app.extensions`. */
  const ExtensionName := "source_manager"

  datatype InitError = AlreadyRegistered | ReloadFailed(cause: LoadError)

  datatype InitOutcome = InitOutcome(extensions: set<string>, table: Table, error: Option<InitError>)

  /**
   * `init_app`: a second registration raises before touching anything;
   * otherwise the manager is registered first and the table reloaded
   * after, so a failing reload leaves the registration in place.
   */
  function InitApp(extensions: set<string>, table: Table, confs: seq<Value>, build: Builder): (r: InitOutcome)
    ensures ExtensionName in extensions ==> r == InitOutcome(extensions, table, Some(AlreadyRegistered))
    ensures ExtensionName !in extensions ==> r.extensions == extensions + {ExtensionName} && r.error != Some(AlreadyRegistered)
    ensures ExtensionName !in extensions && r.error.None? ==> PyDict.KeySet(r.table) == EnabledIds(confs)
    ensures r.error.Some? && r.error.value.ReloadFailed? ==> r.table == table
    ensures ExtensionName !in extensions ==>
      && r.table == Reload(table, confs, build).table
      && (r.error.None? <==> Reload(table, confs, build).error.None?)
  {
    if ExtensionName in extensions then InitOutcome(extensions, table, Some(AlreadyRegistered))
    else
      var reloaded := Reload(table, confs, build);
      var err := if reloaded.error.Some? then Some(ReloadFailed(reloaded.error.value)) else None;
      InitOutcome(extensions + {ExtensionName}, reloaded.table, err)
  }

  /** Registering the same manager twice on one application raises. */
  lemma SecondInitRaises(extensions: set<string>, table: Table, confs: seq<Value>, build: Builder)
    ensures
      var first := InitApp(extensions, table, confs, build);
      InitApp(first.extensions, first.table, confs, build).error == Some(AlreadyRegistered)
  {
  }

  // ---------------------------------------------------------------------
  // Spec catalogue
  // ---------------------------------------------------------------------

  /** Reference: every provider's specs, concatenated in provider order. */
  function Catalogue<P, S>(providers: seq<P>, spec: P -> seq<S>): seq<S>
    decreases |providers|
  {
    if |providers| == 0 then []
    else Catalogue(providers[..|providers| - 1], spec) + spec(providers[|providers| - 1])
  }

  lemma {:induction false} CatalogueMembers<P, S>(providers: seq<P>, spec: P -> seq<S>, x: S)
    ensures x in Catalogue(providers, spec) <==> exists i :: 0 <= i < |providers| && x in spec(providers[i])
    decreases |providers|
  {
    if |providers| > 0 {
      var pre := providers[..|providers| - 1];
      CatalogueMembers(pre, spec, x);
      if x in Catalogue(providers, spec) && x !in spec(providers[|providers| - 1]) {
        var i :| 0 <= i < |pre| && x in spec(pre[i]);
        assert pre[i] == providers[i];
      }
      if exists i :: 0 <= i < |providers| && x in spec(providers[i]) {
        var i :| 0 <= i < |providers| && x in spec(providers[i]);
        if i < |pre| { assert pre[i] == providers[i]; }
      }
    }
  }

  /** `get_specs`: the specs of every registered provider type, in order. */
  method GetSpecs<P, S>(providers: seq<P>, spec: P -> seq<S>) returns (specs: seq<S>)
    ensures specs == Catalogue(providers, spec)
    ensures forall x :: x in specs <==> exists i :: 0 <= i < |providers| && x in spec(providers[i])
  {
    specs := [];
    var i := 0;
    while i < |providers|
      invariant 0 <= i <= |providers|
      invariant specs == Catalogue(providers[..i], spec)
    {
      assert providers[..i + 1][..i] == providers[..i];
      specs := specs + spec(providers[i]);
      i := i + 1;
    }
    assert providers[..|providers|] == providers;
    forall x ensures x in specs <==> exists i :: 0 <= i < |providers| && x in spec(providers[i]) {
      CatalogueMembers(providers, spec, x);
    }
  }

  // ---------------------------------------------------------------------
  // Single-instance activation
  // ---------------------------------------------------------------------

  /** What `active_provider_instance` does: `False`, a raised `TypeError`, or the instance's answer. */
  datatype Activation<R> = Unknown | Raised | Activated(result: R)

  function PidOf(kwargs: PyDict.Dict<string, Value>): Value {
    Get(kwargs, "pid", VNone)
  }

  /**
   * `active_provider_instance(**kwargs)`: look up `kwargs["pid"]` (`None`
   * when absent) in the table; an unknown id gives `False`, an unhashable
   * one raises, a known one delegates to that instance's `active`.
   */
  function ActiveProviderInstance<R>(t: Table, kwargs: PyDict.Dict<string, Value>,
                                     active: (Instance, PyDict.Dict<string, Value>) -> R): (r: Activation<R>)
    ensures r.Raised? <==> !Hashable(PidOf(kwargs))
    ensures r.Unknown? <==> Hashable(PidOf(kwargs)) && PidOf(kwargs) !in PyDict.KeySet(t)
    ensures r.Activated? ==> exists i :: 0 <= i < |t| && t[i].0 == PidOf(kwargs) && r.result == active(t[i].1, kwargs)
  {
    var pid := PidOf(kwargs);
    if !Hashable(pid) then Raised
    else
      match PyDict.Get(t, pid)
      case None => Unknown
      case Some(instance) => Activated(active(instance, kwargs))
  }

  /** Activation depends only on the table entry for the requested id. */
  lemma ActivationReadsOnlyPid<R>(t1: Table, t2: Table, kwargs: PyDict.Dict<string, Value>,
                                  active: (Instance, PyDict.Dict<string, Value>) -> R)
    requires PyDict.Get(t1, PidOf(kwargs)) == PyDict.Get(t2, PidOf(kwargs))
    ensures ActiveProviderInstance(t1, kwargs, active) == ActiveProviderInstance(t2, kwargs, active)
  {
  }

  /**
   * After a completed reload, activation answers `False` exactly for the
   * ids no enabled configuration carries, and otherwise asks the instance
   * built from the last enabled configuration with that id.
   */
  lemma ActivationAfterReload<R>(prev: Table, confs: seq<Value>, build: Builder,
                                 kwargs: PyDict.Dict<string, Value>,
                                 active: (Instance, PyDict.Dict<string, Value>) -> R)
    requires Reload(prev, confs, build).error.None?
    requires Hashable(PidOf(kwargs))
    ensures
      var r := ActiveProviderInstance(Reload(prev, confs, build).table, kwargs, active);
      && (r.Unknown? <==> PidOf(kwargs) !in EnabledIds(confs))
      && (r.Activated? ==> r.result == active(LastBuilt(confs, build, PidOf(kwargs)).value, kwargs))
  {
    var t := Reload(prev, confs, build).table;
    assert PyDict.Get(t, PidOf(kwargs)) == LastBuilt(confs, build, PidOf(kwargs));
  }

  // ---------------------------------------------------------------------
  // Capability-filtered fan-out
  // ---------------------------------------------------------------------

  /** Which entry point of an instance a call goes to. */
  datatype EntryPoint = SearchEntry | ScheduleEntry

  /** One call to an instance: entry point, `sync` flag, `keyword=` argument and other keyword arguments. */
  datatype Request = Request(entry: EntryPoint, sync: bool, keyword: Option<Value>, kwargs: PyDict.Dict<string, Value>)

  /**
   * How one call ended: it returned a response whose `data` may be missing,
   * or it raised (including a response that is not a dict or whose `data`
   * cannot be appended).
   */
  datatype Outcome<T> = Ok(data: Option<seq<T>>) | Fail

  /** How each instance answers each call. */
  type Responder<T> = (Instance, Request) -> Outcome<T>

  /** The items a call adds to the aggregate: `data`, `[]` if missing, nothing if it raised. */
  function Contribution<T>(o: Outcome<T>): seq<T> {
    match o
    case Ok(data) => data.GetOr([])
    case Fail => []
  }

  /** What one table entry adds: nothing unless it advertises `api`. */
  function Part<T>(e: (Value, Instance), api: Api, respond: Responder<T>, req: Request): seq<T> {
    if api in e.1.apis then Contribution(respond(e.1, req)) else []
  }

  /** Reference: the parts of all entries, concatenated in table order. */
  function FanOut<T>(t: Table, api: Api, respond: Responder<T>, req: Request): seq<T>
    decreases |t|
  {
    if |t| == 0 then []
    else FanOut(t[..|t| - 1], api, respond, req) + Part(t[|t| - 1], api, respond, req)
  }

  /**
   * The loop shared by `search` and `schedule`: walk the table, call every
   * instance that advertises `api`, append its `data` (or `[]`), and skip
   * it if the call raised.
   */
  method Dispatch<T>(t: Table, api: Api, respond: Responder<T>, req: Request) returns (result: seq<T>)
    ensures result == FanOut(t, api, respond, req)
  {
    result := [];
    var i := 0;
    while i < |t|
      invariant 0 <= i <= |t|
      invariant result == FanOut(t[..i], api, respond, req)
    {
      var instance := t[i].1;
      if api in instance.apis {
        match respond(instance, req)
        case Ok(data) =>
          result := result + data.GetOr([]);
        case Fail =>
      }
      assert t[..i + 1][..i] == t[..i];
      i := i + 1;
    }
    assert t[..|t|] == t;
  }

  /** `search(keyword, sync, **kwargs)`: the search-capable instances' search results. */
  function Search<T(!new)>(t: Table, keyword: Value, sync: bool, kwargs: PyDict.Dict<string, Value>,
                     respond: Responder<T>): (r: seq<T>)
    ensures forall x :: x in r <==>
      exists i :: 0 <= i < |t| && SearchApi in t[i].1.apis
        && x in Contribution(respond(t[i].1, Request(SearchEntry, sync, Some(keyword), kwargs)))
  {
    var req := Request(SearchEntry, sync, Some(keyword), kwargs);
    FanOutMembersAll(t, SearchApi, respond, req);
    FanOut(t, SearchApi, respond, req)
  }

  /**
   * `schedule(sync, **kwargs)` as written: it selects the schedule-capable
   * instances but calls their search entry point, without a keyword.
   */
  function Schedule<T(!new)>(t: Table, sync: bool, kwargs: PyDict.Dict<string, Value>, respond: Responder<T>): (r: seq<T>)
    ensures forall x :: x in r <==>
      exists i :: 0 <= i < |t| && ScheduleApi in t[i].1.apis
        && x in Contribution(respond(t[i].1, Request(SearchEntry, sync, None, kwargs)))
  {
    var req := Request(SearchEntry, sync, None, kwargs);
    FanOutMembersAll(t, ScheduleApi, respond, req);
    FanOut(t, ScheduleApi, respond, req)
  }

  /** `schedule` as its log message and capability filter intend: the schedule entry point. */
  function ScheduleIntended<T(!new)>(t: Table, sync: bool, kwargs: PyDict.Dict<string, Value>,
                               respond: Responder<T>): (r: seq<T>)
    ensures forall x :: x in r <==>
      exists i :: 0 <= i < |t| && ScheduleApi in t[i].1.apis
        && x in Contribution(respond(t[i].1, Request(ScheduleEntry, sync, None, kwargs)))
  {
    var req := Request(ScheduleEntry, sync, None, kwargs);
    FanOutMembersAll(t, ScheduleApi, respond, req);
    FanOut(t, ScheduleApi, respond, req)
  }

  /** Fan-out over a split table is the fan-out of the two halves, in order. */
  lemma {:induction false} FanOutAppend<T>(t1: Table, t2: Table, api: Api, respond: Responder<T>, req: Request)
    ensures FanOut(t1 + t2, api, respond, req) == FanOut(t1, api, respond, req) + FanOut(t2, api, respond, req)
    decreases |t2|
  {
    if |t2| == 0 {
      assert t1 + t2 == t1;
    } else {
      var t := t1 + t2;
      assert t[..|t| - 1] == t1 + t2[..|t2| - 1];
      FanOutAppend(t1, t2[..|t2| - 1], api, respond, req);
    }
  }

  /**
   * Each eligible instance's items appear as one contiguous block, in
   * their own order, between the results of the entries before and after it.
   */
  lemma FanOutContiguous<T>(t: Table, i: nat, api: Api, respond: Responder<T>, req: Request)
    requires i < |t|
    ensures FanOut(t, api, respond, req)
      == FanOut(t[..i], api, respond, req) + Part(t[i], api, respond, req) + FanOut(t[i + 1..], api, respond, req)
  {
    assert t == t[..i] + [t[i]] + t[i + 1..];
    FanOutAppend(t[..i] + [t[i]], t[i + 1..], api, respond, req);
    FanOutAppend(t[..i], [t[i]], api, respond, req);
    assert ([] + [t[i]])[..0] == [];
    assert FanOut([t[i]], api, respond, req) == FanOut([], api, respond, req) + Part(t[i], api, respond, req);
  }

  /**
   * An instance that raises, or lacks the capability, changes nothing:
   * the result equals the fan-out over the table without it.
   */
  lemma FanOutSkipsFailure<T>(t: Table, i: nat, api: Api, respond: Responder<T>, req: Request)
    requires i < |t|
    requires api !in t[i].1.apis || respond(t[i].1, req).Fail?
    ensures FanOut(t, api, respond, req) == FanOut(t[..i] + t[i + 1..], api, respond, req)
  {
    FanOutContiguous(t, i, api, respond, req);
    FanOutAppend(t[..i], t[i + 1..], api, respond, req);
  }

  /** With no eligible instance, or every eligible one raising, the result is `[]`. */
  lemma {:induction false} FanOutNothing<T>(t: Table, api: Api, respond: Responder<T>, req: Request)
    requires forall i :: 0 <= i < |t| ==> api !in t[i].1.apis || respond(t[i].1, req).Fail?
    ensures FanOut(t, api, respond, req) == []
    decreases |t|
  {
    if |t| > 0 {
      assert forall i :: 0 <= i < |t| - 1 ==> t[..|t| - 1][i] == t[i];
      FanOutNothing(t[..|t| - 1], api, respond, req);
    }
  }

  /**
   * Instances without the capability are never called: two responders
   * that agree on the eligible instances give the same result.
   */
  lemma {:induction false} FanOutCallsOnlyEligible<T>(t: Table, api: Api, respond1: Responder<T>,
                                                      respond2: Responder<T>, req: Request)
    requires forall i :: 0 <= i < |t| && api in t[i].1.apis ==> respond1(t[i].1, req) == respond2(t[i].1, req)
    ensures FanOut(t, api, respond1, req) == FanOut(t, api, respond2, req)
    decreases |t|
  {
    if |t| > 0 {
      assert forall i :: 0 <= i < |t| - 1 ==> t[..|t| - 1][i] == t[i];
      FanOutCallsOnlyEligible(t[..|t| - 1], api, respond1, respond2, req);
    }
  }

  /** An item is in the result iff some eligible instance returned it. */
  lemma {:induction false} FanOutMembers<T>(t: Table, api: Api, respond: Responder<T>, req: Request, x: T)
    ensures x in FanOut(t, api, respond, req)
      <==> exists i :: 0 <= i < |t| && api in t[i].1.apis && x in Contribution(respond(t[i].1, req))
    decreases |t|
  {
    if |t| > 0 {
      var pre := t[..|t| - 1];
      FanOutMembers(pre, api, respond, req, x);
      if exists i :: 0 <= i < |t| && api in t[i].1.apis && x in Contribution(respond(t[i].1, req)) {
        var i :| 0 <= i < |t| && api in t[i].1.apis && x in Contribution(respond(t[i].1, req));
        if i < |pre| { assert pre[i] == t[i]; }
      }
      if x in FanOut(pre, api, respond, req) {
        var i :| 0 <= i < |pre| && api in pre[i].1.apis && x in Contribution(respond(pre[i].1, req));
        assert pre[i] == t[i];
      }
    }
  }

  lemma FanOutMembersAll<T>(t: Table, api: Api, respond: Responder<T>, req: Request)
    ensures forall x :: (x in FanOut(t, api, respond, req)
      <==> exists i :: 0 <= i < |t| && api in t[i].1.apis && x in Contribution(respond(t[i].1, req)))
  {
    forall x ensures x in FanOut(t, api, respond, req)
      <==> exists i :: 0 <= i < |t| && api in t[i].1.apis && x in Contribution(respond(t[i].1, req))
    {
      FanOutMembers(t, api, respond, req, x);
    }
  }

  /**
   * `schedule` as written never consults the schedule entry point: its
   * result is fixed by how the schedule-capable instances answer a search.
   */
  lemma ScheduleUsesSearchEntry<T(!new)>(t: Table, sync: bool, kwargs: PyDict.Dict<string, Value>,
                                   respond1: Responder<T>, respond2: Responder<T>)
    requires forall i :: 0 <= i < |t| && ScheduleApi in t[i].1.apis ==>
      respond1(t[i].1, Request(SearchEntry, sync, None, kwargs)) == respond2(t[i].1, Request(SearchEntry, sync, None, kwargs))
    ensures Schedule(t, sync, kwargs, respond1) == Schedule(t, sync, kwargs, respond2)
  {
    FanOutCallsOnlyEligible(t, ScheduleApi, respond1, respond2, Request(SearchEntry, sync, None, kwargs));
  }

  /**
   * A concrete discrepancy: one schedule-capable instance whose schedule
   * entry point returns `[1]` and whose search entry point raises; the
   * code as written returns `[]` where `[1]` is intended.
   */
  lemma ScheduleDiscrepancy()
    ensures
      var b := Instance(VStr("b"), VNone, [], "b", {ScheduleApi});
      var respond: Responder<int> := (ins: Instance, req: Request) =>
        if req.entry == ScheduleEntry then Ok(Some([1])) else Fail;
      && Schedule([(VStr("b"), b)], false, [], respond) == []
      && ScheduleIntended([(VStr("b"), b)], false, [], respond) == [1]
  {
    var b := Instance(VStr("b"), VNone, [], "b", {ScheduleApi});
    var t: Table := [(VStr("b"), b)];
    assert t[..0] == [];
  }

  /**
   * Two instances, A advertising search and B advertising search and
   * schedule: `search` returns A's items then B's, or only B's when A
   * raises; `schedule` calls only B.
   */
  lemma TwoInstanceScenario<T(!new)>(a: Instance, b: Instance, keyword: Value, sync: bool,
                               kwargs: PyDict.Dict<string, Value>, respond: Responder<T>)
    requires a.id != b.id
    requires a.apis == {SearchApi} && b.apis == {SearchApi, ScheduleApi}
    ensures
      var t: Table := [(a.id, a), (b.id, b)];
      var searchReq := Request(SearchEntry, sync, Some(keyword), kwargs);
      && Search(t, keyword, sync, kwargs, respond) == Contribution(respond(a, searchReq)) + Contribution(respond(b, searchReq))
      && (respond(a, searchReq).Fail? ==> Search(t, keyword, sync, kwargs, respond) == Contribution(respond(b, searchReq)))
      && Schedule(t, sync, kwargs, respond) == Contribution(respond(b, Request(SearchEntry, sync, None, kwargs)))
      && ScheduleIntended(t, sync, kwargs, respond) == Contribution(respond(b, Request(ScheduleEntry, sync, None, kwargs)))
  {
    var t: Table := [(a.id, a), (b.id, b)];
    FanOutPair(t, SearchApi, respond, Request(SearchEntry, sync, Some(keyword), kwargs));
    FanOutPair(t, ScheduleApi, respond, Request(SearchEntry, sync, None, kwargs));
    FanOutPair(t, ScheduleApi, respond, Request(ScheduleEntry, sync, None, kwargs));
  }

  lemma FanOutPair<T>(t: Table, api: Api, respond: Responder<T>, req: Request)
    requires |t| == 2
    ensures FanOut(t, api, respond, req) == Part(t[0], api, respond, req) + Part(t[1], api, respond, req)
  {
    assert t[..|t| - 1] == [t[0]];
    assert [t[0]][..0] == [];
    assert FanOut([t[0]], api, respond, req) == FanOut([], api, respond, req) + Part(t[0], api, respond, req);
  }
}
