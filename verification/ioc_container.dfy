/** The container of framework/gbxioc/container.go: bean definitions that are marked,
    filled and initialised in place.  Every method is proved against the functions of Ioc. */
module IocContainer {
  import opened Ioc
  import opened Wrappers

  class BeanDefinition {
    const key: Key
    const scope: Scope
    const provider: Option<Provider>
    const initializer: bool  // its instances implement OnInit
    const disposer: bool     // its instances implement OnDestroy
    var instance: Option<Instance>
    var constructing: bool
    var onInitDone: bool

    constructor (key: Key, scope: Scope, provider: Option<Provider>, instance: Option<Instance>,
                 initializer: bool, disposer: bool)
      ensures this.key == key && this.scope == scope && this.provider == provider
      ensures this.initializer == initializer && this.disposer == disposer
      ensures this.instance == instance && !constructing && !onInitDone
    {
      this.key, this.scope, this.provider, this.instance := key, scope, provider, instance;
      this.initializer, this.disposer := initializer, disposer;
      constructing, onInitDone := false, false;
    }
  }

  /** position: where each bean stands in the registration order; defs, life: its meaning in Ioc. */
  datatype View = View(position: map<Key, nat>, defs: Defs, s: State, done: set<Key>, calls: seq<Key>)

  /** The registration order lists every definition once. */
  ghost predicate Ordered(order: seq<BeanDefinition>, beans: map<Key, BeanDefinition>, v: View) {
    && v.position.Keys == beans.Keys == v.defs.Keys
    && v.s.marks <= beans.Keys && v.s.made.Keys <= beans.Keys && v.done <= beans.Keys
    && (forall k :: k in v.position ==>
          v.position[k] < |order| && order[v.position[k]] == beans[k] && order[v.position[k]].key == k)
    && (forall i :: 0 <= i < |order| ==> order[i].key in v.position && v.position[order[i].key] == i)
  }

  /** The definition's fields hold the abstract state. */
  ghost predicate Represents(d: BeanDefinition, v: View)
    reads d
  {
    && d.key in v.defs && v.defs[d.key] == Def(d.scope, d.provider)
    && (d.constructing <==> d.key in v.s.marks)
    && (d.instance.Some? <==> d.key in v.s.made)
    && (d.instance.Some? ==> d.instance.value == v.s.made[d.key])
    && (d.onInitDone <==> d.key in v.done)
    && (d.scope.Prototype? ==> d.provider.Some? && d.instance.None?)
  }

  ghost function Keys(order: seq<BeanDefinition>): (ks: seq<Key>) {
    seq(|order|, i requires 0 <= i < |order| => order[i].key)
  }

  /** The beans whose instances implement OnInit. */
  ghost function Initializers(order: seq<BeanDefinition>): set<Key> {
    set i | 0 <= i < |order| && order[i].initializer :: order[i].key
  }

  /** The beans whose instances implement OnDestroy. */
  ghost function Disposers(order: seq<BeanDefinition>): set<Key> {
    set i | 0 <= i < |order| && order[i].disposer :: order[i].key
  }

  class Container {
    // The two registries of the source, by type and by name, under one tagged key.
    var beans: map<Key, BeanDefinition>
    var order: seq<BeanDefinition>
    var closed: bool
    var built: nat  // how many providers have run

    // The abstract container.
    ghost var view: View

    ghost predicate Valid()
      reads this, order
    {
      && Ordered(order, beans, view) && built == |view.s.runs|
      && (forall i :: 0 <= i < |order| ==> Represents(order[i], view))
    }

    constructor ()
      ensures Valid() && order == [] && !closed
      ensures JustFilled(view.defs, view.s) && view.done == {} && view.calls == []
    {
      beans, order, closed, built := map[], [], false, 0;
      view := View(map[], map[], State({}, map[], [], []), {}, []);
    }

    static function KeyOf(beanType: nat, name: string): Key {
      if name != "" then ByName(name) else ByType(beanType)
    }

    /** Beans with a name are told apart by their names, whatever their types, and the others by their types. */
    static lemma KeysAreApart(t: nat, n: string, u: nat, m: string)
      ensures KeyOf(t, n) == KeyOf(u, m) <==> n == m && (n == "" ==> t == u)
    {
    }

    /** The view after registering `def`. */
    static ghost function Registered(v: View, def: BeanDefinition, position: nat, instance: Option<Instance>): View {
      v.(position := v.position[def.key := position],
         defs := v.defs[def.key := Def(def.scope, def.provider)],
         s := if instance.Some? then v.s.(made := v.s.made[def.key := instance.value]) else v.s)
    }

    /** The common registration path; a name, when there is one, takes precedence over the type. */
    method Register(beanType: nat, name: string, scope: Scope, provider: Option<Provider>,
                    instance: Option<Instance>, initializer: bool, disposer: bool)
      returns (err: Option<Error>)
      requires Valid()
      requires scope.Prototype? ==> provider.Some? && instance.None?
      modifies this
      ensures Valid()
      ensures err == (if provider.None? && instance.None? then Some(InvalidProvider)
                      else if old(closed) then Some(ContainerClosed)
                      else if KeyOf(beanType, name) in old(beans) then Some(Duplicate)
                      else None)
      ensures err.Some? ==> unchanged(this)
      ensures err.None? ==> order != [] && var def := order[|order| - 1];
        && fresh(def)
        && def.key == KeyOf(beanType, name) && def.scope == scope && def.provider == provider
        && def.instance == instance && def.initializer == initializer && def.disposer == disposer
        && order == old(order) + [def] && closed == old(closed)
        && view == Registered(old(view), def, |old(order)|, instance)
    {
      if provider.None? && instance.None? { return Some(InvalidProvider); }
      if closed { return Some(ContainerClosed); }
      var def := new BeanDefinition(KeyOf(beanType, name), scope, provider, instance, initializer, disposer);
      if def.key in beans { return Some(Duplicate); }
      Append(def);
      return None;
    }

    /** The generic registration functions wrap a typed provider, which returns a pointer that
        may be nil, in an interface that is never nil.  `beanType` is None when the type parameter
        is no struct. */
    static method RegisterTo(container: Container?, beanType: Option<nat>, name: string, scope: Scope, requests: seq<Key>,
                             typed: Option<(nat, seq<Outcome>) -> Instance>, initializer: bool, disposer: bool)
      returns (err: Option<Error>)
      requires container != null ==> container.Valid()
      modifies container
      ensures container == null ==> err == Some(ContainerClosed)
      ensures container != null ==> container.Valid()
      ensures container != null ==>
        err == (if beanType.None? then Some(InvalidType)
                else if typed.None? then Some(InvalidProvider)
                else if old(container.closed) then Some(ContainerClosed)
                else if KeyOf(beanType.value, name) in old(container.beans) then Some(Duplicate)
                else None)
      ensures container != null && err.Some? ==> unchanged(container)
      ensures err.None? ==>
        AddsProvider(old(container.view), container.view, KeyOf(beanType.value, name), scope, requests, typed.value)
        && Keys(container.order) == Keys(old(container.order)) + [KeyOf(beanType.value, name)]
    {
      if container == null { return Some(ContainerClosed); }
      if beanType.None? { return Some(InvalidType); }
      if typed.None? { return Some(InvalidProvider); }
      err := container.RegisterTyped(beanType.value, name, scope, requests, typed.value, initializer, disposer);
    }

    method RegisterTyped(beanType: nat, name: string, scope: Scope, requests: seq<Key>,
                         typed: (nat, seq<Outcome>) -> Instance, initializer: bool, disposer: bool)
      returns (err: Option<Error>)
      requires Valid()
      modifies this
      ensures Valid()
      ensures err == (if old(closed) then Some(ContainerClosed)
                      else if KeyOf(beanType, name) in old(beans) then Some(Duplicate)
                      else None)
      ensures err.Some? ==> unchanged(this)
      ensures err.None? ==>
        AddsProvider(old(view), view, KeyOf(beanType, name), scope, requests, typed)
        && Keys(order) == Keys(old(order)) + [KeyOf(beanType, name)]
    {
      var wrapped := Provider(requests, (run: nat, outs: seq<Outcome>) => Value(typed(run, outs)));
      ghost var v := view;
      err := Register(beanType, name, scope, Some(wrapped), None, initializer, disposer);
      if err.None? {
        ProviderAdded(v, view, KeyOf(beanType, name), scope, wrapped, typed);
        KeysSnoc(old(order), order[|order| - 1]);
      }
    }

    static lemma KeysSnoc(defs: seq<BeanDefinition>, def: BeanDefinition)
      ensures Keys(defs + [def]) == Keys(defs) + [def.key]
    {
    }

    static lemma ProviderAdded(v: View, w: View, k: Key, scope: Scope, provider: Provider,
                               typed: (nat, seq<Outcome>) -> Instance)
      requires k !in v.defs && w.defs == v.defs[k := Def(scope, Some(provider))]
      requires w.s == v.s && w.done == v.done && w.calls == v.calls
      requires forall run: nat, outs :: provider.result(run, outs) == Value(typed(run, outs))
      ensures AddsProvider(v, w, k, scope, provider.requests, typed)
    {
    }

    /** Only the definition of `k` is new; its provider returns what the typed one does, never a nil interface. */
    static ghost predicate AddsProvider(v: View, w: View, k: Key, scope: Scope, requests: seq<Key>,
                                        typed: (nat, seq<Outcome>) -> Instance)
    {
      && w.defs.Keys == v.defs.Keys + {k} && w.s == v.s && w.done == v.done && w.calls == v.calls
      && (forall x :: x in v.defs ==> w.defs[x] == v.defs[x])
      && w.defs[k].scope == scope && AlwaysReturns(w.defs[k])
      && w.defs[k].provider.Some? && w.defs[k].provider.value.requests == requests
      && (forall run: nat, outs :: w.defs[k].provider.value.result(run, outs) == Value(typed(run, outs)))
      && (JustFilled(v.defs, v.s) ==> JustFilled(w.defs, w.s))
    }

    /** Registers an instance made beforehand; nil is refused. */
    static method RegisterInstanceTo(container: Container?, beanType: Option<nat>, instance: Instance,
                                     initializer: bool, disposer: bool)
      returns (err: Option<Error>)
      requires container != null ==> container.Valid()
      modifies container
      ensures container == null ==> err == Some(ContainerClosed)
      ensures container != null ==> container.Valid()
      ensures container != null ==>
        err == (if beanType.None? then Some(InvalidType)
                else if instance.NilPointer? then Some(InvalidProvider)
                else if old(container.closed) then Some(ContainerClosed)
                else if ByType(beanType.value) in old(container.beans) then Some(Duplicate)
                else None)
      ensures container != null && err.Some? ==> unchanged(container)
      ensures err.None? ==>
        AddsInstance(old(container.view), container.view, ByType(beanType.value), instance)
        && Keys(container.order) == Keys(old(container.order)) + [ByType(beanType.value)]
    {
      if container == null { return Some(ContainerClosed); }
      if beanType.None? { return Some(InvalidType); }
      if instance.NilPointer? { return Some(InvalidProvider); }
      ghost var v := container.view;
      err := container.Register(beanType.value, "", Singleton, None, Some(instance), initializer, disposer);
      if err.None? { InstanceAdded(v, container.view, ByType(beanType.value), instance); }
    }

    static lemma InstanceAdded(v: View, w: View, k: Key, instance: Instance)
      requires k !in v.defs && w.defs == v.defs[k := Def(Singleton, None)]
      requires w.s == v.s.(made := v.s.made[k := instance]) && w.done == v.done && w.calls == v.calls
      ensures AddsInstance(v, w, k, instance)
    {
    }

    /** Only the definition of `k` is new, a singleton without a provider whose instance is cached. */
    static ghost predicate AddsInstance(v: View, w: View, k: Key, instance: Instance) {
      && w.defs == v.defs[k := Def(Singleton, None)]
      && w.s == v.s.(made := v.s.made[k := instance]) && w.done == v.done && w.calls == v.calls
      && (JustFilled(v.defs, v.s) ==> JustFilled(w.defs, w.s))
    }

    lemma OrderedAppend(def: BeanDefinition)
      requires Valid() && def.key !in beans && def !in order
      requires !def.constructing && !def.onInitDone
      requires def.scope.Prototype? ==> def.provider.Some? && def.instance.None?
      ensures Ordered(order + [def], beans[def.key := def], Registered(view, def, |order|, def.instance))
      ensures Represents(def, Registered(view, def, |order|, def.instance))
      ensures forall i :: 0 <= i < |order| ==> Represents(order[i], Registered(view, def, |order|, def.instance))
    {
      forall i | 0 <= i < |order| ensures Represents(order[i], Registered(view, def, |order|, def.instance)) {
        assert Represents(order[i], view);
      }
      var later := order + [def];
      forall i | 0 <= i < |later| ensures later[i] == if i < |order| then order[i] else def {
      }
    }

    method Append(def: BeanDefinition)
      requires Valid()
      requires def.key !in beans
      requires def !in order && !def.constructing && !def.onInitDone
      requires def.scope.Prototype? ==> def.provider.Some? && def.instance.None?
      modifies this
      ensures Valid()
      ensures order == old(order) + [def] && closed == old(closed)
      ensures beans == old(beans)[def.key := def]
      ensures view == Registered(old(view), def, |old(order)|, def.instance)
    {
      OrderedAppend(def);
      view := Registered(view, def, |order|, def.instance);
      order := order + [def];
      beans := beans[def.key := def];
    }

    /** Nothing but bean fields, the view and the run counter has changed. */
    twostate predicate SameRegistry()
      reads this
    {
      beans == old(beans) && order == old(order) && closed == old(closed)
    }

    // ---------- Field updates of one definition ----------

    method Enter(def: BeanDefinition)
      requires Valid() && def in order
      modifies this, def
      ensures Valid() && SameRegistry()
      ensures view == old(view).(s := Entered(old(view.s), def.key))
      ensures built == old(built) + 1
    {
      def.constructing := true;
      view := view.(s := Entered(view.s, def.key));
      built := built + 1;
      forall i | 0 <= i < |order| ensures Represents(order[i], view) {
        assert old(Represents(order[i], view));
      }
    }

    method Leave(def: BeanDefinition)
      requires Valid() && def in order
      modifies this, def
      ensures Valid() && SameRegistry()
      ensures view == old(view).(s := old(view.s).(marks := old(view.s.marks) - {def.key}))
    {
      def.constructing := false;
      view := view.(s := view.s.(marks := view.s.marks - {def.key}));
      forall i | 0 <= i < |order| ensures Represents(order[i], view) {
        assert old(Represents(order[i], view));
      }
    }

    method Cache(def: BeanDefinition, instance: Instance)
      requires Valid() && def in order && def.scope.Singleton?
      modifies this, def
      ensures Valid() && SameRegistry()
      ensures view == old(view).(s := old(view.s).(made := old(view.s.made)[def.key := instance]))
    {
      def.instance := Some(instance);
      view := view.(s := view.s.(made := view.s.made[def.key := instance]));
      forall i | 0 <= i < |order| ensures Represents(order[i], view) {
        assert old(Represents(order[i], view));
      }
    }

    // ---------- Resolution ----------

    method Get(k: Key) returns (out: Outcome)
      requires Valid()
      modifies this, order
      ensures Valid() && SameRegistry()
      ensures closed ==> out == Err(ContainerClosed) && view == old(view)
      ensures !closed ==>
        var r := Ioc.Get(old(view.defs), old(view.s), k);
        out == r.1 && view == old(view).(s := r.0)
      decreases Unmarked(view.defs, view.s), 1, 1
    {
      if closed { return Err(ContainerClosed); }
      if k !in beans { return Err(NotFound); }
      assert order[view.position[k]] == beans[k];
      out := Resolve(beans[k]);
    }

    method Resolve(def: BeanDefinition) returns (out: Outcome)
      requires Valid() && !closed && def in order
      modifies this, order
      ensures Valid() && SameRegistry()
      ensures var r := Ioc.Get(old(view.defs), old(view.s), def.key);
        out == r.1 && view == old(view).(s := r.0)
      decreases Unmarked(view.defs, view.s), 1, 0
    {
      assert Represents(def, view);
      if def.constructing {
        Refuse(def.key);
        return Err(CircularDependency);
      }
      if def.scope.Prototype? {
        out := Construct(def);
        return out;
      }
      if def.instance.Some? { return Ok(def.instance.value); }
      if def.provider.None? { return Err(InvalidProvider); }
      out := Construct(def);
    }

    method Refuse(k: Key)
      requires Valid()
      modifies this`view
      ensures Valid() && view == old(view).(s := old(view.s).(refused := old(view.s.refused) + [k]))
    {
      view := view.(s := view.s.(refused := view.s.refused + [k]));
      forall i | 0 <= i < |order| ensures Represents(order[i], view) {
        assert old(Represents(order[i], view));
      }
    }

    /** A singleton keeps what its provider returned. */
    method Construct(def: BeanDefinition) returns (out: Outcome)
      requires Valid() && !closed && def in order
      requires def.key !in view.s.marks && def.provider.Some?
      requires def.scope.Singleton? ==> def.key !in view.s.made
      modifies this, order
      ensures Valid() && SameRegistry()
      ensures def.key in old(view.defs) && old(view.defs)[def.key] == Def(def.scope, def.provider)
      ensures var r := Ioc.Construct(old(view.defs), old(view.s), def.key);
        out == r.1 && view == old(view).(s := r.0)
      decreases Unmarked(view.defs, view.s), 0, 1
    {
      var ret := RunMarked(def);
      match ret {
        case NilInterface => return Err(InvalidProvider);
        case Value(instance) =>
          if def.scope.Singleton? { Cache(def, instance); }
          return Ok(instance);
      }
    }

    /** The provider runs between setting and clearing the mark. */
    method RunMarked(def: BeanDefinition) returns (ret: Returned)
      requires Valid() && !closed && def in order
      requires def.key !in view.s.marks && def.provider.Some?
      modifies this, order
      ensures Valid() && SameRegistry()
      ensures def.key in old(view.defs) && old(view.defs)[def.key] == Def(def.scope, def.provider)
      ensures var served := Serve(old(view.defs), Entered(old(view.s), def.key), def.provider.value.requests);
        && ret == def.provider.value.result(|old(view.s.runs)|, served.1)
        && view == old(view).(s := served.0.(marks := served.0.marks - {def.key}))
      decreases Unmarked(view.defs, view.s), 0, 0
    {
      assert Represents(def, view);
      MarkingShrinks(view.defs, view.s, Entered(view.s, def.key), def.key);
      var run := built;
      Enter(def);
      var outs := RunProvider(def.provider.value.requests);
      Leave(def);
      ret := def.provider.value.result(run, outs);
    }

    method RunProvider(requests: seq<Key>) returns (outs: seq<Outcome>)
      requires Valid() && !closed
      modifies this, order
      ensures Valid() && SameRegistry()
      ensures var r := Serve(old(view.defs), old(view.s), requests);
        outs == r.1 && view == old(view).(s := r.0)
      decreases Unmarked(view.defs, view.s), 2, |requests|
    {
      if requests == [] { return []; }
      var first := Get(requests[0]);
      var rest := RunProvider(requests[1..]);
      return [first] + rest;
    }

    // ---------- Lifecycle ----------

    ghost function Life(): Lifecycle
      reads this
    {
      Lifecycle(view.s, view.done, view.calls)
    }

    lemma OrderFacts()
      requires Valid()
      ensures Distinct(Keys(order))
      ensures forall k :: k in Keys(order) ==> k in view.defs
    {
      forall i, j | 0 <= i < |order| && 0 <= j < |order| && order[i].key == order[j].key ensures i == j {
        assert view.position[order[i].key] == i && view.position[order[j].key] == j;
      }
    }

    /** A bean's own flags decide its membership among the initializers and the disposers. */
    lemma FlagFacts(def: BeanDefinition)
      requires Valid() && def in order
      ensures def.key in view.defs
      ensures def.key in Initializers(order) <==> def.initializer
      ensures def.key in Disposers(order) <==> def.disposer
    {
      forall d | d in order && d.key == def.key ensures d == def {
        var i, j :| 0 <= i < |order| && 0 <= j < |order| && order[i] == d && order[j] == def;
        assert view.position[d.key] == i && view.position[def.key] == j;
      }
    }

    method GetForLifecycle(def: BeanDefinition) returns (out: Outcome)
      requires Valid() && !closed && def in order && def.scope.Singleton?
      requires view.s.marks == {}
      modifies this, order
      ensures Valid() && SameRegistry()
      ensures def.key in old(view.defs) && old(view.defs)[def.key].scope.Singleton?
      ensures var r := LifecycleGet(old(view.defs), old(view.s), def.key);
        out == r.1 && view == old(view).(s := r.0)
    {
      assert Represents(def, view);
      if def.instance.Some? { return Ok(def.instance.value); }
      if def.provider.None? { return Err(InvalidProvider); }
      out := Construct(def);
    }

    method StartBean(def: BeanDefinition, fails: set<Key>) returns (err: Option<Error>)
      requires Valid() && !closed && def in order
      requires view.s.marks == {}
      modifies this, order
      ensures Valid() && SameRegistry() && view.defs == old(view.defs)
      ensures def.key in old(view.defs)
      ensures (Life(), err) == Ioc.StartBean(old(view.defs), Initializers(order), fails, def.key, old(Life()))
    {
      assert Represents(def, view);
      if def.scope.Prototype? { return None; }
      var got := GetForLifecycle(def);
      if got.Err? { return Some(got.error); }
      err := Initialise(def, fails);
    }

    method Initialise(def: BeanDefinition, fails: set<Key>) returns (err: Option<Error>)
      requires Valid() && def in order
      modifies this, def
      ensures Valid() && SameRegistry() && view.defs == old(view.defs)
      ensures view.s == old(view.s)
      ensures var owed := def.key in Initializers(order) && def.key !in old(view.done);
        && err == (if owed && def.key in fails then Some(InitFailed(def.key)) else None)
        && view.calls == (if owed then old(view.calls) + [def.key] else old(view.calls))
        && view.done == (if owed && def.key !in fails then old(view.done) + {def.key} else old(view.done))
    {
      FlagFacts(def);
      assert Represents(def, view);
      if !def.initializer || def.onInitDone { return None; }
      if def.key in fails {
        view := view.(calls := view.calls + [def.key]);
        return Some(InitFailed(def.key));
      }
      view := view.(calls := view.calls + [def.key]);
      MarkDone(def);
      return None;
    }

    method MarkDone(def: BeanDefinition)
      requires Valid() && def in order
      modifies this`view, def`onInitDone
      ensures Valid() && view == old(view).(done := old(view).done + {def.key})
    {
      assert Represents(def, view);
      def.onInitDone := true;
      view := view.(done := view.done + {def.key});
      forall i | 0 <= i < |order| ensures Represents(order[i], view) {
        assert old(Represents(order[i], view));
      }
    }

    /** `fails` are the beans whose OnInit returns an error this time. */
    method Start(fails: set<Key>) returns (err: Option<Error>)
      requires Valid()
      requires view.s.marks == {}
      modifies this, order
      ensures Valid() && SameRegistry() && view.defs == old(view.defs)
      ensures closed ==> err == Some(ContainerClosed) && view == old(view)
      ensures forall k :: k in Keys(order) ==> k in view.defs
      ensures !closed ==>
        (Life(), err) == Ioc.Start(view.defs, Initializers(order), fails, Keys(order), old(Life()))
    {
      OrderFacts();
      if closed { return Some(ContainerClosed); }
      ghost var keys, inits, defs := Keys(order), Initializers(order), view.defs;
      for i := 0 to |order|
        invariant Valid() && SameRegistry() && view.s.marks == {} && view.defs == defs
        invariant Ioc.Start(defs, inits, fails, keys, old(Life())) == Ioc.Start(defs, inits, fails, keys[i..], Life())
      {
        assert keys[i..][0] == order[i].key && keys[i..][1..] == keys[i + 1..];
        var stop := StartBean(order[i], fails);
        if stop.Some? { return stop; }
      }
      return None;
    }

    /** What one more turn of Shutdown's loop adds. */
    lemma DisposeNext(index: nat)
      requires Valid() && index < |order|
      ensures var def, keys, made, disposers := order[index], Keys(order), view.s.made.Keys, Disposers(order);
        Reversed(Disposable(made, disposers, keys[index..]))
        == Reversed(Disposable(made, disposers, keys[index + 1..]))
           + if def.instance.None? || !def.disposer then [] else [def.key]
    {
      var def, keys := order[index], Keys(order);
      FlagFacts(def);
      assert Represents(def, view);
      assert keys[index..] == [def.key] + keys[index + 1..];
      ReversedDisposableCons(view.s.made.Keys, Disposers(order), def.key, keys[index + 1..]);
    }

    /** Calls OnDestroy in reverse registration order; `fails` are the beans whose OnDestroy
        returns an error.  `destroyed` are the calls made, `failed` those that failed. */
    method Shutdown(fails: set<Key>) returns (destroyed: seq<Key>, failed: seq<Key>)
      requires Valid()
      modifies this
      ensures Valid() && closed
      ensures beans == old(beans) && order == old(order) && view == old(view)
      ensures old(closed) ==> destroyed == [] && failed == []
      ensures !old(closed) ==>
        destroyed == Reversed(Disposable(view.s.made.Keys, Disposers(order), Keys(order)))
      ensures forall k :: k in failed <==> k in destroyed && k in fails
    {
      destroyed, failed := [], [];
      if closed { return; }
      closed := true;
      OrderFacts();
      ghost var keys, made, disposers := Keys(order), view.s.made.Keys, Disposers(order);
      var index := |order|;
      while index > 0
        modifies {}
        invariant 0 <= index <= |order| == |keys|
        invariant destroyed == Reversed(Disposable(made, disposers, keys[index..]))
        invariant forall k :: k in failed <==> k in destroyed && k in fails
      {
        index := index - 1;
        var def := order[index];
        DisposeNext(index);
        if def.instance.None? || !def.disposer { continue; }
        destroyed := destroyed + [def.key];
        if def.key in fails { failed := failed + [def.key]; }
      }
    }
  }
}
