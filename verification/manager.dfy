/**
 The registry of channel pools (`ServiceManager`): the set of followed
 service names, one pool per followed service that has seen an online event,
 and the routing of discovery events to those pools.
 */
module Manager {
  import opened Wrappers
  import Channels

  datatype ServiceManager = ServiceManager(
    followed: set<string>,                              // names declared as of interest
    services: map<string, Channels.ServiceChannel>,     // service name -> its pool
    nextHandle: nat)                                    // id of the next channel object allocated

  /** The outcome of a selection by service name. */
  datatype Selection = Selection(handle: Option<Channels.Handle>, after: ServiceManager)

  /** The discovery and caller events the registry reacts to. `initOk` is
      whether the new channel for `host` initialises. */
  datatype Event =
    | Declare(name: string)
    | Online(instance: string, host: string, initOk: bool)
    | Offline(instance: string, host: string)
    | Pick(service: string)

  function NewServiceManager(): (m: ServiceManager)
    ensures |m.followed| == 0 && |m.services| == 0
  {
    ServiceManager({}, map[], 0)
  }

  // ------------------------------------------------------------ instance ids

  /** Position of the last occurrence of `ch` in `s`, if any. */
  function FindLastOf(s: string, ch: char): (pos: Option<nat>)
    ensures pos.None? <==> ch !in s
    ensures pos.Some? ==> pos.value < |s| && s[pos.value] == ch
    ensures pos.Some? ==> ch !in s[pos.value + 1..]
  {
    if |s| == 0 then None
    else if s[|s| - 1] == ch then Some(|s| - 1)
    else
      var pos := FindLastOf(s[..|s| - 1], ch);
      if pos.Some? then
        assert s[pos.value + 1..] == s[..|s| - 1][pos.value + 1..] + [s[|s| - 1]];
        pos
      else pos
  }

  /** The service name of an instance id `<name>/<suffix>`: everything before
      the last '/'. An id without '/' is its own service name. */
  function GetServiceName(instance: string): (name: string)
    ensures '/' !in instance ==> name == instance
    ensures '/' in instance ==> name < instance
    ensures '/' in instance ==> instance[|name|] == '/' && '/' !in instance[|name| + 1..]
  {
    match FindLastOf(instance, '/')
    case None => instance
    case Some(pos) => instance[..pos]
  }

  /** Parsing inverts the id format: a service name, even one that contains
      '/', is recovered from `name + "/" + suffix` whenever `suffix` has no '/'. */
  lemma ServiceNameOfInstance(name: string, suffix: string)
    requires '/' !in suffix
    ensures GetServiceName(name + "/" + suffix) == name
  {
    var instance := name + "/" + suffix;
    assert instance[|name|] == '/';
    var r := GetServiceName(instance);
    assert r == instance[..|r|];
  }

  // ------------------------------------------------------------ invariants

  /** Pools exist only for followed names, each pool is named after its key
      and keeps the pool invariant, and every handle in use was allocated
      before `nextHandle`. */
  predicate Valid(m: ServiceManager) {
    && m.services.Keys <= m.followed
    && (forall name :: name in m.services ==>
          m.services[name].serviceName == name && Channels.Valid(m.services[name]))
    && (forall name, i :: name in m.services && 0 <= i < |m.services[name].channels| ==>
          m.services[name].channels[i].id < m.nextHandle)
  }

  /** Every pool holds the same handles in its rotation and its host map. */
  predicate Consistent(m: ServiceManager) {
    && Valid(m)
    && forall name :: name in m.services ==> Channels.Consistent(m.services[name])
  }

  /** The pool an online event for `name` appends to: the existing one, or a
      new empty one. */
  function PoolFor(m: ServiceManager, name: string): (c: Channels.ServiceChannel)
    ensures name !in m.services ==> c.serviceName == name && |c.channels| == 0 && |c.hosts| == 0
    ensures name in m.services ==> c == m.services[name]
  {
    if name in m.services then m.services[name] else Channels.NewServiceChannel(name)
  }

  // ------------------------------------------------------------ operations

  /** Declares interest in `name`; nothing else changes. */
  function Declared(m: ServiceManager, name: string): (m': ServiceManager)
    ensures name in m'.followed && m.followed <= m'.followed
    ensures forall n :: n in m'.followed && n != name ==> n in m.followed
    ensures m'.services == m.services && m'.nextHandle == m.nextHandle
  {
    m.(followed := m.followed + {name})
  }

  /** An instance came online. Unfollowed services are ignored. For a
      followed service the pool is fetched or created, a channel object is
      allocated, and the pool appends it for `host`; no other pool changes. */
  function OnServiceOnline(m: ServiceManager, instance: string, host: string, initOk: bool): (m': ServiceManager)
    ensures GetServiceName(instance) !in m.followed ==> m' == m
    ensures m'.followed == m.followed
    ensures GetServiceName(instance) in m.followed ==>
              && m'.services.Keys == m.services.Keys + {GetServiceName(instance)}
              && m'.services[GetServiceName(instance)]
                   == Channels.Append(PoolFor(m, GetServiceName(instance)), host, Channels.Handle(m.nextHandle), initOk)
              && m'.nextHandle == m.nextHandle + 1
    ensures forall k :: k in m.services && k != GetServiceName(instance) ==>
              k in m'.services && m'.services[k] == m.services[k]
  {
    var name := GetServiceName(instance);
    if name !in m.followed then m
    else
      var pool := PoolFor(m, name);
      var pool' := Channels.Append(pool, host, Channels.Handle(m.nextHandle), initOk);
      m.(services := m.services[name := pool'], nextHandle := m.nextHandle + 1)
  }

  /** An instance went offline. Unfollowed services and followed services
      with no pool are ignored; otherwise the pool removes `host` and no
      other pool changes. */
  function OnServiceOffline(m: ServiceManager, instance: string, host: string): (m': ServiceManager)
    ensures GetServiceName(instance) !in m.services ==> m' == m
    ensures GetServiceName(instance) !in m.followed ==> m' == m
    ensures m'.followed == m.followed && m'.services.Keys == m.services.Keys
    ensures m'.nextHandle == m.nextHandle
    ensures GetServiceName(instance) in m.followed && GetServiceName(instance) in m.services ==>
              m'.services[GetServiceName(instance)]
                == Channels.Remove(m.services[GetServiceName(instance)], host)
    ensures forall k :: k in m.services && k != GetServiceName(instance) ==>
              m'.services[k] == m.services[k]
  {
    var name := GetServiceName(instance);
    if name !in m.followed then m
    else if name !in m.services then m
    else m.(services := m.services[name := Channels.Remove(m.services[name], host)])
  }

  /** Selection by service name: none when the service has no pool,
      otherwise the pool's round-robin pick, advancing only that pool. */
  function Choose(m: ServiceManager, name: string): (s: Selection)
    ensures name !in m.services ==> s.handle.None? && s.after == m
    ensures s.handle.Some? ==> name in m.services && s.handle.value in m.services[name].channels
    ensures name in m.services ==>
              && s.handle == Channels.Choose(m.services[name]).handle
              && name in s.after.services
              && s.after.services[name] == Channels.Choose(m.services[name]).after
    ensures s.after.followed == m.followed && s.after.services.Keys == m.services.Keys
    ensures s.after.nextHandle == m.nextHandle
    ensures forall k :: k in m.services && k != name ==> s.after.services[k] == m.services[k]
  {
    if name !in m.services then Selection(None, m)
    else
      var p := Channels.Choose(m.services[name]);
      Selection(p.handle, m.(services := m.services[name := p.after]))
  }

  function Step(m: ServiceManager, e: Event): ServiceManager {
    match e
    case Declare(name) => Declared(m, name)
    case Online(instance, host, initOk) => OnServiceOnline(m, instance, host, initOk)
    case Offline(instance, host) => OnServiceOffline(m, instance, host)
    case Pick(service) => Choose(m, service).after
  }

  /** The registry after the events `es`, in order. */
  function Replay(m: ServiceManager, es: seq<Event>): ServiceManager
    decreases |es|
  {
    if |es| == 0 then m else Replay(Step(m, es[0]), es[1..])
  }

  // ------------------------------------------------------------ lemmas

  /** Declaring the same name twice is the same as declaring it once. */
  lemma DeclaredIdempotent(m: ServiceManager, name: string)
    ensures Declared(Declared(m, name), name) == Declared(m, name)
  {
  }

  /** Replacing one followed service's pool by a valid pool whose handles
      were all allocated keeps the registry valid. */
  lemma UpdatePoolPreservesValid(m: ServiceManager, name: string, pool: Channels.ServiceChannel, next: nat)
    requires Valid(m)
    requires name in m.followed && pool.serviceName == name && Channels.Valid(pool)
    requires m.nextHandle <= next
    requires forall i :: 0 <= i < |pool.channels| ==> pool.channels[i].id < next
    ensures Valid(m.(services := m.services[name := pool], nextHandle := next))
  {
    var m' := m.(services := m.services[name := pool], nextHandle := next);
    forall n, i | n in m'.services && 0 <= i < |m'.services[n].channels|
      ensures m'.services[n].channels[i].id < m'.nextHandle
    {
      if n != name {
        assert m'.services[n] == m.services[n];
      }
    }
  }

  /** The handle allocated next is in no pool. */
  lemma NextHandleUnused(m: ServiceManager, name: string)
    requires Valid(m)
    ensures Channels.Handle(m.nextHandle) !in PoolFor(m, name).channels
  {
    var pool := PoolFor(m, name);
    if name in m.services {
      forall i | 0 <= i < |pool.channels| ensures pool.channels[i].id < m.nextHandle {}
    }
  }

  /** The pool an online event appends to, once the append is done, holds
      only handles allocated up to and including `m.nextHandle`. */
  lemma AppendAllocated(m: ServiceManager, name: string, host: string, initOk: bool)
    requires Valid(m)
    ensures var pool' := Channels.Append(PoolFor(m, name), host, Channels.Handle(m.nextHandle), initOk);
            forall i :: 0 <= i < |pool'.channels| ==> pool'.channels[i].id < m.nextHandle + 1
  {
    var pool := PoolFor(m, name);
    var pool' := Channels.Append(pool, host, Channels.Handle(m.nextHandle), initOk);
    forall i | 0 <= i < |pool'.channels| ensures pool'.channels[i].id < m.nextHandle + 1 {
      if i < |pool.channels| {
        assert pool'.channels[i] == pool.channels[i];
        if name in m.services {
          assert pool.channels[i].id < m.nextHandle;
        }
      }
    }
  }

  /** The state an online event for a followed service produces: an
      unfolding helper that keeps the two preservation proofs below from
      re-deriving the event's body each time. */
  lemma OnlineFollowed(m: ServiceManager, instance: string, host: string, initOk: bool)
    requires GetServiceName(instance) in m.followed
    ensures var name := GetServiceName(instance);
            OnServiceOnline(m, instance, host, initOk)
              == m.(services := m.services[name := Channels.Append(PoolFor(m, name), host, Channels.Handle(m.nextHandle), initOk)],
                    nextHandle := m.nextHandle + 1)
  {
  }

  lemma OnlinePreservesValid(m: ServiceManager, instance: string, host: string, initOk: bool)
    requires Valid(m)
    ensures Valid(OnServiceOnline(m, instance, host, initOk))
  {
    var name := GetServiceName(instance);
    if name in m.followed {
      var pool := PoolFor(m, name);
      var handle := Channels.Handle(m.nextHandle);
      NextHandleUnused(m, name);
      Channels.AppendPreservesValid(pool, host, handle, initOk);
      AppendAllocated(m, name, host, initOk);
      UpdatePoolPreservesValid(m, name, Channels.Append(pool, host, handle, initOk), m.nextHandle + 1);
      OnlineFollowed(m, instance, host, initOk);
    }
  }

  lemma OfflinePreservesValid(m: ServiceManager, instance: string, host: string)
    requires Valid(m)
    ensures Valid(OnServiceOffline(m, instance, host))
  {
    var name := GetServiceName(instance);
    if name in m.followed && name in m.services {
      var pool := m.services[name];
      Channels.RemovePreservesValid(pool, host);
      var pool' := Channels.Remove(pool, host);
      forall i | 0 <= i < |pool'.channels| ensures pool'.channels[i].id < m.nextHandle {
        assert pool'.channels[i] in multiset(pool.channels);
      }
      UpdatePoolPreservesValid(m, name, pool', m.nextHandle);
    }
  }

  lemma StepPreservesValid(m: ServiceManager, e: Event)
    requires Valid(m)
    ensures Valid(Step(m, e))
  {
    match e
    case Declare(name) =>
    case Online(instance, host, initOk) => OnlinePreservesValid(m, instance, host, initOk);
    case Offline(instance, host) => OfflinePreservesValid(m, instance, host);
    case Pick(service) =>
  }

  /** Every history of events keeps the registry valid. */
  lemma {:induction false} ReplayPreservesValid(m: ServiceManager, es: seq<Event>)
    requires Valid(m)
    ensures Valid(Replay(m, es))
    decreases |es|
  {
    if |es| > 0 {
      StepPreservesValid(m, es[0]);
      ReplayPreservesValid(Step(m, es[0]), es[1..]);
    }
  }

  /** Followed names and pools are never dropped by any history of events. */
  lemma {:induction false} ReplayNeverShrinks(m: ServiceManager, es: seq<Event>)
    ensures m.followed <= Replay(m, es).followed
    ensures m.services.Keys <= Replay(m, es).services.Keys
    decreases |es|
  {
    if |es| > 0 {
      ReplayNeverShrinks(Step(m, es[0]), es[1..]);
    }
  }

  /** A pool exists after a history only if it existed before or some online
      event of that history named its service. */
  lemma {:induction false} PoolOnlyAfterOnline(m: ServiceManager, es: seq<Event>, name: string)
    requires name in Replay(m, es).services
    ensures name in m.services
            || exists i :: 0 <= i < |es| && es[i].Online? && GetServiceName(es[i].instance) == name
    decreases |es|
  {
    if |es| > 0 && name !in m.services {
      var m1 := Step(m, es[0]);
      PoolOnlyAfterOnline(m1, es[1..], name);
      if name in m1.services {
        assert es[0].Online? && GetServiceName(es[0].instance) == name;
      } else {
        var i :| 0 <= i < |es[1..]| && es[1..][i].Online? && GetServiceName(es[1..][i].instance) == name;
        assert es[i + 1] == es[1..][i];
      }
    }
  }

  /** An online event of a host the pool has not mapped yet keeps every pool
      consistent. */
  lemma OnlinePreservesConsistent(m: ServiceManager, instance: string, host: string, initOk: bool)
    requires Consistent(m)
    requires GetServiceName(instance) in m.services ==> host !in m.services[GetServiceName(instance)].hosts
    ensures Consistent(OnServiceOnline(m, instance, host, initOk))
  {
    OnlinePreservesValid(m, instance, host, initOk);
    var name := GetServiceName(instance);
    if name in m.followed {
      var pool := PoolFor(m, name);
      var handle := Channels.Handle(m.nextHandle);
      NextHandleUnused(m, name);
      Channels.AppendPreservesConsistent(pool, host, handle, initOk);
      OnlineFollowed(m, instance, host, initOk);
    }
  }

  lemma OfflinePreservesConsistent(m: ServiceManager, instance: string, host: string)
    requires Consistent(m)
    ensures Consistent(OnServiceOffline(m, instance, host))
  {
    OfflinePreservesValid(m, instance, host);
    var name := GetServiceName(instance);
    if name in m.followed && name in m.services {
      Channels.RemovePreservesConsistent(m.services[name], host);
    }
  }

  /** In a consistent registry a handle handed out for `name` is the channel
      of some host of that service. */
  lemma ChooseReturnsMappedHandle(m: ServiceManager, name: string)
    requires Consistent(m)
    ensures Choose(m, name).handle.Some? ==>
              exists host :: host in m.services[name].hosts
                             && m.services[name].hosts[host] == Choose(m, name).handle.value
  {
    if name in m.services {
      Channels.ChooseReturnsMappedHandle(m.services[name]);
    }
  }
}
