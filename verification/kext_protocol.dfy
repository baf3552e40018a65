/**
 The life of the kernel extension objects, without the data structure that holds them.

 A state says which objects exist, which of them the bundle identifiers lead to, and which handles
 callers hold. The events are the calls of kernel_kext and kext_release; what the operating system
 answers is part of the event, so that the load information may change arbitrarily between calls.
 */
module KextProtocol {
  import opened Common

  datatype LoadInfo = LoadInfo(base: Word, uuid: seq<Byte>, version: Word)

  datatype Entry = Entry(bundleId: Name, info: LoadInfo, refcount: nat, outdated: bool)

  datatype State<!K(==)> = State(entries: map<K, Entry>, cached: map<Name, K>, handles: multiset<K>,
                                 freed: set<K>)

  /** Get: `info` is the current load information, if the extension is loaded, and `loaded` the new
      object, if one could be made. */
  datatype Event<K> = Get(id: Name, info: Option<LoadInfo>, loaded: Option<K>) | Release(k: K)

  /** A new object really is new, and only held handles are released. */
  predicate Enabled<K(==)>(s: State<K>, e: Event<K>) {
    match e
    case Get(_, _, loaded) =>
      loaded.Some? ==> loaded.value !in s.entries && loaded.value !in s.freed
    case Release(k) => k in s.handles && k in s.entries && s.entries[k].refcount >= 1
  }

  /** The cached object for the identifier, if it still is what is loaded. */
  predicate IsCurrent<K(==)>(s: State<K>, id: Name, info: LoadInfo) {
    id in s.cached && s.cached[id] in s.entries && s.entries[s.cached[id]].info == info
  }

  /** Takes the object out of the cache, and destroys it if nobody holds it. */
  function Evict<K(==)>(s: State<K>, id: Name): State<K> {
    if id !in s.cached || s.cached[id] !in s.entries then
      s
    else
      var k := s.cached[id];
      var s' := s.(cached := s.cached - {id});
      if s.entries[k].refcount == 0 then
        s'.(entries := s.entries - {k}, freed := s.freed + {k})
      else
        s'.(entries := s.entries[k := s.entries[k].(outdated := true)])
  }

  /** One more handle to an existing object. */
  function Retain<K(==)>(s: State<K>, k: K): State<K>
    requires k in s.entries
  {
    var entry := s.entries[k];
    s.(entries := s.entries[k := entry.(refcount := entry.refcount + 1)],
       handles := s.handles + multiset{k})
  }

  /** A new object in the cache, held once. */
  function Install<K(==)>(s: State<K>, id: Name, info: LoadInfo, k: K): State<K> {
    s.(entries := s.entries[k := Entry(id, info, 1, false)],
       cached := s.cached[id := k],
       handles := s.handles + multiset{k})
  }

  /** One handle less; the object is destroyed if it was the last and the object is outdated. */
  function Drop<K(==)>(s: State<K>, k: K): State<K>
    requires k in s.entries && s.entries[k].refcount >= 1
  {
    var entry := s.entries[k];
    var s' := s.(handles := s.handles - multiset{k});
    if entry.refcount == 1 && entry.outdated then
      s'.(entries := s.entries - {k}, freed := s.freed + {k})
    else
      s'.(entries := s.entries[k := entry.(refcount := entry.refcount - 1)])
  }

  function Step<K(==)>(s: State<K>, e: Event<K>): State<K>
    requires Enabled(s, e)
  {
    match e
    case Get(id, info, loaded) =>
      if info.None? then s
      else if IsCurrent(s, id, info.value) then Retain(s, s.cached[id])
      else if loaded.None? then Evict(s, id)
      else Install(Evict(s, id), id, info.value, loaded.value)
    case Release(k) => Drop(s, k)
  }

  /** The object a call returns. */
  function Returned<K(==)>(s: State<K>, e: Event<K>): Option<K> {
    if e.Release? || e.info.None? then None
    else if IsCurrent(s, e.id, e.info.value) then Some(s.cached[e.id])
    else e.loaded
  }

  // ---- What every step keeps --------------------------------------------------------------------

  /** The reference count counts the handles. An outdated object is held by someone and is not in
      the cache; any other object is in the cache under its identifier. */
  ghost predicate EntryOk<K>(s: State<K>, k: K)
    requires k in s.entries
  {
    var entry := s.entries[k];
    && entry.refcount == s.handles[k]
    && (entry.outdated ==> entry.refcount >= 1)
    && (entry.outdated <==> !(entry.bundleId in s.cached && s.cached[entry.bundleId] == k))
  }

  ghost predicate Inv<K>(s: State<K>) {
    && (forall k <- s.entries :: EntryOk(s, k))
    // The cache leads to existing objects that carry the identifier.
    && (forall id <- s.cached :: s.cached[id] in s.entries && s.entries[s.cached[id]].bundleId == id)
    // Nobody holds a destroyed object.
    && (forall k <- s.handles :: k in s.entries)
    && s.entries.Keys !! s.freed
  }

  function Initial<K(==)>(): State<K> {
    State(map[], map[], multiset{}, {})
  }

  lemma EvictKeepsInv<K>(s: State<K>, id: Name)
    requires Inv(s)
    ensures Inv(Evict(s, id)) && id !in Evict(s, id).cached
    ensures Evict(s, id).entries.Keys <= s.entries.Keys
    ensures Evict(s, id).entries.Keys + Evict(s, id).freed == s.entries.Keys + s.freed
  {
    var s' := Evict(s, id);
    EvictEffect(s, id);
    if id in s.cached {
      assert EntryOk(s, s.cached[id]);
    }
    forall j <- s'.entries ensures EntryOk(s', j) {
      assert EntryOk(s, j);
    }
  }

  lemma RetainKeepsInv<K>(s: State<K>, k: K)
    requires Inv(s) && k in s.entries
    ensures Inv(Retain(s, k))
  {
    var s' := Retain(s, k);
    forall j <- s'.entries ensures EntryOk(s', j) {
      assert EntryOk(s, j);
    }
  }

  lemma InstallKeepsInv<K>(s: State<K>, id: Name, info: LoadInfo, k: K)
    requires Inv(s) && id !in s.cached && k !in s.entries && k !in s.freed
    ensures Inv(Install(s, id, info, k))
  {
    var s' := Install(s, id, info, k);
    forall j <- s'.entries ensures EntryOk(s', j) {
      assert j != k ==> EntryOk(s, j);
    }
  }

  lemma DropKeepsEntry<K>(s: State<K>, k: K, j: K)
    requires k in s.entries && s.entries[k].refcount >= 1 && EntryOk(s, k)
    ensures j in Drop(s, k).entries ==> j in s.entries && (EntryOk(s, j) ==> EntryOk(Drop(s, k), j))
  {
  }

  lemma DropKeepsCache<K>(s: State<K>, k: K)
    requires Inv(s) && k in s.entries && s.entries[k].refcount >= 1
    ensures var s' := Drop(s, k);
            && (forall id <- s'.cached :: s'.cached[id] in s'.entries && s'.entries[s'.cached[id]].bundleId == id)
            && (forall j <- s'.handles :: j in s'.entries)
            && s'.entries.Keys !! s'.freed
  {
    assert EntryOk(s, k);
  }

  lemma DropKeepsInv<K>(s: State<K>, k: K)
    requires Inv(s) && k in s.entries && s.entries[k].refcount >= 1
    ensures Inv(Drop(s, k))
  {
    hide Drop, EntryOk;
    assert EntryOk(s, k);
    forall j <- Drop(s, k).entries ensures EntryOk(Drop(s, k), j) {
      DropKeepsEntry(s, k, j);
      assert EntryOk(s, j);
    }
    DropKeepsCache(s, k);
  }

  lemma StepKeepsInv<K>(s: State<K>, e: Event<K>)
    requires Inv(s) && Enabled(s, e)
    ensures Inv(Step(s, e))
  {
    hide Inv, Retain, Install, Drop;
    match e
    case Get(id, info, loaded) =>
      if info.Some? {
        if IsCurrent(s, id, info.value) {
          RetainKeepsInv(s, s.cached[id]);
        } else {
          EvictKeepsInv(s, id);
          if loaded.Some? {
            InstallKeepsInv(Evict(s, id), id, info.value, loaded.value);
          }
        }
      }
    case Release(k) => DropKeepsInv(s, k);
  }

  /** Each event of the run can happen, and the run ends in s'. */
  ghost predicate IsRun<K>(s: State<K>, es: seq<Event<K>>, s': State<K>)
    decreases es
  {
    if es == [] then s' == s
    else Enabled(s, es[0]) && IsRun(Step(s, es[0]), es[1..], s')
  }

  /** Over any run from the start, whatever the load information does. */
  lemma {:induction false} RunKeepsInv<K>(s: State<K>, es: seq<Event<K>>, s': State<K>)
    requires Inv(s) && IsRun(s, es, s')
    ensures Inv(s')
    decreases es
  {
    if es != [] {
      StepKeepsInv(s, es[0]);
      RunKeepsInv(Step(s, es[0]), es[1..], s');
    }
  }

  /** A returned object exists, has the identifier and matches the load information of the call. */
  lemma ReturnedMatches<K>(s: State<K>, e: Event<K>)
    requires Inv(s) && Enabled(s, e) && Returned(s, e).Some?
    ensures var k, s' := Returned(s, e).value, Step(s, e);
            && k in s'.handles && k in s'.entries && k !in s'.freed
            && s'.entries[k].bundleId == e.id && s'.entries[k].info == e.info.value
            && !s'.entries[k].outdated && e.id in s'.cached && s'.cached[e.id] == k
  {
    StepKeepsInv(s, e);
  }

  /** An extension that is as it was when its object was made is given that object, held or not: the object has
      one more reference, and nothing else changes. */
  lemma CurrentObjectIsShared<K>(s: State<K>, id: Name, info: LoadInfo, loaded: Option<K>)
    requires Inv(s) && Enabled(s, Get(id, Some(info), loaded))
    requires id in s.cached && s.entries[s.cached[id]].info == info
    ensures var e, k := Get(id, Some(info), loaded), s.cached[id];
            && Returned(s, e) == Some(k)
            && Step(s, e).entries == s.entries[k := s.entries[k].(refcount := s.entries[k].refcount + 1)]
            && Step(s, e).cached == s.cached && Step(s, e).freed == s.freed
            && Step(s, e).handles == s.handles + multiset{k}
  {
  }

  /** Any other extension is given a new object, if one could be made, and its old one leaves the cache: it is
      marked as outdated while somebody holds it, and destroyed otherwise. No other object changes. */
  lemma OtherObjectIsReplaced<K>(s: State<K>, id: Name, info: LoadInfo, loaded: Option<K>)
    requires Inv(s) && Enabled(s, Get(id, Some(info), loaded))
    requires id in s.cached ==> s.entries[s.cached[id]].info != info
    ensures var e := Get(id, Some(info), loaded);
            var s' := Step(s, e);
            && Returned(s, e) == loaded
            && s'.cached == (if loaded.Some? then s.cached[id := loaded.value] else s.cached - {id})
            && s'.handles == s.handles + (if loaded.Some? then multiset{loaded.value} else multiset{})
            && (loaded.Some? ==>
                  loaded.value in s'.entries && s'.entries[loaded.value] == Entry(id, info, 1, false))
  {
    hide Evict, Inv;
    CacheLeads(s, id);
    EvictKeepsOthers(s, id);
  }

  lemma OtherObjectsFate<K>(s: State<K>, id: Name, info: LoadInfo, loaded: Option<K>, k: K)
    requires Inv(s) && Enabled(s, Get(id, Some(info), loaded)) && k in s.entries
    requires id in s.cached ==> s.entries[s.cached[id]].info != info
    ensures var s' := Step(s, Get(id, Some(info), loaded));
            if id in s.cached && s.cached[id] == k then
              && (k in s'.entries <==> s.handles[k] > 0) && (k in s'.freed <==> s.handles[k] == 0)
              && (k in s'.entries ==> s'.entries[k] == s.entries[k].(outdated := true))
            else
              k in s'.entries && s'.entries[k] == s.entries[k]
  {
    hide Evict, Inv;
    InvFacts(s, k);
    EvictedIsOutdated(s, id, k);
  }

  lemma CacheLeads<K>(s: State<K>, id: Name)
    requires Inv(s)
    ensures id in s.cached ==> s.cached[id] in s.entries
  {
  }

  lemma EvictKeepsOthers<K>(s: State<K>, id: Name)
    requires id in s.cached ==> s.cached[id] in s.entries
    ensures Evict(s, id).cached == s.cached - {id} && Evict(s, id).handles == s.handles
  {
  }

  lemma EvictedIsOutdated<K>(s: State<K>, id: Name, k: K)
    requires k in s.entries && k !in s.freed && (id in s.cached ==> s.cached[id] in s.entries)
    ensures var s' := Evict(s, id);
            if id in s.cached && s.cached[id] == k then
              && (k in s'.entries <==> s.entries[k].refcount > 0) && (k in s'.freed <==> s.entries[k].refcount == 0)
              && (k in s'.entries ==> s'.entries[k] == s.entries[k].(outdated := true))
            else
              k in s'.entries && s'.entries[k] == s.entries[k]
  {
  }

  /** A released object has one reference less, and nothing else changes, unless it is destroyed. */
  lemma ReleasedObjectHasOneLess<K>(s: State<K>, k: K)
    requires Inv(s) && Enabled(s, Release(k))
    ensures var s' := Step(s, Release(k));
            && s'.handles == s.handles - multiset{k} && s'.cached == s.cached
            && (k in s'.entries <==> s.handles[k] > 1 || !s.entries[k].outdated)
            && (k in s'.entries ==> s'.entries[k] == s.entries[k].(refcount := s.entries[k].refcount - 1))
            && (forall j <- s.entries :: j != k ==> j in s'.entries && s'.entries[j] == s.entries[j])
  {
    assert EntryOk(s, k);
  }

  /** The call takes the object out of the cache. */
  predicate Evicts<K(==)>(s: State<K>, e: Event<K>, k: K) {
    && e.Get? && e.info.Some? && !IsCurrent(s, e.id, e.info.value)
    && e.id in s.cached && s.cached[e.id] == k
  }

  /** An object is destroyed exactly when it is outdated, or becomes so, and is no longer held. */
  lemma DestroyedExactly<K>(s: State<K>, e: Event<K>, k: K)
    requires Inv(s) && Enabled(s, e) && k in s.entries
    ensures k in Step(s, e).freed <==> k !in Step(s, e).entries
    ensures k in Step(s, e).freed
            <==> (s.entries[k].outdated || Evicts(s, e, k)) && k !in Step(s, e).handles
  {
    hide Evict, Drop, Inv;
    InvFacts(s, k);
    match e
    case Get(id, info, loaded) => EvictFate(s, id, k);
    case Release(j) => InvFacts(s, j); DropFate(s, j, k);
  }

  lemma InvFacts<K>(s: State<K>, k: K)
    requires Inv(s) && (k in s.entries || k in s.handles)
    ensures k in s.entries && s.entries.Keys !! s.freed && s.entries[k].refcount == s.handles[k]
    ensures s.entries[k].outdated ==> s.entries[k].refcount >= 1
    ensures forall id <- s.cached :: s.cached[id] in s.entries
  {
    assert EntryOk(s, k);
  }

  lemma EvictFate<K>(s: State<K>, id: Name, k: K)
    requires k in s.entries && k !in s.freed && (id in s.cached ==> s.cached[id] in s.entries)
    ensures var s' := Evict(s, id);
            && (k in s'.freed <==> id in s.cached && s.cached[id] == k && s.entries[k].refcount == 0)
            && (k in s'.freed <==> k !in s'.entries)
            && (k in s'.entries ==> s'.entries[k].bundleId == s.entries[k].bundleId
                                    && s'.entries[k].info == s.entries[k].info)
            && s'.handles == s.handles
  {
  }

  lemma DropFate<K>(s: State<K>, j: K, k: K)
    requires j in s.entries && k in s.entries && k !in s.freed && s.entries[j].refcount >= 1
    ensures var s' := Drop(s, j);
            && (k in s'.freed <==> j == k && s.entries[k].refcount == 1 && s.entries[k].outdated)
            && (k in s'.freed <==> k !in s'.entries)
            && (k in s'.entries ==> s'.entries[k].bundleId == s.entries[k].bundleId
                                    && s'.entries[k].info == s.entries[k].info)
            && s'.handles == s.handles - multiset{j}
  {
  }

  /** Between a call that returned k and the release of that handle, k keeps its identity: nothing
      anybody else does destroys it or makes it another extension's object. */
  lemma {:induction false} HeldObjectSurvives<K>(s: State<K>, es: seq<Event<K>>, s': State<K>, k: K)
    requires Inv(s) && IsRun(s, es, s') && k in s.handles
    requires Releases(es, k) < s.handles[k]
    ensures k in s'.entries && k in s'.handles && k !in s'.freed
    ensures s'.entries[k].bundleId == s.entries[k].bundleId
    ensures s'.entries[k].info == s.entries[k].info
    decreases es
  {
    RunKeepsInv(s, es, s');
    if es != [] {
      StepKeepsInv(s, es[0]);
      StepKeepsHeld(s, es[0], k);
      HeldObjectSurvives(Step(s, es[0]), es[1..], s', k);
    }
  }

  lemma StepCountsHandles<K>(s: State<K>, e: Event<K>, k: K)
    requires Inv(s) && Enabled(s, e)
    ensures Step(s, e).handles[k] + (if e == Release(k) then 1 else 0)
            == s.handles[k] + (if Returned(s, e) == Some(k) then 1 else 0)
  {
    hide Evict, Drop, Inv;
    match e
    case Get(id, info, loaded) => EvictEffect(s, id);
    case Release(j) => DropEffect(s, j);
  }

  lemma StepKeepsHeld<K>(s: State<K>, e: Event<K>, k: K)
    requires Inv(s) && Enabled(s, e) && k in s.handles
    requires e == Release(k) ==> s.handles[k] >= 2
    ensures var s' := Step(s, e);
            && k in s'.entries && s'.entries[k].bundleId == s.entries[k].bundleId
            && s'.entries[k].info == s.entries[k].info
            && s'.handles[k] >= s.handles[k] - (if e == Release(k) then 1 else 0)
  {
    hide Step, Returned, Enabled, Inv;
    StepCountsHandles(s, e, k);
    StepKeepsIdentity(s, e, k);
  }

  lemma StepKeepsIdentity<K>(s: State<K>, e: Event<K>, k: K)
    requires Inv(s) && Enabled(s, e) && k in s.handles
    requires e == Release(k) ==> s.handles[k] >= 2
    ensures k in s.entries && k in Step(s, e).entries
    ensures Step(s, e).entries[k].bundleId == s.entries[k].bundleId
    ensures Step(s, e).entries[k].info == s.entries[k].info
  {
    hide Evict, Drop, Inv;
    InvFacts(s, k);
    match e
    case Get(id, info, loaded) => EvictFate(s, id, k);
    case Release(j) => InvFacts(s, j); DropFate(s, j, k);
  }

  /** How often the run releases k. */
  function Releases<K(==)>(es: seq<Event<K>>, k: K): nat {
    if es == [] then 0 else (if es[0] == Release(k) then 1 else 0) + Releases(es[1..], k)
  }

  /** How often the run hands out k. */
  function Gets<K(==)>(s: State<K>, es: seq<Event<K>>, k: K): nat
    decreases es
  {
    if es == [] || !Enabled(s, es[0]) then 0
    else (if Returned(s, es[0]) == Some(k) then 1 else 0) + Gets(Step(s, es[0]), es[1..], k)
  }

  /** Over any run, the reference count of an object that exists goes up once for every call that returned the
      object and down once for every release of it. */
  lemma {:induction false} CountsAreCalls<K>(s: State<K>, es: seq<Event<K>>, s': State<K>, k: K)
    requires Inv(s) && IsRun(s, es, s')
    ensures s'.handles[k] + Releases(es, k) == s.handles[k] + Gets(s, es, k)
    ensures k in s'.entries ==> s'.entries[k].refcount + Releases(es, k) == s.handles[k] + Gets(s, es, k)
    decreases es
  {
    hide Inv, Step, Enabled, Returned;
    RunKeepsInv(s, es, s');
    if k in s'.entries {
      InvFacts(s', k);
    }
    if es != [] {
      StepKeepsInv(s, es[0]);
      StepCountsHandles(s, es[0], k);
      CountsAreCalls(Step(s, es[0]), es[1..], s', k);
    }
  }

  /** Once every handle is released, nothing but the cache is left: no object is lost. */
  lemma NothingLeaks<K>(s: State<K>)
    requires Inv(s) && s.handles == multiset{}
    ensures s.entries.Keys == s.cached.Values
  {
    forall k <- s.entries ensures k in s.cached.Values {
      assert EntryOk(s, k);
      assert s.cached[s.entries[k].bundleId] == k;
    }
  }

  /** The object the call brings into being. */
  function Made<K(==)>(s: State<K>, e: Event<K>): set<K> {
    if e.Get? && e.info.Some? && !IsCurrent(s, e.id, e.info.value) && e.loaded.Some?
    then {e.loaded.value} else {}
  }

  /** Every object ever made exists or has been destroyed, and not both: none is destroyed twice. */
  lemma ObjectsAreConserved<K>(s: State<K>, e: Event<K>)
    requires Inv(s) && Enabled(s, e)
    ensures Step(s, e).entries.Keys + Step(s, e).freed == s.entries.Keys + s.freed + Made(s, e)
    ensures Step(s, e).entries.Keys !! Step(s, e).freed && s.freed <= Step(s, e).freed
  {
    hide Inv, Evict, Drop;
    StepKeepsInv(s, e);
    InvSeparates(Step(s, e));
    match e
    case Get(id, info, loaded) => EvictEffect(s, id);
    case Release(k) => DropEffect(s, k);
  }

  lemma InvSeparates<K>(s: State<K>)
    requires Inv(s)
    ensures s.entries.Keys !! s.freed
  {
  }

  lemma EvictEffect<K>(s: State<K>, id: Name)
    ensures var s' := Evict(s, id);
            && s'.entries.Keys + s'.freed == s.entries.Keys + s.freed && s.freed <= s'.freed
            && s'.handles == s.handles
  {
  }

  lemma DropEffect<K>(s: State<K>, k: K)
    requires k in s.entries && s.entries[k].refcount >= 1
    ensures var s' := Drop(s, k);
            && s'.entries.Keys + s'.freed == s.entries.Keys + s.freed && s.freed <= s'.freed
            && s'.handles == s.handles - multiset{k}
  {
  }
}
