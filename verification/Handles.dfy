/**
 Handles on JavaScript objects: `rtJSCProtected` protects an object, `rtJSCWeak` retains a weak reference and its
 context group, and `rtJSCContextPrivate` knows the protecting handles of its context and caches modules weakly.
 */
module Handles {
  import opened Common

  /** A global context and the group it belongs to. */
  datatype ContextRef = ContextRef(id: int, group: int)

  function At(m: map<int, int>, k: int): int {
    if k in m then m[k] else 0
  }

  class ContextPrivate {
    var protecteds: set<Protected>
    var moduleCache: map<string, Weak>

    constructor ()
      ensures protecteds == {} && moduleCache == map[]
    {
      protecteds, moduleCache := {}, map[];
    }
  }

  class Protected {
    var contextRef: Option<ContextRef>
    var obj: Option<int>
    var priv: ContextPrivate?

    /** On a context without a record the handle holds nothing. */
    constructor (contextRef: ContextRef, obj: int, priv: ContextPrivate?)
      ensures this.contextRef == (if priv != null then Some(contextRef) else None)
      ensures this.obj == (if priv != null then Some(obj) else None) && this.priv == priv
    {
      this.contextRef, this.obj, this.priv := Some(contextRef), Some(obj), priv;
      if priv == null {
        this.obj := None;
        this.contextRef := None;
      }
    }
  }

  /** Who destroys a weak handle: the program, or the module cache that holds it by `unique_ptr`. */
  datatype Owner = Program | Module(cache: ContextPrivate, path: string)

  class Weak {
    var groupRef: Option<int>
    var weakRef: Option<int>
    ghost var owner: Owner

    constructor (ghost owner: Owner)
      ensures groupRef == None && weakRef == None && this.owner == owner
    {
      groupRef, weakRef := None, None;
      this.owner := owner;
    }
  }

  /** JavaScriptCore's counters, `gPrivCtxCache`, and the handles that exist. */
  class Engine {
    /** What `JSValueProtect` and `JSValueUnprotect` count, by object. */
    var protects: map<int, int>
    /** What `JSWeakCreate`, `JSWeakRetain` and `JSWeakRelease` count, by weak reference. */
    var retains: map<int, int>
    /** What `JSContextGroupRetain` and `JSContextGroupRelease` count for the handles, by group. */
    var groups: map<int, int>
    /** What a weak reference refers to, until that is collected. */
    var targets: map<int, Option<int>>
    var nextWeak: int
    var privCtxCache: map<ContextRef, ContextPrivate>

    /** The object each weak reference was created for, and the references the collector has cleared. */
    ghost var origins: map<int, int>
    ghost var collected: set<int>

    /** The handles constructed and not destroyed. */
    ghost var handles: set<Protected>
    ghost var weaks: set<Weak>
    ghost var privs: set<ContextPrivate>
    /** Handles that `releaseAllProtected` has moved out of `m_protected` and not yet released. */
    ghost var detached: set<Protected>

    /** The unreleased protecting handles of an object. */
    ghost function Holders(o: int): set<Protected>
      reads `handles, handles`obj
    {
      set p | p in handles && p.obj == Some(o)
    }

    ghost function WeakHolders(r: int): set<Weak>
      reads `weaks, weaks`weakRef
    {
      set w | w in weaks && w.weakRef == Some(r)
    }

    ghost function GroupHolders(g: int): set<Weak>
      reads `weaks, weaks`groupRef
    {
      set w | w in weaks && w.groupRef == Some(g)
    }

    /** The weak handles the program destroys itself. */
    ghost function Programs(): set<Weak>
      reads `weaks, weaks`owner
    {
      set w | w in weaks && w.owner == Program
    }

    /** The module caches own exactly the weak handles made for them. */
    ghost predicate CachesOwn()
      reads `weaks, weaks`owner, `privs, privs`moduleCache
    {
      && (forall c :: c in privs ==> forall path :: path in c.moduleCache ==>
            c.moduleCache[path] in weaks && c.moduleCache[path].owner == Module(c, path))
      && (forall w :: w in weaks && w.owner.Module? ==> w.owner.cache in privs)
      && (forall w :: w in weaks && w.owner.Module? ==>
            w.owner.path in w.owner.cache.moduleCache && w.owner.cache.moduleCache[w.owner.path] == w)
    }

    /** A weak reference refers to the object it was created for, until the collector clears it. */
    ghost predicate Traced()
      reads `targets, `nextWeak, `origins, `collected
    {
      && targets.Keys == origins.Keys && collected <= targets.Keys
      && (forall r :: r in targets ==> r < nextWeak)
      && (forall r :: r in targets ==> targets[r] == if r in collected then None else Some(origins[r]))
    }

    /** `m_protected` holds exactly the unreleased handles of its context, but for those about to be released. */
    ghost predicate Listed()
      reads `handles, `detached, `privs, handles, privs`protecteds
    {
      && (forall p :: p in handles ==> (p.contextRef.Some? <==> p.obj.Some?))
      && (forall p :: p in handles && p.obj.Some? ==> p.priv in privs && (p in p.priv.protecteds || p in detached))
      && (forall c :: c in privs ==> forall p :: p in c.protecteds ==>
            p in handles && p !in detached && p.obj.Some? && p.priv == c)
      && (forall p :: p in detached ==> p in handles && p.obj.Some?)
    }

    /** An object is protected as often as there are unreleased handles on it. */
    ghost predicate ProtectsConserved()
      reads `protects, `handles, handles`obj
    {
      forall o :: At(protects, o) == |Holders(o)|
    }

    ghost predicate Guarded()
      reads `protects, `handles, `detached, `privs, handles, privs`protecteds
    {
      Listed() && ProtectsConserved()
    }

    /** A weak handle holds a group exactly if it holds a reference. */
    ghost predicate Paired()
      reads `targets, `nextWeak, `weaks, weaks`weakRef, weaks`groupRef
    {
      && (forall w :: w in weaks ==> (w.groupRef.Some? <==> w.weakRef.Some?))
      && (forall w :: w in weaks && w.weakRef.Some? ==> w.weakRef.value < nextWeak && w.weakRef.value in targets)
    }

    /** Weak references and groups are retained as often as there are handles that hold them. */
    ghost predicate RetainsConserved()
      reads `retains, `groups, `weaks, weaks`weakRef, weaks`groupRef
    {
      && (forall r :: At(retains, r) == |WeakHolders(r)|)
      && (forall g :: At(groups, g) == |GroupHolders(g)|)
    }

    ghost predicate Referenced()
      reads `retains, `groups, `targets, `nextWeak, `weaks, weaks`weakRef, weaks`groupRef
    {
      Paired() && RetainsConserved()
    }

    /** The handles that protect, those that refer weakly and the module caches, each kept by operations of its own. */
    ghost predicate Valid()
      reads this, handles, weaks, privs
    {
      privs == privCtxCache.Values && Guarded() && Referenced() && Traced() && CachesOwn()
    }

    constructor ()
      ensures Valid() && handles == {} && weaks == {} && privs == {} && detached == {}
      ensures privCtxCache == map[] && Programs() == {}
    {
      protects, retains, groups, targets, nextWeak := map[], map[], map[], map[], 0;
      privCtxCache := map[];
      origins, collected := map[], {};
      handles, weaks, detached, privs := {}, {}, {}, {};
      new;
      assert forall o :: Holders(o) == {};
      assert forall r :: WeakHolders(r) == {} && GroupHolders(r) == {};
    }

    // ----- JavaScriptCore -----

    method ValueProtect(o: int)
      modifies `protects
      ensures protects == old(protects)[o := At(old(protects), o) + 1]
    {
      protects := protects[o := At(protects, o) + 1];
    }

    method ValueUnprotect(o: int)
      requires At(protects, o) > 0
      modifies `protects
      ensures protects == old(protects)[o := At(old(protects), o) - 1]
    {
      protects := protects[o := protects[o] - 1];
    }

    static function One(b: bool): int { if b then 1 else 0 }

    method WeakCreate(o: int) returns (r: int)
      requires Traced() && At(retains, nextWeak) == 0
      modifies `retains, `targets, `nextWeak, `origins
      ensures r == old(nextWeak) && nextWeak == r + 1
      ensures Traced() && targets == old(targets)[r := Some(o)] && origins == old(origins)[r := o]
      ensures forall k :: At(retains, k) == At(old(retains), k) + One(k == r)
    {
      r := nextWeak;
      retains, targets, nextWeak := retains[r := 1], targets[r := Some(o)], nextWeak + 1;
      origins := origins[r := o];
    }

    method WeakRetain(r: int)
      requires At(retains, r) > 0
      modifies `retains
      ensures forall k :: At(retains, k) == At(old(retains), k) + One(k == r)
    {
      retains := retains[r := retains[r] + 1];
    }

    method WeakRelease(r: int)
      requires At(retains, r) > 0
      modifies `retains
      ensures forall k :: At(retains, k) == At(old(retains), k) - One(k == r)
    {
      retains := retains[r := retains[r] - 1];
    }

    method ContextGroupRetain(g: int)
      modifies `groups
      ensures forall k :: At(groups, k) == At(old(groups), k) + One(k == g)
    {
      groups := groups[g := At(groups, g) + 1];
    }

    method ContextGroupRelease(g: int)
      requires At(groups, g) > 0
      modifies `groups
      ensures forall k :: At(groups, k) == At(old(groups), k) - One(k == g)
    {
      groups := groups[g := groups[g] - 1];
    }

    // ----- rtJSCProtected -----

    lemma IsHolder(p: Protected)
      requires ProtectsConserved() && p in handles && p.obj.Some?
      ensures At(protects, p.obj.value) > 0
    {
      assert p in Holders(p.obj.value);
    }

    twostate lemma HoldersGain(new p: Protected)
      requires old(ProtectsConserved()) && p !in old(handles) && handles == old(handles) + {p}
      requires forall q :: q in old(handles) ==> q.obj == old(q.obj)
      requires forall o :: At(protects, o) == At(old(protects), o) + One(p.obj == Some(o))
      ensures ProtectsConserved()
    {
      forall o ensures At(protects, o) == |Holders(o)| {
        assert Holders(o) == old(Holders(o)) + if p.obj == Some(o) then {p} else {};
      }
    }

    twostate lemma HoldersLose(p: Protected)
      requires old(ProtectsConserved()) && p in old(handles) && p.obj == None
      requires handles <= old(handles) <= handles + {p}
      requires forall q :: q in old(handles) && q != p ==> q.obj == old(q.obj)
      requires forall o :: At(protects, o) == At(old(protects), o) - One(old(p.obj) == Some(o))
      ensures ProtectsConserved()
    {
      forall o ensures At(protects, o) == |Holders(o)| {
        assert Holders(o) == old(Holders(o)) - if old(p.obj) == Some(o) then {p} else {};
      }
    }

    /** The branch for a known context: protect the object, and list the handle. */
    method Enlist(p: Protected, obj: int)
      requires Guarded() && p !in handles && p.contextRef.Some? && p.obj == Some(obj) && p.priv in privs
      modifies `protects, `handles, privs`protecteds
      ensures Guarded() && handles == old(handles) + {p}
      ensures protects == old(protects)[obj := At(old(protects), obj) + 1]
    {
      hide ProtectsConserved;
      ValueProtect(obj);
      p.priv.protecteds := p.priv.protecteds + {p};
      handles := handles + {p};
      HoldersGain(p);
    }

    method AddUnlisted(p: Protected)
      requires Guarded() && p !in handles && p.contextRef == None && p.obj == None
      modifies `handles
      ensures Guarded() && handles == old(handles) + {p}
    {
      hide ProtectsConserved;
      handles := handles + {p};
      HoldersGain(p);
    }

    lemma InCache(context: ContextRef)
      requires Valid()
      ensures context in privCtxCache ==> privCtxCache[context] in privs
    {
    }

    method ConstructProtected(context: ContextRef, obj: int) returns (p: Protected)
      requires Valid()
      modifies `protects, `handles, privs`protecteds
      ensures Valid() && fresh(p) && handles == old(handles) + {p}
      ensures context in privCtxCache ==> p.obj == Some(obj) && p.priv == privCtxCache[context]
      ensures context in privCtxCache ==> protects == old(protects)[obj := At(old(protects), obj) + 1]
      ensures context !in privCtxCache ==> p.obj == None && protects == old(protects)
    {
      InCache(context);
      hide Guarded, Referenced, Traced, CachesOwn;
      var priv: ContextPrivate? := if context in privCtxCache then privCtxCache[context] else null;
      p := new Protected(context, obj, priv);
      assert Guarded() && Referenced() && Traced() && CachesOwn();
      if priv != null {
        Enlist(p, obj);
      } else {
        AddUnlisted(p);
      }
    }

    method ReleaseProtected(p: Protected)
      requires Guarded() && p in handles
      modifies `protects, `detached, p, privs`protecteds
      ensures Guarded() && p.obj == None && p.contextRef == None
      ensures p.priv == if old(p.obj) == None then old(p.priv) else null
      ensures detached == old(detached) - {p}
      ensures forall c :: c in privs ==> c.protecteds == old(c.protecteds) - {p}
      ensures protects == if old(p.obj) == None then old(protects)
        else old(protects)[old(p.obj).value := At(old(protects), old(p.obj).value) - 1]
    {
      hide ProtectsConserved;
      if p.contextRef.Some? && p.obj.Some? {
        var obj := p.obj.value;
        IsHolder(p);
        p.priv.protecteds := p.priv.protecteds - {p};
        ValueUnprotect(obj);
        p.obj := None;
        p.contextRef := None;
        p.priv := null;
        detached := detached - {p};
        HoldersLose(p);
      }
    }

    lemma NotListed(p: Protected)
      requires Guarded()
      ensures p.obj == None ==> forall c :: c in privs ==> p !in c.protecteds
    {
    }

    method Remove(p: Protected)
      requires Guarded() && p in handles && p.obj == None
      modifies `handles
      ensures Guarded() && handles == old(handles) - {p}
    {
      hide ProtectsConserved;
      handles := handles - {p};
      HoldersLose(p);
    }

    /** The destructor; it changes nothing if the handle was released before. */
    method DestroyProtected(p: Protected)
      requires Valid() && p in handles && detached == {}
      modifies `protects, `handles, `detached, p, privs`protecteds
      ensures Valid() && handles == old(handles) - {p} && detached == {}
      ensures old(p.obj) == None ==>
        protects == old(protects) && forall c :: c in privs ==> c.protecteds == old(c.protecteds)
      ensures old(p.obj).Some? ==>
        protects == old(protects)[old(p.obj).value := At(old(protects), old(p.obj).value) - 1]
    {
      NotListed(p);
      hide Guarded, Referenced, Traced, CachesOwn;
      ReleaseProtected(p);
      Remove(p);
    }

    // ----- rtJSCWeak -----

    lemma IsWeakHolder(w: Weak)
      requires Referenced() && w in weaks && w.weakRef.Some?
      ensures At(retains, w.weakRef.value) > 0 && w.groupRef.Some? && At(groups, w.groupRef.value) > 0
    {
      assert w in WeakHolders(w.weakRef.value) && w in GroupHolders(w.groupRef.value);
    }

    /** A handle that holds nothing comes or goes. */
    twostate lemma SameHolders()
      requires old(RetainsConserved()) && retains == old(retains) && groups == old(groups)
      requires forall w :: w in weaks && w !in old(weaks) ==> w.weakRef == None && w.groupRef == None
      requires forall w :: w in old(weaks) && w !in weaks ==> old(w.weakRef) == None && old(w.groupRef) == None
      requires forall w :: w in weaks && w in old(weaks) ==>
        w.weakRef == old(w.weakRef) && w.groupRef == old(w.groupRef)
      ensures RetainsConserved()
    {
      forall r ensures |WeakHolders(r)| == At(retains, r) && |GroupHolders(r)| == At(groups, r) {
        assert WeakHolders(r) == old(WeakHolders(r)) && GroupHolders(r) == old(GroupHolders(r));
      }
    }

    static lemma Swapped(was: set<Weak>, now: set<Weak>, w: Weak)
      requires was - {w} == now - {w}
      ensures |now| == |was| - One(w in was) + One(w in now)
    {
      assert was == was - {w} + if w in was then {w} else {};
      assert now == now - {w} + if w in now then {w} else {};
    }

    /** Nobody holds a weak reference that has yet to be created. */
    lemma NobodyHolds(r: int)
      requires Referenced() && r >= nextWeak
      ensures At(retains, r) == 0
    {
      assert WeakHolders(r) == {};
    }

    /** One handle changes what it holds. */
    twostate lemma HolderChanges(w: Weak)
      requires weaks == old(weaks) && w in weaks
      requires forall k :: k in weaks && k != w ==> k.weakRef == old(k.weakRef) && k.groupRef == old(k.groupRef)
      ensures forall r ::
        |WeakHolders(r)| == old(|WeakHolders(r)|) - One(old(w.weakRef) == Some(r)) + One(w.weakRef == Some(r))
      ensures forall g ::
        |GroupHolders(g)| == old(|GroupHolders(g)|) - One(old(w.groupRef) == Some(g)) + One(w.groupRef == Some(g))
    {
      forall r
        ensures |WeakHolders(r)| ==
          old(|WeakHolders(r)|) - One(old(w.weakRef) == Some(r)) + One(w.weakRef == Some(r))
      {
        Swapped(old(WeakHolders(r)), WeakHolders(r), w);
      }
      forall g
        ensures |GroupHolders(g)| ==
          old(|GroupHolders(g)|) - One(old(w.groupRef) == Some(g)) + One(w.groupRef == Some(g))
      {
        Swapped(old(GroupHolders(g)), GroupHolders(g), w);
      }
    }

    /** The counts follow a handle that changes what it holds. */
    twostate lemma CountsFollow(w: Weak)
      requires old(RetainsConserved()) && weaks == old(weaks) && w in weaks
      requires forall k :: k in weaks && k != w ==> k.weakRef == old(k.weakRef) && k.groupRef == old(k.groupRef)
      requires forall r ::
        At(retains, r) == At(old(retains), r) - One(old(w.weakRef) == Some(r)) + One(w.weakRef == Some(r))
      requires forall g ::
        At(groups, g) == At(old(groups), g) - One(old(w.groupRef) == Some(g)) + One(w.groupRef == Some(g))
      ensures RetainsConserved()
    {
      HolderChanges(w);
    }

    method Appear(w: Weak)
      requires Referenced() && CachesOwn() && w !in weaks && w.owner == Program
      requires w.weakRef == None && w.groupRef == None
      modifies `weaks
      ensures Referenced() && CachesOwn() && weaks == old(weaks) + {w} && Programs() == old(Programs()) + {w}
    {
      hide RetainsConserved;
      weaks := weaks + {w};
      SameHolders();
    }

    /** The default constructor. */
    method ConstructEmptyWeak() returns (w: Weak)
      requires Valid()
      modifies `weaks
      ensures Programs() == old(Programs()) + {w}
      ensures Valid() && fresh(w) && weaks == old(weaks) + {w}
      ensures w.weakRef == None && w.groupRef == None && w.owner == Program
    {
      hide Guarded, Referenced, Traced, CachesOwn, Programs;
      w := new Weak(Program);
      Appear(w);
    }

    /** The body of the constructor from an object, on a handle that holds nothing yet. */
    method Refer(w: Weak, context: ContextRef, obj: int)
      requires Referenced() && Traced() && w in weaks && w.weakRef == None && w.groupRef == None
      modifies `retains, `groups, `targets, `nextWeak, `origins, w`groupRef, w`weakRef
      ensures Referenced() && Traced() && w.weakRef == Some(old(nextWeak)) && w.groupRef == Some(context.group)
      ensures origins == old(origins)[old(nextWeak) := obj]
    {
      hide RetainsConserved, Traced;
      NobodyHolds(nextWeak);
      var r := WeakCreate(obj);
      w.groupRef := Some(context.group);
      w.weakRef := Some(r);
      ContextGroupRetain(context.group);
      CountsFollow(w);
    }

    method ConstructWeak(context: ContextRef, obj: int) returns (w: Weak)
      requires Valid()
      modifies `weaks, `retains, `groups, `targets, `nextWeak, `origins
      ensures Programs() == old(Programs()) + {w}
      ensures Valid() && fresh(w) && weaks == old(weaks) + {w}
      ensures w.weakRef == Some(old(nextWeak)) && w.groupRef == Some(context.group) && w.owner == Program
      ensures origins == old(origins)[old(nextWeak) := obj]
    {
      hide Guarded, Referenced, Traced, CachesOwn, Programs;
      w := ConstructEmptyWeak();
      Refer(w, context, obj);
    }

    method ReleaseBoth(w: Weak)
      requires Referenced() && w in weaks && w.groupRef.Some? && w.weakRef.Some?
      modifies `retains, `groups, w`groupRef, w`weakRef
      ensures Referenced() && w.weakRef == None && w.groupRef == None
    {
      IsWeakHolder(w);
      hide RetainsConserved;
      var r, g := w.weakRef.value, w.groupRef.value;
      WeakRelease(r);
      ContextGroupRelease(g);
      w.groupRef := None;
      w.weakRef := None;
      CountsFollow(w);
    }

    method ReleaseWeakRef(w: Weak)
      requires Referenced() && w in weaks
      modifies `retains, `groups, w`groupRef, w`weakRef
      ensures Referenced() && w.weakRef == None && w.groupRef == None
      ensures old(w.weakRef) == None ==> retains == old(retains) && groups == old(groups)
    {
      hide RetainsConserved;
      if w.groupRef.Some? && w.weakRef.Some? {
        ReleaseBoth(w);
      }
    }

    /** What copying shares: both references are retained once more. */
    method Share(w: Weak, other: Weak)
      requires Referenced() && w in weaks && other in weaks && w != other && w.weakRef == None
      modifies `retains, `groups, w`groupRef, w`weakRef
      ensures Referenced() && w.weakRef == other.weakRef && w.groupRef == other.groupRef
    {
      hide RetainsConserved;
      if other.weakRef.Some? {
        IsWeakHolder(other);
      }
      w.groupRef := other.groupRef;
      w.weakRef := other.weakRef;
      if w.groupRef.Some? && w.weakRef.Some? {
        var r, g := w.weakRef.value, w.groupRef.value;
        WeakRetain(r);
        ContextGroupRetain(g);
      }
      CountsFollow(w);
    }

    /** What moving takes: `std::exchange` of both references with null. */
    method Take(w: Weak, other: Weak)
      requires Referenced() && w in weaks && other in weaks && w != other && w.weakRef == None
      modifies w`groupRef, w`weakRef, other`groupRef, other`weakRef
      ensures Referenced() && w.weakRef == old(other.weakRef) && w.groupRef == old(other.groupRef)
      ensures other.weakRef == None && other.groupRef == None
    {
      hide WeakHolders, GroupHolders;
      w.groupRef, w.weakRef := other.groupRef, other.weakRef;
      HolderChanges(w);
      label Taken:
      other.groupRef, other.weakRef := None, None;
      HolderChanges@Taken(other);
    }

    method CopyConstructWeak(other: Weak) returns (w: Weak)
      requires Valid() && other in weaks
      modifies `weaks, `retains, `groups
      ensures Programs() == old(Programs()) + {w}
      ensures Valid() && fresh(w) && weaks == old(weaks) + {w} && w.owner == Program
      ensures w.weakRef == other.weakRef && w.groupRef == other.groupRef
    {
      hide Guarded, Referenced, Traced, CachesOwn, Programs;
      w := ConstructEmptyWeak();
      Share(w, other);
    }

    method MoveConstructWeak(other: Weak) returns (w: Weak)
      requires Valid() && other in weaks
      modifies `weaks, other`groupRef, other`weakRef
      ensures Programs() == old(Programs()) + {w}
      ensures Valid() && fresh(w) && weaks == old(weaks) + {w} && w.owner == Program
      ensures w.weakRef == old(other.weakRef) && w.groupRef == old(other.groupRef)
      ensures other.weakRef == None && other.groupRef == None
    {
      hide Guarded, Referenced, Traced, CachesOwn, Programs;
      w := ConstructEmptyWeak();
      Take(w, other);
    }

    /** Copy assignment, also from itself and from a handle on the same reference. */
    method CopyAssignWeak(w: Weak, other: Weak)
      requires Valid() && w in weaks && other in weaks
      modifies `retains, `groups, w`groupRef, w`weakRef
      ensures Valid() && w.weakRef == old(other.weakRef) && w.groupRef == old(other.groupRef)
      ensures w == other ==> retains == old(retains) && groups == old(groups)
    {
      hide Guarded, Referenced, Traced, CachesOwn;
      if w != other {
        ReleaseWeakRef(w);
        Share(w, other);
      }
    }

    /** Move assignment; moving a handle to itself keeps what it holds. */
    method MoveAssignWeak(w: Weak, other: Weak)
      requires Valid() && w in weaks && other in weaks
      modifies `retains, `groups, w`groupRef, w`weakRef, other`groupRef, other`weakRef
      ensures Valid() && w.weakRef == old(other.weakRef) && w.groupRef == old(other.groupRef)
      ensures w != other ==> other.weakRef == None && other.groupRef == None
      ensures w == other ==> retains == old(retains) && groups == old(groups)
    {
      hide Guarded, Referenced, Traced, CachesOwn;
      if w != other {
        ReleaseWeakRef(w);
        Take(w, other);
      }
    }

    method Vanish(w: Weak)
      requires Referenced() && CachesOwn() && w in weaks && w.owner == Program
      requires w.weakRef == None && w.groupRef == None
      modifies `weaks
      ensures Referenced() && CachesOwn() && weaks == old(weaks) - {w} && Programs() == old(Programs()) - {w}
    {
      hide RetainsConserved;
      weaks := weaks - {w};
      SameHolders();
    }

    method DestroyWeak(w: Weak)
      requires Valid() && w in weaks && w.owner == Program
      modifies `retains, `groups, `weaks, w`groupRef, w`weakRef
      ensures Programs() == old(Programs()) - {w}
      ensures Valid() && weaks == old(weaks) - {w}
      ensures old(w.weakRef) == None ==> retains == old(retains) && groups == old(groups)
    {
      hide Guarded, Referenced, Traced, CachesOwn, Programs;
      ReleaseWeakRef(w);
      Vanish(w);
    }

    /** The object is the one the handle's reference was created for; none if it holds none, or one collected. */
    method Wrapped(w: Weak) returns (obj: Option<int>)
      requires Valid() && w in weaks
      ensures obj == None <==> w.weakRef == None || w.weakRef.value in collected
      ensures obj.Some? ==> w.weakRef.Some? && w.weakRef.value in origins && obj.value == origins[w.weakRef.value]
    {
      obj := if w.weakRef.Some? then targets[w.weakRef.value] else None;
    }

    /** The handle's object has not been collected. */
    ghost predicate Refers(w: Weak)
      reads `collected, w
    {
      w.weakRef.Some? && w.weakRef.value !in collected
    }

    // ----- rtJSCContextPrivate -----

    static lemma ValuesWith(m: map<ContextRef, ContextPrivate>, id: ContextRef, c: ContextPrivate)
      requires id !in m
      ensures m[id := c].Values == m.Values + {c}
    {
      forall d | d in m.Values + {c} ensures d in m[id := c].Values {
        if d in m.Values {
          var k :| k in m && m[k] == d;
          assert m[id := c][k] == d;
        } else {
          assert m[id := c][id] == d;
        }
      }
    }

    /** `create` and `setInCtx`, for a context that has none yet. */
    method CreatePriv(id: ContextRef) returns (c: ContextPrivate)
      requires Valid() && id !in privCtxCache
      modifies `privs, `privCtxCache
      ensures Valid() && fresh(c) && privs == old(privs) + {c} && privCtxCache == old(privCtxCache)[id := c]
      ensures c.protecteds == {} && c.moduleCache == map[]
    {
      hide ProtectsConserved, Referenced;
      c := new ContextPrivate();
      privs := privs + {c};
      privCtxCache := privCtxCache[id := c];
      ValuesWith(old(privCtxCache), id, c);
    }

    lemma InWeaks(c: ContextPrivate, path: string)
      requires CachesOwn() && c in privs && path in c.moduleCache
      ensures c.moduleCache[path] in weaks
    {
    }

    method Disown(c: ContextPrivate, path: string, w: Weak)
      requires CachesOwn() && c in privs && path in c.moduleCache && c.moduleCache[path] == w
      modifies c`moduleCache, w`owner
      ensures Programs() == old(Programs()) + {w}
      ensures CachesOwn() && c.moduleCache == old(c.moduleCache) - {path} && w.owner == Program
    {
      c.moduleCache := c.moduleCache - {path};
      w.owner := Program;
    }

    /** Erases an entry of the module cache; the handle it owned is destroyed with it. */
    method EraseModule(c: ContextPrivate, path: string)
      requires Valid() && c in privs && path in c.moduleCache
      modifies `retains, `groups, `weaks, c`moduleCache, c.moduleCache[path]
      ensures Programs() == old(Programs())
      ensures Valid() && c.moduleCache == old(c.moduleCache) - {path}
      ensures weaks == old(weaks) - {old(c.moduleCache[path])}
    {
      InWeaks(c, path);
      hide Guarded, Referenced, Traced, CachesOwn, Programs;
      var w := c.moduleCache[path];
      Disown(c, path, w);
      DestroyWeak(w);
    }

    /** The cached module, if it has not been collected; a collected one is forgotten. */
    method FindModule(c: ContextPrivate, path: string) returns (obj: Option<int>)
      requires Valid() && c in privs
      modifies `retains, `groups, `weaks, c`moduleCache, if path in c.moduleCache then {c.moduleCache[path]} else {}
      ensures Programs() == old(Programs())
      ensures Valid()
      ensures path !in old(c.moduleCache) ==> obj == None
      ensures path in old(c.moduleCache) ==>
        var r := old(c.moduleCache[path].weakRef);
        && (obj == None <==> r == None || r.value in collected)
        && (obj.Some? ==> r.Some? && r.value in origins && obj.value == origins[r.value])
      ensures obj.Some? ==>
        c.moduleCache == old(c.moduleCache) && weaks == old(weaks) && retains == old(retains) && groups == old(groups)
      ensures obj == None ==> c.moduleCache == old(c.moduleCache) - {path}
      ensures obj == None ==>
        weaks == old(weaks) - if path in old(c.moduleCache) then {old(c.moduleCache[path])} else {}
    {
      obj := None;
      if path in c.moduleCache {
        obj := Wrapped(c.moduleCache[path]);
        if obj.Some? {
          return;
        }
        EraseModule(c, path);
      }
    }

    lemma CachedIsNot(c: ContextPrivate, path: string, w: Weak)
      requires CachesOwn() && c in privs && w.owner == Program
      ensures path in c.moduleCache ==> c.moduleCache[path] in weaks && c.moduleCache[path] != w
    {
    }

    /** What the path had is destroyed, if there was something. */
    method Discard(c: ContextPrivate, path: string, w: Weak)
      requires Valid() && c in privs && w in weaks && w.owner == Program
      modifies `retains, `groups, `weaks, c`moduleCache
      modifies if path in c.moduleCache then {c.moduleCache[path]} else {}
      ensures Programs() == old(Programs())
      ensures Valid() && c.moduleCache == old(c.moduleCache) - {path} && w in weaks
      ensures w.weakRef == old(w.weakRef) && w.groupRef == old(w.groupRef) && w.owner == Program
      ensures weaks == old(weaks) - if path in old(c.moduleCache) then {old(c.moduleCache[path])} else {}
    {
      CachedIsNot(c, path, w);
      hide Valid, Programs;
      if path in c.moduleCache {
        EraseModule(c, path);
      }
    }

    method Adopt(c: ContextPrivate, path: string, w: Weak)
      requires CachesOwn() && c in privs && path !in c.moduleCache && w in weaks && w.owner == Program
      modifies c`moduleCache, w`owner
      ensures Programs() == old(Programs()) - {w}
      ensures CachesOwn() && c.moduleCache == old(c.moduleCache)[path := w]
    {
      c.moduleCache := c.moduleCache[path := w];
      w.owner := Module(c, path);
    }

    /** The cached handle replaces what the path had. */
    method Store(c: ContextPrivate, path: string, w: Weak)
      requires Valid() && c in privs && w in weaks && w.owner == Program
      modifies `retains, `groups, `weaks, c`moduleCache, w`owner
      modifies if path in c.moduleCache then {c.moduleCache[path]} else {}
      ensures Programs() == old(Programs()) - {w}
      ensures Valid() && c.moduleCache == old(c.moduleCache)[path := w]
      ensures w.weakRef == old(w.weakRef) && w.groupRef == old(w.groupRef)
      ensures weaks == old(weaks) - if path in old(c.moduleCache) then {old(c.moduleCache[path])} else {}
    {
      hide Guarded, Referenced, Traced, CachesOwn, Programs;
      Discard(c, path, w);
      Adopt(c, path, w);
    }

    method AddToModuleCache(c: ContextPrivate, path: string, context: ContextRef, m: int)
      requires Valid() && c in privs
      modifies `retains, `groups, `targets, `nextWeak, `origins, `weaks, c`moduleCache
      modifies if path in c.moduleCache then {c.moduleCache[path]} else {}
      ensures Programs() == old(Programs())
      ensures Valid()
      ensures path in c.moduleCache && fresh(c.moduleCache[path])
      ensures c.moduleCache == old(c.moduleCache)[path := c.moduleCache[path]]
      ensures c.moduleCache[path].weakRef == Some(old(nextWeak)) && origins == old(origins)[old(nextWeak) := m]
      ensures weaks ==
        old(weaks) + {c.moduleCache[path]} - if path in old(c.moduleCache) then {old(c.moduleCache[path])} else {}
    {
      hide Guarded, Referenced, Traced, CachesOwn;
      var w := ConstructWeak(context, m);
      Store(c, path, w);
    }

    lemma DetachedIsLive(p: Protected)
      requires Guarded() && p in detached
      ensures p in handles
      ensures forall c :: c in privs ==> p !in c.protecteds
    {
    }

    method Detach(c: ContextPrivate)
      requires Guarded() && c in privs && detached == {}
      modifies `detached, c`protecteds
      ensures Guarded() && detached == old(c.protecteds) && c.protecteds == {}
    {
      hide ProtectsConserved;
      detached := c.protecteds;
      c.protecteds := {};
    }

    /** The loop over the set moved out of `m_protected`. */
    method ReleaseDetached(c: ContextPrivate)
      requires Guarded() && c in privs && detached == {}
      modifies `protects, `detached, c.protecteds, privs`protecteds
      ensures Guarded() && detached == {} && c.protecteds == {}
      ensures forall d :: d in privs && d != c ==> d.protecteds == old(d.protecteds)
      ensures forall p :: p in old(c.protecteds) ==> p.obj == None
    {
      hide Guarded;
      var protectedSet := c.protecteds;
      Detach(c);
      while protectedSet != {}
        invariant Guarded() && detached == protectedSet <= old(c.protecteds)
        invariant c.protecteds == {} && forall d :: d in privs && d != c ==> d.protecteds == old(d.protecteds)
        invariant forall p :: p in old(c.protecteds) && p !in protectedSet ==> p.obj == None
        decreases protectedSet
      {
        var p :| p in protectedSet;
        protectedSet := protectedSet - {p};
        DetachedIsLive(p);
        ReleaseProtected(p);
      }
    }

    /** `m_protected` is exactly the set of the handles that still hold an object of the context. */
    lemma ExactlyProtected(c: ContextPrivate)
      requires Listed() && detached == {} && c in privs
      ensures c.protecteds == (set p | p in handles && p.obj.Some? && p.priv == c)
    {
    }

    method ReleaseHandles(c: ContextPrivate)
      requires Valid() && c in privs && detached == {}
      modifies `protects, `detached, c.protecteds, privs`protecteds
      ensures Valid() && detached == {} && c.protecteds == {}
      ensures forall d :: d in privs && d != c ==> d.protecteds == old(d.protecteds)
      ensures forall p :: p in handles && old(p.priv) == c ==> p.obj == None
    {
      ExactlyProtected(c);
      hide Guarded, Referenced, Traced, CachesOwn;
      ReleaseDetached(c);
    }

    static lemma ValuesWithout(m: map<string, Weak>, path: string)
      requires path in m
      ensures m.Values == (m - {path}).Values + {m[path]}
    {
      forall w | w in m.Values ensures w in (m - {path}).Values + {m[path]} {
        var k :| k in m && m[k] == w;
        assert k != path ==> (m - {path})[k] == w;
      }
    }

    /** Empties the module cache; the handles it owned are destroyed. */
    method ClearModules(c: ContextPrivate)
      requires Valid() && c in privs
      modifies `retains, `groups, `weaks, c`moduleCache, c.moduleCache.Values
      ensures Programs() == old(Programs())
      ensures Valid() && c.moduleCache == map[] && weaks == old(weaks) - old(c.moduleCache.Values)
    {
      hide Guarded, Referenced, Traced, CachesOwn, Programs;
      ghost var erased: set<Weak>, all := {}, c.moduleCache.Values;
      while c.moduleCache != map[]
        invariant Programs() == old(Programs())
        invariant Valid() && weaks == old(weaks) - erased
        invariant erased + c.moduleCache.Values == all
        decreases |c.moduleCache|
      {
        var path :| path in c.moduleCache;
        ValuesWithout(c.moduleCache, path);
        erased := erased + {c.moduleCache[path]};
        EraseModule(c, path);
      }
    }

    /** Every handle of the context is released, every cached one destroyed; a later destructor finds nothing to do. */
    method ReleaseAllProtected(c: ContextPrivate)
      requires Valid() && c in privs && detached == {}
      modifies `protects, `detached, `retains, `groups, `weaks
      modifies c.protecteds, privs`protecteds, c`moduleCache, c.moduleCache.Values
      ensures Programs() == old(Programs())
      ensures Valid() && detached == {} && c.protecteds == {} && c.moduleCache == map[]
      ensures forall d :: d in privs && d != c ==> d.protecteds == old(d.protecteds)
      ensures forall p :: p in handles && old(p.priv) == c ==> p.obj == None
      ensures weaks == old(weaks) - old(c.moduleCache.Values)
    {
      hide Valid, Programs;
      ReleaseHandles(c);
      ClearModules(c);
    }

    /** The collector clears a weak reference, unless its object is protected. */
    method Collect(r: int)
      requires Valid()
      modifies `targets, `collected
      ensures Valid()
      ensures collected == old(collected) + if r in origins && At(protects, origins[r]) == 0 then {r} else {}
    {
      hide Guarded, RetainsConserved, CachesOwn;
      if r in targets && targets[r].Some? && At(protects, targets[r].value) == 0 {
        targets := targets[r := None];
        collected := collected + {r};
      }
    }

    /** With no handle left, nothing is protected and nothing is retained. */
    lemma NothingLeaks()
      requires Valid()
      ensures handles == {} ==> forall o :: At(protects, o) == 0
      ensures weaks == {} ==> forall k :: At(retains, k) == 0 && At(groups, k) == 0
    {
      assert handles == {} ==> forall o :: Holders(o) == {};
      assert weaks == {} ==> forall k :: WeakHolders(k) == {} && GroupHolders(k) == {};
    }
  }

  // ---------- runs ----------

  /** What a program does with handles. Numbers name its variables, oldest first; one that names none does nothing. */
  datatype Op =
    | SetInContext(id: ContextRef)
    | Protect(context: ContextRef, obj: int)
    | Unprotect(i: nat)
    | Refer(context: ContextRef, obj: int)
    | ReferNothing
    | Copy(i: nat)
    | Move(i: nat)
    | Assign(i: nat, j: nat)
    | MoveAssign(i: nat, j: nat)
    | Forget(i: nat)
    | FindModule(id: ContextRef, path: string)
    | AddModule(id: ContextRef, path: string, context: ContextRef, obj: int)
    | ReleaseAll(id: ContextRef)
    | Collect(r: int)

  /** The program's variables, and what the engine was asked to refer to, has collected, and knows. */
  datatype Names = Names(protecteds: seq<Protected>, weaks: seq<Weak>, nextWeak: int, origins: map<int, int>,
    collected: set<int>, contexts: set<ContextRef>)

  /** `s` without its element `i`, if it has one. */
  ghost function Without<T>(s: seq<T>, i: nat): seq<T> {
    if i < |s| then s[..i] + s[i + 1..] else s
  }

  ghost predicate OneMore<T>(s: seq<T>, s': seq<T>) {
    |s'| == |s| + 1 && s'[..|s|] == s
  }

  /** What an operation makes of the names. */
  ghost predicate Named(n: Names, op: Op, n': Names) {
    match op
    case Protect(_, _) => OneMore(n.protecteds, n'.protecteds) && n' == n.(protecteds := n'.protecteds)
    case Unprotect(i) => n' == n.(protecteds := Without(n.protecteds, i))
    case Refer(_, obj) =>
      && OneMore(n.weaks, n'.weaks)
      && n' == n.(weaks := n'.weaks, nextWeak := n'.nextWeak, origins := n.origins[n.nextWeak := obj])
    case ReferNothing => OneMore(n.weaks, n'.weaks) && n' == n.(weaks := n'.weaks)
    case Copy(i) => if i < |n.weaks| then OneMore(n.weaks, n'.weaks) && n' == n.(weaks := n'.weaks) else n' == n
    case Move(i) => if i < |n.weaks| then OneMore(n.weaks, n'.weaks) && n' == n.(weaks := n'.weaks) else n' == n
    case Forget(i) => n' == n.(weaks := Without(n.weaks, i))
    case AddModule(id, _, _, obj) =>
      n' == if id in n.contexts then n.(nextWeak := n'.nextWeak, origins := n.origins[n.nextWeak := obj]) else n
    case SetInContext(id) => n' == n.(contexts := n.contexts + {id})
    case Collect(r) => n' == n.(collected := n'.collected) && n.collected <= n'.collected <= n.collected + {r}
    case _ => n' == n
  }

  /** A program: its handle variables, over an engine. */
  class Run {
    const e: Engine
    var protectedVars: seq<Protected>
    var weakVars: seq<Weak>

    ghost predicate Valid()
      reads this, e, e.handles, e.weaks, e.privs
    {
      && e.Valid() && e.detached == {}
      && e.handles == (set p | p in protectedVars)
      && (forall i, j :: 0 <= i < j < |protectedVars| ==> protectedVars[i] != protectedVars[j])
      && e.Programs() == (set w | w in weakVars)
      && (forall i, j :: 0 <= i < j < |weakVars| ==> weakVars[i] != weakVars[j])
    }

    /** Every object the run has made. */
    ghost function Objects(): set<object>
      reads this, e
    {
      {this, e} + e.handles + e.weaks + e.privs
    }

    constructor ()
      ensures Valid() && fresh(Objects())
    {
      e := new Engine();
      protectedVars, weakVars := [], [];
    }

    /** A variable more, that holds these references. */
    twostate predicate NewWeak(new weakRef: Option<int>, new groupRef: Option<int>)
      reads this, weakVars
    {
      var n := |old(weakVars)|;
      && protectedVars == old(protectedVars) && |weakVars| == n + 1 && weakVars[..n] == old(weakVars)
      && weakVars[n].weakRef == weakRef && weakVars[n].groupRef == groupRef
    }

    twostate predicate SameVars()
      reads this
    {
      protectedVars == old(protectedVars) && weakVars == old(weakVars)
    }

    ghost function Look(): Names
      reads this, e
    {
      Names(protectedVars, weakVars, e.nextWeak, e.origins, e.collected, e.privCtxCache.Keys)
    }

    /** The cached module was looked for: it is forgotten if its object has been collected. */
    twostate predicate Looked(c: ContextPrivate, path: string)
      reads e, c
    {
      c.moduleCache == if old(path in c.moduleCache && e.Refers(c.moduleCache[path])) then old(c.moduleCache)
                       else old(c.moduleCache) - {path}
    }

    /** What an operation does to the program's variables, to what they hold, and to the module caches. */
    twostate predicate Did(op: Op)
      reads this, e, protectedVars, weakVars, e.privs, e.weaks
    {
      Named(old(Look()), op, Look()) &&
      match op
      case Protect(context, obj) =>
        var n := |old(protectedVars)|;
        && weakVars == old(weakVars) && |protectedVars| == n + 1 && protectedVars[..n] == old(protectedVars)
        && protectedVars[n].obj == if context in old(e.privCtxCache) then Some(obj) else None
      case Unprotect(i) =>
        && weakVars == old(weakVars)
        && protectedVars == if i < |old(protectedVars)| then old(protectedVars[..i] + protectedVars[i + 1..])
                            else old(protectedVars)
      case Refer(context, obj) =>
        && NewWeak(Some(old(e.nextWeak)), Some(context.group))
        && e.origins == old(e.origins)[old(e.nextWeak) := obj]
      case ReferNothing => NewWeak(None, None)
      case Copy(i) =>
        if i < |old(weakVars)| then NewWeak(old(weakVars[i].weakRef), old(weakVars[i].groupRef)) else SameVars()
      case Move(i) =>
        if i < |old(weakVars)| then
          && NewWeak(old(weakVars[i].weakRef), old(weakVars[i].groupRef))
          && weakVars[i].weakRef == None && weakVars[i].groupRef == None
        else SameVars()
      case Assign(i, j) =>
        SameVars() && (i < |weakVars| && j < |weakVars| ==>
          weakVars[i].weakRef == old(weakVars[j].weakRef) && weakVars[i].groupRef == old(weakVars[j].groupRef))
      case MoveAssign(i, j) =>
        SameVars() && (i < |weakVars| && j < |weakVars| ==>
          && weakVars[i].weakRef == old(weakVars[j].weakRef) && weakVars[i].groupRef == old(weakVars[j].groupRef)
          && (i != j ==> weakVars[j].weakRef == None && weakVars[j].groupRef == None))
      case Forget(i) =>
        && protectedVars == old(protectedVars)
        && weakVars == if i < |old(weakVars)| then old(weakVars[..i] + weakVars[i + 1..]) else old(weakVars)
      case FindModule(id, path) =>
        SameVars() && (id in old(e.privCtxCache) ==>
          var c := old(e.privCtxCache[id]);
          c in e.privs && Looked(c, path))
      case AddModule(id, path, context, obj) =>
        SameVars() && (id in old(e.privCtxCache) ==>
          var c := old(e.privCtxCache[id]);
          && c in e.privs && path in c.moduleCache && c.moduleCache == old(c.moduleCache)[path := c.moduleCache[path]]
          && c.moduleCache[path] in e.weaks && c.moduleCache[path].weakRef == Some(old(e.nextWeak))
          && e.origins == old(e.origins)[old(e.nextWeak) := obj])
      case ReleaseAll(id) =>
        SameVars() && (id in old(e.privCtxCache) ==>
          && old(e.privCtxCache[id]) in e.privs && old(e.privCtxCache[id]).moduleCache == map[]
          && forall p :: p in protectedVars && old(p.priv) == old(e.privCtxCache[id]) ==> p.obj == None)
      case SetInContext(id) => SameVars() && id in e.privCtxCache
      case Collect(r) =>
        SameVars() && e.collected ==
          old(e.collected) + old(if r in e.origins && At(e.protects, e.origins[r]) == 0 then {r} else {})
    }

    method PerformProtect(context: ContextRef, obj: int)
      requires Valid()
      modifies Objects()
      ensures Valid() && fresh(Objects() - old(Objects()))
      ensures Did(Protect(context, obj))
    {
      hide e.Valid, e.Programs;
      var p := e.ConstructProtected(context, obj);
      protectedVars := protectedVars + [p];
    }

    method PerformUnprotect(i: nat)
      requires Valid() && i < |protectedVars|
      modifies Objects()
      ensures Valid() && fresh(Objects() - old(Objects()))
      ensures Did(Unprotect(i))
    {
      hide e.Valid, e.Programs;
      e.DestroyProtected(protectedVars[i]);
      protectedVars := protectedVars[..i] + protectedVars[i + 1..];
    }

    lemma NamesWeak(i: nat)
      requires Valid() && i < |weakVars|
      ensures weakVars[i] in e.weaks && weakVars[i].owner == Program
    {
      assert weakVars[i] in e.Programs();
    }

    /** A new variable. */
    method Declare(w: Weak)
      requires e.Valid() && e.detached == {} && e.handles == (set p | p in protectedVars)
      requires forall i, j :: 0 <= i < j < |protectedVars| ==> protectedVars[i] != protectedVars[j]
      requires forall i, j :: 0 <= i < j < |weakVars| ==> weakVars[i] != weakVars[j]
      requires w !in weakVars && e.Programs() == (set w | w in weakVars) + {w}
      modifies `weakVars
      ensures Valid() && weakVars == old(weakVars) + [w]
    {
      hide e.Valid, e.Programs;
      weakVars := weakVars + [w];
    }

    method PerformRefer(context: ContextRef, obj: int)
      requires Valid()
      modifies Objects()
      ensures Valid() && fresh(Objects() - old(Objects()))
      ensures Did(Refer(context, obj))
    {
      hide e.Valid, e.Programs;
      var w := e.ConstructWeak(context, obj);
      Declare(w);
    }

    method PerformReferNothing()
      requires Valid()
      modifies Objects()
      ensures Valid() && fresh(Objects() - old(Objects()))
      ensures Did(ReferNothing)
    {
      hide e.Valid, e.Programs;
      var w := e.ConstructEmptyWeak();
      Declare(w);
    }

    twostate lemma DidCopy(i: nat)
      requires i < |old(weakVars)| && NewWeak(old(weakVars[i].weakRef), old(weakVars[i].groupRef))
      requires Look() == old(Look()).(weaks := weakVars)
      ensures Did(Copy(i))
    {
    }

    method PerformCopy(i: nat)
      requires Valid() && i < |weakVars|
      modifies Objects()
      ensures Valid() && fresh(Objects() - old(Objects()))
      ensures Did(Copy(i))
    {
      hide e.Valid, e.Programs, Did;
      NamesWeak(i);
      var w := e.CopyConstructWeak(weakVars[i]);
      Declare(w);
      DidCopy(i);
    }

    twostate lemma DidMove(i: nat)
      requires i < |old(weakVars)| && NewWeak(old(weakVars[i].weakRef), old(weakVars[i].groupRef))
      requires weakVars[i].weakRef == None && weakVars[i].groupRef == None
      requires Look() == old(Look()).(weaks := weakVars)
      ensures Did(Move(i))
    {
    }

    method PerformMove(i: nat)
      requires Valid() && i < |weakVars|
      modifies Objects()
      ensures Valid() && fresh(Objects() - old(Objects()))
      ensures Did(Move(i))
    {
      hide e.Valid, e.Programs, Did;
      NamesWeak(i);
      var w := e.MoveConstructWeak(weakVars[i]);
      Declare(w);
      DidMove(i);
    }

    method PerformAssign(i: nat, j: nat)
      requires Valid() && i < |weakVars| && j < |weakVars|
      modifies Objects()
      ensures Valid() && fresh(Objects() - old(Objects()))
      ensures Did(Assign(i, j))
    {
      hide e.Valid, e.Programs;
      NamesWeak(i);
      NamesWeak(j);
      e.CopyAssignWeak(weakVars[i], weakVars[j]);
    }

    method PerformMoveAssign(i: nat, j: nat)
      requires Valid() && i < |weakVars| && j < |weakVars|
      modifies Objects()
      ensures Valid() && fresh(Objects() - old(Objects()))
      ensures Did(MoveAssign(i, j))
    {
      hide e.Valid, e.Programs;
      NamesWeak(i);
      NamesWeak(j);
      e.MoveAssignWeak(weakVars[i], weakVars[j]);
    }

    method PerformForget(i: nat)
      requires Valid()
      modifies Objects()
      ensures Valid() && fresh(Objects() - old(Objects()))
      ensures Did(Forget(i))
    {
      hide e.Valid, e.Programs;
      if i < |weakVars| {
        NamesWeak(i);
        e.DestroyWeak(weakVars[i]);
        weakVars := weakVars[..i] + weakVars[i + 1..];
      }
    }

    lemma NamesPriv(id: ContextRef)
      requires e.Valid() && id in e.privCtxCache
      ensures e.privCtxCache[id] in e.privs && e.privCtxCache[id].protecteds <= e.handles
      ensures e.privCtxCache[id].moduleCache.Values <= e.weaks
    {
      assert forall path :: path in e.privCtxCache[id].moduleCache ==> e.privCtxCache[id].moduleCache[path] in e.weaks;
    }

    lemma NamesModule(id: ContextRef, path: string)
      requires Valid() && id in e.privCtxCache
      ensures var c := e.privCtxCache[id]; c in e.privs && (path in c.moduleCache ==> c.moduleCache[path] in e.weaks)
    {
    }

    method FindIn(c: ContextPrivate, path: string)
      requires Valid() && c in e.privs && (path in c.moduleCache ==> c.moduleCache[path] in e.weaks)
      modifies Objects()
      ensures Valid() && fresh(Objects() - old(Objects())) && Look() == old(Look()) && e.privs == old(e.privs)
      ensures Looked(c, path)
    {
      hide e.Valid, e.Programs;
      var _ := e.FindModule(c, path);
    }

    twostate lemma DidFind(op: Op)
      requires op.FindModule? && op.id in old(e.privCtxCache) && Look() == old(Look())
      requires old(e.privCtxCache[op.id]) in e.privs && Looked(old(e.privCtxCache[op.id]), op.path)
      ensures Did(op)
    {
      hide Looked;
    }

    method PerformFind(id: ContextRef, path: string)
      requires Valid() && id in e.privCtxCache
      modifies Objects()
      ensures Valid() && fresh(Objects() - old(Objects()))
      ensures Did(FindModule(id, path))
    {
      hide Valid, Looked, Did;
      NamesModule(id, path);
      FindIn(e.privCtxCache[id], path);
      DidFind(FindModule(id, path));
    }

    method PerformAdd(id: ContextRef, path: string, context: ContextRef, obj: int)
      requires Valid() && id in e.privCtxCache
      modifies Objects()
      ensures Valid() && fresh(Objects() - old(Objects()))
      ensures Did(AddModule(id, path, context, obj))
    {
      hide e.Valid, e.Programs;
      NamesPriv(id);
      e.AddToModuleCache(e.privCtxCache[id], path, context, obj);
    }

    method PerformSet(id: ContextRef)
      requires Valid()
      modifies Objects()
      ensures Valid() && fresh(Objects() - old(Objects()))
      ensures Did(SetInContext(id))
    {
      hide e.Valid, e.Programs;
      if id !in e.privCtxCache {
        var _ := e.CreatePriv(id);
      }
    }

    method PerformCollect(r: int)
      requires Valid()
      modifies Objects()
      ensures Valid() && fresh(Objects() - old(Objects()))
      ensures Did(Collect(r))
    {
      hide e.Valid, e.Programs;
      e.Collect(r);
    }

    lemma NamesPrivs()
      requires e.Valid()
      ensures forall id :: id in e.privCtxCache ==> e.privCtxCache[id] in e.privs
    {
    }

    method ReleaseContext(id: ContextRef)
      requires Valid() && id in e.privCtxCache
      modifies Objects()
      ensures Valid() && fresh(Objects() - old(Objects()))
      ensures Did(ReleaseAll(id))
      ensures weakVars == old(weakVars) && protectedVars == old(protectedVars) && e.privCtxCache == old(e.privCtxCache)
      ensures e.privCtxCache[id].moduleCache == map[]
      ensures forall k :: k in e.privCtxCache && e.privCtxCache[k] != e.privCtxCache[id] ==>
        e.privCtxCache[k].moduleCache == old(e.privCtxCache[k].moduleCache)
    {
      hide e.Valid, e.Programs;
      NamesPriv(id);
      NamesPrivs();
      e.ReleaseAllProtected(e.privCtxCache[id]);
    }

    /** Every operation keeps the counts, needs nothing but a valid state, and does what it is for. */
    method Perform(op: Op)
      requires Valid()
      modifies Objects()
      ensures Valid() && fresh(Objects() - old(Objects()))
      ensures Did(op)
    {
      match op
      case Protect(context, obj) => PerformProtect(context, obj);
      case Unprotect(i) => if i < |protectedVars| { PerformUnprotect(i); }
      case Refer(context, obj) => PerformRefer(context, obj);
      case ReferNothing => PerformReferNothing();
      case Copy(i) => if i < |weakVars| { PerformCopy(i); }
      case Move(i) => if i < |weakVars| { PerformMove(i); }
      case Assign(i, j) => if i < |weakVars| && j < |weakVars| { PerformAssign(i, j); }
      case MoveAssign(i, j) => if i < |weakVars| && j < |weakVars| { PerformMoveAssign(i, j); }
      case Forget(i) => PerformForget(i);
      case FindModule(id, path) => if id in e.privCtxCache { PerformFind(id, path); }
      case AddModule(id, path, context, obj) => if id in e.privCtxCache { PerformAdd(id, path, context, obj); }
      case ReleaseAll(id) => if id in e.privCtxCache { ReleaseContext(id); }
      case SetInContext(id) => PerformSet(id);
      case Collect(r) => PerformCollect(r);
    }

    method DropWeak()
      requires Valid() && weakVars != []
      modifies Objects()
      ensures Valid() && fresh(Objects() - old(Objects())) && weakVars == old(weakVars[1..])
      ensures protectedVars == old(protectedVars)
    {
      NamesWeak(0);
      hide e.Valid, e.Programs;
      e.DestroyWeak(weakVars[0]);
      weakVars := weakVars[1..];
    }

    method DropProtected()
      requires Valid() && protectedVars != []
      modifies Objects()
      ensures Valid() && fresh(Objects() - old(Objects())) && protectedVars == old(protectedVars[1..])
      ensures weakVars == old(weakVars) && e.privs == old(e.privs)
      ensures forall c :: c in e.privs ==> c.moduleCache == old(c.moduleCache)
    {
      hide e.Valid, e.Programs;
      e.DestroyProtected(protectedVars[0]);
      protectedVars := protectedVars[1..];
    }

    lemma AllReleased()
      requires e.Valid() && forall id :: id in e.privCtxCache ==> e.privCtxCache[id].moduleCache == map[]
      ensures forall c :: c in e.privs ==> c.moduleCache == map[]
    {
      forall c | c in e.privs ensures c.moduleCache == map[] {
        var id :| id in e.privCtxCache && e.privCtxCache[id] == c;
      }
    }

    /** Every context lets go of what it has. */
    method ReleaseContexts()
      requires Valid()
      modifies Objects()
      ensures Valid() && fresh(Objects() - old(Objects()))
      ensures weakVars == old(weakVars) && protectedVars == old(protectedVars)
      ensures forall c :: c in e.privs ==> c.moduleCache == map[]
    {
      hide e.Valid, e.Programs;
      var ids := e.privCtxCache.Keys;
      while |ids| > 0
        invariant Valid() && fresh(Objects() - old(Objects()))
        invariant weakVars == old(weakVars) && protectedVars == old(protectedVars)
        invariant ids <= e.privCtxCache.Keys
        invariant forall id :: id in e.privCtxCache && id !in ids ==> e.privCtxCache[id].moduleCache == map[]
        decreases ids
      {
        var id :| id in ids;
        ids := ids - {id};
        ReleaseContext(id);
      }
      AllReleased();
    }

    lemma NothingOwned()
      requires Valid() && weakVars == [] && forall c :: c in e.privs ==> c.moduleCache == map[]
      ensures e.weaks == {}
    {
      assert forall w :: w in e.weaks ==> w in e.Programs() || w.owner.Module?;
    }

    method DropWeaks()
      requires Valid()
      modifies Objects()
      ensures Valid() && fresh(Objects() - old(Objects())) && weakVars == []
    {
      hide e.Valid, e.Programs;
      while weakVars != []
        invariant Valid() && fresh(Objects() - old(Objects()))
        decreases |weakVars|
      {
        DropWeak();
      }
    }

    method DropProtecteds()
      requires Valid() && weakVars == [] && forall c :: c in e.privs ==> c.moduleCache == map[]
      modifies Objects()
      ensures Valid() && fresh(Objects() - old(Objects())) && weakVars == [] && protectedVars == []
      ensures forall c :: c in e.privs ==> c.moduleCache == map[]
    {
      hide e.Valid, e.Programs;
      while protectedVars != []
        invariant Valid() && fresh(Objects() - old(Objects())) && weakVars == []
        invariant forall c :: c in e.privs ==> c.moduleCache == map[]
        decreases |protectedVars|
      {
        DropProtected();
      }
    }

    /** Every operation of any run keeps the counts; `trace` has the names after each. */
    method PerformAll(ops: seq<Op>) returns (ghost trace: seq<Names>)
      requires Valid()
      modifies Objects()
      ensures Valid() && fresh(Objects() - old(Objects()))
      ensures |trace| == |ops| + 1 && trace[0] == old(Look()) && trace[|ops|] == Look()
      ensures forall k :: 0 <= k < |ops| ==> Named(trace[k], ops[k], trace[k + 1])
    {
      hide e.Valid, e.Programs, Named;
      trace := [Look()];
      for n := 0 to |ops|
        invariant Valid() && fresh(Objects() - old(Objects()))
        invariant |trace| == n + 1 && trace[0] == old(Look()) && trace[n] == Look()
        invariant forall k :: 0 <= k < n ==> Named(trace[k], ops[k], trace[k + 1])
      {
        Perform(ops[n]);
        trace := trace + [Look()];
      }
    }

    /**
     Any run, in any order: once the contexts have let go and the variables are destroyed, every protect count and
     every retain count is back to zero.
     */
    method Execute(ops: seq<Op>) returns (ghost trace: seq<Names>)
      requires Valid()
      modifies Objects()
      ensures Valid() && e.handles == {} && e.weaks == {}
      ensures forall o :: At(e.protects, o) == 0
      ensures forall k :: At(e.retains, k) == 0 && At(e.groups, k) == 0
      ensures |trace| == |ops| + 1 && trace[0] == old(Look())
      ensures forall k :: 0 <= k < |ops| ==> Named(trace[k], ops[k], trace[k + 1])
    {
      hide e.Programs, e.Guarded, e.Referenced, e.Traced, e.CachesOwn, Named;
      trace := PerformAll(ops);
      DropWeaks();
      ReleaseContexts();
      DropProtecteds();
      NothingOwned();
      e.NothingLeaks();
    }
  }
}
