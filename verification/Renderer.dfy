/**
 The renderer's request queue: producers append requests under `mUserMutex`, and one loop takes them all at once.
 Every critical section is one step, so the steps of a run are the critical sections in the order they got the mutex.
 */
module Renderer {
  import opened Common

  datatype Request =
    | Create(id: nat)
    | Run(id: nat, url: string)
    | RunScript(id: nat, code: string)
    | Terminate(id: nat)

  /** A request that a handler has carried out: whether it was queued, and whether a download it needed worked. */
  datatype Handled = Handled(request: Request, queued: bool, downloaded: bool)

  /** What a context was made to run. */
  datatype Ran = Downloaded(url: string) | Local(url: string) | Code(code: string, url: string)

  // ---------- the sequential meaning of requests ----------

  datatype App = App(url: string, contextUrl: string, runs: seq<Ran>)

  type Apps = map<nat, App>

  predicate IsHttp(url: string) {
    |url| >= 4 && url[..4] == "http"
  }

  lemma HttpIsPrefix(url: string)
    ensures IsHttp(url) <==> "http" <= url
  {
  }

  const JAVASCRIPT_CODE := "JavaScriptCode"

  function AfterRun(a: App, url: string, downloaded: bool): App {
    if url == "" || (IsHttp(url) && !downloaded) then a.(url := url)
    else App(url, url, a.runs + [if IsHttp(url) then Downloaded(url) else Local(url)])
  }

  function AfterRunScript(a: App, code: string): App {
    var url := if a.url == "" then JAVASCRIPT_CODE else a.url;
    App(url, a.contextUrl, if code == "" then a.runs else a.runs + [Code(code, url)])
  }

  function Apply(m: Apps, h: Handled): Apps {
    match h.request
    case Create(id) => m[id := App("", "", [])]
    case Run(id, url) => if id in m then m[id := AfterRun(m[id], url, h.downloaded)] else m
    case RunScript(id, code) => if id in m then m[id := AfterRunScript(m[id], code)] else m
    case Terminate(id) => m - {id}
  }

  /** Requests carried out one after the other, on no application at first. */
  ghost function Fold(log: seq<Handled>): Apps {
    if log == [] then map[] else Apply(Fold(log[..|log| - 1]), log[|log| - 1])
  }

  lemma FoldSnoc(log: seq<Handled>, h: Handled)
    ensures Fold(log + [h]) == Apply(Fold(log), h)
  {
    assert (log + [h])[..|log|] == log;
  }

  /** Application `id` was created by entry `i`, and not terminated since. */
  ghost predicate CreatedAt(log: seq<Handled>, id: nat, i: int) {
    0 <= i < |log| && log[i].request == Create(id) && forall j :: i < j < |log| ==> log[j].request != Terminate(id)
  }

  /** An application is in the map exactly if it was created and not terminated since. */
  lemma {:induction false} FoldKeys(log: seq<Handled>, id: nat)
    ensures id in Fold(log) <==> exists i :: CreatedAt(log, id, i)
  {
    if log != [] {
      var front, h := log[..|log| - 1], log[|log| - 1];
      FoldKeys(front, id);
      if h.request == Create(id) {
        assert CreatedAt(log, id, |front|);
      } else if id in Fold(log) {
        var i :| CreatedAt(front, id, i);
        assert CreatedAt(log, id, i);
      }
      if i :| CreatedAt(log, id, i) {
        assert i < |front| ==> CreatedAt(front, id, i);
      }
    }
  }

  /** Entry `i` is the last that gave application `id` a URL outright. */
  ghost predicate UrlSetAt(log: seq<Handled>, id: nat, i: int) {
    && 0 <= i < |log| && (log[i].request.Create? || log[i].request.Run?) && log[i].request.id == id
    && forall j :: i < j < |log| && log[j].request.id == id ==> log[j].request.RunScript?
  }

  /** The URL an application shows: that of the last `Run`, or a fixed name once code ran when there was none. */
  lemma {:induction false} FoldUrl(log: seq<Handled>, id: nat, i: int)
    requires id in Fold(log) && UrlSetAt(log, id, i)
    ensures var given := if log[i].request.Run? then log[i].request.url else "";
      Fold(log)[id].url ==
        if given == "" && (exists j :: i < j < |log| && log[j].request.id == id) then "JavaScriptCode" else given
  {
    var front, h := log[..|log| - 1], log[|log| - 1];
    if i < |front| {
      assert UrlSetAt(front, id, i);
      assert forall j :: 0 <= j < |front| ==> front[j] == log[j];
      FoldUrl(front, id, i);
    }
  }

  /** The requests of a history that came through the queue. */
  ghost function Queued(log: seq<Handled>): seq<Request> {
    if log == [] then []
    else Queued(log[..|log| - 1]) + if log[|log| - 1].queued then [log[|log| - 1].request] else []
  }

  /** The first `n` requests of the queue, carried out with the outcomes their downloads have; one left out fails. */
  ghost function Outcomes(queue: seq<Request>, downloads: seq<bool>, n: nat): seq<Handled>
    requires n <= |queue|
  {
    seq(n, i requires 0 <= i < n => Handled(queue[i], true, i < |downloads| && downloads[i]))
  }

  lemma NoOutcomes(queue: seq<Request>, downloads: seq<bool>)
    ensures Outcomes(queue, downloads, 0) == []
  {
  }

  lemma OutcomesNext(queue: seq<Request>, downloads: seq<bool>, n: nat)
    requires n < |queue|
    ensures Outcomes(queue, downloads, n + 1) ==
      Outcomes(queue, downloads, n) + [Handled(queue[n], true, n < |downloads| && downloads[n])]
  {
  }

  lemma QueuedSnoc(log: seq<Handled>, h: Handled)
    ensures Queued(log + [h]) == Queued(log) + if h.queued then [h.request] else []
  {
    assert (log + [h])[..|log|] == log;
  }

  /** When everything carried out came through the queue, `Queued` drops nothing. */
  lemma {:induction false} QueuedOnly(log: seq<Handled>)
    requires forall h :: h in log ==> h.queued
    ensures |Queued(log)| == |log| && forall i :: 0 <= i < |log| ==> Queued(log)[i] == log[i].request
  {
    if log != [] {
      QueuedOnly(log[..|log| - 1]);
    }
  }

  // ---------- the renderer ----------

  class JavaScriptContext {
    var url: string
    var runs: seq<Ran>

    constructor ()
      ensures url == "" && runs == []
    {
      url, runs := "", [];
    }
  }

  datatype ApplicationData = ApplicationData(url: string, context: JavaScriptContext)

  datatype ApplicationDetails = ApplicationDetails(id: nat, url: string)

  lemma {:induction false} Least(s: set<nat>) returns (key: nat)
    requires |s| > 0
    ensures key in s && forall k :: k in s ==> key <= k
    decreases |s|
  {
    var x :| x in s;
    key := x;
    if |s| > 1 {
      var y := Least(s - {x});
      key := if x < y then x else y;
      assert forall k :: k in s ==> k == x || k in s - {x};
    } else {
      assert |s - {x}| == 0;
      assert forall k :: k in s ==> k == x || k in s - {x};
    }
  }

  /** The entries of the map, by identifier. */
  method ListOf(contextMap: map<nat, ApplicationData>) returns (list: seq<ApplicationDetails>)
    ensures |list| == |contextMap|
    ensures forall i, j :: 0 <= i < j < |list| ==> list[i].id < list[j].id
    ensures forall i :: 0 <= i < |list| ==> list[i].id in contextMap && list[i].url == contextMap[list[i].id].url
  {
    list := [];
    var keys := contextMap.Keys;
    while keys != {}
      invariant keys <= contextMap.Keys && |list| + |keys| == |contextMap|
      invariant forall i, j :: 0 <= i < j < |list| ==> list[i].id < list[j].id
      invariant forall i, k :: 0 <= i < |list| && k in keys ==> list[i].id < k
      invariant forall i :: 0 <= i < |list| ==> list[i].id in contextMap && list[i].url == contextMap[list[i].id].url
      decreases keys
    {
      ghost var least := Least(keys);
      var key :| key in keys && forall k :: k in keys ==> key <= k;
      list := list + [ApplicationDetails(key, contextMap[key].url)];
      keys := keys - {key};
    }
  }

  lemma SameSize<A, B>(m: map<nat, A>, n: map<nat, B>)
    requires m.Keys == n.Keys
    ensures |m| == |n|
  {
    assert |m| == |m.Keys| && |n| == |n.Keys|;
  }

  class NativeJSRenderer {
    /** `createApplicationIdentifier`'s static counter. */
    var nextId: nat
    var pendingRequests: seq<Request>
    var contextMap: map<nat, ApplicationData>
    /** The identifier the test file step has taken and not yet used. */
    var testId: Option<nat>

    /** Everything ever put in the queue, and everything carried out. */
    ghost var arrived: seq<Request>
    ghost var handled: seq<Handled>
    /** The contexts allocated and not deleted, with their applications; the deleted ones; the identifiers used. */
    ghost var live: map<JavaScriptContext, nat>
    ghost var deleted: set<JavaScriptContext>
    ghost var created: set<nat>

    /** Every live context belongs to exactly one entry, and no entry has a deleted context. */
    ghost predicate Owned()
      reads `contextMap, `live, `deleted
    {
      && (forall id :: id in contextMap ==> contextMap[id].context in live && live[contextMap[id].context] == id)
      && (forall c :: c in live ==> live[c] in contextMap && contextMap[live[c]].context == c)
      && live.Keys !! deleted
    }

    /** What the map says of the applications. */
    ghost function View(): Apps
      requires Owned()
      reads `contextMap, `live, `deleted, live.Keys
    {
      map id | id in contextMap :: App(contextMap[id].url, contextMap[id].context.url, contextMap[id].context.runs)
    }

    /** No identifier is given out twice, so no application is created over another. */
    ghost predicate Identified(done: nat)
      reads `nextId, `pendingRequests, `testId, `created
    {
      && (forall id :: id in created ==> id < nextId)
      && (forall i :: done <= i < |pendingRequests| && pendingRequests[i].Create? ==>
            pendingRequests[i].id < nextId && pendingRequests[i].id !in created
              && Some(pendingRequests[i].id) != testId)
      && (forall i, j :: done <= i < j < |pendingRequests| && pendingRequests[i].Create? ==>
            pendingRequests[i] != pendingRequests[j])
      && (testId.Some? ==> testId.value < nextId && testId.value !in created)
    }

    /** The requests that arrived are those carried out, then those in the queue. */
    ghost predicate InOrder(done: nat)
      reads `pendingRequests, `arrived, `handled
    {
      done <= |pendingRequests| && Queued(handled) + pendingRequests[done..] == arrived
    }

    /** While the queue is drained its first `done` requests are carried out and still in it. */
    ghost predicate Inv(done: nat)
      reads this, live.Keys
    {
      Owned() && contextMap.Keys <= created && Identified(done) && InOrder(done) && View() == Fold(handled)
    }

    /**
     The map is the fold of the requests carried out, and these are a prefix of those that arrived, in order.
     */
    ghost predicate Valid()
      reads this, live.Keys
    {
      Inv(0)
    }

    constructor ()
      ensures Valid() && arrived == [] && handled == [] && deleted == {} && live == map[]
      ensures nextId == 1 && pendingRequests == [] && contextMap == map[] && testId == None
    {
      nextId, pendingRequests, contextMap, testId := 1, [], map[], None;
      arrived, handled, live, deleted, created := [], [], map[], {}, {};
    }

    // ----- producers -----

    method CreateApplicationIdentifier() returns (id: nat)
      modifies `nextId
      ensures id == old(nextId) && nextId == id + 1
    {
      id := nextId;
      nextId := nextId + 1;
    }

    method Enqueue(request: Request)
      requires Valid()
      requires request.Create? ==> request.id < nextId && request.id !in created && Some(request.id) != testId
      requires request.Create? ==> request !in pendingRequests
      modifies `pendingRequests, `arrived
      ensures Valid() && pendingRequests == old(pendingRequests) + [request] && arrived == old(arrived) + [request]
    {
      pendingRequests := pendingRequests + [request];
      arrived := arrived + [request];
    }

    method CreateApplication() returns (id: nat)
      requires Valid()
      modifies `nextId, `pendingRequests, `arrived
      ensures Valid() && id == old(nextId) && nextId == id + 1 && id !in created
      ensures pendingRequests == old(pendingRequests) + [Create(id)] && arrived == old(arrived) + [Create(id)]
    {
      id := CreateApplicationIdentifier();
      Enqueue(Create(id));
    }

    method RunApplication(id: nat, url: string) returns (ok: bool)
      requires Valid()
      modifies `pendingRequests, `arrived
      ensures Valid() && ok && arrived == old(arrived) + [Run(id, url)]
      ensures pendingRequests == old(pendingRequests) + [Run(id, url)]
    {
      Enqueue(Run(id, url));
      ok := true;
    }

    method RunJavaScript(id: nat, code: string) returns (ok: bool)
      requires Valid()
      modifies `pendingRequests, `arrived
      ensures Valid() && ok && arrived == old(arrived) + [RunScript(id, code)]
      ensures pendingRequests == old(pendingRequests) + [RunScript(id, code)]
    {
      Enqueue(RunScript(id, code));
      ok := true;
    }

    method TerminateApplication(id: nat) returns (ok: bool)
      requires Valid()
      modifies `pendingRequests, `arrived
      ensures Valid() && ok && arrived == old(arrived) + [Terminate(id)]
      ensures pendingRequests == old(pendingRequests) + [Terminate(id)]
    {
      Enqueue(Terminate(id));
      ok := true;
    }

    // ----- the loop -----

    /** What a handler that carries out `h` does to the history; `done` counts the queue's requests carried out. */
    ghost method Record(h: Handled, done: nat)
      requires if h.queued then done < |pendingRequests| && pendingRequests[done] == h.request else done == 0
      requires InOrder(done)
      modifies `handled
      ensures handled == old(handled) + [h] && Fold(handled) == Apply(old(Fold(handled)), h)
      ensures InOrder(if h.queued then done + 1 else done)
    {
      QueuedSnoc(handled, h);
      FoldSnoc(handled, h);
      handled := handled + [h];
    }

    /** The map shows one application more, which has run nothing. */
    twostate lemma ViewGains(id: nat)
      requires old(Owned()) && Owned() && id in contextMap && id !in old(contextMap)
      requires contextMap == old(contextMap)[id := contextMap[id]]
      requires contextMap[id].url == "" && contextMap[id].context.url == "" && contextMap[id].context.runs == []
      requires forall c :: c in old(live) ==> c.url == old(c.url) && c.runs == old(c.runs)
      ensures View() == old(View())[id := App("", "", [])]
    {
    }

    method InsertContext(id: nat)
      requires Owned() && id !in contextMap
      modifies `contextMap, `live
      ensures Owned() && contextMap.Keys == old(contextMap.Keys) + {id}
      ensures fresh(live.Keys - old(live.Keys)) && old(live.Keys) <= live.Keys
      ensures View() == old(View())[id := App("", "", [])]
    {
      hide View;
      var context := new JavaScriptContext();
      contextMap := contextMap[id := ApplicationData("", context)];
      live := live[context := id];
      assert forall c :: c in live ==> c == context || c in old(live);
      ViewGains(id);
    }

    /** Identifier `id` counts as used from now on. */
    ghost method Admit(id: nat, from: nat, done: nat)
      requires from <= done <= |pendingRequests| && Identified(from) && id < nextId && Some(id) != testId
      requires forall i :: done <= i < |pendingRequests| ==> pendingRequests[i] != Create(id)
      modifies `created
      ensures created == old(created) + {id} && Identified(done)
    {
      created := created + {id};
    }

    method EnterApplication(id: nat, ghost from: nat, ghost done: nat)
      requires Owned() && contextMap.Keys <= created && Identified(from) && from <= done <= |pendingRequests|
      requires id < nextId && id !in created && Some(id) != testId
      requires forall i :: done <= i < |pendingRequests| ==> pendingRequests[i] != Create(id)
      modifies `contextMap, `live, `created
      ensures Owned() && contextMap.Keys <= created && Identified(done)
      ensures contextMap.Keys == old(contextMap.Keys) + {id} && fresh(live.Keys - old(live.Keys))
      ensures View() == old(View())[id := App("", "", [])]
    {
      hide Owned, Identified, View;
      assert id !in contextMap;
      Admit(id, from, done);
      InsertContext(id);
    }

    lemma CreatedOnce(done: nat)
      requires Identified(done) && done < |pendingRequests| && pendingRequests[done].Create?
      ensures forall i :: done + 1 <= i < |pendingRequests| ==> pendingRequests[i] != pendingRequests[done]
    {
    }

    method CreateApplicationInternal(id: nat, ghost done: nat, ghost h: Handled)
      requires Inv(done) && h.request == Create(id)
      requires if h.queued then done < |pendingRequests| && pendingRequests[done] == h.request else done == 0
      requires id < nextId && id !in created && Some(id) != testId && (!h.queued ==> Create(id) !in pendingRequests)
      modifies `contextMap, `live, `created, `handled
      ensures Inv(if h.queued then done + 1 else done) && handled == old(handled) + [h]
      ensures id !in old(contextMap) && id in contextMap && deleted == old(deleted)
      ensures fresh(live.Keys - old(live.Keys))
    {
      hide Fold, Owned, Queued, Identified, View;
      if h.queued {
        CreatedOnce(done);
      }
      Record(h, done);
      EnterApplication(id, done, if h.queued then done + 1 else done);
    }

    /** An entry gets a URL, and its context what it has run; the other contexts are other objects. */
    method Update(id: nat, url: string, contextUrl: string, runs: seq<Ran>)
      requires Owned() && id in contextMap
      modifies `contextMap, contextMap[id].context
      ensures Owned() && contextMap.Keys == old(contextMap.Keys)
      ensures View() == old(View())[id := App(url, contextUrl, runs)]
    {
      contextMap := contextMap[id := contextMap[id].(url := url)];
      var context := contextMap[id].context;
      context.url := contextUrl;
      context.runs := runs;
    }

    /** The download's outcome is `downloaded`; a script changes neither the map nor the queue. */
    method Launch(id: nat, url: string, downloaded: bool)
      requires Owned() && id in contextMap
      modifies `contextMap, contextMap[id].context
      ensures Owned() && contextMap.Keys == old(contextMap.Keys)
      ensures View() == old(View())[id := AfterRun(old(View())[id], url, downloaded)]
    {
      var context := contextMap[id].context;
      if url != "" {
        if IsHttp(url) {
          if !downloaded {
            Update(id, url, context.url, context.runs);
            return;
          }
          Update(id, url, url, context.runs + [Downloaded(url)]);
        } else {
          Update(id, url, url, context.runs + [Local(url)]);
        }
      } else {
        Update(id, url, context.url, context.runs);
      }
    }

    lemma IsLive(id: nat)
      requires Owned()
      ensures id in contextMap ==> contextMap[id].context in live
      ensures id in View() <==> id in contextMap
    {
    }

    method RunApplicationInternal(id: nat, url: string, downloaded: bool, ghost done: nat, ghost h: Handled)
      requires Inv(done) && h.request == Run(id, url) && h.downloaded == downloaded
      requires if h.queued then done < |pendingRequests| && pendingRequests[done] == h.request else done == 0
      modifies `contextMap, `handled, live.Keys
      ensures Inv(if h.queued then done + 1 else done) && handled == old(handled) + [h]
      ensures contextMap.Keys == old(contextMap.Keys)
    {
      hide Fold, IsHttp, AfterRun, Queued, Owned, View;
      IsLive(id);
      Record(h, done);
      if id !in contextMap {
        return;
      }
      Launch(id, url, downloaded);
    }

    method Execute(id: nat, code: string)
      requires Owned() && id in contextMap
      modifies `contextMap, contextMap[id].context
      ensures Owned() && contextMap.Keys == old(contextMap.Keys)
      ensures View() == old(View())[id := AfterRunScript(old(View())[id], code)]
    {
      var context := contextMap[id].context;
      var url := if |contextMap[id].url| == 0 then JAVASCRIPT_CODE else contextMap[id].url;
      if code != "" {
        Update(id, url, context.url, context.runs + [Code(code, url)]);
      } else {
        Update(id, url, context.url, context.runs);
      }
    }

    method RunJavaScriptInternal(id: nat, code: string, ghost done: nat, ghost h: Handled)
      requires Inv(done) && h.request == RunScript(id, code) && h.queued
      requires done < |pendingRequests| && pendingRequests[done] == h.request
      modifies `contextMap, `handled, live.Keys
      ensures Inv(done + 1) && handled == old(handled) + [h]
      ensures contextMap.Keys == old(contextMap.Keys)
    {
      hide Fold, AfterRunScript, Queued, Owned, View;
      IsLive(id);
      Record(h, done);
      if id !in contextMap {
        return;
      }
      Execute(id, code);
    }

    /** Deletes a context, which was allocated and not deleted before. */
    ghost method Delete(context: JavaScriptContext)
      requires context in live && context !in deleted
      modifies `live, `deleted
      ensures live == old(live) - {context} && deleted == old(deleted) + {context}
    {
      live := live - {context};
      deleted := deleted + {context};
    }

    method RemoveContext(id: nat)
      requires Owned() && id in contextMap
      modifies `contextMap, `live, `deleted
      ensures Owned() && contextMap == old(contextMap) - {id} && View() == old(View()) - {id}
      ensures deleted == old(deleted) + {old(contextMap)[id].context} && live.Keys <= old(live.Keys)
    {
      Delete(contextMap[id].context);
      contextMap := contextMap - {id};
    }

    method TerminateApplicationInternal(id: nat, ghost done: nat, ghost h: Handled)
      requires Inv(done) && h.request == Terminate(id) && h.queued
      requires done < |pendingRequests| && pendingRequests[done] == h.request
      modifies `contextMap, `live, `deleted, `handled
      ensures Inv(done + 1) && handled == old(handled) + [h]
      ensures contextMap == old(contextMap) - {id} && live.Keys <= old(live.Keys)
      ensures deleted == old(deleted) + if id in old(contextMap) then {old(contextMap)[id].context} else {}
    {
      hide Fold, Queued, Owned;
      IsLive(id);
      Record(h, done);
      if id in contextMap {
        RemoveContext(id);
      } else {
        assert View() - {id} == View();
      }
    }

    /** One turn of the loop over the queue. */
    method HandleRequest(done: nat, downloaded: bool)
      requires Inv(done) && done < |pendingRequests|
      modifies `contextMap, `live, `deleted, `created, `handled, live.Keys
      ensures Inv(done + 1) && fresh(live.Keys - old(live.Keys))
      ensures handled == old(handled) + [Handled(pendingRequests[done], true, downloaded)]
      ensures old(deleted) <= deleted <= old(deleted) + old(live.Keys)
    {
      hide Fold, Queued;
      var request := pendingRequests[done];
      ghost var h := Handled(request, true, downloaded);
      match request
      case Create(id) => CreateApplicationInternal(id, done, h);
      case Run(id, url) => RunApplicationInternal(id, url, downloaded, done, h);
      case Terminate(id) => TerminateApplicationInternal(id, done, h);
      case RunScript(id, code) => RunJavaScriptInternal(id, code, done, h);
    }

    lemma Emptied()
      requires Inv(|pendingRequests|)
      ensures Queued(handled) == arrived
    {
    }

    /** The whole queue is carried out in one critical section; `downloads` are the outcomes of its downloads. */
    method Drain(downloads: seq<bool>)
      requires Valid()
      modifies `pendingRequests, `contextMap, `live, `deleted, `created, `handled, live.Keys
      ensures Valid() && pendingRequests == [] && Queued(handled) == arrived
      ensures fresh(live.Keys - old(live.Keys)) && old(handled) <= handled
      ensures handled == old(handled) + Outcomes(old(pendingRequests), downloads, |old(pendingRequests)|)
    {
      hide Fold, Queued, Owned, View, Outcomes;
      NoOutcomes(pendingRequests, downloads);
      var i := 0;
      while i < |pendingRequests|
        invariant 0 <= i <= |pendingRequests| && pendingRequests == old(pendingRequests)
        invariant Inv(i) && fresh(live.Keys - old(live.Keys))
        invariant handled == old(handled) + Outcomes(old(pendingRequests), downloads, i)
      {
        OutcomesNext(pendingRequests, downloads, i);
        HandleRequest(i, i < |downloads| && downloads[i]);
        i := i + 1;
      }
      Emptied();
      pendingRequests := [];
    }

    /** With no test file, the requests carried out are the first that arrived, one for one. */
    lemma HandledInArrivalOrder()
      requires Valid() && forall h :: h in handled ==> h.queued
      ensures |handled| + |pendingRequests| == |arrived|
      ensures forall i :: 0 <= i < |handled| ==> handled[i].request == arrived[i]
    {
      QueuedOnly(handled);
      assert forall i :: 0 <= i < |handled| ==> arrived[i] == Queued(handled)[i];
    }

    /** The test file's identifier is taken outside the critical section that uses it. */
    method TakeTestId()
      requires Valid() && testId == None
      modifies `nextId, `testId
      ensures Valid() && testId == Some(old(nextId)) && nextId == old(nextId) + 1
    {
      hide Fold, Queued, Owned;
      var id := CreateApplicationIdentifier();
      testId := Some(id);
    }

    method UseTestId() returns (id: nat)
      requires Valid() && testId.Some?
      modifies `testId
      ensures Valid() && testId == None && id == old(testId).value
      ensures id < nextId && id !in created && Create(id) !in pendingRequests
    {
      hide Fold, Owned, Queued, View;
      id := testId.value;
      testId := None;
    }

    method RunTestFile(testFileName: string, downloaded: bool)
      requires Valid() && testId.Some?
      modifies `contextMap, `live, `created, `handled, `testId, live.Keys
      ensures Valid() && testId == None && fresh(live.Keys - old(live.Keys))
      ensures handled == old(handled) + [Handled(Create(old(testId).value), false, downloaded),
        Handled(Run(old(testId).value, testFileName), false, downloaded)]
    {
      hide Fold, Owned, Queued, Identified, InOrder, View;
      var id := UseTestId();
      CreateApplicationInternal(id, 0, Handled(Create(id), false, downloaded));
      RunApplicationInternal(id, testFileName, downloaded, 0, Handled(Run(id, testFileName), false, downloaded));
    }

    // ----- getApplications -----

    /** What is listed is the fold of the requests carried out so far, by identifier. */
    method GetApplications() returns (list: seq<ApplicationDetails>)
      requires Valid()
      ensures |list| == |Fold(handled)|
      ensures forall i, j :: 0 <= i < j < |list| ==> list[i].id < list[j].id
      ensures forall i :: 0 <= i < |list| ==>
        list[i].id in Fold(handled) && list[i].url == Fold(handled)[list[i].id].url
      ensures Queued(handled) <= arrived
    {
      hide Fold, Queued;
      list := ListOf(contextMap);
      SameSize(contextMap, View());
    }
  }

  // ---------- runs ----------

  /** The critical sections, whichever thread takes the mutex for them. */
  datatype Step =
    | CreateApplication
    | RunApplication(id: nat, url: string)
    | RunJavaScript(id: nat, code: string)
    | TerminateApplication(id: nat)
    | GetApplications
    | Drain(downloads: seq<bool>)
    | TakeTestId
    | RunTestFile(url: string, downloaded: bool)

  /** What the queue looks like from outside, with all that was put in it and carried out. */
  datatype Queue = Queue(nextId: nat, pending: seq<Request>, testId: Option<nat>, arrived: seq<Request>,
    handled: seq<Handled>)

  ghost function QueueOf(r: NativeJSRenderer): Queue
    reads r
  {
    Queue(r.nextId, r.pendingRequests, r.testId, r.arrived, r.handled)
  }

  ghost function Enqueued(q: Queue, request: Request): Queue {
    q.(pending := q.pending + [request], arrived := q.arrived + [request])
  }

  /** What a step means. */
  ghost function After(q: Queue, step: Step): Queue {
    match step
    case CreateApplication => Enqueued(q.(nextId := q.nextId + 1), Create(q.nextId))
    case RunApplication(id, url) => Enqueued(q, Run(id, url))
    case RunJavaScript(id, code) => Enqueued(q, RunScript(id, code))
    case TerminateApplication(id) => Enqueued(q, Terminate(id))
    case GetApplications => q
    case Drain(downloads) =>
      q.(pending := [], handled := q.handled + Outcomes(q.pending, downloads, |q.pending|))
    case TakeTestId => if q.testId == None then q.(testId := Some(q.nextId), nextId := q.nextId + 1) else q
    case RunTestFile(url, downloaded) =>
      if q.testId == None then q
      else
        var id := q.testId.value;
        q.(testId := None,
           handled := q.handled + [Handled(Create(id), false, downloaded), Handled(Run(id, url), false, downloaded)])
  }

  ghost function AfterAll(q: Queue, steps: seq<Step>): Queue {
    if steps == [] then q else After(AfterAll(q, steps[..|steps| - 1]), steps[|steps| - 1])
  }

  /** One step, taken by the renderer as it is meant. */
  method Perform(r: NativeJSRenderer, step: Step)
    requires r.Valid()
    modifies r, r.live.Keys
    ensures r.Valid() && fresh(r.live.Keys - old(r.live.Keys))
    ensures QueueOf(r) == After(old(QueueOf(r)), step)
  {
    hide r.Valid, Outcomes;
    match step {
      case CreateApplication => var _ := r.CreateApplication();
      case RunApplication(id, url) => var _ := r.RunApplication(id, url);
      case RunJavaScript(id, code) => var _ := r.RunJavaScript(id, code);
      case TerminateApplication(id) => var _ := r.TerminateApplication(id);
      case GetApplications => var _ := r.GetApplications();
      case Drain(downloads) => r.Drain(downloads);
      case TakeTestId =>
        if r.testId == None {
          r.TakeTestId();
        }
      case RunTestFile(url, downloaded) =>
        if r.testId.Some? {
          r.RunTestFile(url, downloaded);
        }
    }
  }

  /**
   Any interleaving of producers, readers and the loop keeps the invariant, so that the map is the fold of what was
   carried out, and does to the queue what the steps mean one after the other.
   */
  method Execute(r: NativeJSRenderer, steps: seq<Step>)
    requires r.Valid()
    modifies r, r.live.Keys
    ensures r.Valid() && fresh(r.live.Keys - old(r.live.Keys))
    ensures QueueOf(r) == AfterAll(old(QueueOf(r)), steps)
  {
    hide r.Valid, After;
    var n := 0;
    assert steps[..0] == [];
    while n < |steps|
      invariant 0 <= n <= |steps|
      invariant r.Valid() && fresh(r.live.Keys - old(r.live.Keys))
      invariant QueueOf(r) == AfterAll(old(QueueOf(r)), steps[..n])
    {
      assert steps[..n + 1][..n] == steps[..n];
      Perform(r, steps[n]);
      n := n + 1;
    }
    assert steps[..|steps|] == steps;
  }

  /** No step takes back what was put in the queue or carried out. */
  lemma {:induction false} NothingTakenBack(q: Queue, steps: seq<Step>)
    ensures q.arrived <= AfterAll(q, steps).arrived && q.handled <= AfterAll(q, steps).handled
  {
    if steps != [] {
      NothingTakenBack(q, steps[..|steps| - 1]);
    }
  }
}
