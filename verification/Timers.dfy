/**
 The timer scheduler: a heap, a tag map and a side vector that share `TimeoutInfo` objects, while the
 callbacks that `dispatchTimeouts` runs install and clear timers themselves.
 */
module Timers {
  /** `steady_clock::time_point::min()`; every reading of the clock is later. */
  const STEADY_MINIMAL: int := -0x8000_0000_0000_0000

  class TimeoutInfo {
    var fireTime: int
    const interval: nat
    const repeats: bool
    var tag: nat
    var canceled: bool

    constructor (interval: nat, fireTime: int, repeats: bool, tag: nat)
      ensures this.interval == interval && this.fireTime == fireTime && this.repeats == repeats
      ensures this.tag == tag && !canceled
    {
      this.interval, this.fireTime, this.repeats := interval, fireTime, repeats;
      this.tag, this.canceled := tag, false;
    }
  }

  // ---------- TimeoutInfoComparator ----------

  predicate Comparator(lhs: TimeoutInfo, rhs: TimeoutInfo)
    reads lhs, rhs
  {
    !((lhs.fireTime < rhs.fireTime) || (lhs.fireTime == rhs.fireTime && lhs.tag < rhs.tag))
  }

  predicate KeyLess(time: int, tag: nat, time': int, tag': nat) {
    time < time' || (time == time' && tag < tag')
  }

  predicate Before(a: TimeoutInfo, b: TimeoutInfo)
    reads a, b
  {
    KeyLess(a.fireTime, a.tag, b.fireTime, b.tag)
  }

  /**
   The order `std::priority_queue` is given. It is not irreflexive, as a strict weak ordering has to be: it is the
   reverse of the order by (fireTime, tag) on two timers exactly if their keys differ. On timers with different tags
   it is a strict total order.
   */
  lemma ComparatorIsReverseOrder(a: TimeoutInfo, b: TimeoutInfo, c: TimeoutInfo)
    ensures Comparator(a, a)
    ensures (Comparator(a, b) <==> Before(b, a)) <==> a.fireTime != b.fireTime || a.tag != b.tag
    ensures a.tag != b.tag ==> (Comparator(a, b) <==> Before(b, a)) && (Comparator(a, b) <==> !Comparator(b, a))
    ensures a.tag != c.tag && Comparator(a, b) && Comparator(b, c) ==> Comparator(a, c)
  {
  }

  // ---------- the heap vector ----------

  ghost predicate ParentFirst(c: seq<TimeoutInfo>, i: int)
    requires 0 < i < |c|
    reads c
  {
    !Comparator(c[(i - 1) / 2], c[i])
  }

  /** What `std::make_heap` establishes for the comparator: no parent compares less than its child. */
  ghost predicate IsHeap(c: seq<TimeoutInfo>)
    reads c
  {
    forall i :: 0 < i < |c| ==> ParentFirst(c, i)
  }

  ghost predicate Distinct(c: seq<TimeoutInfo>) {
    forall i, j :: 0 <= i < j < |c| ==> c[i] != c[j]
  }

  ghost predicate DistinctTags(c: seq<TimeoutInfo>)
    reads c
  {
    forall i, j :: 0 <= i < j < |c| ==> c[i].tag != c[j].tag
  }

  /** `top()` is the earliest timer of the whole vector. */
  lemma {:induction false} TopIsEarliest(c: seq<TimeoutInfo>, i: nat)
    requires IsHeap(c) && 0 < i < |c|
    ensures Before(c[0], c[i])
  {
    assert ParentFirst(c, i);
    if (i - 1) / 2 > 0 {
      TopIsEarliest(c, (i - 1) / 2);
    }
  }

  /** Changing timers that are not in the vector leaves it a heap. */
  twostate lemma HeapUntouched(c: seq<TimeoutInfo>)
    requires old(IsHeap(c)) && forall t :: t in c ==> t.fireTime == old(t.fireTime) && t.tag == old(t.tag)
    ensures IsHeap(c)
  {
    forall i | 0 < i < |c| ensures ParentFirst(c, i) {
      assert old(ParentFirst(c, i));
    }
  }

  /**
   Stands for `std::make_heap`, `push_heap` and `pop_heap`: callers may rely on the heap order and on the
   elements being the same, and on nothing about the arrangement the library picks.
   */
  method MakeHeap(c: seq<TimeoutInfo>) returns (h: seq<TimeoutInfo>)
    requires DistinctTags(c)
    ensures IsHeap(h) && Distinct(h) && |h| == |c|
    ensures forall t :: t in h <==> t in c
  {
    h := [];
    var n := 0;
    while n < |c|
      invariant 0 <= n <= |c| && |h| == n
      invariant forall t :: t in h <==> t in c[..n]
      invariant forall i, j :: 0 <= i < j < |h| ==> Before(h[i], h[j])
    {
      var x := c[n];
      var k := 0;
      while k < |h| && Before(h[k], x)
        invariant 0 <= k <= |h|
        invariant forall i :: 0 <= i < k ==> Before(h[i], x)
      {
        k := k + 1;
      }
      assert forall t :: t in h ==> t.tag != x.tag;
      assert c[..n + 1] == c[..n] + [x];
      h := h[..k] + [x] + h[k..];
      n := n + 1;
    }
    assert c[..|c|] == c;
    forall i | 0 < i < |h| ensures ParentFirst(h, i) {
      assert Before(h[(i - 1) / 2], h[i]);
    }
  }

  // ---------- callbacks ----------

  /** A call a callback makes back into the scheduler; `elapsed` is how far the clock moved since its last reading. */
  datatype Call = Install(elapsed: nat, intervalMs: real, repeats: bool) | Clear(tag: nat)

  /** What one run of a callback does: the calls it makes, and its return code. */
  datatype Behaviour = Behaviour(calls: seq<Call>, rc: int)

  /** How many timers a list of calls, and a whole script of callback runs, installs. */
  ghost function Installs(calls: seq<Call>): nat {
    if calls == [] then 0 else (if calls[0].Install? then 1 else 0) + Installs(calls[1..])
  }

  ghost function TotalInstalls(script: seq<Behaviour>): nat {
    if script == [] then 0 else Installs(script[0].calls) + TotalInstalls(script[1..])
  }

  /** How far the clock moves while the calls are made. */
  ghost function Elapsed(calls: seq<Call>): nat {
    if calls == [] then 0 else (if calls[0].Install? then calls[0].elapsed else 0) + Elapsed(calls[1..])
  }

  /** The tags a list of calls, and a whole script, asks to clear. */
  ghost function Clears(calls: seq<Call>): set<nat> {
    set c | c in calls && c.Clear? :: c.tag
  }

  ghost predicate ClearedBy(tag: nat, script: seq<Behaviour>) {
    exists k :: 0 <= k < |script| && tag in Clears(script[k].calls)
  }

  /** Run `k` of the callbacks of a pass: one behind the end of the script makes no calls and returns 0. */
  function EntryAt(script: seq<Behaviour>, k: nat): Behaviour {
    if k < |script| then script[k] else Behaviour([], 0)
  }

  /** What of the script is left when `k` callbacks have run. */
  ghost function Rest(script: seq<Behaviour>, k: nat): seq<Behaviour> {
    if k < |script| then script[k..] else []
  }

  lemma RestUnfold(script: seq<Behaviour>, k: nat)
    ensures TotalInstalls(Rest(script, k)) == Installs(EntryAt(script, k).calls) + TotalInstalls(Rest(script, k + 1))
  {
    if k < |script| {
      assert script[k..][1..] == script[k + 1..];
      assert script[|script|..] == [];
    }
  }

  /** The calls the first `n` callbacks of a pass make. */
  ghost function CallsOf(script: seq<Behaviour>, n: nat): seq<Call> {
    if n == 0 then [] else CallsOf(script, n - 1) + EntryAt(script, n - 1).calls
  }

  lemma NoCalls()
    ensures Installs([]) == Elapsed([]) == 0
  {
  }

  lemma {:induction false} CallsAppend(a: seq<Call>, b: seq<Call>)
    ensures Installs(a + b) == Installs(a) + Installs(b)
    ensures Elapsed(a + b) == Elapsed(a) + Elapsed(b)
  {
    if a == [] {
      assert a + b == b;
    } else {
      assert (a + b)[1..] == a[1..] + b;
      CallsAppend(a[1..], b);
    }
  }

  datatype Step = Outside(calls: seq<Call>) | Dispatch(elapsed: nat, script: seq<Behaviour>)

  // ---------- history ----------

  /** `again` says whether the timer is to repeat: it is a repeating one and its callback returned 0. */
  datatype Event = Installed(tag: nat) | Cleared(tag: nat) | Fired(tag: nat, due: int, again: bool) | Deleted(tag: nat)

  /** What may follow `log`: nothing about a deleted tag, no second installation, only a deletion after a clear. */
  ghost predicate Allowed(log: seq<Event>, e: Event) {
    forall i :: 0 <= i < |log| && log[i].tag == e.tag ==>
      !log[i].Deleted? && !e.Installed? && (log[i].Cleared? ==> e.Deleted?)
  }

  ghost predicate Lawful(log: seq<Event>) {
    log == [] || (Lawful(log[..|log| - 1]) && Allowed(log[..|log| - 1], log[|log| - 1]))
  }

  lemma LawfulSnoc(log: seq<Event>, e: Event)
    requires Lawful(log) && Allowed(log, e)
    ensures Lawful(log + [e])
  {
    assert (log + [e])[..|log|] == log;
  }

  /**
   The life of every tag in a lawful history: installed once and first; after it was cleared only deleted;
   after it was deleted nothing. So nothing fires once cleared, and nothing is used or deleted once deleted.
   */
  lemma {:induction false} LawfulLives(log: seq<Event>, i: nat, j: nat)
    requires Lawful(log) && i < j < |log| && log[i].tag == log[j].tag
    ensures !log[i].Deleted? && !log[j].Installed?
    ensures log[i].Cleared? ==> log[j].Deleted?
  {
    var front := log[..|log| - 1];
    assert front[i] == log[i];
    if j < |front| {
      LawfulLives(front, i, j);
    }
  }

  // ---------- calls made ----------

  /**
   The books of the scheduler: the history, the last tag given out, the clock, the tags mapped, and by tag every timer
   there was and when it was first due.
   */
  datatype Books = Books(log: seq<Event>, idx: nat, clock: nat, mapped: set<nat>, byTag: map<nat, TimeoutInfo>,
    firstDue: map<nat, int>)

  /** The history, the tags given out and the clock go on, and no tag given out before is mapped anew. */
  ghost predicate Later(b: Books, b': Books) {
    && b.log <= b'.log && b.idx <= b'.idx && b.clock <= b'.clock
    && (forall tag :: tag in b'.mapped && tag <= b.idx ==> tag in b.mapped)
    && (forall tag :: tag in b.byTag ==> tag in b'.byTag && b'.byTag[tag] == b.byTag[tag])
    && (forall tag :: tag in b.firstDue ==> tag in b'.firstDue && b'.firstDue[tag] == b.firstDue[tag])
  }

  /** One of the calls clears `tag`, which was given out before it. */
  ghost predicate ClearedIn(idx: nat, calls: seq<Call>, tag: nat) {
    exists k :: 0 <= k < |calls| && calls[k] == Clear(tag) && tag <= idx + Installs(calls[..k])
  }

  /** Call `k` installed a timer as it asks, under the next tag, first due its interval after the call. */
  ghost predicate InstalledBy(b: Books, b': Books, calls: seq<Call>, k: nat)
    requires k < |calls| && calls[k].Install?
  {
    var tag := b.idx + Installs(calls[..k]) + 1;
    var interval: nat := if calls[k].intervalMs < 0.0 then 0 else calls[k].intervalMs.Floor;
    && tag in b'.byTag && b'.byTag[tag].repeats == calls[k].repeats && b'.byTag[tag].interval == interval
    && tag in b'.firstDue && b'.firstDue[tag] == b.clock + Elapsed(calls[..k + 1]) + interval
  }

  /** Between `b` and `b'` the calls were made, and no others. */
  ghost predicate Made(b: Books, b': Books, calls: seq<Call>) {
    && Later(b, b') && b'.idx == b.idx + Installs(calls) && b'.clock == b.clock + Elapsed(calls)
    && (forall i :: |b.log| <= i < |b'.log| && b'.log[i].Cleared? ==> ClearedIn(b.idx, calls, b'.log[i].tag))
    && (forall tag :: ClearedIn(b.idx, calls, tag) ==> tag !in b'.mapped)
    && (forall k :: 0 <= k < |calls| && calls[k].Install? ==> InstalledBy(b, b', calls, k))
  }

  /** What precedes call `k` of two lists in sequence. */
  lemma Prefix(a: seq<Call>, b: seq<Call>, k: nat)
    requires k < |a + b|
    ensures k < |a| ==> (a + b)[k] == a[k] && Installs((a + b)[..k]) == Installs(a[..k])
    ensures k >= |a| ==>
      (a + b)[k] == b[k - |a|] && Installs((a + b)[..k]) == Installs(a) + Installs(b[..k - |a|])
  {
    if k < |a| {
      assert (a + b)[..k] == a[..k];
    } else {
      assert (a + b)[..k] == a + b[..k - |a|];
      CallsAppend(a, b[..k - |a|]);
    }
  }

  lemma ClearingCall(idx: nat, calls: seq<Call>, tag: nat) returns (k: nat)
    requires ClearedIn(idx, calls, tag)
    ensures k < |calls| && calls[k] == Clear(tag) && tag <= idx + Installs(calls[..k])
  {
    k :| 0 <= k < |calls| && calls[k] == Clear(tag) && tag <= idx + Installs(calls[..k]);
  }

  lemma Clearing(idx: nat, calls: seq<Call>, tag: nat, k: nat)
    requires k < |calls| && calls[k] == Clear(tag) && tag <= idx + Installs(calls[..k])
    ensures ClearedIn(idx, calls, tag)
  {
  }

  lemma ClearedInEither(idx: nat, a: seq<Call>, b: seq<Call>, tag: nat)
    requires ClearedIn(idx, a + b, tag)
    ensures ClearedIn(idx, a, tag) || ClearedIn(idx + Installs(a), b, tag)
  {
    hide Installs, ClearedIn;
    var k := ClearingCall(idx, a + b, tag);
    Prefix(a, b, k);
    if k < |a| {
      Clearing(idx, a, tag, k);
    } else {
      Clearing(idx + Installs(a), b, tag, k - |a|);
    }
  }

  lemma ClearedInAppend(idx: nat, a: seq<Call>, b: seq<Call>, tag: nat)
    requires ClearedIn(idx, a, tag) || ClearedIn(idx + Installs(a), b, tag)
    ensures ClearedIn(idx, a + b, tag)
  {
    hide Installs, ClearedIn;
    if ClearedIn(idx, a, tag) {
      var k := ClearingCall(idx, a, tag);
      Prefix(a, b, k);
      Clearing(idx, a + b, tag, k);
    } else {
      var k := ClearingCall(idx + Installs(a), b, tag);
      Prefix(a, b, |a| + k);
      Clearing(idx, a + b, tag, |a| + k);
    }
  }

  lemma InstalledByAppend(b: Books, b': Books, b'': Books, calls: seq<Call>, more: seq<Call>, k: nat)
    requires Made(b, b', calls) && Made(b', b'', more) && k < |calls + more| && (calls + more)[k].Install?
    ensures InstalledBy(b, b'', calls + more, k)
  {
    var all := calls + more;
    if k < |calls| {
      assert InstalledBy(b, b', calls, k);
      assert all[..k] == calls[..k] && all[..k + 1] == calls[..k + 1];
    } else {
      var l := k - |calls|;
      assert InstalledBy(b', b'', more, l);
      assert all[..k] == calls + more[..l] && all[..k + 1] == calls + more[..l + 1];
      CallsAppend(calls, more[..l]);
      CallsAppend(calls, more[..l + 1]);
    }
  }

  lemma ClearedBefore(idx: nat, calls: seq<Call>, tag: nat)
    requires ClearedIn(idx, calls, tag)
    ensures tag <= idx + Installs(calls)
  {
    var k :| 0 <= k < |calls| && calls[k] == Clear(tag) && tag <= idx + Installs(calls[..k]);
    assert calls == calls[..k] + calls[k..];
    CallsAppend(calls[..k], calls[k..]);
  }

  /** Calls made one after the other. */
  lemma MadeThen(b: Books, b': Books, b'': Books, calls: seq<Call>, more: seq<Call>)
    requires Made(b, b', calls) && Made(b', b'', more)
    ensures Made(b, b'', calls + more)
  {
    CallsAppend(calls, more);
    forall tag ensures ClearedIn(b.idx, calls + more, tag) <==>
      ClearedIn(b.idx, calls, tag) || ClearedIn(b'.idx, more, tag)
    {
      if ClearedIn(b.idx, calls + more, tag) {
        ClearedInEither(b.idx, calls, more, tag);
      } else if ClearedIn(b.idx, calls, tag) || ClearedIn(b'.idx, more, tag) {
        ClearedInAppend(b.idx, calls, more, tag);
      }
    }
    forall k | 0 <= k < |calls + more| && (calls + more)[k].Install? ensures InstalledBy(b, b'', calls + more, k) {
      InstalledByAppend(b, b', b'', calls, more, k);
    }
    hide ClearedIn, InstalledBy;
    assert forall i :: 0 <= i < |b'.log| ==> b''.log[i] == b'.log[i];
    forall tag | ClearedIn(b.idx, calls, tag) ensures tag !in b''.mapped {
      ClearedBefore(b.idx, calls, tag);
    }
  }

  lemma ClearedByCalls(b: Books, b': Books, calls: seq<Call>, script: seq<Behaviour>)
    requires Made(b, b', calls)
    requires calls == [] || exists k :: 0 <= k < |script| && script[k].calls == calls
    ensures forall i :: |b.log| <= i < |b'.log| && b'.log[i].Cleared? ==> ClearedBy(b'.log[i].tag, script)
  {
    forall i | |b.log| <= i < |b'.log| && b'.log[i].Cleared? ensures ClearedBy(b'.log[i].tag, script) {
      var j :| 0 <= j < |calls| && calls[j] == Clear(b'.log[i].tag);
      var k :| 0 <= k < |script| && script[k].calls == calls;
    }
  }

  lemma MadeNone(b: Books, b': Books)
    requires Later(b, b') && b.idx == b'.idx && b.clock == b'.clock
    requires forall i :: |b.log| <= i < |b'.log| ==> !b'.log[i].Cleared?
    ensures Made(b, b', [])
  {
  }

  lemma MadeInstall(b: Books, b': Books, call: Call)
    requires call.Install? && Later(b, b') && b'.idx == b.idx + 1 && b'.clock == b.clock + call.elapsed
    requires b'.log == b.log + [Installed(b'.idx)] && b'.idx in b'.byTag && b'.idx in b'.firstDue
    requires b'.byTag[b'.idx].repeats == call.repeats
    requires b'.byTag[b'.idx].interval == if call.intervalMs < 0.0 then 0 else call.intervalMs.Floor
    requires b'.firstDue[b'.idx] == b'.clock + b'.byTag[b'.idx].interval
    ensures Made(b, b', [call])
  {
    assert [call][..0] == [] && [call][..1] == [call] && [call][1..] == [];
    assert Installs([call]) == 1 && Elapsed([call]) == call.elapsed;
  }

  lemma MadeClear(b: Books, b': Books, tag: nat)
    requires Later(b, b') && b'.idx == b.idx && b'.clock == b.clock && tag !in b'.mapped
    requires b'.log == b.log || (b'.log == b.log + [Cleared(tag)] && tag <= b.idx)
    ensures Made(b, b', [Clear(tag)])
  {
    var calls := [Clear(tag)];
    assert calls[0] == Clear(tag) && calls[..0] == [] && calls[1..] == [];
    assert tag <= b.idx ==> ClearedIn(b.idx, calls, tag);
  }

  /** What came before the calls cleared and installed nothing. */
  lemma MadeBefore(b: Books, b': Books, b'': Books, calls: seq<Call>)
    requires Made(b, b', []) && Made(b', b'', calls)
    ensures Made(b, b'', calls)
  {
    MadeThen(b, b', b'', [], calls);
    assert [] + calls == calls;
  }

  lemma MadeAfter(b: Books, b': Books, b'': Books, calls: seq<Call>)
    requires Made(b, b', calls) && Made(b', b'', [])
    ensures Made(b, b'', calls)
  {
    MadeThen(b, b', b'', calls, []);
    assert calls + [] == calls;
  }

  /** A step makes its calls: those from outside, or those of the callbacks that ran in the pass. */
  ghost predicate Taken(b: Books, b': Books, step: Step) {
    match step
    case Outside(calls) => Made(b, b', calls)
    case Dispatch(elapsed, script) => exists n :: Made(b.(clock := b.clock + elapsed), b', CallsOf(script, n))
  }

  lemma TakenOutside(b: Books, b': Books, calls: seq<Call>)
    requires Made(b, b', calls)
    ensures Taken(b, b', Outside(calls))
  {
  }

  lemma TakenPass(b: Books, b': Books, elapsed: nat, script: seq<Behaviour>, n: nat)
    requires Made(b.(clock := b.clock + elapsed), b', CallsOf(script, n))
    ensures Taken(b, b', Dispatch(elapsed, script))
  {
  }

  lemma SameBooks(b: Books)
    ensures Later(b, b) && Made(b, b, [])
  {
  }

  lemma MadeLater(b: Books, b': Books, calls: seq<Call>)
    requires Made(b, b', calls)
    ensures Later(b, b')
  {
  }

  /** The callback that comes after the first `n` made its calls, if one ran. */
  lemma MadeNext(b: Books, b': Books, b'': Books, script: seq<Behaviour>, n: nat, ran: bool)
    requires Made(b, b', CallsOf(script, n)) && Made(b', b'', if ran then EntryAt(script, n).calls else [])
    ensures Made(b, b'', CallsOf(script, if ran then n + 1 else n))
  {
    hide Made;
    MadeThen(b, b', b'', CallsOf(script, n), if ran then EntryAt(script, n).calls else []);
    assert CallsOf(script, n) + [] == CallsOf(script, n);
  }

  // ---------- one dispatch pass ----------

  /**
   Where a pass is: the history began it at `base`, at time `now`, with `due` the fire times by tag and `idx` the last
   tag given out. The last callback was that of (lastDue, lastTag); `fired` holds the tags of all of them, and `kept`
   has those of the timers put into `timeoutsToRepeat`. `again` is the flag of the timer whose callback is running.
   */
  datatype Pass = Pass(base: nat, now: nat, idx: nat, due: map<nat, int>, script: seq<Behaviour>,
    lastDue: int, lastTag: nat, again: bool, fired: set<nat>, kept: map<nat, TimeoutInfo>)

  /** The pass `p` is a later moment of. */
  ghost predicate SamePass(p: Pass, p': Pass) {
    (p.base, p.now, p.idx, p.due, p.script) == (p'.base, p'.now, p'.idx, p'.due, p'.script)
  }

  /** When a timer that fires in the pass was due: as it stood when the pass began, or at once if installed since. */
  function DueAt(p: Pass, tag: nat): int {
    if tag in p.due then p.due[tag] else p.now
  }

  /** A timer that fires in a pass, and whether it is to repeat. */
  datatype Firing = Firing(info: TimeoutInfo, again: bool, pass: Pass)

  /** A timer that is deleted in a pass. */
  datatype Deletion = Deletion(info: TimeoutInfo, pass: Pass, held: set<nat>)

  /** Callbacks ran in strictly increasing (fireTime, tag) order, none twice, none due later than the pass. */
  ghost predicate InOrder(log: seq<Event>, p: Pass) {
    && p.base <= |log|
    && (forall i :: p.base <= i < |log| && log[i].Fired? ==>
          log[i].due <= p.now && !KeyLess(p.lastDue, p.lastTag, log[i].due, log[i].tag))
    && (forall i, j :: p.base <= i < j < |log| && log[i].Fired? && log[j].Fired? ==>
          KeyLess(log[i].due, log[i].tag, log[j].due, log[j].tag) && log[i].tag != log[j].tag)
  }

  /** A timer that fired is kept if it is to repeat, and deleted if not or if cleared; `held` is still running. */
  ghost predicate Settled(log: seq<Event>, p: Pass, held: set<nat>, e: Event)
    requires e.Fired?
  {
    && e.tag in p.fired
    && if e.tag in held then e.again == p.again
       else (e.again && e.tag in p.kept) || (Deleted(e.tag) in log && (!e.again || Cleared(e.tag) in log))
  }

  /** What the pass has added to the history. */
  ghost predicate Account(log: seq<Event>, p: Pass, held: set<nat>) {
    && InOrder(log, p)
    && (forall i :: p.base <= i < |log| && log[i].Fired? ==> Settled(log, p, held, log[i]))
    && (forall i :: p.base <= i < |log| && log[i].Cleared? ==> ClearedBy(log[i].tag, p.script))
  }

  /** Event `e` is in the history, at `base` or later. */
  ghost predicate Since(log: seq<Event>, base: nat, e: Event) {
    exists i :: base <= i < |log| && log[i] == e
  }

  lemma AccountExtends(log: seq<Event>, log': seq<Event>, p: Pass, held: set<nat>)
    requires Account(log, p, held) && log <= log'
    requires forall i :: |log| <= i < |log'| ==>
      !log'[i].Fired? && (log'[i].Cleared? ==> ClearedBy(log'[i].tag, p.script))
    ensures Account(log', p, held)
    ensures forall e :: Since(log, p.base, e) ==> Since(log', p.base, e)
    ensures forall e :: e in log ==> e in log'
  {
    assert forall i :: 0 <= i < |log| ==> log'[i] == log[i];
    forall i | p.base <= i < |log'| && log'[i].Fired? ensures Settled(log', p, held, log'[i]) {
      assert Settled(log, p, held, log[i]);
    }
  }

  /** The pass once the timer (due, tag) has fired. */
  function AfterFiring(p: Pass, due: int, tag: nat, again: bool): Pass {
    p.(lastDue := due, lastTag := tag, again := again, fired := p.fired + {tag})
  }

  lemma AccountFires(log: seq<Event>, p: Pass, due: int, tag: nat, again: bool)
    requires Account(log, p, {}) && KeyLess(p.lastDue, p.lastTag, due, tag) && due <= p.now && tag !in p.fired
    ensures var log' := log + [Fired(tag, due, again)];
      && Account(log', AfterFiring(p, due, tag, again), {tag})
      && Since(log', p.base, Fired(tag, due, again))
      && forall e :: Since(log, p.base, e) ==> Since(log', p.base, e)
  {
    var e, p' := Fired(tag, due, again), AfterFiring(p, due, tag, again);
    var log' := log + [e];
    assert log'[|log|] == e && forall i :: 0 <= i < |log| ==> log'[i] == log[i];
    assert forall i :: p.base <= i < |log| && log[i].Fired? ==> Settled(log, p, {}, log[i]);
    forall i | p.base <= i < |log'| && log'[i].Fired? ensures Settled(log', p', {tag}, log'[i]) {
      if i < |log| {
        assert Settled(log, p, {}, log[i]);
      }
    }
  }

  /** The running timer is done with: it is kept, or it has been deleted. */
  lemma AccountSettles(log: seq<Event>, p: Pass, tag: nat, p': Pass)
    requires Account(log, p, {tag}) && p' == p.(kept := p'.kept) && p.kept.Keys <= p'.kept.Keys
    requires (tag in p'.kept && p.again) || (Deleted(tag) in log && (!p.again || Cleared(tag) in log))
    ensures Account(log, p', {})
  {
    forall i | p.base <= i < |log| && log[i].Fired? ensures Settled(log, p', {}, log[i]) {
      assert Settled(log, p, {tag}, log[i]);
    }
  }

  // ---------- why callbacks ran and timers were deleted ----------

  /** A callback of `tag` has run since `base`, and whether its timer was to repeat. */
  ghost predicate FiredAs(log: seq<Event>, base: nat, tag: nat, again: bool) {
    exists i :: base <= i < |log| && log[i].Fired? && log[i].tag == tag && log[i].again == again
  }

  /** Position `i` of the history is run `k` of the pass: of a timer it began with or one installed since, when due. */
  ghost predicate RanAs(log: seq<Event>, byTag: map<nat, TimeoutInfo>, p: Pass, i: nat, k: nat) {
    && p.base <= i < |log| && log[i].Fired? && log[i].tag in byTag
    && (log[i].tag in p.due || log[i].tag > p.idx) && log[i].due == DueAt(p, log[i].tag)
    && (log[i].again <==> byTag[log[i].tag].repeats && EntryAt(p.script, k).rc == 0)
  }

  /** `runs` are the positions of all callbacks of the pass. */
  ghost predicate RunsTold(log: seq<Event>, byTag: map<nat, TimeoutInfo>, p: Pass, runs: seq<nat>) {
    && (forall k :: 0 <= k < |runs| ==> RanAs(log, byTag, p, runs[k], k))
    && (forall j, k :: 0 <= j < k < |runs| ==> runs[j] < runs[k])
    && (forall i: nat :: p.base <= i < |log| && log[i].Fired? ==> i in runs)
  }

  /** Only cleared timers, and timers that fired and do not repeat, were deleted; only ones that repeat are kept. */
  ghost predicate EndsTold(log: seq<Event>, p: Pass) {
    && (forall i :: p.base <= i < |log| && log[i].Deleted? ==>
          Cleared(log[i].tag) in log || FiredAs(log, p.base, log[i].tag, false))
    && (forall tag :: tag in p.kept ==> FiredAs(log, p.base, tag, true))
  }

  ghost predicate Explained(log: seq<Event>, byTag: map<nat, TimeoutInfo>, p: Pass, runs: seq<nat>) {
    RunsTold(log, byTag, p, runs) && EndsTold(log, p)
  }

  /** What may follow the callback of `tag`, or a cancelled timer: calls, and the deletion of a timer done with. */
  ghost predicate Aftermath(log: seq<Event>, log': seq<Event>, tag: nat, again: bool) {
    && log <= log'
    && forall i :: |log| <= i < |log'| ==>
         log'[i].Installed? || log'[i].Cleared? || (log'[i] == Deleted(tag) && (again ==> Cleared(tag) in log'))
  }

  lemma FiredStays(log: seq<Event>, log': seq<Event>, base: nat)
    requires log <= log'
    ensures forall tag, again :: FiredAs(log, base, tag, again) ==> FiredAs(log', base, tag, again)
    ensures forall e :: e in log ==> e in log'
  {
    assert forall i :: 0 <= i < |log| ==> log'[i] == log[i];
  }

  lemma RunsAfter(log: seq<Event>, log': seq<Event>, byTag: map<nat, TimeoutInfo>, byTag': map<nat, TimeoutInfo>,
      p: Pass, p': Pass, runs: seq<nat>)
    requires RunsTold(log, byTag, p, runs) && SamePass(p, p') && log <= log'
    requires forall i :: |log| <= i < |log'| ==> !log'[i].Fired?
    requires forall t :: t in byTag ==> t in byTag' && byTag'[t] == byTag[t]
    ensures RunsTold(log', byTag', p', runs)
  {
    assert forall i :: 0 <= i < |log| ==> log'[i] == log[i];
    assert forall k :: 0 <= k < |runs| ==> RanAs(log, byTag, p, runs[k], k);
  }

  lemma ExplainedAfter(b: Books, b': Books, p: Pass, p': Pass, runs: seq<nat>, tag: nat, again: bool)
    requires Explained(b.log, b.byTag, p, runs) && p.base <= |b.log|
    requires Later(b, b') && Aftermath(b.log, b'.log, tag, again)
    requires again || FiredAs(b.log, p.base, tag, false)
    requires SamePass(p, p')
    requires forall t :: t in p'.kept ==> t in p.kept || (t == tag && FiredAs(b.log, p.base, tag, true))
    ensures Explained(b'.log, b'.byTag, p', runs)
  {
    RunsAfter(b.log, b'.log, b.byTag, b'.byTag, p, p', runs);
    FiredStays(b.log, b'.log, p.base);
    hide RunsTold, FiredAs;
    assert forall i :: 0 <= i < |b.log| ==> b'.log[i] == b.log[i];
  }

  lemma RunsFire(log: seq<Event>, byTag: map<nat, TimeoutInfo>, p: Pass, p': Pass, runs: seq<nat>, e: Event)
    requires RunsTold(log, byTag, p, runs) && SamePass(p, p')
    requires e.Fired? && RanAs(log + [e], byTag, p, |log|, |runs|)
    ensures RunsTold(log + [e], byTag, p', runs + [|log|])
  {
    var log', runs' := log + [e], runs + [|log|];
    assert runs'[|runs|] == |log| && forall i :: 0 <= i < |log| ==> log'[i] == log[i];
    assert forall k :: 0 <= k < |runs| ==> runs'[k] == runs[k] && RanAs(log, byTag, p, runs[k], k);
    forall i: nat | p.base <= i < |log'| && log'[i].Fired? ensures i in runs' {
      assert i < |log| ==> i in runs;
    }
  }

  lemma ExplainedFires(log: seq<Event>, byTag: map<nat, TimeoutInfo>, p: Pass, p': Pass, runs: seq<nat>, e: Event)
    requires Explained(log, byTag, p, runs) && p.base <= |log| && SamePass(p, p') && p'.kept == p.kept
    requires e.Fired? && RanAs(log + [e], byTag, p, |log|, |runs|)
    ensures Explained(log + [e], byTag, p', runs + [|log|]) && FiredAs(log + [e], p.base, e.tag, e.again)
  {
    RunsFire(log, byTag, p, p', runs, e);
    FiredStays(log, log + [e], p.base);
    assert (log + [e])[|log|] == e;
    hide RunsTold, RanAs;
  }

  /** A timer that fired was due when the pass says. */
  lemma DueTold(log: seq<Event>, byTag: map<nat, TimeoutInfo>, p: Pass, runs: seq<nat>)
    requires Explained(log, byTag, p, runs)
    ensures forall i :: p.base <= i < |log| && log[i].Fired? ==> log[i].due == DueAt(p, log[i].tag)
  {
    forall i | p.base <= i < |log| && log[i].Fired? ensures log[i].due == DueAt(p, log[i].tag) {
      var k :| 0 <= k < |runs| && runs[k] == i;
      assert RanAs(log, byTag, p, runs[k], k);
    }
  }

  lemma AddedLater(log: seq<Event>, log': seq<Event>)
    requires log <= log'
    ensures forall e :: e in log' && e !in log ==> Since(log', |log|, e)
  {
  }

  /** `gTimeoutMap`, `gTimeoutIdx`, `gTimeoutQueue` and the clock. */
  class Scheduler {
    var timeoutMap: map<nat, TimeoutInfo>
    var timeoutIdx: nat
    var queue: seq<TimeoutInfo>
    var clock: nat

    /** The objects allocated and not deleted. */
    ghost var live: set<TimeoutInfo>
    /** The live objects a running `dispatchTimeouts` holds: `timeoutsToRepeat` and the one whose callback runs. */
    ghost var aside: set<TimeoutInfo>
    ghost var log: seq<Event>
    /** By tag, every timer there was and when it was first due; and the tags cleared and deleted so far. */
    ghost var byTag: map<nat, TimeoutInfo>
    ghost var firstDue: map<nat, int>
    ghost var cleared: set<nat>
    ghost var deleted: set<nat>

    /** The live objects are the disjoint union of the heap and what a running dispatch holds. */
    ghost predicate Owned()
      reads `queue, `live, `aside
    {
      && Distinct(queue)
      && (forall t :: t in queue ==> t in live && t !in aside)
      && (forall t :: t in live ==> t in queue || t in aside)
      && aside <= live
    }

    ghost predicate Tagged()
      reads `live, `timeoutIdx, `byTag, `firstDue, live
    {
      && (forall t :: t in live ==> 0 < t.tag <= timeoutIdx)
      && (forall t :: t in live ==> t.tag in byTag && byTag[t.tag] == t)
      && (forall tag :: tag in byTag ==> tag <= timeoutIdx) && firstDue.Keys == byTag.Keys
      && (forall t :: t in live ==> if t.canceled then t.fireTime == STEADY_MINIMAL else t.fireTime >= 0)
    }

    /** `gTimeoutMap` holds exactly the live objects that are not cancelled, by tag. */
    ghost predicate Mapped()
      reads `live, `timeoutMap, live`tag, live`canceled
    {
      && (forall tag :: tag in timeoutMap ==>
            timeoutMap[tag] in live && timeoutMap[tag].tag == tag && !timeoutMap[tag].canceled)
      && (forall t :: t in live && !t.canceled ==> t.tag in timeoutMap && timeoutMap[t.tag] == t)
    }

    ghost predicate Counted(e: Event)
      reads `timeoutIdx, `cleared, `deleted
    {
      e.tag <= timeoutIdx && (e.Cleared? ==> e.tag in cleared) && (e.Deleted? ==> e.tag in deleted)
    }

    /** The history is lawful, and `cleared` and `deleted` are the tags it says were. */
    ghost predicate Logged()
      reads `timeoutIdx, `log, `cleared, `deleted
    {
      && Lawful(log)
      && (forall i :: 0 <= i < |log| ==> Counted(log[i]))
      && (forall tag :: tag in cleared ==> tag <= timeoutIdx)
      && (forall tag :: tag in deleted ==> tag <= timeoutIdx)
    }

    /** No live timer was deleted, and one that was cleared is cancelled. */
    ghost predicate Recorded()
      reads `live, `timeoutIdx, `log, `cleared, `deleted, live`tag, live`canceled
    {
      Logged() && forall t :: t in live ==> t.tag !in deleted && (t.tag in cleared ==> t.canceled)
    }

    ghost predicate Marked()
      reads `live, `log, live`tag, live`canceled
    {
      forall t :: t in live && t.canceled ==> Cleared(t.tag) in log
    }

    /** Everything but the heap order, which `clearTimeout` breaks for a moment. */
    ghost predicate Consistent()
      reads `timeoutMap, `timeoutIdx, `queue, `live, `aside, `log, `byTag, `firstDue, `cleared, `deleted, live
    {
      Owned() && Tagged() && Mapped() && Recorded() && Marked()
    }

    ghost predicate Valid()
      reads `timeoutMap, `timeoutIdx, `queue, `live, `aside, `log, `byTag, `firstDue, `cleared, `deleted, live
    {
      Consistent() && (forall t :: t in queue ==> t in live) && IsHeap(queue)
    }

    constructor ()
      ensures Valid() && fresh(live) && aside == {} && queue == [] && log == []
      ensures timeoutMap == map[] && timeoutIdx == 0 && clock == 0
    {
      timeoutMap, timeoutIdx, queue, clock := map[], 0, [], 0;
      live, aside, log := {}, {}, [];
      byTag, firstDue, cleared, deleted := map[], map[], {}, {};
    }

    // ----- the invariant -----

    /** Bookkeeping only: append `e` to the history. */
    ghost method Note(e: Event)
      requires Recorded() && e.tag <= timeoutIdx && Allowed(log, e)
      requires forall t :: t in live && t.tag == e.tag ==> !e.Deleted? && (e.Cleared? ==> t.canceled)
      modifies this`log, this`cleared, this`deleted
      ensures Recorded() && log == old(log) + [e]
      ensures old(Marked()) ==> Marked()
    {
      LawfulSnoc(log, e);
      hide Lawful, Allowed;
      log := log + [e];
      cleared := if e.Cleared? then cleared + {e.tag} else cleared;
      deleted := if e.Deleted? then deleted + {e.tag} else deleted;
      assert Logged() by {
        assert forall k :: 0 <= k < |log| ==> log[k] == e || (k < |log| - 1 && log[k] == old(log)[k]);
      }
      hide Logged;
    }

    // ----- TimeoutQueue -----

    method UpdateForInfo(info: TimeoutInfo) returns (found: bool)
      requires Consistent()
      modifies this`queue
      ensures Consistent() && found == (info in old(queue))
      ensures if found then IsHeap(queue) && |queue| == |old(queue)| else queue == old(queue)
      ensures forall t :: t in queue <==> t in old(queue)
    {
      hide Mapped, Recorded, Marked, IsHeap;
      found := info in queue;
      if found {
        queue := MakeHeap(queue);
      }
    }

    method PushTimeouts(timerVec: seq<TimeoutInfo>)
      requires Valid() && Distinct(timerVec) && forall t :: t in timerVec ==> t in aside
      modifies this`queue, this`aside
      ensures Valid() && aside == old(aside) - set t | t in timerVec
      ensures forall t :: t in queue <==> t in old(queue) || t in timerVec
    {
      hide Mapped, Recorded, Marked, IsHeap;
      if |timerVec| == 0 {
        return;
      }
      aside := aside - set t | t in timerVec;
      queue := MakeHeap(queue + timerVec);
    }

    method Pop() returns (info: TimeoutInfo)
      requires Valid() && |queue| > 0
      modifies this`queue, this`aside
      ensures Valid() && info == old(queue[0]) && aside == old(aside) + {info}
      ensures |queue| == |old(queue)| - 1
      ensures forall t :: t in queue <==> t in old(queue) && t != info
    {
      hide Mapped, Recorded, Marked, IsHeap;
      info := queue[0];
      aside := aside + {info};
      queue := MakeHeap(queue[1..]);
    }

    /** A timer held aside goes into the heap. */
    method Push(info: TimeoutInfo)
      requires Consistent() && info in aside
      modifies this`queue, this`aside
      ensures Valid() && aside == old(aside) - {info}
      ensures |queue| == |old(queue)| + 1
      ensures forall t :: t in queue <==> t in old(queue) || t == info
    {
      hide Mapped, Recorded, Marked, IsHeap;
      aside := aside - {info};
      queue := MakeHeap(queue + [info]);
    }

    // ----- installTimeout, clearTimeout -----

    /** No event is about a tag that has yet to be given out. */
    lemma NeverUsed(tag: nat)
      requires Recorded() && tag > timeoutIdx
      ensures Allowed(log, Installed(tag))
    {
      assert forall i :: 0 <= i < |log| ==> Counted(log[i]);
    }

    twostate lemma WithOne(info: TimeoutInfo)
      requires old(Owned() && Tagged() && Mapped() && Recorded() && Marked()) && info !in old(live)
      requires (forall t :: t in old(live) ==> t.tag < info.tag) && info.tag !in old(timeoutMap) && info !in queue
      requires timeoutIdx == old(timeoutIdx) + 1 == info.tag && !info.canceled && info.fireTime >= 0
      requires live == old(live) + {info} && aside == old(aside) + {info} && queue == old(queue) && log == old(log)
      requires firstDue == old(firstDue)[info.tag := info.fireTime]
      requires byTag == old(byTag)[info.tag := info] && timeoutMap == old(timeoutMap)[info.tag := info]
      requires cleared == old(cleared) && deleted == old(deleted) && unchanged(live)
      ensures Owned() && Tagged() && Mapped() && Recorded() && Marked()
    {
      assert forall i :: 0 <= i < |log| ==> old(Counted(log[i]));
    }

    /** A new timer gets the next tag and is entered in the map. */
    method Adopt(info: TimeoutInfo)
      requires Consistent() && info !in live && !info.canceled && info.fireTime >= 0 && info.tag == timeoutIdx + 1
      modifies this`timeoutMap, this`timeoutIdx, this`live, this`aside, this`byTag, this`firstDue
      ensures timeoutIdx == old(timeoutIdx) + 1
      ensures Consistent() && live == old(live) + {info} && aside == old(aside) + {info}
      ensures timeoutMap == old(timeoutMap)[info.tag := info] && Allowed(log, Installed(info.tag))
      ensures byTag == old(byTag)[info.tag := info] && info.tag !in old(byTag)
      ensures firstDue == old(firstDue)[info.tag := info.fireTime] && info.tag !in old(firstDue)
    {
      assert forall t :: t in live ==> t.tag < info.tag;
      assert info.tag !in timeoutMap && info !in queue && info !in aside;
      NeverUsed(info.tag);
      hide Owned, Tagged, Mapped, Recorded, Marked;
      timeoutIdx := timeoutIdx + 1;
      live, aside, byTag := live + {info}, aside + {info}, byTag[info.tag := info];
      firstDue := firstDue[info.tag := info.fireTime];
      timeoutMap := timeoutMap[info.tag := info];
      WithOne(info);
    }

    method InstallTimeout(elapsed: nat, intervalMs: real, repeats: bool) returns (tag: nat)
      requires Valid()
      modifies this
      ensures Valid() && aside == old(aside) && clock == old(clock) + elapsed
      ensures tag == timeoutIdx == old(timeoutIdx) + 1 && tag in timeoutMap
      ensures var info := timeoutMap[tag];
        && fresh(info) && live == old(live) + {info} && timeoutMap == old(timeoutMap)[tag := info]
        && info.interval == (if intervalMs < 0.0 then 0 else intervalMs.Floor) && info.repeats == repeats
        && info.fireTime == clock + info.interval && info.tag == tag
        && (forall t :: t in queue <==> t in old(queue) || t == info)
      ensures |queue| == |old(queue)| + 1 && log == old(log) + [Installed(tag)]
      ensures tag !in old(byTag) && byTag == old(byTag)[tag := timeoutMap[tag]]
      ensures tag !in old(firstDue) && firstDue == old(firstDue)[tag := timeoutMap[tag].fireTime]
    {
      hide Owned, Tagged, Mapped, Recorded, Marked;
      var interval := if intervalMs < 0.0 then 0.0 else intervalMs;
      clock := clock + elapsed;
      var info := new TimeoutInfo(interval.Floor, clock + interval.Floor, repeats, timeoutIdx + 1);
      Adopt(info);
      Note(Installed(info.tag));
      Push(info);
      tag := info.tag;
    }

    twostate lemma CanceledOne(info: TimeoutInfo)
      requires old(Tagged() && Mapped() && Recorded()) && live == old(live) && info in live && !old(info.canceled)
      requires timeoutMap == old(timeoutMap) - {info.tag}
      requires log == old(log) && timeoutIdx == old(timeoutIdx) && byTag == old(byTag)
      requires firstDue == old(firstDue)
      requires cleared == old(cleared) && deleted == old(deleted)
      requires info.tag == old(info.tag) && info.canceled && info.fireTime == STEADY_MINIMAL
      requires forall t :: t in live && t != info ==>
        t.tag == old(t.tag) && t.canceled == old(t.canceled) && t.fireTime == old(t.fireTime) && t.tag != info.tag
      ensures Tagged() && Mapped() && Recorded()
    {
    }

    twostate lemma MarkedOne(info: TimeoutInfo)
      requires old(Marked()) && live == old(live) && log == old(log) + [Cleared(info.tag)]
      requires forall t :: t in live && t != info ==> t.tag == old(t.tag) && t.canceled == old(t.canceled)
      ensures Marked()
    {
      assert forall e :: e in old(log) ==> e in log;
      assert log[|old(log)|] == Cleared(info.tag);
    }

    lemma OnlyOne(info: TimeoutInfo)
      requires Owned() && Tagged() && (info in live || info in aside)
      ensures info in live && forall t :: t in live && t != info ==> t.tag != info.tag
    {
    }

    /** Marks a timer as cancelled, moves it before every other one, and unmaps it. */
    method SetCanceled(info: TimeoutInfo)
      requires Owned() && Tagged() && Mapped() && Recorded() && info in live && !info.canceled
      modifies this`timeoutMap, info`fireTime, info`canceled
      ensures Owned() && Tagged() && Mapped() && Recorded()
      ensures info.canceled && timeoutMap == old(timeoutMap) - {info.tag}
    {
      OnlyOne(info);
      hide Owned, Tagged, Mapped, Recorded;
      info.fireTime := STEADY_MINIMAL;
      info.canceled := true;
      timeoutMap := timeoutMap - {info.tag};
      CanceledOne(info);
    }

    /** What may be noted of a live timer: its deletion, and anything but an installation while it is not cancelled. */
    lemma Permitted(info: TimeoutInfo, e: Event)
      requires Tagged() && Recorded() && info in live && e.tag == info.tag
      requires e.Deleted? || (!info.canceled && !e.Installed?)
      ensures e.tag <= timeoutIdx && Allowed(log, e)
    {
    }

    /** The part of `clearTimeout` that leaves the heap order broken. */
    method Cancel(info: TimeoutInfo)
      requires Consistent() && info in live && !info.canceled
      modifies this`timeoutMap, this`log, this`cleared, this`deleted, info`fireTime, info`canceled
      ensures Consistent() && info.canceled
      ensures timeoutMap == old(timeoutMap) - {info.tag} && log == old(log) + [Cleared(info.tag)]
    {
      OnlyOne(info);
      Permitted(info, Cleared(info.tag));
      hide Owned, Tagged, Mapped, Recorded, Marked;
      SetCanceled(info);
      Note(Cleared(info.tag));
      MarkedOne(info);
    }

    /** What installs and clears since the old state can have done to a timer that was live then. */
    twostate predicate Kept(t: TimeoutInfo)
      reads t
    {
      && t.tag == old(t.tag)
      && ((t.fireTime == old(t.fireTime) && t.canceled == old(t.canceled))
          || (t.fireTime == STEADY_MINIMAL && t.canceled))
    }

    method ClearTimeout(tag: nat)
      requires Valid()
      modifies this`timeoutMap, this`queue, this`log, this`cleared, this`deleted, live`fireTime, live`canceled
      ensures Valid() && |queue| == |old(queue)|
      ensures forall t :: t in queue <==> t in old(queue)
      ensures timeoutMap == old(timeoutMap) - {tag}
      ensures tag in old(timeoutMap) ==> old(timeoutMap[tag]).canceled && log == old(log) + [Cleared(tag)]
      ensures tag !in old(timeoutMap) ==> log == old(log) && queue == old(queue)
      ensures forall t :: t in live ==> Kept(t) && (t.tag != tag ==> t.canceled == old(t.canceled))
    {
      hide Recorded, Marked;
      if tag in timeoutMap {
        var info := timeoutMap[tag];
        Cancel(info);
        var found := UpdateForInfo(info);
        if !found {
          HeapUntouched(queue);
        }
      }
    }

    // ----- dispatchTimeouts -----

    /** The scheduler's books as they are. */
    ghost function Now(): Books
      reads `log, `timeoutIdx, `clock, `timeoutMap, `byTag, `firstDue
    {
      Books(log, timeoutIdx, clock, timeoutMap.Keys, byTag, firstDue)
    }

    twostate predicate Onward()
      reads `log, `timeoutIdx, `clock, `timeoutMap, `byTag, `firstDue
    {
      Later(old(Now()), Now())
    }

    /** What calls made by callbacks keep, from the state before to the state after them. */
    twostate predicate Ran()
      reads this, live
    {
      && Onward()
      && aside == old(aside) && fresh(live - old(live)) && old(live) <= live
      && (forall t :: t in old(live) ==> Kept(t))
      && (forall t :: t in live && t !in old(live) ==>
           t.tag > old(timeoutIdx) && t in queue && t.tag in firstDue
             && (t.canceled || t.fireTime == firstDue[t.tag] >= old(clock)))
      && (forall tag :: tag in byTag && tag !in old(byTag) ==> byTag[tag] in live && byTag[tag].tag == tag)
      && (forall t :: t in queue ==> t in old(queue) || t !in old(live))
      && (forall t :: t in old(queue) ==> t in queue)
      && (forall i :: |old(log)| <= i < |log| ==> log[i].Installed? || log[i].Cleared?)
    }

    lemma GivenOut(tag: nat)
      requires Valid()
      ensures tag in timeoutMap ==> tag <= timeoutIdx
    {
    }

    method PerformInstall(elapsed: nat, intervalMs: real, repeats: bool)
      requires Valid()
      modifies this
      ensures Valid() && Ran() && |queue| == |old(queue)| + 1
      ensures Made(old(Now()), Now(), [Install(elapsed, intervalMs, repeats)])
    {
      hide Valid, Made;
      var tag := InstallTimeout(elapsed, intervalMs, repeats);
      MadeInstall(old(Now()), Now(), Install(elapsed, intervalMs, repeats));
    }

    method PerformClear(tag: nat)
      requires Valid()
      modifies this, live
      ensures Valid() && Ran() && |queue| == |old(queue)|
      ensures Made(old(Now()), Now(), [Clear(tag)])
    {
      hide Valid, Made;
      GivenOut(tag);
      ClearTimeout(tag);
      MadeClear(old(Now()), Now(), tag);
    }

    method Perform(call: Call)
      requires Valid()
      modifies this, live
      ensures Valid() && Ran()
      ensures |queue| == |old(queue)| + Installs([call])
      ensures Made(old(Now()), Now(), [call])
    {
      hide Valid, Ran, Made;
      match call {
        case Install(elapsed, intervalMs, repeats) =>
          PerformInstall(elapsed, intervalMs, repeats);
        case Clear(tag) =>
          PerformClear(tag);
      }
    }

    /** The calls one callback makes. */
    method RunCalls(calls: seq<Call>)
      requires Valid()
      modifies this, live
      ensures Valid() && Ran() && |queue| == |old(queue)| + Installs(calls)
      ensures Made(old(Now()), Now(), calls)
    {
      hide Valid, Made, Installs;
      SameBooks(Now());
      NoCalls();
      var i := 0;
      assert calls[..0] == [];
      while i < |calls|
        invariant 0 <= i <= |calls|
        invariant Valid() && Ran() && |queue| == |old(queue)| + Installs(calls[..i])
        invariant Made(old(Now()), Now(), calls[..i])
      {
        assert calls[..i + 1] == calls[..i] + [calls[i]];
        CallsAppend(calls[..i], [calls[i]]);
        ghost var b := Now();
        Perform(calls[i]);
        MadeThen(old(Now()), b, Now(), calls[..i], [calls[i]]);
        i := i + 1;
      }
      assert calls[..|calls|] == calls;
    }

    twostate lemma WithoutOne(info: TimeoutInfo)
      requires old(Owned() && Tagged() && Recorded() && Marked()) && info in old(aside)
      requires queue == old(queue) && live == old(live) - {info} && aside == old(aside) - {info}
      requires log == old(log) && timeoutIdx == old(timeoutIdx) && byTag == old(byTag)
      requires firstDue == old(firstDue)
      requires cleared == old(cleared) && deleted == old(deleted)
      requires forall t :: t in live ==>
        t.tag == old(t.tag) && t.canceled == old(t.canceled) && t.fireTime == old(t.fireTime)
      ensures Owned() && Tagged() && Recorded() && Marked()
    {
    }

    twostate lemma MappedWithoutOne(info: TimeoutInfo)
      requires old(Mapped()) && live == old(live) - {info} && info in old(live)
      requires timeoutMap == if info.canceled then old(timeoutMap) else old(timeoutMap) - {info.tag}
      requires info.tag == old(info.tag) && info.canceled == old(info.canceled)
      requires forall t :: t in live ==> t.tag == old(t.tag) && t.canceled == old(t.canceled) && t.tag != info.tag
      ensures Mapped()
    {
    }

    /** Unmaps the timer unless it was cancelled, and forgets the object. */
    method Forget(info: TimeoutInfo)
      requires Consistent() && info in aside
      modifies this`timeoutMap, this`live, this`aside
      ensures Consistent() && live == old(live) - {info} && aside == old(aside) - {info}
      ensures timeoutMap == if info.canceled then old(timeoutMap) else old(timeoutMap) - {info.tag}
      ensures forall t :: t in live ==> t.tag != info.tag
    {
      OnlyOne(info);
      hide Owned, Tagged, Mapped, Recorded, Marked;
      if !info.canceled {
        timeoutMap := timeoutMap - {info.tag};
      }
      live, aside := live - {info}, aside - {info};
      WithoutOne(info);
      MappedWithoutOne(info);
    }

    /** Unmaps the timer unless it was cancelled, and deletes it. */
    method Erase(info: TimeoutInfo)
      requires Consistent() && info in aside
      modifies this`timeoutMap, this`live, this`aside, this`log, this`cleared, this`deleted
      ensures Consistent() && live == old(live) - {info} && aside == old(aside) - {info}
      ensures log == old(log) + [Deleted(info.tag)]
      ensures timeoutMap == if info.canceled then old(timeoutMap) else old(timeoutMap) - {info.tag}
    {
      hide Owned, Tagged, Mapped, Recorded, Marked, Allowed;
      OnlyOne(info);
      Permitted(info, Deleted(info.tag));
      Forget(info);
      Note(Deleted(info.tag));
    }

    method Delete(info: TimeoutInfo)
      requires Valid() && info in aside
      modifies this`timeoutMap, this`live, this`aside, this`log, this`cleared, this`deleted
      ensures Valid() && live == old(live) - {info} && aside == old(aside) - {info}
      ensures log == old(log) + [Deleted(info.tag)]
      ensures timeoutMap == if info.canceled then old(timeoutMap) else old(timeoutMap) - {info.tag}
    {
      hide Tagged, Mapped, Recorded, Marked;
      Erase(info);
    }

    ghost predicate Pending(tag: nat, time: int)
      reads `timeoutMap, `queue, `live, live
    {
      tag in timeoutMap && timeoutMap[tag] in queue && timeoutMap[tag] in live && timeoutMap[tag].fireTime == time
    }

    /** The timer has fired in this pass, when it was due, or it was cleared. */
    ghost predicate Met(p: Pass, tag: nat)
      reads `log
    {
      || Since(log, p.base, Fired(tag, DueAt(p, tag), true))
      || Since(log, p.base, Fired(tag, DueAt(p, tag), false))
      || Cleared(tag) in log
    }

    /** The timer is due as it was when the pass began, or it was installed since. */
    ghost predicate InTime(t: TimeoutInfo, p: Pass)
      reads `firstDue, t
    {
      if t.tag in p.due then t.fireTime == p.due[t.tag]
      else t.tag > p.idx && t.tag in firstDue && t.fireTime == firstDue[t.tag] >= p.now
    }

    /** No timer in the heap has another due time than it should. */
    ghost predicate Timed(p: Pass)
      reads `timeoutIdx, `queue, `firstDue, `live, live
    {
      && p.idx <= timeoutIdx && (forall tag :: tag in p.due ==> tag <= p.idx)
      && (forall t :: t in queue && t in live && !t.canceled ==> InTime(t, p))
    }

    /** What a dispatch pass keeps; `held` is the tag of the timer whose callback is running, if any. */
    ghost predicate Passing(p: Pass, held: set<nat>)
      reads `clock, `timeoutIdx, `log, `queue, `timeoutMap, `firstDue, `live, live
    {
      && p.now <= clock && p.lastDue <= p.now && p.lastTag <= timeoutIdx && Timed(p)
      && Account(log, p, held)
      && (forall tag :: tag in p.fired ==> tag <= timeoutIdx)
      && (forall t :: t in queue && t in live ==>
            t.tag !in p.fired && (t.canceled || KeyLess(p.lastDue, p.lastTag, t.fireTime, t.tag)))
      && (forall tag :: tag in p.due ==> Met(p, tag) || Pending(tag, p.due[tag]))
      && (forall tag :: tag in firstDue && tag > p.idx ==> Met(p, tag) || Pending(tag, firstDue[tag]))
    }

    twostate lemma TimedAfterCalls(p: Pass)
      requires old(Timed(p)) && p.now <= old(clock) && Ran()
      ensures Timed(p)
    {
    }

    /** What calls install comes after everything that has fired. */
    twostate lemma OrderAfterCalls(p: Pass)
      requires p.lastDue <= p.now <= old(clock) && p.lastTag <= old(timeoutIdx) && Ran()
      requires forall tag :: tag in p.fired ==> tag <= old(timeoutIdx)
      requires forall t :: t in old(queue) && t in old(live) ==>
        old(t.tag) !in p.fired && (old(t.canceled) || KeyLess(p.lastDue, p.lastTag, old(t.fireTime), old(t.tag)))
      ensures forall t :: t in queue && t in live ==>
        t.tag !in p.fired && (t.canceled || KeyLess(p.lastDue, p.lastTag, t.fireTime, t.tag))
    {
    }

    twostate lemma PendingAfterCalls()
      requires old(Valid()) && Valid() && Ran()
      ensures forall tag, time :: old(Pending(tag, time)) ==> Pending(tag, time) || Cleared(tag) in log
    {
      hide IsHeap, Recorded;
    }

    /** What calls install waits until it is due, unless it is cleared. */
    twostate lemma NewAfterCalls()
      requires old(Valid()) && Valid() && Ran()
      ensures forall tag :: tag in firstDue && tag !in old(firstDue) ==>
        Pending(tag, firstDue[tag]) || Cleared(tag) in log
    {
      hide IsHeap, Recorded, Owned;
    }

    /** Running a callback's calls keeps the pass in order: nothing they install comes before what has fired. */
    method CallsInPass(calls: seq<Call>, ghost p: Pass, ghost held: set<nat>)
      requires Valid() && Passing(p, held)
      requires calls == [] || exists k :: 0 <= k < |p.script| && p.script[k].calls == calls
      modifies this, live
      ensures Valid() && Ran() && |queue| == |old(queue)| + Installs(calls)
      ensures Made(old(Now()), Now(), calls)
      ensures Passing(p, held)
    {
      hide Valid, Timed, Pending, Kept, Installs, Made;
      RunCalls(calls);
      ClearedByCalls(old(Now()), Now(), calls, p.script);
      AccountExtends(old(log), log, p, held);
      TimedAfterCalls(p);
      OrderAfterCalls(p);
      PendingAfterCalls();
      NewAfterCalls();
    }

    /** The pass with a timer that is about to fire. */
    ghost predicate FiresNext(info: TimeoutInfo, p: Pass)
      reads `clock, `timeoutIdx, `log, `queue, `timeoutMap, `firstDue, `live, live, info
    {
      && info.fireTime <= p.now <= clock && info.tag <= timeoutIdx && Timed(p) && InTime(info, p)
      && Account(log, p, {}) && (forall tag :: tag in p.fired ==> tag <= timeoutIdx)
      && info.tag !in p.fired && KeyLess(p.lastDue, p.lastTag, info.fireTime, info.tag)
      && (forall t :: t in queue && t in live ==>
            t.tag !in p.fired && t.tag != info.tag && (t.canceled || Before(info, t)))
      && (forall tag :: tag in p.due ==>
            Met(p, tag) || Pending(tag, p.due[tag]) || (tag == info.tag && p.due[tag] == info.fireTime))
      && (forall tag :: tag in firstDue && tag > p.idx ==>
            Met(p, tag) || Pending(tag, firstDue[tag]) || (tag == info.tag && firstDue[tag] == info.fireTime))
    }

    twostate lemma PassingFired(f: Firing)
      requires old(FiresNext(f.info, f.pass)) && log == old(log) + [Fired(f.info.tag, f.info.fireTime, f.again)]
      requires timeoutIdx == old(timeoutIdx) && clock == old(clock) && queue == old(queue) && firstDue == old(firstDue)
      requires timeoutMap == old(timeoutMap) && live == old(live) && unchanged(live) && unchanged(f.info)
      ensures Passing(AfterFiring(f.pass, f.info.fireTime, f.info.tag, f.again), {f.info.tag})
    {
      AccountFires(old(log), f.pass, f.info.fireTime, f.info.tag, f.again);
      assert forall e :: e in old(log) ==> e in log;
    }

    /** Bookkeeping only: the callback of the timer just popped is about to run. */
    ghost method NoteFired(info: TimeoutInfo, again: bool, p: Pass)
      requires Valid() && info in aside && !info.canceled && FiresNext(info, p)
      modifies this`log, this`cleared, this`deleted
      ensures Valid() && Passing(AfterFiring(p, info.fireTime, info.tag, again), {info.tag})
      ensures log == old(log) + [Fired(info.tag, info.fireTime, again)]
    {
      hide Owned, Tagged, Mapped, Recorded, Marked, FiresNext, Passing, Allowed;
      OnlyOne(info);
      Permitted(info, Fired(info.tag, info.fireTime, again));
      Note(Fired(info.tag, info.fireTime, again));
      PassingFired(Firing(info, again, p));
    }

    /** The top of the heap was just popped: a cancelled one leaves the pass as it is, any other is the next to fire. */
    twostate lemma Popped(f: Firing)
      requires old(Valid() && Passing(f.pass, {}) && |queue| > 0) && f.info == old(queue[0])
      requires f.info.canceled || f.info.fireTime <= f.pass.now
      requires forall t :: t in queue <==> t in old(queue) && t != f.info
      requires log == old(log) && timeoutIdx == old(timeoutIdx) && clock == old(clock) && firstDue == old(firstDue)
      requires timeoutMap == old(timeoutMap) && live == old(live) && unchanged(live)
      ensures if f.info.canceled then Passing(f.pass, {}) else FiresNext(f.info, f.pass)
    {
      hide Account, Met, Recorded, Marked;
      forall t | t in queue ensures Before(f.info, t) && t.tag != f.info.tag {
        var i :| 0 <= i < |old(queue)| && old(queue)[i] == t;
        TopIsEarliest(old(queue), i);
      }
    }

    /** `top` and `pop`; a timer that is not cancelled is noted as fired. */
    method TakeTop(ghost rc: int, ghost p: Pass) returns (info: TimeoutInfo, ghost p': Pass)
      requires Valid() && Passing(p, {})
      requires |queue| > 0 && (queue[0].canceled || queue[0].fireTime <= p.now)
      modifies this`queue, this`aside, this`log, this`cleared, this`deleted
      ensures Valid() && Passing(p', if info.canceled then {} else {info.tag})
      ensures info == old(queue[0]) && aside == old(aside) + {info} && |queue| == |old(queue)| - 1
      ensures p' == if info.canceled then p else AfterFiring(p, info.fireTime, info.tag, info.repeats && rc == 0)
      ensures info.canceled || (info.fireTime == DueAt(p, info.tag) && (info.tag in p.due || info.tag > p.idx))
      ensures log == old(log) + if info.canceled then [] else [Fired(info.tag, info.fireTime, p'.again)]
    {
      hide Valid, Passing;
      info := Pop();
      p' := p;
      Popped(Firing(info, info.repeats && rc == 0, p));
      if !info.canceled {
        NoteFired(info, info.repeats && rc == 0, p);
        p' := AfterFiring(p, info.fireTime, info.tag, info.repeats && rc == 0);
      }
    }

    lemma AsideNotPending(info: TimeoutInfo)
      requires Consistent() && info in aside
      ensures info !in queue && forall tag :: tag in timeoutMap && timeoutMap[tag] in queue ==> tag != info.tag
    {
    }

    /** A timer that is not in the heap has been deleted. */
    twostate lemma PassingWithout(d: Deletion)
      requires old(Passing(d.pass, d.held)) && log == old(log) + [Deleted(d.info.tag)] && d.info !in queue
      requires timeoutIdx == old(timeoutIdx) && clock == old(clock) && queue == old(queue) && firstDue == old(firstDue)
      requires live == old(live) - {d.info} && unchanged(live)
      requires timeoutMap == if d.info.canceled then old(timeoutMap) else old(timeoutMap) - {d.info.tag}
      requires forall tag :: tag in old(timeoutMap) && old(timeoutMap)[tag] in queue ==> tag != d.info.tag
      ensures Passing(d.pass, d.held)
    {
      AccountExtends(old(log), log, d.pass, d.held);
    }

    /** A timer is deleted during a pass. */
    method DeleteInPass(info: TimeoutInfo, ghost p: Pass, ghost held: set<nat>)
      requires Valid() && info in aside && Passing(p, held)
      modifies this`timeoutMap, this`live, this`aside, this`log, this`cleared, this`deleted
      ensures Valid() && live == old(live) - {info} && aside == old(aside) - {info}
      ensures log == old(log) + [Deleted(info.tag)] && timeoutMap.Keys <= old(timeoutMap.Keys)
      ensures Passing(p, held)
    {
      AsideNotPending(info);
      hide Valid, Passing;
      Delete(info);
      PassingWithout(Deletion(info, p, held));
    }

    /** A repeating timer is due again one interval after the pass began. */
    method Rearm(info: TimeoutInfo, now: nat, ghost p: Pass, ghost held: set<nat>)
      requires Valid() && info in aside && !info.canceled && Passing(p, held)
      modifies info`fireTime
      ensures Valid() && Passing(p, held)
      ensures info.fireTime == now + info.interval
    {
      hide Recorded, Marked, Mapped;
      info.fireTime := now + info.interval;
      HeapUntouched(queue);
    }

    /** What `timeoutsToRepeat` holds, beside the timer whose callback is running, if any. */
    ghost predicate Repeating(timeoutsToRepeat: seq<TimeoutInfo>, p: Pass, held: set<TimeoutInfo>)
      reads `aside, `live, live
    {
      && Distinct(timeoutsToRepeat) && (forall t :: t in timeoutsToRepeat ==> t in aside && t in live && t !in held)
      && (forall t :: t in aside ==> t in timeoutsToRepeat || t in held) && held <= aside
      && (forall t :: t in timeoutsToRepeat && t in live ==>
            t.tag in p.kept && t.repeats && (t.canceled || t.fireTime == p.now + t.interval))
      && (forall tag :: tag in p.kept ==>
            p.kept[tag] in timeoutsToRepeat && p.kept[tag] in live && p.kept[tag].tag == tag)
    }

    lemma CanceledIsCleared(info: TimeoutInfo)
      requires Valid() && info in live && info.canceled
      ensures Cleared(info.tag) in log
    {
    }

    lemma PassingSettled(info: TimeoutInfo, p: Pass)
      requires Passing(p, {info.tag}) && Deleted(info.tag) in log && (!p.again || Cleared(info.tag) in log)
      ensures Passing(p, {})
    {
      AccountSettles(log, p, info.tag, p);
    }

    /** A timer that does not go on is deleted after its callback. */
    method Finish(info: TimeoutInfo, ghost timeoutsToRepeat: seq<TimeoutInfo>, ghost p: Pass)
      requires Valid() && Passing(p, {info.tag}) && Repeating(timeoutsToRepeat, p, {info})
      requires info in live && (!p.again || info.canceled)
      modifies this`timeoutMap, this`live, this`aside, this`log, this`cleared, this`deleted
      ensures Valid() && Passing(p, {}) && Repeating(timeoutsToRepeat, p, {})
      ensures live <= old(live) && log == old(log) + [Deleted(info.tag)] && (!p.again || Cleared(info.tag) in log)
      ensures timeoutMap.Keys <= old(timeoutMap.Keys)
    {
      hide Valid, Passing;
      if info.canceled {
        CanceledIsCleared(info);
      }
      DeleteInPass(info, p, {info.tag});
      PassingSettled(info, p);
    }

    /** The running timer is due again one interval after the pass began. */
    method RearmRunning(info: TimeoutInfo, ghost timeoutsToRepeat: seq<TimeoutInfo>, now: nat, ghost p: Pass)
      requires Valid() && Passing(p, {info.tag}) && Repeating(timeoutsToRepeat, p, {info}) && !info.canceled
      modifies info`fireTime
      ensures Valid() && Passing(p, {info.tag}) && Repeating(timeoutsToRepeat, p, {info})
      ensures info.fireTime == now + info.interval
    {
      hide Valid, Passing;
      Rearm(info, now, p, {info.tag});
    }

    /** The running timer is kept for another round. */
    lemma PassingKept(info: TimeoutInfo, p: Pass)
      requires Passing(p, {info.tag}) && p.again
      ensures Passing(p.(kept := p.kept[info.tag := info]), {})
    {
      AccountSettles(log, p, info.tag, p.(kept := p.kept[info.tag := info]));
    }

    lemma RepeatingKept(info: TimeoutInfo, timeoutsToRepeat: seq<TimeoutInfo>, p: Pass)
      requires Repeating(timeoutsToRepeat, p, {info})
      requires info in live && info.repeats && info.fireTime == p.now + info.interval
      ensures Repeating(timeoutsToRepeat + [info], p.(kept := p.kept[info.tag := info]), {})
    {
    }

    /** A timer that goes on is given its next time and put into `timeoutsToRepeat`. */
    method Repeat(info: TimeoutInfo, timeoutsToRepeat: seq<TimeoutInfo>, now: nat, ghost p: Pass)
      returns (timeoutsToRepeat': seq<TimeoutInfo>, ghost p': Pass)
      requires Valid() && Passing(p, {info.tag}) && Repeating(timeoutsToRepeat, p, {info}) && now == p.now
      requires info in live && info.repeats && p.again && !info.canceled
      modifies info`fireTime
      ensures Valid() && Passing(p', {}) && Repeating(timeoutsToRepeat', p', {})
      ensures p' == p.(kept := p.kept[info.tag := info]) && timeoutsToRepeat' == timeoutsToRepeat + [info]
    {
      hide Valid, Passing, Repeating;
      RearmRunning(info, timeoutsToRepeat, now, p);
      p' := p.(kept := p.kept[info.tag := info]);
      timeoutsToRepeat' := timeoutsToRepeat + [info];
      PassingKept(info, p);
      RepeatingKept(info, timeoutsToRepeat, p);
    }

    /** The callback of the timer runs. */
    method Callback(info: TimeoutInfo, calls: seq<Call>, ghost timeoutsToRepeat: seq<TimeoutInfo>, ghost p: Pass)
      requires Valid() && Passing(p, {info.tag}) && Repeating(timeoutsToRepeat, p, {info})
      requires calls == [] || exists k :: 0 <= k < |p.script| && p.script[k].calls == calls
      modifies this, live
      ensures Valid() && Passing(p, {info.tag}) && Repeating(timeoutsToRepeat, p, {info})
      ensures fresh(live - old(live)) && |queue| == |old(queue)| + Installs(calls) && Onward()
      ensures Made(old(Now()), Now(), calls)
      ensures forall i :: |old(log)| <= i < |log| ==> log[i].Installed? || log[i].Cleared?
      ensures info in live && info.tag == old(info.tag)
    {
      CallsInPass(calls, p, {info.tag});
    }

    /** The loop body for a timer that is not cancelled when it is popped. */
    method RunTop(info: TimeoutInfo, behaviour: Behaviour, timeoutsToRepeat: seq<TimeoutInfo>, now: nat, ghost p: Pass)
      returns (timeoutsToRepeat': seq<TimeoutInfo>, ghost p': Pass)
      requires Valid() && Passing(p, {info.tag}) && Repeating(timeoutsToRepeat, p, {info}) && now == p.now
      requires info in live && p.again == (info.repeats && behaviour.rc == 0)
      requires behaviour.calls == [] || behaviour in p.script
      modifies this, live
      ensures Valid() && Passing(p', {}) && Repeating(timeoutsToRepeat', p', {})
      ensures p' == p.(kept := p'.kept)
      ensures forall tag :: tag in p'.kept ==> tag in p.kept || (tag == old(info.tag) && p.again)
      ensures fresh(live - old(live)) && |queue| == |old(queue)| + Installs(behaviour.calls) && Onward()
      ensures Made(old(Now()), Now(), behaviour.calls)
      ensures Aftermath(old(log), log, old(info.tag), p.again)
    {
      hide Valid, Passing, Repeating, Made;
      timeoutsToRepeat', p' := timeoutsToRepeat, p;
      Callback(info, behaviour.calls, timeoutsToRepeat, p);
      ghost var b := Now();
      if behaviour.rc != 0 || !info.repeats || info.canceled {
        Finish(info, timeoutsToRepeat, p);
        MadeNone(b, Now());
        MadeAfter(old(Now()), b, Now(), behaviour.calls);
        return;
      }
      timeoutsToRepeat', p' := Repeat(info, timeoutsToRepeat, now, p);
    }

    method TakeNext(ghost rc: int, ghost timeoutsToRepeat: seq<TimeoutInfo>, ghost p: Pass)
      returns (info: TimeoutInfo, ghost p': Pass)
      requires Valid() && Passing(p, {}) && Repeating(timeoutsToRepeat, p, {})
      requires |queue| > 0 && (queue[0].canceled || queue[0].fireTime <= p.now)
      modifies this`queue, this`aside, this`log, this`cleared, this`deleted
      ensures Valid()
      ensures Passing(p', if info.canceled then {} else {info.tag})
      ensures Repeating(timeoutsToRepeat, p', {info})
      ensures info in live && |queue| == |old(queue)| - 1 && Onward()
      ensures SamePass(p, p') && p'.kept == p.kept && p.base <= |old(log)| && (info.canceled ==> p' == p)
      ensures info.canceled || (p'.again <==> info.repeats && rc == 0)
      ensures info.canceled || (info.tag in byTag && byTag[info.tag] == info && (info.tag in p.due || info.tag > p.idx))
      ensures log == old(log) + if info.canceled then [] else [Fired(info.tag, DueAt(p, info.tag), p'.again)]
    {
      info, p' := TakeTop(rc, p);
    }

    method DropCanceled(info: TimeoutInfo, ghost timeoutsToRepeat: seq<TimeoutInfo>, ghost p: Pass)
      requires Valid() && Passing(p, {}) && Repeating(timeoutsToRepeat, p, {info}) && info in live && info.canceled
      modifies this`timeoutMap, this`live, this`aside, this`log, this`cleared, this`deleted
      ensures Valid() && Passing(p, {}) && Repeating(timeoutsToRepeat, p, {})
      ensures live <= old(live) && Onward() && log == old(log) + [Deleted(info.tag)]
      ensures Aftermath(old(log), log, info.tag, true)
    {
      hide Valid, Passing;
      CanceledIsCleared(info);
      DeleteInPass(info, p, {});
    }

    /** The body of the dispatch loop behind its exit test; `runs` are the callbacks run before. */
    method DispatchTop(behaviour: Behaviour, timeoutsToRepeat: seq<TimeoutInfo>, now: nat, ghost p: Pass,
        ghost runs: seq<nat>)
      returns (timeoutsToRepeat': seq<TimeoutInfo>, ran: bool, ghost p': Pass, ghost runs': seq<nat>)
      requires Valid() && Passing(p, {}) && Repeating(timeoutsToRepeat, p, {}) && now == p.now
      requires |queue| > 0 && (queue[0].canceled || queue[0].fireTime <= now)
      requires behaviour == EntryAt(p.script, |runs|) && Explained(log, byTag, p, runs)
      modifies this, live
      ensures Valid() && Passing(p', {}) && Repeating(timeoutsToRepeat', p', {}) && SamePass(p, p')
      ensures Explained(log, byTag, p', runs') && |runs'| == |runs| + if ran then 1 else 0
      ensures fresh(live - old(live)) && Onward()
      ensures Made(old(Now()), Now(), if ran then behaviour.calls else [])
      ensures |queue| == |old(queue)| - 1 + if ran then Installs(behaviour.calls) else 0
    {
      hide Valid, Passing, Repeating, Explained, FiredAs, Aftermath, Made, Installs, Later;
      var info;
      info, p' := TakeNext(behaviour.rc, timeoutsToRepeat, p);
      timeoutsToRepeat', ran, runs' := timeoutsToRepeat, !info.canceled, runs;
      ghost var tag, p1, b := info.tag, p', Now();
      if info.canceled {
        assert b.log == old(log);
        DropCanceled(info, timeoutsToRepeat, p');
        MadeNone(old(Now()), Now());
        ExplainedAfter(b, Now(), p, p', runs, tag, true);
      } else {
        ExplainedFires(old(log), byTag, p, p', runs, log[|old(log)|]);
        runs' := runs + [|old(log)|];
        timeoutsToRepeat', p' := RunTop(info, behaviour, timeoutsToRepeat, now, p');
        ExplainedAfter(b, Now(), p1, p', runs', tag, p1.again);
        MadeNone(old(Now()), b);
        MadeBefore(old(Now()), b, Now(), behaviour.calls);
        MadeLater(old(Now()), Now(), behaviour.calls);
      }
    }

    /** When the earliest timer is not due, nothing in the heap is due or cancelled. */
    lemma NothingDue(now: nat)
      requires Valid() && |queue| > 0 && !queue[0].canceled && queue[0].fireTime > now
      ensures forall t :: t in queue ==> !t.canceled && t.fireTime > now
    {
      forall t | t in queue ensures !t.canceled && t.fireTime > now {
        var i :| 0 <= i < |queue| && queue[i] == t;
        if i > 0 {
          TopIsEarliest(queue, i);
        }
      }
    }

    /** A pass that begins with the scheduler as it is. */
    ghost function NewPass(now: nat, script: seq<Behaviour>): Pass
      requires forall tag :: tag in timeoutMap ==> timeoutMap[tag] in live
      reads `log, `timeoutIdx, `timeoutMap, `live, live
    {
      Pass(|log|, now, timeoutIdx, map tag | tag in timeoutMap :: timeoutMap[tag].fireTime, script,
        -1, 0, false, {}, map[])
    }

    lemma PassStarts(now: nat, script: seq<Behaviour>)
      requires Valid() && aside == {} && clock <= now
      ensures forall tag :: tag in timeoutMap ==> timeoutMap[tag] in live && tag <= timeoutIdx
      ensures forall tag :: tag in firstDue ==> tag <= timeoutIdx
      ensures forall e :: e in log ==> e.tag <= timeoutIdx
      ensures var p := NewPass(now, script);
        Account(log, p, {}) && Timed(p) && Explained(log, byTag, p, [])
        && (forall tag :: tag in p.due ==> Cleared(tag) !in log && Pending(tag, p.due[tag]))
      ensures forall t :: t in queue && t in live ==> t.canceled || KeyLess(-1, 0, t.fireTime, t.tag)
    {
      hide IsHeap, Lawful;
    }

    /** The pass as it begins. */
    method BeginPass(elapsed: nat, ghost script: seq<Behaviour>) returns (currentTime: nat, ghost p: Pass)
      requires Valid() && aside == {}
      modifies this`clock
      ensures Valid() && currentTime == clock == old(clock) + elapsed
      ensures p == NewPass(currentTime, script)
      ensures Passing(p, {}) && Explained(log, byTag, p, []) && forall tag :: tag in p.due ==> Cleared(tag) !in log
      ensures (forall e :: e in log ==> e.tag <= p.idx) && (forall tag :: tag in p.due ==> tag <= p.idx)
    {
      hide Valid, Account, Explained, Timed, Pending;
      PassStarts(clock + elapsed, script);
      clock := clock + elapsed;
      currentTime := clock;
      p := NewPass(currentTime, script);
    }

    /** What was due and is not in the heap any more has been met; what was not due is there, unless it was cleared. */
    lemma PassEnds(p: Pass)
      requires Passing(p, {}) && forall t :: t in queue && t in live ==> t.fireTime > p.now
      ensures forall tag :: tag in p.due && p.due[tag] <= p.now ==> Met(p, tag)
      ensures forall tag :: tag in p.due && p.due[tag] > p.now ==> Cleared(tag) in log || Pending(tag, p.due[tag])
      ensures forall tag :: tag in firstDue && tag > p.idx ==> Met(p, tag) || Pending(tag, firstDue[tag])
    {
    }

    lemma PassBegins(p: Pass)
      requires p.kept == map[] && aside == {}
      ensures Repeating([], p, {})
    {
    }

    /** The loop of a pass, with what it leaves in the heap and in `timeoutsToRepeat`. */
    method Drain(currentTime: nat, script: seq<Behaviour>, ghost p0: Pass)
      returns (timeoutsToRepeat: seq<TimeoutInfo>, ghost p: Pass, ghost runs: seq<nat>)
      requires Valid() && Passing(p0, {}) && aside == {} && Explained(log, byTag, p0, [])
      requires (p0.base, p0.now, p0.script, p0.kept) == (|log|, currentTime, script, map[])
      modifies this, live
      ensures Valid() && Passing(p, {}) && Repeating(timeoutsToRepeat, p, {}) && SamePass(p0, p)
      ensures Explained(log, byTag, p, runs)
      ensures fresh(live - old(live)) && Onward()
      ensures forall t :: t in queue ==> !t.canceled && t.fireTime > currentTime
      ensures forall tag :: tag in p.due && p.due[tag] <= currentTime ==> Met(p, tag)
      ensures forall tag :: tag in p.due && p.due[tag] > currentTime ==> Cleared(tag) in log || Pending(tag, p.due[tag])
      ensures forall tag :: tag in firstDue && tag > p.idx ==> Met(p, tag) || Pending(tag, firstDue[tag])
      ensures Made(old(Now()), Now(), CallsOf(script, |runs|))
    {
      hide Valid, Passing, Repeating, Met, Pending, Explained, Rest, TotalInstalls, Made, Installs;
      PassBegins(p0);
      p, runs := p0, [];
      timeoutsToRepeat := [];
      var next := 0;
      MadeNone(Now(), Now());
      assert CallsOf(script, 0) == [];
      while |queue| > 0
        invariant next == |runs|
        invariant Valid() && Passing(p, {}) && Repeating(timeoutsToRepeat, p, {}) && SamePass(p0, p)
        invariant Explained(log, byTag, p, runs)
        invariant fresh(live - old(live)) && Onward()
        invariant Made(old(Now()), Now(), CallsOf(script, next))
        decreases TotalInstalls(Rest(script, next)) + |queue|
      {
        var info := queue[0];
        if !info.canceled && info.fireTime > currentTime {
          NothingDue(currentTime);
          break;
        }
        var ran;
        ghost var b := Now();
        timeoutsToRepeat, ran, p, runs := DispatchTop(EntryAt(script, next), timeoutsToRepeat, currentTime, p, runs);
        MadeNext(old(Now()), b, Now(), script, next, ran);
        if ran {
          RestUnfold(script, next);
          next := next + 1;
        }
      }
      PassEnds(p);
    }

    /** What a pass leaves of each timer, told by what is in the history only since it began. */
    lemma Outcome(log0: seq<Event>, p: Pass)
      requires log0 <= log && p.base == |log0| && forall tag :: tag in p.due ==> Cleared(tag) !in log0
      requires forall e :: e in log0 ==> e.tag <= p.idx
      requires forall tag :: tag in p.due ==> tag <= p.idx
      requires forall tag :: tag in p.due && p.due[tag] <= p.now ==> Met(p, tag)
      requires forall tag :: tag in p.due && p.due[tag] > p.now ==> Cleared(tag) in log || Pending(tag, p.due[tag])
      requires forall tag :: tag in firstDue && tag > p.idx ==> Met(p, tag) || Pending(tag, firstDue[tag])
      ensures forall tag :: tag in p.due && p.due[tag] <= p.now ==>
        || Since(log, p.base, Fired(tag, p.due[tag], true)) || Since(log, p.base, Fired(tag, p.due[tag], false))
        || Since(log, p.base, Cleared(tag))
      ensures forall tag :: tag in p.due && p.due[tag] > p.now ==>
        Since(log, p.base, Cleared(tag)) || Pending(tag, p.due[tag])
      ensures forall tag :: tag in firstDue && tag > p.idx ==>
        || Since(log, p.base, Fired(tag, p.now, true)) || Since(log, p.base, Fired(tag, p.now, false))
        || Since(log, p.base, Cleared(tag)) || Pending(tag, firstDue[tag])
    {
      AddedLater(log0, log);
      hide Since, Pending;
    }

    lemma RepeatingMeans(timeoutsToRepeat: seq<TimeoutInfo>, p: Pass)
      requires Repeating(timeoutsToRepeat, p, {}) && aside <= live && EndsTold(log, p)
      ensures Distinct(timeoutsToRepeat) && aside == set t | t in timeoutsToRepeat
      ensures forall t :: t in timeoutsToRepeat ==>
        t in live && t.repeats && (t.canceled || t.fireTime == p.now + t.interval) && FiredAs(log, p.base, t.tag, true)
      ensures forall tag :: tag in p.kept ==> p.kept[tag] in timeoutsToRepeat && p.kept[tag].tag == tag
    {
      hide FiredAs;
    }

    lemma Told(timeoutsToRepeat: seq<TimeoutInfo>, p: Pass, runs: seq<nat>)
      requires Valid() && Passing(p, {}) && Repeating(timeoutsToRepeat, p, {}) && Explained(log, byTag, p, runs)
      ensures Account(log, p, {})
      ensures forall i :: p.base <= i < |log| && log[i].Fired? ==> log[i].due == DueAt(p, log[i].tag)
      ensures Distinct(timeoutsToRepeat) && aside == set t | t in timeoutsToRepeat
      ensures forall t :: t in timeoutsToRepeat ==>
        t in live && t.repeats && (t.canceled || t.fireTime == p.now + t.interval) && FiredAs(log, p.base, t.tag, true)
      ensures forall tag :: tag in p.kept ==> p.kept[tag] in timeoutsToRepeat && p.kept[tag].tag == tag
    {
      hide Account, RunsTold;
      DueTold(log, byTag, p, runs);
      RepeatingMeans(timeoutsToRepeat, p);
    }

    /** A pass up to the end of the loop, when `timeoutsToRepeat` is still to be put back. */
    method Sweep(elapsed: nat, script: seq<Behaviour>)
      returns (timeoutsToRepeat: seq<TimeoutInfo>, ghost p: Pass, ghost runs: seq<nat>)
      requires Valid() && aside == {}
      modifies this, live
      ensures Valid() && fresh(live - old(live)) && Onward() && Passing(p, {}) && Repeating(timeoutsToRepeat, p, {})
      ensures p.base == |old(log)| && p.now == old(clock) + elapsed && p.script == script && p.idx == old(timeoutIdx)
      ensures p.due == old(map tag | tag in timeoutMap :: timeoutMap[tag].fireTime)
      ensures Explained(log, byTag, p, runs)
      ensures Made(old(Now()).(clock := p.now), Now(), CallsOf(script, |runs|))
      ensures forall t :: t in queue ==> !t.canceled && t.fireTime > p.now
      ensures forall tag :: tag in p.due && p.due[tag] <= p.now ==>
        || Since(log, p.base, Fired(tag, p.due[tag], true)) || Since(log, p.base, Fired(tag, p.due[tag], false))
        || Since(log, p.base, Cleared(tag))
      ensures forall tag :: tag in p.due && p.due[tag] > p.now ==>
        Since(log, p.base, Cleared(tag)) || Pending(tag, p.due[tag])
      ensures forall tag :: tag in firstDue && tag > p.idx ==>
        || Since(log, p.base, Fired(tag, p.now, true)) || Since(log, p.base, Fired(tag, p.now, false))
        || Since(log, p.base, Cleared(tag)) || Pending(tag, firstDue[tag])
    {
      hide Valid, Passing, Repeating, Explained, Made, CallsOf, Met, Since, Pending;
      var currentTime;
      currentTime, p := BeginPass(elapsed, script);
      timeoutsToRepeat, p, runs := Drain(currentTime, script, p);
      Outcome(old(log), p);
    }

    /**
     One pass of `dispatchTimeouts`. `script` says what the callbacks of the pass do, in the order they run; one that
     runs after the script has ended makes no calls and returns 0. The callbacks are at the positions `runs` of the
     history.
     */
    method DispatchTimeouts(elapsed: nat, script: seq<Behaviour>)
      returns (ghost repeated: seq<TimeoutInfo>, ghost p: Pass, ghost runs: seq<nat>)
      requires Valid() && aside == {}
      modifies this, live
      ensures Valid() && aside == {} && fresh(live - old(live)) && Onward()
      ensures p.base == |old(log)| && p.now == old(clock) + elapsed && p.script == script && p.idx == old(timeoutIdx)
      ensures p.due == old(map tag | tag in timeoutMap :: timeoutMap[tag].fireTime)
      // the callbacks ran in order; each timer that fired is kept or deleted; only what a callback clears is cleared
      ensures Account(log, p, {})
      ensures forall tag :: tag in p.kept ==> p.kept[tag] in repeated && p.kept[tag].tag == tag
      // each ran because its timer was due, with the outcome the script has for it; only what is done with was deleted
      ensures Explained(log, byTag, p, runs)
      ensures forall i :: p.base <= i < |log| && log[i].Fired? ==> log[i].due == DueAt(p, log[i].tag)
      // the callbacks made the calls the script has for them, and nothing else was cleared
      ensures Made(old(Now()).(clock := p.now), Now(), CallsOf(script, |runs|))
      // apart from the repeating timers put back, nothing cancelled and nothing due is left
      ensures forall t :: t in queue ==> t in repeated || (!t.canceled && t.fireTime > p.now)
      ensures forall t :: t in repeated ==> t in queue && t.repeats && (t.canceled || t.fireTime == p.now + t.interval)
      ensures forall t :: t in repeated ==> FiredAs(log, p.base, t.tag, true)
      // every timer that was due when the pass began has fired in it or was cleared in it
      ensures forall tag :: tag in p.due && p.due[tag] <= p.now ==>
        || Since(log, p.base, Fired(tag, p.due[tag], true)) || Since(log, p.base, Fired(tag, p.due[tag], false))
        || Since(log, p.base, Cleared(tag))
      // every timer that was not due is where it was, unless it was cleared
      ensures forall tag :: tag in p.due && p.due[tag] > p.now ==>
        Since(log, p.base, Cleared(tag)) || Pending(tag, p.due[tag])
      // every timer installed since has fired at once, being due, or waits until it is due, unless it was cleared
      ensures forall tag :: tag in firstDue && tag > p.idx ==>
        || Since(log, p.base, Fired(tag, p.now, true)) || Since(log, p.base, Fired(tag, p.now, false))
        || Since(log, p.base, Cleared(tag)) || Pending(tag, firstDue[tag])
    {
      hide Valid, Passing, Repeating, Account, Explained, EndsTold, RunsTold, FiredAs, Since, Made, CallsOf;
      var timeoutsToRepeat;
      timeoutsToRepeat, p, runs := Sweep(elapsed, script);
      Told(timeoutsToRepeat, p, runs);
      repeated := timeoutsToRepeat;
      PushTimeouts(timeoutsToRepeat);
    }

    // ----- runs -----

    method Take(step: Step)
      requires Valid() && aside == {}
      modifies this, live
      ensures Valid() && aside == {} && fresh(live - old(live)) && Taken(old(Now()), Now(), step)
    {
      hide Valid, Taken, Made;
      match step {
        case Outside(calls) =>
          RunCalls(calls);
          TakenOutside(old(Now()), Now(), calls);
        case Dispatch(elapsed, script) =>
          ghost var repeated, p, runs := DispatchTimeouts(elapsed, script);
          TakenPass(old(Now()), Now(), elapsed, script, |runs|);
      }
    }

    lemma AllQueued()
      requires Valid() && aside == {}
      ensures (forall t :: t in live <==> t in queue) && Lawful(log)
    {
    }

    /**
     A run of the scheduler: timers installed and cleared from outside, and dispatch passes, in any order. After any
     run every object is in the heap or deleted, the map holds exactly those not cancelled, and the history is lawful.
     `trace` has the books after each step: the calls of the step were made, and no others.
     */
    method Run(steps: seq<Step>) returns (ghost trace: seq<Books>)
      requires Valid() && aside == {}
      modifies this, live
      ensures Valid() && aside == {}
      ensures forall t :: t in live <==> t in queue
      ensures Lawful(log)
      ensures |trace| == |steps| + 1 && trace[0] == old(Now()) && trace[|steps|] == Now()
      ensures forall k :: 0 <= k < |steps| ==> Taken(trace[k], trace[k + 1], steps[k])
    {
      hide Valid, Taken, Lawful;
      trace := [Now()];
      var i := 0;
      while i < |steps|
        invariant 0 <= i <= |steps| && |trace| == i + 1
        invariant Valid() && aside == {} && fresh(live - old(live))
        invariant trace[0] == old(Now()) && trace[i] == Now()
        invariant forall k :: 0 <= k < i ==> Taken(trace[k], trace[k + 1], steps[k])
      {
        Take(steps[i]);
        trace := trace + [Now()];
        i := i + 1;
      }
      AllQueued();
    }
  }
}
