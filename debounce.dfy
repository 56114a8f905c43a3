/**
 * The daemon's event coalescing (MCAPDaemon/daemon.go, `dedupLoop`): a map
 * from path to a timer. A Create or Write event for a path without a timer
 * creates one that captures the event; every such event (re)arms the
 * path's timer for 100 ms from now. When a timer fires, its path is passed
 * through the `.mcap` gate, possibly hashed, and its entry is removed.
 *
 * Time is logical (milliseconds as integers) and passed in; a timer can
 * fire once the clock has reached its deadline.
 */
module Debounce {
  import opened Results
  import opened Encoding
  import opened Files
  import opened Sniffer
  import opened Chunks
  import opened McapHash

  /** `waitFor`, in milliseconds. */
  const WaitFor := 100

  /** The fsnotify operations an event can carry. */
  datatype Op = Create | Write | Remove | Rename | Chmod

  datatype Event = Event(name: string, ops: set<Op>)

  /** `e.Has(fsnotify.Create) || e.Has(fsnotify.Write)`. */
  predicate Accepted(e: Event) {
    Create in e.ops || Write in e.ops
  }

  /** A path's timer: the event captured when it was created, and when it fires. */
  datatype Timer = Timer(event: Event, deadline: int)

  type Registry = map<string, Timer>

  /** One entry per path, holding an accepted event for that same path. */
  predicate WellFormed(timers: Registry) {
    forall p :: p in timers ==> timers[p].event.name == p && Accepted(timers[p].event)
  }

  /** The registry after the event loop handles `e` at time `now`. */
  function Notified(timers: Registry, e: Event, now: int): Registry
  {
    if !Accepted(e) then timers
    else
      var t := if e.name in timers then timers[e.name] else Timer(e, now);
      timers[e.name := t.(deadline := now + WaitFor)]
  }

  /** Events that are neither Create nor Write leave the registry unchanged. */
  lemma NotifyIgnores(timers: Registry, e: Event, now: int)
    requires !Accepted(e)
    ensures Notified(timers, e, now) == timers
  {
  }

  /**
   * An accepted event arms its path's timer for a full `WaitFor` from now,
   * keeps the event captured by an existing timer (or captures this one),
   * and touches no other path.
   */
  lemma NotifyArms(timers: Registry, e: Event, now: int)
    requires Accepted(e)
    ensures var r := Notified(timers, e, now);
      && r.Keys == timers.Keys + {e.name}
      && r[e.name].deadline == now + WaitFor
      && r[e.name].event == (if e.name in timers then timers[e.name].event else e)
      && forall p :: p in timers && p != e.name ==> r[p] == timers[p]
  {
  }

  lemma NotifyWellFormed(timers: Registry, e: Event, now: int)
    requires WellFormed(timers)
    ensures WellFormed(Notified(timers, e, now))
  {
  }

  /** Handling `es[k]` at time `times[k]`, one after another. */
  function NotifiedAll(timers: Registry, es: seq<Event>, times: seq<int>): Registry
    requires |es| == |times|
  {
    if es == [] then timers
    else
      var last := |es| - 1;
      Notified(NotifiedAll(timers, es[..last], times[..last]), es[last], times[last])
  }

  /**
   * A burst of accepted events for one path leaves one timer for that path:
   * it still holds the event captured before the burst (or the burst's first
   * event), and its deadline is a full `WaitFor` after the last event, not
   * extended additively. Other paths are untouched.
   */
  lemma {:induction false} BurstCoalesces(timers: Registry, name: string, es: seq<Event>, times: seq<int>)
    requires |es| == |times| > 0
    requires forall k :: 0 <= k < |es| ==> es[k].name == name && Accepted(es[k])
    ensures var r := NotifiedAll(timers, es, times);
      && r.Keys == timers.Keys + {name}
      && r[name].event == (if name in timers then timers[name].event else es[0])
      && r[name].deadline == times[|times| - 1] + WaitFor
      && forall p :: p in timers && p != name ==> r[p] == timers[p]
  {
    var last := |es| - 1;
    var es', times' := es[..last], times[..last];
    if last > 0 {
      BurstCoalesces(timers, name, es', times');
    }
    NotifyArms(NotifiedAll(timers, es', times'), es[last], times[last]);
  }

  /** The registry after the first `k` events of a sequence. */
  function NotifiedFirst(timers: Registry, es: seq<Event>, times: seq<int>, k: nat): Registry
    requires |es| == |times| && k <= |es|
  {
    NotifiedAll(timers, es[..k], times[..k])
  }

  /**
   * In a burst whose events come less than `WaitFor` apart, when each later
   * event arrives the path's deadline still lies ahead of it, so the timer
   * cannot fire in the middle of the burst.
   */
  lemma BurstDoesNotFireEarly(timers: Registry, name: string, es: seq<Event>, times: seq<int>)
    requires |es| == |times|
    requires forall k :: 0 <= k < |es| ==> es[k].name == name && Accepted(es[k])
    requires forall k :: 0 < k < |times| ==> times[k] < times[k - 1] + WaitFor
    ensures forall k :: 0 < k < |es| ==>
      name in NotifiedFirst(timers, es, times, k) && NotifiedFirst(timers, es, times, k)[name].deadline > times[k]
  {
    forall k | 0 < k < |es|
      ensures name in NotifiedFirst(timers, es, times, k) && NotifiedFirst(timers, es, times, k)[name].deadline > times[k]
    {
      BurstCoalesces(timers, name, es[..k], times[..k]);
    }
  }

  /**
   * Once a path's timer has fired and its entry is gone, the next accepted
   * event for it starts a fresh timer that captures that event.
   */
  lemma FreshAfterFire(timers: Registry, path: string, e: Event, now: int)
    requires e.name == path && Accepted(e)
    ensures Notified(timers - {path}, e, now)[path] == Timer(e, now + WaitFor)
  {
  }

  /** What a fired timer led to. */
  datatype Dispatch =
    | Skipped(reason: GateOutcome)          // not hashed; why
    | Uploaded(name: string, hash: string)  // `HashNUpload` result handed to `CreateAsset`

  /** The `timers` map of `dedupLoop`, with the event loop's and `printEvent`'s updates. */
  class Debouncer {
    var timers: Registry

    ghost predicate Valid()
      reads this
    {
      WellFormed(timers)
    }

    constructor ()
      ensures Valid() && timers == map[]
    {
      timers := map[];
    }

    /** One event from `w.Events`, handled at time `now`. */
    method Notify(e: Event, now: int)
      requires Valid()
      modifies this
      ensures Valid()
      ensures timers == Notified(old(timers), e, now)
    {
      if !Accepted(e) {
        return;
      }
      var t: Timer;
      if e.name in timers {
        t := timers[e.name];
      } else {
        t := Timer(e, now);
        timers := timers[e.name := t];
      }
      timers := timers[e.name := t.(deadline := now + WaitFor)];
      NotifyWellFormed(old(timers), e, now);
    }

    /**
     * `printEvent` for the timer of `path`, due at `now`: the captured event
     * goes through the gate; a file that passes is hashed by `HashNUpload`
     * and its hash is what would be submitted. Only that path's entry is
     * removed.
     */
    method Fire(path: string, now: int, fs: FileSystem, sha: Sha256) returns (d: Dispatch, ghost runs: seq<Option<nat>>)
      requires Valid()
      requires path in timers && timers[path].deadline <= now
      modifies this
      ensures Valid()
      ensures timers == old(timers) - {path}
      ensures old(timers)[path].event.name == path
      ensures d.Uploaded? <==> Gate(fs, path) == Hash
      ensures d.Skipped? ==> d.reason == Gate(fs, path)
      ensures d.Uploaded? ==>
        && d.name == path && path in fs
        && var b := |fs[path]| / McapHash.NumThreads;
        && |runs| == McapHash.NumThreads
        && (forall i :: 0 <= i < McapHash.NumThreads && runs[i].Some? ==> LoopExit(|fs[path]|, i * b, b, runs[i].value))
        && d.hash == ConcatHashes(IndexedResults(fs[path], |fs[path]| / McapHash.NumThreads, runs, sha))
        && |d.hash| == 64 * CountSent(runs) <= 64 * McapHash.NumThreads
        && (|fs[path]| < McapHash.NumThreads ==> CountSent(runs) == McapHash.NumThreads)
    {
      var e := timers[path].event;
      var g := Gate(fs, e.name);
      if g == Hash {
        GateHashesIff(fs, e.name);
        var hashString;
        hashString, runs := HashNUpload(fs, e.name, sha);
        d := Uploaded(e.name, hashString);
      } else {
        d := Skipped(g);
        runs := [];
      }
      timers := timers - {e.name};
    }
  }
}
