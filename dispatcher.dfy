/**
 * The main-thread dispatcher (Scripts/Utils/Dispatcher.cs): a process-wide,
 * double-buffered mailbox. Background code appends closures to `backlog`;
 * once per frame the host's `Update` swaps `backlog` with the empty `actions`
 * buffer and runs the swapped-out batch in order.
 *
 * Each `lock (_backlog)` body is one atomic method. A closure is an `Action`:
 * what it prints, or the host event it stands for together with the closures
 * it itself passes to `RunOnMainThread` when it runs.
 */
module Utilities {
  import opened Shared

  /** Debug.Log, Debug.LogWarning and Debug.LogError. */
  datatype Level = Info | Warning | Error

  /**
   * A closure handed to RunOnMainThread. `Print` is the closure that Log,
   * LogWarning and LogError build; `Callback` is any other closure: `event`
   * says what it does for the host, `spawns` lists, in order, the closures it
   * passes to RunOnMainThread while it runs.
   */
  datatype Action<E> =
    | Print(level: Level, text: string)
    | Callback(event: E, spawns: seq<Action<E>>)

  /** The closures that running `a` enqueues. */
  function Spawns<E>(a: Action<E>): seq<Action<E>>
  {
    match a
    case Print(_, _) => []
    case Callback(_, s) => s
  }

  /** The closures enqueued while `batch` runs, in the order they are enqueued. */
  function Spawned<E>(batch: seq<Action<E>>): seq<Action<E>>
  {
    if batch == [] then [] else Spawned(batch[..|batch| - 1]) + Spawns(batch[|batch| - 1])
  }

  /** Running two batches one after the other enqueues what each enqueues, in that order. */
  lemma {:induction false} SpawnedAppend<E>(s: seq<Action<E>>, t: seq<Action<E>>)
    ensures Spawned(s + t) == Spawned(s) + Spawned(t)
  {
    if t == [] {
      assert s + t == s;
    } else {
      var init := t[..|t| - 1];
      assert (s + t)[..|s + t| - 1] == s + init;
      assert (s + t)[|s + t| - 1] == t[|t| - 1];
      SpawnedAppend(s, init);
    }
  }

  /** Running one more closure of a batch enqueues what that closure spawns. */
  lemma SpawnedStep<E>(batch: seq<Action<E>>, i: nat)
    requires i < |batch|
    ensures Spawned(batch[..i + 1]) == Spawned(batch[..i]) + Spawns(batch[i])
  {
    assert batch[..i + 1][..i] == batch[..i];
  }

  /** A batch of log closures enqueues nothing, so the next Update after it has nothing to run. */
  lemma {:induction false} PrintsSpawnNothing<E>(batch: seq<Action<E>>)
    requires forall k :: 0 <= k < |batch| ==> batch[k].Print?
    ensures Spawned(batch) == []
  {
    if batch != [] {
      PrintsSpawnNothing(batch[..|batch| - 1]);
    }
  }

  /** The scene object that carries the Dispatcher component. */
  class SceneObject {
    const name: string
    /** Set by DontDestroyOnLoad: the object survives scene changes. */
    var persistent: bool

    constructor (name: string)
      ensures this.name == name && !persistent
    {
      this.name := name;
      persistent := false;
    }
  }

  /**
   * The static state of the Dispatcher class. `enqueued` and `executed` are
   * ghost traces: every closure ever passed to RunOnMainThread, and every
   * closure run by Update, in order.
   */
  class Dispatcher<E> {
    var backlog: seq<Action<E>>
    var actions: seq<Action<E>>
    var queued: bool
    var instance: SceneObject?
    ghost var enqueued: seq<Action<E>>
    ghost var executed: seq<Action<E>>

    /**
     * Between two Updates: the second buffer is empty, the flag says exactly
     * whether work is waiting, and nothing is lost or duplicated: what was
     * run, followed by what waits, is everything that was enqueued.
     * This holds when every RunOnMainThread and every swap runs as one
     * atomic step. The source's `lock (_backlog)` does not ensure that:
     * Update reassigns `_backlog` inside the lock, so a caller that locked
     * the old list adds to the new one while another caller may hold the
     * new list's lock.
     */
    ghost predicate Valid()
      reads this
    {
      && actions == []
      && (queued <==> backlog != [])
      && enqueued == executed + backlog
    }

    /** The effect of enqueuing `added`, in order, on the mailbox and its trace. */
    twostate predicate Enqueued(new added: seq<Action<E>>)
      reads this
    {
      && backlog == old(backlog) + added
      && enqueued == old(enqueued) + added
      && queued == (old(queued) || added != [])
    }

    constructor ()
      ensures Valid()
      ensures backlog == [] && !queued && instance == null
      ensures enqueued == [] && executed == []
    {
      backlog := [];
      actions := [];
      queued := false;
      instance := null;
      enqueued := [];
      executed := [];
    }

    /** RunOnMainThread: appends the closure to the backlog and raises the flag. */
    method RunOnMainThread(action: Action<E>)
      modifies this`backlog, this`queued, this`enqueued
      ensures Enqueued([action])
      ensures queued
      ensures old(Valid()) ==> Valid()
    {
      backlog := backlog + [action];
      queued := true;
      enqueued := enqueued + [action];
    }

    /** Log: enqueues exactly one closure, which prints `msg` at Info level. */
    method Log(msg: string)
      modifies this`backlog, this`queued, this`enqueued
      ensures Enqueued([Print(Info, msg)])
      ensures old(Valid()) ==> Valid()
    {
      RunOnMainThread(Print(Info, msg));
    }

    /** LogWarning: enqueues exactly one closure, which prints `msg` at Warning level. */
    method LogWarning(msg: string)
      modifies this`backlog, this`queued, this`enqueued
      ensures Enqueued([Print(Warning, msg)])
      ensures old(Valid()) ==> Valid()
    {
      RunOnMainThread(Print(Warning, msg));
    }

    /** LogError: enqueues exactly one closure, which prints `msg` at Error level. */
    method LogError(msg: string)
      modifies this`backlog, this`queued, this`enqueued
      ensures Enqueued([Print(Error, msg)])
      ensures old(Valid()) ==> Valid()
    {
      RunOnMainThread(Print(Error, msg));
    }

    /**
     * Initialize: creates the persistent "Dispatcher" scene object only when
     * there is none yet; otherwise it changes nothing.
     */
    method Initialize()
      modifies this`instance
      ensures old(instance) != null ==> instance == old(instance)
      ensures old(instance) == null ==> instance != null && fresh(instance)
      ensures old(instance) == null ==> instance.name == "Dispatcher" && instance.persistent
    {
      if instance == null {
        var o := new SceneObject("Dispatcher");
        o.persistent := true;
        instance := o;
      }
    }

    /** Runs one closure on the main thread: it is recorded, and what it spawns is enqueued. */
    method Execute(action: Action<E>)
      modifies this`backlog, this`queued, this`enqueued, this`executed
      ensures executed == old(executed) + [action]
      ensures Enqueued(Spawns(action))
    {
      executed := executed + [action];
      var spawns := Spawns(action);
      var i := 0;
      while i < |spawns|
        invariant 0 <= i <= |spawns|
        invariant backlog == old(backlog) + spawns[..i]
        invariant enqueued == old(enqueued) + spawns[..i]
        invariant queued == (old(queued) || i > 0)
        invariant executed == old(executed) + [action]
      {
        RunOnMainThread(spawns[i]);
        assert spawns[..i + 1] == spawns[..i] + [spawns[i]];
        i := i + 1;
      }
      assert spawns[..i] == spawns;
    }

    /**
     * Update: with the flag down nothing happens. Otherwise the buffers are
     * swapped under the lock, the swapped-out batch (the backlog as it was)
     * runs in enqueue order, each closure once, and is cleared. Whatever the
     * batch enqueues lands in the fresh backlog and does not run now.
     */
    method Update()
      requires Valid()
      modifies this`backlog, this`actions, this`queued, this`enqueued, this`executed
      ensures Valid()
      ensures !old(queued) ==> backlog == old(backlog) && executed == old(executed) && enqueued == old(enqueued)
      ensures executed == old(executed) + old(backlog)
      ensures backlog == Spawned(old(backlog))
    {
      if queued {
        var tmp := actions;
        actions := backlog;
        backlog := tmp;
        queued := false;
        RunActions();
        actions := [];
      }
    }

    /**
     * The `foreach` over `_actions` in Update: runs the swapped-out closures
     * in order, each once; what they spawn is appended to the backlog.
     */
    method RunActions()
      modifies this`backlog, this`queued, this`enqueued, this`executed
      ensures executed == old(executed) + actions
      ensures backlog == old(backlog) + Spawned(actions)
      ensures enqueued == old(enqueued) + Spawned(actions)
      ensures queued == (old(queued) || Spawned(actions) != [])
    {
      var i := 0;
      while i < |actions|
        invariant 0 <= i <= |actions|
        invariant executed == old(executed) + actions[..i]
        invariant backlog == old(backlog) + Spawned(actions[..i])
        invariant enqueued == old(enqueued) + Spawned(actions[..i])
        invariant queued == (old(queued) || Spawned(actions[..i]) != [])
      {
        Execute(actions[i]);
        SpawnedStep(actions, i);
        TakeSnoc(actions, i);
        AppendAssoc(old(executed), actions[..i], [actions[i]]);
        AppendAssoc(old(backlog), Spawned(actions[..i]), Spawns(actions[i]));
        AppendAssoc(old(enqueued), Spawned(actions[..i]), Spawns(actions[i]));
        i := i + 1;
      }
      assert actions[..i] == actions;
    }

    /**
     * Two host frames in a row: the first runs the current backlog, the second
     * runs exactly what the first batch enqueued.
     */
    method UpdateTwice()
      requires Valid()
      modifies this`backlog, this`actions, this`queued, this`enqueued, this`executed
      ensures Valid()
      ensures executed == old(executed) + old(backlog) + Spawned(old(backlog))
      ensures backlog == Spawned(Spawned(old(backlog)))
    {
      Update();
      Update();
    }
  }
}
