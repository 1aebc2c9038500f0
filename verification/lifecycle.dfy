/** The life of a request: `RunCallback` marshals it and either discards it
    or queues it; the worker runs `DoWork` (`WorkAsync`); back on the main
    thread `WorkAsyncComplete` invokes the callback once and disposes of the
    work item. The process is a `World`: the native interface, every request
    made so far, and the log of callback invocations. */
module Lifecycle {
  import opened Common
  import opened JsValue
  import opened NativeInterface
  import opened Marshal
  import opened Worker

  datatype Stage = Queued | Completed | Reported | Disposed

  /** A request: refused at marshalling (never queued), or accepted and at
      some stage of its life. */
  datatype Item = Rejected(message: string) | Accepted(stage: Stage, ctx: Context)

  /** One invocation of a request's completion callback. */
  datatype Notification = Notification(item: nat, args: CallbackArgs)

  datatype World = World(iface: Interface, items: seq<Item>, log: seq<Notification>)

  /** What the host and the libuv pool do: a call into the binding (with the
      dynamic linker's answers), a worker running a queued item (with the
      status its converter returns), and a completion on the main thread. */
  datatype Event = Invoke(arg: Arg, dl: Linker) | Work(id: nat, native: int) | Complete(id: nat)

  function Init(): World
  {
    World(Unloaded(), [], [])
  }

  /** Position of an item in the strictly forward lifecycle. */
  function Rank(it: Item): nat
  {
    match it
    case Rejected(_) => 0
    case Accepted(s, _) =>
      match s
      case Queued => 1
      case Completed => 2
      case Reported => 3
      case Disposed => 4
  }

  predicate At(w: World, id: nat, s: Stage)
  {
    id < |w.items| && w.items[id].Accepted? && w.items[id].stage == s
  }

  /** The callback of this item has been invoked. */
  predicate Delivered(it: Item)
  {
    it.Accepted? && (it.stage.Reported? || it.stage.Disposed?)
  }

  /** `RunCallback`: a refused request is deleted on the spot; an accepted
      one is queued. Only an accepted request can load the library. */
  function RunCallback(w: World, arg: Arg, dl: Linker): (w': World)
    ensures w'.log == w.log
    ensures |w'.items| == |w.items| + 1 && w'.items[..|w.items|] == w.items
    ensures w'.items[|w.items|].Rejected? <==> ParseFiles(arg).Err?
    ensures w'.items[|w.items|].Rejected? ==> w'.iface == w.iface
    ensures w'.items[|w.items|].Accepted? ==> w'.items[|w.items|].stage == Queued
    ensures var m := ProcessArguments(w.iface, arg, dl);
            && w'.iface == m.iface
            && w'.items[|w.items|] == (if m.request.Ok? then Accepted(Queued, m.request.value)
                                       else Rejected(m.request.message))
  {
    var m := ProcessArguments(w.iface, arg, dl);
    match m.request
    case Err(msg) => w.(iface := m.iface, items := w.items + [Rejected(msg)])
    case Ok(ctx) => w.(iface := m.iface, items := w.items + [Accepted(Queued, ctx)])
  }

  /** `WorkAsync`: the worker runs `DoWork` on a queued item against the
      interface as it is at that moment. */
  function WorkAsync(w: World, id: nat, native: int): (w': World)
    ensures w'.iface == w.iface && w'.log == w.log && |w'.items| == |w.items|
    ensures forall j :: 0 <= j < |w.items| && j != id ==> w'.items[j] == w.items[j]
    ensures At(w, id, Queued) ==>
              w'.items[id] == Accepted(Completed, DoWork(w.iface, w.items[id].ctx, native).ctx)
    ensures !At(w, id, Queued) ==> w' == w
  {
    if At(w, id, Queued) then
      w.(items := w.items[id := Accepted(Completed, DoWork(w.iface, w.items[id].ctx, native).ctx)])
    else
      w
  }

  /** The callback-invocation half of `ProcessReturn` (fetching the callback
      and calling it with the argument pair): a completed item is reported. */
  function Report(w: World, id: nat): World
  {
    if At(w, id, Completed) then
      var ctx := w.items[id].ctx;
      w.(items := w.items[id := Accepted(Reported, ctx)],
         log := w.log + [Notification(id, ProcessReturn(ctx))])
    else
      w
  }

  /** `napi_delete_async_work` and `delete`: the item is gone. */
  function Dispose(w: World, id: nat): World
  {
    if At(w, id, Reported) then
      w.(items := w.items[id := Accepted(Disposed, w.items[id].ctx)])
    else
      w
  }

  /** `WorkAsyncComplete`: on the main thread, report a completed item once
      and dispose of it; any other item is left alone. */
  function WorkAsyncComplete(w: World, id: nat): (w': World)
    ensures w'.iface == w.iface && |w'.items| == |w.items|
    ensures forall j :: 0 <= j < |w.items| && j != id ==> w'.items[j] == w.items[j]
    ensures At(w, id, Completed) ==>
              && w'.items[id] == Accepted(Disposed, w.items[id].ctx)
              && w'.log == w.log + [Notification(id, ProcessReturn(w.items[id].ctx))]
    ensures !At(w, id, Completed) ==> w' == w
  {
    if At(w, id, Completed) then Dispose(Report(w, id), id) else w
  }

  function Step(w: World, e: Event): (w': World)
    ensures |w'.items| >= |w.items|
    ensures forall j :: 0 <= j < |w.items| ==>
              && (w'.items[j].Rejected? <==> w.items[j].Rejected?)
              && (w.items[j].Rejected? ==> w'.items[j] == w.items[j])
              && Rank(w.items[j]) <= Rank(w'.items[j])
    ensures |w.log| <= |w'.log| && w'.log[..|w.log|] == w.log
    ensures w.iface.handle.Some? ==> w'.iface == w.iface
  {
    match e
    case Invoke(arg, dl) => RunCallback(w, arg, dl)
    case Work(id, native) => WorkAsync(w, id, native)
    case Complete(id) => WorkAsyncComplete(w, id)
  }

  /** A run of events: no item moves backward or changes whether it was
      refused, the callback log only grows, and once a library handle is
      held the interface never changes again. */
  function Run(w: World, es: seq<Event>): (w': World)
    ensures |w'.items| >= |w.items|
    ensures forall j :: 0 <= j < |w.items| ==>
              && (w'.items[j].Rejected? <==> w.items[j].Rejected?)
              && (w.items[j].Rejected? ==> w'.items[j] == w.items[j])
              && Rank(w.items[j]) <= Rank(w'.items[j])
    ensures |w.log| <= |w'.log| && w'.log[..|w.log|] == w.log
    ensures w.iface.handle.Some? ==> w'.iface == w.iface
    decreases |es|
  {
    if es == [] then w else Run(Step(w, es[0]), es[1..])
  }

  /** How many times the callback of item `id` appears in the log. */
  function NotificationsFor(log: seq<Notification>, id: nat): nat
    decreases |log|
  {
    if log == [] then 0
    else NotificationsFor(log[..|log| - 1], id) + (if log[|log| - 1].item == id then 1 else 0)
  }

  function DeliveredCount(items: seq<Item>): nat
    decreases |items|
  {
    if items == [] then 0
    else DeliveredCount(items[..|items| - 1]) + (if Delivered(items[|items| - 1]) then 1 else 0)
  }

  function AcceptedCount(items: seq<Item>): nat
    decreases |items|
  {
    if items == [] then 0
    else AcceptedCount(items[..|items| - 1]) + (if items[|items| - 1].Accepted? then 1 else 0)
  }

  /** What every reachable world satisfies: each logged callback belongs to
      an accepted item and carries that item's result; an item's callback
      has run once if it is reported or disposed and never otherwise; no
      item rests between reporting and disposal. */
  predicate Inv(w: World)
  {
    && Valid(w.iface)
    && (forall k :: 0 <= k < |w.log| ==>
          && w.log[k].item < |w.items|
          && w.items[w.log[k].item].Accepted?
          && w.log[k].args == ProcessReturn(w.items[w.log[k].item].ctx))
    && (forall j :: 0 <= j < |w.items| ==>
          NotificationsFor(w.log, j) == (if Delivered(w.items[j]) then 1 else 0))
    && (forall j :: 0 <= j < |w.items| ==> !At(w, j, Reported))
    && |w.log| == DeliveredCount(w.items)
  }

  lemma {:induction false} NotificationsNone(log: seq<Notification>, id: nat)
    ensures NotificationsFor(log, id) == 0 <==> forall k :: 0 <= k < |log| ==> log[k].item != id
    decreases |log|
  {
    if log != [] {
      var front := log[..|log| - 1];
      NotificationsNone(front, id);
      assert forall k :: 0 <= k < |front| ==> front[k] == log[k];
    }
  }

  lemma {:induction false} DeliveredUpdate(items: seq<Item>, i: nat, x: Item)
    requires i < |items|
    ensures DeliveredCount(items[i := x]) + (if Delivered(items[i]) then 1 else 0)
            == DeliveredCount(items) + (if Delivered(x) then 1 else 0)
    decreases |items|
  {
    var n := |items| - 1;
    if i < n {
      DeliveredUpdate(items[..n], i, x);
      assert items[i := x][..n] == items[..n][i := x];
    } else {
      assert items[i := x][..n] == items[..n];
    }
  }

  lemma {:induction false} AllSettled(items: seq<Item>)
    requires forall j :: 0 <= j < |items| ==> items[j].Rejected? || items[j].stage == Disposed
    ensures DeliveredCount(items) == AcceptedCount(items)
    decreases |items|
  {
    if items != [] {
      AllSettled(items[..|items| - 1]);
    }
  }

  lemma {:induction false} AcceptedCountSame(a: seq<Item>, b: seq<Item>)
    requires |a| == |b|
    requires forall j :: 0 <= j < |a| ==> (a[j].Rejected? <==> b[j].Rejected?)
    ensures AcceptedCount(a) == AcceptedCount(b)
    decreases |a|
  {
    if a != [] {
      AcceptedCountSame(a[..|a| - 1], b[..|b| - 1]);
    }
  }

  /** A call into the binding keeps the invariant. */
  lemma InvokeInv(w: World, arg: Arg, dl: Linker)
    requires Inv(w)
    ensures Inv(RunCallback(w, arg, dl))
  {
    var w' := RunCallback(w, arg, dl);
    var n := |w.items|;
    var m := ProcessArguments(w.iface, arg, dl);
    assert Valid(w'.iface) by {
      assert w'.iface == m.iface;
    }
    forall j | 0 <= j < |w'.items|
      ensures NotificationsFor(w'.log, j) == (if Delivered(w'.items[j]) then 1 else 0)
    {
      if j == n {
        NotificationsNone(w.log, j);
      } else {
        assert w'.items[j] == w.items[j];
      }
    }
    assert w'.items[..n] == w.items;
    forall k | 0 <= k < |w'.log|
      ensures w'.log[k].item < |w'.items|
      ensures w'.items[w'.log[k].item] == w.items[w.log[k].item]
    {
      assert w.log[k].item < n;
    }
    forall j | 0 <= j < |w'.items|
      ensures !At(w', j, Reported)
    {
      if j < n {
        assert w'.items[j] == w.items[j];
        assert !At(w, j, Reported);
      }
    }
  }

  /** A worker run keeps the invariant. */
  lemma WorkInv(w: World, id: nat, native: int)
    requires Inv(w)
    ensures Inv(WorkAsync(w, id, native))
  {
    var w' := WorkAsync(w, id, native);
    if At(w, id, Queued) {
      NotificationsNone(w.log, id);
      DeliveredUpdate(w.items, id, w'.items[id]);
      forall k | 0 <= k < |w'.log|
        ensures w'.items[w'.log[k].item] == w.items[w.log[k].item]
      {
        assert w.log[k].item != id;
      }
      forall j | 0 <= j < |w'.items|
        ensures NotificationsFor(w'.log, j) == (if Delivered(w'.items[j]) then 1 else 0)
        ensures !At(w', j, Reported)
      {
        if j != id {
          assert w'.items[j] == w.items[j];
          assert !At(w, j, Reported);
        }
      }
    }
  }

  /** A completion on the main thread keeps the invariant. */
  lemma CompleteInv(w: World, id: nat)
    requires Inv(w)
    ensures Inv(WorkAsyncComplete(w, id))
  {
    var w' := WorkAsyncComplete(w, id);
    if At(w, id, Completed) {
      var ctx := w.items[id].ctx;
      var n := Notification(id, ProcessReturn(ctx));
      NotificationsNone(w.log, id);
      forall j | 0 <= j < |w'.items|
        ensures NotificationsFor(w'.log, j) == (if Delivered(w'.items[j]) then 1 else 0)
        ensures !At(w', j, Reported)
      {
        assert w'.log[..|w.log|] == w.log;
        if j != id {
          assert w'.items[j] == w.items[j];
          assert !At(w, j, Reported);
        }
      }
      assert w'.items == w.items[id := Accepted(Disposed, ctx)];
      assert w'.log == w.log + [n];
      DeliveredUpdate(w.items, id, w'.items[id]);
      forall k | 0 <= k < |w'.log|
        ensures w'.log[k].item < |w'.items| && w'.items[w'.log[k].item].Accepted?
        ensures w'.log[k].args == ProcessReturn(w'.items[w'.log[k].item].ctx)
      {
        if k < |w.log| {
          assert w'.log[k] == w.log[k];
          assert w.log[k].item != id;
        }
      }
    }
  }

  /** Every event keeps the invariant. */
  lemma StepInv(w: World, e: Event)
    requires Inv(w)
    ensures Inv(Step(w, e))
  {
    match e
    case Invoke(arg, dl) => InvokeInv(w, arg, dl);
    case Work(id, native) => WorkInv(w, id, native);
    case Complete(id) => CompleteInv(w, id);
  }

  /** Every run of events from any invariant world keeps the invariant. */
  lemma {:induction false} RunInv(w: World, es: seq<Event>)
    requires Inv(w)
    ensures Inv(Run(w, es))
    decreases |es|
  {
    if es != [] {
      StepInv(w, es[0]);
      RunInv(Step(w, es[0]), es[1..]);
    }
  }

  /** Safety, for every schedule of calls, worker runs and completions: no
      callback runs twice, and a refused request never gets one. */
  lemma AtMostOnce(es: seq<Event>, id: nat)
    ensures var w := Run(Init(), es);
            && NotificationsFor(w.log, id) <= 1
            && (id < |w.items| && w.items[id].Rejected? ==> NotificationsFor(w.log, id) == 0)
  {
    RunInv(Init(), es);
    var w := Run(Init(), es);
    if id >= |w.items| {
      NotificationsNone(w.log, id);
    }
  }

  /** The pool runs item `id` if it is queued, then the main thread
      completes it if it is completed. */
  function Settle(w: World, id: nat, native: int): World
  {
    var w1 := WorkAsync(w, id, native);
    WorkAsyncComplete(w1, id)
  }

  /** Settling keeps the invariant, touches only item `id`, and leaves that
      item refused or disposed. */
  lemma SettleInv(w: World, id: nat, native: int)
    requires Inv(w)
    requires id < |w.items|
    ensures var w' := Settle(w, id, native);
            && Inv(w')
            && |w'.items| == |w.items|
            && (forall j :: 0 <= j < |w.items| && j != id ==> w'.items[j] == w.items[j])
            && (w'.items[id].Rejected? <==> w.items[id].Rejected?)
            && (w'.items[id].Rejected? || w'.items[id].stage == Disposed)
  {
    var w1 := WorkAsync(w, id, native);
    WorkInv(w, id, native);
    CompleteInv(w1, id);
    assert !At(w1, id, Reported);
  }

  /** Liveness: once the pool has run every queued item (with the statuses
      in `natives`) and the main thread has completed every one, each
      accepted request has had its callback exactly once, each refused one
      none, and the number of callbacks equals the number of accepted
      requests. */
  method Drain(w: World, natives: seq<int>) returns (w': World)
    requires Inv(w)
    requires |natives| == |w.items|
    ensures Inv(w')
    ensures |w'.items| == |w.items|
    ensures forall j :: 0 <= j < |w.items| ==> (w'.items[j].Rejected? <==> w.items[j].Rejected?)
    ensures forall j :: 0 <= j < |w.items| && w.items[j].Accepted? ==>
              w'.items[j].stage == Disposed && NotificationsFor(w'.log, j) == 1
    ensures forall j :: 0 <= j < |w.items| && w.items[j].Rejected? ==> NotificationsFor(w'.log, j) == 0
    ensures |w'.log| == AcceptedCount(w.items)
  {
    w' := w;
    var i := 0;
    while i < |w.items|
      invariant 0 <= i <= |w.items|
      invariant Inv(w')
      invariant |w'.items| == |w.items|
      invariant forall j :: 0 <= j < |w.items| ==> (w'.items[j].Rejected? <==> w.items[j].Rejected?)
      invariant forall j :: 0 <= j < i ==> w'.items[j].Rejected? || w'.items[j].stage == Disposed
    {
      SettleInv(w', i, natives[i]);
      w' := Settle(w', i, natives[i]);
      i := i + 1;
    }
    AllSettled(w'.items);
    AcceptedCountSame(w.items, w'.items);
  }
}
