/**
 The limiter's registry of parked callers: a dictionary from a task to the
 future it waits on, kept in insertion order.  Assigning to a key that is
 already present keeps the key's position; removing a key closes the gap.
 The registry is a sequence of entries whose keys are distinct, and `Lookup`
 gives its dictionary view.
 */
module Waiters {

  datatype Option<T> = None | Some(value: T)

  /** Identity of a running task (the dictionary key). */
  type TaskId = nat

  /** The state of a waiter's future: not done yet, done with a result, or cancelled. */
  datatype FutState = Pending | Resolved | Cancelled

  datatype Waiter = Waiter(task: TaskId, fut: FutState)

  type Registry = seq<Waiter>

  /** The keys of the registry, in iteration (insertion) order. */
  function Keys(ws: Registry): (ks: seq<TaskId>)
    ensures |ks| == |ws|
    ensures forall i :: 0 <= i < |ws| ==> ks[i] == ws[i].task
  {
    seq(|ws|, i requires 0 <= i < |ws| => ws[i].task)
  }

  /** No task holds more than one entry. */
  ghost predicate Distinct(ws: Registry)
  {
    forall i, j :: 0 <= i < j < |ws| ==> ws[i].task != ws[j].task
  }

  /** Position of the entry for `t`, if there is one. */
  function IndexOf(ws: Registry, t: TaskId): (r: Option<nat>)
    ensures r.Some? ==> r.value < |ws| && ws[r.value].task == t
    ensures r.Some? ==> forall j :: 0 <= j < r.value ==> ws[j].task != t
    ensures r.None? <==> t !in Keys(ws)
  {
    if ws == [] then None
    else if ws[0].task == t then Some(0)
    else match IndexOf(ws[1..], t)
      case None => None
      case Some(k) => Some(k + 1)
  }

  /** The dictionary view: the future registered under `t`, if any. */
  function Lookup(ws: Registry, t: TaskId): Option<FutState>
  {
    match IndexOf(ws, t)
    case None => None
    case Some(i) => Some(ws[i].fut)
  }

  /** The first entry with key `t` is where `IndexOf` finds it. */
  lemma {:induction false} IndexOfFirst(ws: Registry, t: TaskId, k: nat)
    requires k < |ws| && ws[k].task == t
    requires forall j :: 0 <= j < k ==> ws[j].task != t
    ensures IndexOf(ws, t) == Some(k)
  {
    if k > 0 {
      IndexOfFirst(ws[1..], t, k - 1);
    }
  }

  lemma {:induction false} IndexOfAbsent(ws: Registry, t: TaskId)
    requires forall j :: 0 <= j < |ws| ==> ws[j].task != t
    ensures IndexOf(ws, t) == None
  {
    if ws != [] {
      IndexOfAbsent(ws[1..], t);
    }
  }

  /** Two registries with the same keys in the same order find every key at the same position. */
  lemma IndexOfByKeys(a: Registry, b: Registry, t: TaskId)
    requires Keys(a) == Keys(b)
    ensures IndexOf(a, t) == IndexOf(b, t)
  {
    assert forall j :: 0 <= j < |a| ==> a[j].task == Keys(a)[j] == b[j].task;
    match IndexOf(a, t)
    case None => IndexOfAbsent(b, t);
    case Some(k) => IndexOfFirst(b, t, k);
  }

  /** Position of the first entry whose future is not done. */
  function FirstPending(ws: Registry): (r: Option<nat>)
    ensures r.Some? ==> r.value < |ws| && ws[r.value].fut == Pending
    ensures r.Some? ==> forall j :: 0 <= j < r.value ==> ws[j].fut != Pending
    ensures r.None? ==> forall j :: 0 <= j < |ws| ==> ws[j].fut != Pending
  {
    if ws == [] then None
    else if ws[0].fut == Pending then Some(0)
    else match FirstPending(ws[1..])
      case None => None
      case Some(k) => Some(k + 1)
  }

  /** Number of entries whose future is not done. */
  function PendingCount(ws: Registry): nat
  {
    if ws == [] then 0
    else (if ws[0].fut == Pending then 1 else 0) + PendingCount(ws[1..])
  }

  /**
   One waiter woken by a peer that found slack: the first entry in insertion
   order whose future is not done gets its result; every other entry, and
   the order of the keys, stay as they were.
   */
  function WakeFirst(ws: Registry): (r: Registry)
    ensures Keys(r) == Keys(ws)
    ensures forall i :: 0 <= i < |ws| ==> (r[i] == ws[i] <==> FirstPending(ws) != Some(i))
    ensures forall i :: 0 <= i < |ws| && r[i] != ws[i] ==>
              ws[i].fut == Pending && r[i] == Waiter(ws[i].task, Resolved)
  {
    match FirstPending(ws)
    case None => ws
    case Some(k) => ws[k := Waiter(ws[k].task, Resolved)]
  }

  /** Waking leaves an entry whose future is already done as it was. */
  lemma WakeFirstKeepsDone(ws: Registry, t: TaskId)
    requires Lookup(ws, t).Some? && Lookup(ws, t) != Some(Pending)
    ensures Lookup(WakeFirst(ws), t) == Lookup(ws, t)
  {
    IndexOfByKeys(ws, WakeFirst(ws), t);
    var k := IndexOf(ws, t).value;
    assert WakeFirst(ws)[k] == ws[k];
  }

  /** Replacing one entry's future changes the count by exactly the two entries' contributions. */
  lemma {:induction false} PendingCountUpdate(ws: Registry, k: nat, w: Waiter)
    requires k < |ws|
    ensures PendingCount(ws[k := w]) ==
            PendingCount(ws) - (if ws[k].fut == Pending then 1 else 0) + (if w.fut == Pending then 1 else 0)
  {
    if k == 0 {
      assert ws[k := w][1..] == ws[1..];
    } else {
      PendingCountUpdate(ws[1..], k - 1, w);
      assert ws[k := w][1..] == ws[1..][k - 1 := w];
    }
  }

  /** The count of futures not yet done is zero exactly when no entry is pending. */
  lemma {:induction false} PendingCountZero(ws: Registry)
    ensures PendingCount(ws) == 0 <==> FirstPending(ws).None?
  {
    if ws != [] {
      PendingCountZero(ws[1..]);
    }
  }

  /** Waking resolves exactly one future whenever some future is not done, and none otherwise. */
  lemma WakeFirstPendingCount(ws: Registry)
    ensures PendingCount(WakeFirst(ws)) == if PendingCount(ws) == 0 then 0 else PendingCount(ws) - 1
  {
    PendingCountZero(ws);
    match FirstPending(ws)
    case None =>
    case Some(k) => PendingCountUpdate(ws, k, Waiter(ws[k].task, Resolved));
  }

  /** Appending an entry leaves the positions of the earlier keys alone. */
  lemma {:induction false} IndexOfAppend(ws: Registry, w: Waiter, u: TaskId)
    ensures IndexOf(ws + [w], u) ==
            match IndexOf(ws, u)
            case Some(k) => Some(k)
            case None => if w.task == u then Some(|ws|) else None
  {
    if ws != [] {
      assert (ws + [w])[1..] == ws[1..] + [w];
      IndexOfAppend(ws[1..], w, u);
    }
  }

  /** Where each entry of a registry ends up when the entry at `i` is deleted. */
  lemma RemovedAtPositions(ws: Registry, i: nat)
    requires i < |ws|
    ensures |ws[..i] + ws[i + 1..]| == |ws| - 1
    ensures forall j :: 0 <= j < i ==> (ws[..i] + ws[i + 1..])[j] == ws[j]
    ensures forall j :: i < j < |ws| ==> (ws[..i] + ws[i + 1..])[j - 1] == ws[j]
  {
  }

  /** Deleting the entry at `i` leaves a key that had no entry without one. */
  lemma IndexOfRemoveAbsent(ws: Registry, i: nat, u: TaskId)
    requires i < |ws| && IndexOf(ws, u).None?
    ensures IndexOf(ws[..i] + ws[i + 1..], u).None?
  {
    var r := ws[..i] + ws[i + 1..];
    RemovedAtPositions(ws, i);
    forall j | 0 <= j < |r| ensures r[j].task != u {
      assert Keys(ws)[if j < i then j else j + 1] == r[j].task;
    }
    IndexOfAbsent(r, u);
  }

  /** Deleting the entry at `i` moves the entry of any other key one place forward when it stood behind `i`. */
  lemma IndexOfRemovePresent(ws: Registry, i: nat, u: TaskId, k: nat)
    requires i < |ws| && ws[i].task != u && IndexOf(ws, u) == Some(k)
    ensures IndexOf(ws[..i] + ws[i + 1..], u) == Some(if k < i then k else k - 1)
    ensures (ws[..i] + ws[i + 1..])[if k < i then k else k - 1] == ws[k]
  {
    var r := ws[..i] + ws[i + 1..];
    RemovedAtPositions(ws, i);
    var k' := if k < i then k else k - 1;
    assert r[k'] == ws[k];
    forall j | 0 <= j < k' ensures r[j].task != u {
      var jj := if j < i then j else j + 1;
      assert r[j] == ws[jj];
      assert jj < k;
      assert ws[jj].task != u;
    }
    IndexOfFirst(r, u, k');
  }

  /** Set the future of `t`'s entry, in place; a missing key leaves the registry as it is. */
  function Settle(ws: Registry, t: TaskId, st: FutState): (r: Registry)
    ensures Keys(r) == Keys(ws)
    ensures Lookup(r, t) == if t in Keys(ws) then Some(st) else None
    ensures forall u :: u != t ==> Lookup(r, u) == Lookup(ws, u)
  {
    match IndexOf(ws, t)
    case None => ws
    case Some(i) =>
      var r := ws[i := Waiter(t, st)];
      assert Keys(r) == Keys(ws);
      forall u ensures IndexOf(r, u) == IndexOf(ws, u) { IndexOfByKeys(r, ws, u); }
      r
  }

  /**
   `self._waiters[task] = future` with a fresh future: the entry for `t` is
   overwritten where it stands when present, appended at the back otherwise.
   */
  function Register(ws: Registry, t: TaskId): (r: Registry)
    ensures Keys(r) == if t in Keys(ws) then Keys(ws) else Keys(ws) + [t]
    ensures Lookup(r, t) == Some(Pending)
    ensures forall u :: u != t ==> Lookup(r, u) == Lookup(ws, u)
    ensures Distinct(ws) ==> Distinct(r)
  {
    if t in Keys(ws) then Settle(ws, t, Pending)
    else
      var r := ws + [Waiter(t, Pending)];
      assert Keys(r) == Keys(ws) + [t];
      forall u ensures IndexOf(r, u) == (if u == t then Some(|ws|) else IndexOf(ws, u)) {
        IndexOfAppend(ws, Waiter(t, Pending), u);
      }
      r
  }

  /**
   `future.cancel()` on the future registered under `t`: a future that is not
   done becomes cancelled; a done one is left alone.
   */
  function Cancel(ws: Registry, t: TaskId): (r: Registry)
    ensures Keys(r) == Keys(ws)
    ensures Lookup(r, t) == if Lookup(ws, t) == Some(Pending) then Some(Cancelled) else Lookup(ws, t)
    ensures forall u :: u != t ==> Lookup(r, u) == Lookup(ws, u)
  {
    if Lookup(ws, t) == Some(Pending) then Settle(ws, t, Cancelled) else ws
  }

  /** The keys of `ks` other than `t`, in their order (a reference definition for removal). */
  function RemoveKey(ks: seq<TaskId>, t: TaskId): seq<TaskId>
  {
    if ks == [] then []
    else (if ks[0] == t then [] else [ks[0]]) + RemoveKey(ks[1..], t)
  }

  lemma {:induction false} RemoveKeyAbsent(ks: seq<TaskId>, t: TaskId)
    requires t !in ks
    ensures RemoveKey(ks, t) == ks
  {
    if ks != [] {
      RemoveKeyAbsent(ks[1..], t);
    }
  }

  lemma {:induction false} RemoveKeyAt(ks: seq<TaskId>, t: TaskId, i: nat)
    requires i < |ks| && ks[i] == t
    requires forall j :: 0 <= j < |ks| && j != i ==> ks[j] != t
    ensures RemoveKey(ks, t) == ks[..i] + ks[i + 1..]
  {
    if i == 0 {
      RemoveKeyAbsent(ks[1..], t);
    } else {
      RemoveKeyAt(ks[1..], t, i - 1);
      assert ks[1..][..i - 1] == ks[1..i];
      assert ks[1..][i..] == ks[i + 1..];
      assert ks[..i] == [ks[0]] + ks[1..i];
    }
  }

  /**
   `self._waiters.pop(task, None)` with the result dropped: the entry for `t`
   is removed if present, the rest keep their order, and a missing key is
   tolerated.
   */
  function Unregister(ws: Registry, t: TaskId): (r: Registry)
    requires Distinct(ws)
    ensures Distinct(r)
    ensures Keys(r) == RemoveKey(Keys(ws), t)
    ensures Lookup(r, t) == None
    ensures forall u :: u != t ==> Lookup(r, u) == Lookup(ws, u)
  {
    match IndexOf(ws, t)
    case None =>
      RemoveKeyAbsent(Keys(ws), t);
      ws
    case Some(i) =>
      RemoveAt(ws, i);
      RemoveKeyAt(Keys(ws), t, i);
      ws[..i] + ws[i + 1..]
  }

  /** Deleting the entry at `i` of a registry with distinct keys. */
  lemma RemoveAt(ws: Registry, i: nat)
    requires Distinct(ws) && i < |ws|
    ensures Distinct(ws[..i] + ws[i + 1..])
    ensures Keys(ws[..i] + ws[i + 1..]) == Keys(ws)[..i] + Keys(ws)[i + 1..]
    ensures Lookup(ws[..i] + ws[i + 1..], ws[i].task) == None
    ensures forall u :: u != ws[i].task ==> Lookup(ws[..i] + ws[i + 1..], u) == Lookup(ws, u)
  {
    var r := ws[..i] + ws[i + 1..];
    assert forall j :: 0 <= j < |r| ==> r[j] == ws[if j < i then j else j + 1];
    assert Keys(r) == Keys(ws)[..i] + Keys(ws)[i + 1..];
    assert ws[i].task !in Keys(r);
    forall u | u != ws[i].task ensures Lookup(r, u) == Lookup(ws, u) {
      match IndexOf(ws, u)
      case None => IndexOfRemoveAbsent(ws, i, u);
      case Some(k) => IndexOfRemovePresent(ws, i, u, k);
    }
  }

  /** Removing twice removes no more than removing once (cleanup is idempotent). */
  lemma UnregisterIdempotent(ws: Registry, t: TaskId)
    requires Distinct(ws)
    ensures Unregister(Unregister(ws, t), t) == Unregister(ws, t)
  {
    assert Lookup(Unregister(ws, t), t) == None;
  }

  /** Registering a task that holds no entry and then removing it restores the registry. */
  lemma RegisterUnregister(ws: Registry, t: TaskId)
    requires Distinct(ws)
    requires t !in Keys(ws)
    ensures Unregister(Register(ws, t), t) == ws
  {
    var r := Register(ws, t);
    assert r == ws + [Waiter(t, Pending)];
    IndexOfAppend(ws, Waiter(t, Pending), t);
    assert r[..|ws|] == ws;
  }

  /** Re-registering a task that already holds an entry overwrites it where it stands. */
  lemma RegisterInPlace(ws: Registry, t: TaskId, i: nat)
    requires Distinct(ws)
    requires i < |ws| && ws[i].task == t
    ensures |Register(ws, t)| == |ws|
    ensures Register(ws, t)[i] == Waiter(t, Pending)
    ensures forall j :: 0 <= j < |ws| && j != i ==> Register(ws, t)[j] == ws[j]
  {
    assert Keys(ws)[i] == t;
    assert IndexOf(ws, t) == Some(i);
  }
}
