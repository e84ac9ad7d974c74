/** The ring of tasks in place: circular next pointers, insertion, removal, sleeping, waking and selection. */
module Scheduler {
  import opened Rounds

  class Task {
    const id: nat
    var state: State
    var ticks: nat
    var waitPid: nat
    var waitIo: nat
    var next: Task?

    constructor (id: nat, state: State)
      ensures this.id == id && Get() == Info(id, state, 0, 0, 0)
    {
      this.id, this.state, ticks, waitPid, waitIo, next := id, state, 0, 0, 0, null;
    }

    function Get(): Info
      reads this
    {
      Info(id, state, ticks, waitPid, waitIo)
    }

    method Release(w: Wait)
      modifies this`state, this`waitIo, this`waitPid
      ensures Get() == Released(old(Get()), w)
    {
      if state == Sleeping {
        match w
        case OnIo(obj) =>
          if waitIo == obj {
            state := Ready;
            waitIo := 0;
          }
        case OnPid(pid) =>
          if waitPid == pid {
            state := Ready;
            waitPid := 0;
          }
      }
    }

    /** The timer's work on one task. */
    method Wake()
      modifies this`state, this`ticks
      ensures Get() == Woken(old(Get()))
    {
      if state == Sleeping {
        if waitPid == 0 {
          if ticks > 0 {
            ticks := ticks - 1;
          }
          if ticks == 0 {
            state := Ready;
          }
        }
      }
    }
  }

  function Infos(q: seq<Task>): (r: seq<Info>)
    reads q
    ensures |r| == |q|
  {
    if q == [] then [] else Infos(q[..|q| - 1]) + [q[|q| - 1].Get()]
  }

  lemma {:induction false} InfoAt(q: seq<Task>, k: nat)
    requires k < |q|
    ensures Infos(q)[k] == q[k].Get()
  {
    if k < |q| - 1 {
      InfoAt(q[..|q| - 1], k);
    }
  }

  lemma InfosAre(q: seq<Task>, s: seq<Info>)
    requires |s| == |q| && forall k: nat | k < |q| :: q[k].Get() == s[k]
    ensures Infos(q) == s
  {
    forall k: nat | k < |q| ensures Infos(q)[k] == s[k] {
      InfoAt(q, k);
    }
  }

  function After(q: seq<Task>, i: nat): Task
    requires i < |q|
  {
    q[if i + 1 < |q| then i + 1 else 0]
  }

  /** Following next from any task of q passes every task of q exactly once. */
  ghost predicate Ring(q: seq<Task>)
    reads q
  {
    && |q| > 0
    && (forall i, j | 0 <= i < j < |q| :: q[i] != q[j])
    && (forall i: nat {:trigger q[i].next} | i < |q| :: q[i].next == After(q, i))
  }

  /** The timer's pass over the ring that starts at rot[0]. */
  method WakeRing(start: Task, ghost rot: seq<Task>)
    requires Ring(rot) && start == rot[0]
    modifies rot
    ensures Infos(rot) == AllWoken(old(Infos(rot))) && forall t | t in rot :: t.next == old(t.next)
  {
    hide Infos, Ring;
    ghost var was := Infos(rot);
    InfosAll(rot);
    RingAll(rot);
    var iter := start;
    ghost var i: nat := 0;
    var going := true;
    while going
      invariant i <= |rot| && iter == rot[if i < |rot| then i else 0] && (going <==> i < |rot|)
      invariant forall t | t in rot :: t.next == old(t.next)
      invariant forall k: nat | k < i :: rot[k].Get() == Woken(was[k])
      invariant forall k: nat | i <= k < |rot| :: rot[k].Get() == was[k]
      decreases |rot| - i
    {
      assert iter in rot && iter.next == After(rot, i);
      iter.Wake();
      iter := iter.next;
      i := i + 1;
      going := iter != start;
    }
    InfosAre(rot, AllWoken(was));
  }

  /** wakeup_tasks_waiting_for_io, and the wakeup of waiting parents on exit. */
  method ReleaseRing(start: Task, w: Wait, ghost rot: seq<Task>)
    requires Ring(rot) && start == rot[0]
    modifies rot
    ensures Infos(rot) == AllReleased(old(Infos(rot)), w) && forall t | t in rot :: t.next == old(t.next)
  {
    hide Infos, Ring;
    ghost var was := Infos(rot);
    InfosAll(rot);
    RingAll(rot);
    var iter := start;
    ghost var i: nat := 0;
    var going := true;
    while going
      invariant i <= |rot| && iter == rot[if i < |rot| then i else 0] && (going <==> i < |rot|)
      invariant forall t | t in rot :: t.next == old(t.next)
      invariant forall k: nat | k < i :: rot[k].Get() == Released(was[k], w)
      invariant forall k: nat | i <= k < |rot| :: rot[k].Get() == was[k]
      decreases |rot| - i
    {
      assert iter in rot && iter.next == After(rot, i);
      iter.Release(w);
      iter := iter.next;
      i := i + 1;
      going := iter != start;
    }
    InfosAre(rot, AllReleased(was, w));
  }

  class Scheduler {
    var current: Task
    var readyQueue: Task
    ghost var queue: seq<Task>

    ghost predicate Valid()
      reads this, queue, current
    {
      && Ring(queue)
      && current.next == queue[0] && (current in queue ==> current == queue[|queue| - 1])
      && readyQueue in queue
    }

    /** tasking_init: the main task alone. */
    constructor ()
      ensures Valid() && current in queue && Infos(queue) == [Info(0, Running, 0, 0, 0)] && fresh(queue)
    {
      var main := new Task(0, Running);
      current, readyQueue, queue := main, main, [main];
      new;
      current.next := current;
      assert Infos(queue[..0]) == [];
    }

    /** One pass of the timer over the ring, then the selection. */
    method TimerHandler()
      requires Valid() && CanTick(Infos(queue))
      modifies this`current, this`queue, queue
      ensures Valid() && Infos(queue) == Tick(old(Infos(queue)))
      ensures queue == old(Rotated(queue, First(AllWoken(Infos(queue)), 0))) && current == queue[|queue| - 1]
    {
      hide AllWoken, Infos;
      ghost var q, was := queue, Infos(queue);
      WakeSleepers();
      Select(AllWoken(was));
    }

    /** Find the first runnable task behind the current one and make it the current one. */
    method Select(ghost infos: seq<Info>)
      requires Valid() && infos == Infos(queue) && First(infos, 0) < |queue|
      modifies this`current, this`queue
      ensures Valid() && queue == old(Rotated(queue, First(infos, 0))) && Infos(queue) == Rotated(infos, First(infos, 0))
      ensures current == queue[|queue| - 1]
    {
      hide Infos, Ring, Rotated;
      ghost var q := queue;
      var next := current.next;
      ghost var k: nat := 0;
      InfoAt(q, 0);
      while next.state != Ready && next.state != Running
        invariant k < |q| && next == q[k] && infos[k] == next.Get() && First(infos, 0) == First(infos, k)
        decreases |q| - k
      {
        RingNext(q, k);
        next := next.next;
        k := k + 1;
        InfoAt(q, k);
      }
      current := next;
      RotateRing(q, k);
      RotateInfos(q, k);
      queue := Rotated(q, k);
    }

    method WakeSleepers()
      requires Valid()
      modifies queue
      ensures Valid() && Infos(queue) == AllWoken(old(Infos(queue)))
    {
      hide Infos, Ring;
      ghost var q := queue;
      RingAll(q);
      WakeRing(current.next, q);
      RingIs(q);
    }

    /** Wake every task of the ring that waits for w, beginning with the ready queue's head. */
    method WakeAll(w: Wait, ghost r: nat)
      requires Valid() && r < |queue| && queue[r] == readyQueue
      modifies queue
      ensures Valid() && Infos(queue) == AllReleased(old(Infos(queue)), w)
    {
      hide Infos, Ring;
      ghost var q, all := queue, Infos(queue);
      FromRing(q, r);
      FromInfos(q, r);
      RingAll(q);
      FromIn(q, r);
      ReleaseRing(readyQueue, w, FromIndex(q, r));
      RingIs(q);
      FromInfos(q, r);
      Unturn(Infos(q), all, r, w);
    }

    /** The task whose next is queue[r]. */
    method FindPrev(t: Task, ghost r: nat) returns (prev: Task)
      requires Valid() && r < |queue| && queue[r] == t
      ensures prev == queue[if r == 0 then |queue| - 1 else r - 1]
    {
      ghost var rot := FromIndex(queue, r);
      FromRing(queue, r);
      prev := t;
      ghost var i: nat := 0;
      while prev.next != t
        invariant i < |rot| && prev == rot[i]
        decreases |rot| - i
      {
        RingNext(rot, i);
        prev := prev.next;
        i := i + 1;
      }
      LastOnly(rot, i);
    }

    /** A new task goes in front of the ready queue's head. */
    method Insert(t: Task, ghost r: nat)
      requires Valid() && current in queue && r < |queue| && queue[r] == readyQueue && t !in queue
      modifies this`queue, queue, t
      ensures Valid() && current in queue && queue == old(Inserted(queue, r, t))
      ensures Infos(queue) == old(Inserted(Infos(queue), r, t.Get()))
    {
      hide Infos, Ring;
      ghost var q, was, info := queue, Infos(queue), t.Get();
      ghost var p := if r == 0 then |q| - 1 else r - 1;
      InfosAll(q);
      RingAll(q);
      var last := FindPrev(readyQueue, r);
      last.next := t;
      t.next := readyQueue;
      assert forall i: nat {:trigger q[i].next} | i < |q| && i != p :: q[i].next == After(q, i);
      InsertRing(q, r, p, t);
      queue := Inserted(q, r, t);
      assert forall k: nat | k < |q| :: q[k].Get() == was[k];
      InsertInfos(q, was, r, t, info);
    }

    /** The ring part of destroy_current_process: wake those who wait for this task, then take it out. */
    method Exit(ghost r: nat)
      requires Valid() && current in queue && |queue| > 1 && r < |queue| && queue[r] == readyQueue
      modifies this`readyQueue, this`queue, queue
      ensures Valid() && current == old(current) && queue == old(queue)[..|old(queue)| - 1] && current !in queue && current.state == Dead
      ensures Ids(Infos(queue)) == old(Ids(Infos(queue)))[..|old(queue)| - 1]
      ensures Infos(queue) == AllReleased(old(Infos(queue)), OnPid(old(current.id)))[..|old(queue)| - 1]
      ensures readyQueue == if old(readyQueue == current) then queue[0] else old(readyQueue)
    {
      hide Infos, Ring, Ids, AllReleased;
      ghost var q, n, was := queue, |queue| - 1, Infos(queue);
      IdsAll(q);
      RingAll(q);
      InfosAll(q);
      current.state := Dead;
      InfosAre(q, AsLast(was, current.Get()));
      RingIs(q);
      InfoAt(q, n);
      PrefixReleased(was, current.Get(), OnPid(current.id));
      ReleasedAt(Infos(q), OnPid(current.id), n);
      WakeAll(OnPid(current.id), r);
      InfoAt(q, n);
      Unlink();
      IdsAll(queue);
    }

    /** sleep: at least one tick of 10 ms. */
    method Sleep(ms: nat)
      requires Valid() && current in queue
      modifies current
      ensures Valid() && Infos(queue) == AsLast(old(Infos(queue)), old(current.Get()).(state := Sleeping, ticks := if ms / 10 == 0 then 1 else ms / 10))
    {
      hide Infos, Ring;
      InfosAll(queue);
      RingAll(queue);
      var t := ms / 10;
      if t == 0 {
        t := 1;
      }
      ghost var was := Infos(queue);
      current.ticks := t;
      current.state := Sleeping;
      RingIs(queue);
      InfosAre(queue, AsLast(was, current.Get()));
    }

    method SleepOnIo(obj: nat)
      requires Valid() && current in queue
      modifies current
      ensures Valid() && Infos(queue) == AsLast(old(Infos(queue)), old(current.Get()).(state := Sleeping, waitIo := obj))
    {
      hide Infos, Ring;
      InfosAll(queue);
      RingAll(queue);
      ghost var was := Infos(queue);
      current.waitIo := obj;
      current.state := Sleeping;
      RingIs(queue);
      InfosAre(queue, AsLast(was, current.Get()));
    }

    /** Let the predecessor of the current task refer to its successor. */
    method Unlink()
      requires Valid() && current in queue && |queue| > 1
      modifies this`readyQueue, this`queue, queue
      ensures Valid() && current == old(current) && queue == old(queue)[..|old(queue)| - 1] && current !in queue && current.state == old(current.state)
      ensures Infos(queue) == old(Infos(queue))[..|old(queue)| - 1]
      ensures readyQueue == if old(readyQueue == current) then queue[0] else old(readyQueue)
    {
      hide Ring, Infos;
      ghost var q, n, was := queue, |queue| - 1, Infos(queue);
      RingAll(q);
      InfosAll(q);
      var prev := FindPrev(current, n);
      prev.next := current.next;
      if readyQueue == current {
        readyQueue := current.next;
      }
      assert forall i: nat {:trigger q[i].next} | i < n - 1 :: q[i].next == After(q, i);
      RemoveRing(q, n);
      queue := q[..n];
      InfosAre(queue, was[..n]);
    }
  }

  function AsLast(q: seq<Info>, i: Info): seq<Info>
    requires |q| > 0
  {
    q[|q| - 1 := i]
  }

  lemma InfosAll(q: seq<Task>)
    ensures forall k: nat | k < |q| :: q[k].Get() == Infos(q)[k]
  {
    forall k: nat | k < |q| ensures q[k].Get() == Infos(q)[k] {
      InfoAt(q, k);
    }
  }

  lemma IdsAll(q: seq<Task>)
    ensures |Ids(Infos(q))| == |q| && forall k: nat | k < |q| :: Ids(Infos(q))[k] == q[k].id
  {
    InfosAll(q);
  }

  lemma RingAll(q: seq<Task>)
    requires Ring(q)
    ensures |q| > 0 && forall i: nat, j: nat | i < j < |q| :: q[i] != q[j]
    ensures forall i: nat {:trigger q[i].next} | i < |q| :: q[i].next == After(q, i)
  {
  }

  lemma InsertRing(q: seq<Task>, r: nat, p: nat, t: Task)
    requires r < |q| && t !in q && p == (if r == 0 then |q| - 1 else r - 1)
    requires forall i: nat, j: nat | i < j < |q| :: q[i] != q[j]
    requires forall i: nat {:trigger q[i].next} | i < |q| && i != p :: q[i].next == After(q, i)
    requires q[p].next == t && t.next == q[r]
    ensures Ring(Inserted(q, r, t))
  {
    hide Inserted, Ring;
    var s := Inserted(q, r, t);
    InsertedAt(q, r, t, 0);
    forall i: nat | i < |s| ensures s[i].next == After(s, i) {
      InsertedAt(q, r, t, i);
      InsertedAt(q, r, t, if i + 1 < |s| then i + 1 else 0);
      if i < r {
        assert q[i].next == if i == p then t else After(q, i);
      } else if i > r {
        assert q[i - 1].next == if i - 1 == p then t else After(q, i - 1);
      }
    }
    forall i: nat, j: nat | i < j < |s| ensures s[i] != s[j] {
      InsertedAt(q, r, t, i);
      InsertedAt(q, r, t, j);
    }
    RingIs(s);
  }

  /** q with t in front of position r. */
  function Inserted<T>(q: seq<T>, r: nat, t: T): seq<T>
    requires r <= |q|
  {
    q[..r] + [t] + q[r..]
  }

  lemma InsertedAt<T>(q: seq<T>, r: nat, t: T, i: nat)
    requires r <= |q| && i <= |q|
    ensures |Inserted(q, r, t)| == |q| + 1 && Inserted(q, r, t)[i] == if i < r then q[i] else if i == r then t else q[i - 1]
  {
  }

  lemma InsertInfos(q: seq<Task>, was: seq<Info>, r: nat, t: Task, info: Info)
    requires r < |q| == |was| && t.Get() == info && forall k: nat | k < |q| :: q[k].Get() == was[k]
    ensures Infos(Inserted(q, r, t)) == Inserted(was, r, info)
  {
    hide Infos, Inserted;
    var s, d := Inserted(q, r, t), Inserted(was, r, info);
    InsertedAt(q, r, t, 0);
    InsertedAt(was, r, info, 0);
    forall k: nat | k < |s| ensures s[k].Get() == d[k] {
      InsertedAt(q, r, t, k);
      InsertedAt(was, r, info, k);
    }
    InfosAre(s, d);
  }

  lemma RemoveRing(q: seq<Task>, n: nat)
    requires |q| == n + 1 && n > 0
    requires forall i: nat, j: nat | i < j < |q| :: q[i] != q[j]
    requires forall i: nat {:trigger q[i].next} | i < n - 1 :: q[i].next == After(q, i)
    requires q[n - 1].next == q[0]
    ensures Ring(q[..n])
  {
    var s := q[..n];
    forall i: nat | i < n ensures s[i].next == After(s, i) {
      assert s[i] == q[i];
    }
    RingIs(s);
  }

  /** The ring seen from position r. */
  function FromIndex<T>(q: seq<T>, r: nat): seq<T>
    requires r < |q|
  {
    q[r..] + q[..r]
  }

  lemma FromRing(q: seq<Task>, r: nat)
    requires Ring(q) && r < |q|
    ensures Ring(FromIndex(q, r)) && |FromIndex(q, r)| == |q| && FromIndex(q, r)[0] == q[r]
    ensures FromIndex(q, r)[|q| - 1] == q[if r == 0 then |q| - 1 else r - 1]
    ensures forall t :: t in FromIndex(q, r) <==> t in q
  {
    hide Ring;
    assert q == q[..r] + q[r..];
    if r == 0 {
      assert FromIndex(q, 0) == q;
    } else {
      assert FromIndex(q, r) == Rotated(q, r - 1);
      RotateRing(q, r - 1);
    }
  }

  lemma FromInfos(q: seq<Task>, r: nat)
    requires r < |q|
    ensures Infos(FromIndex(q, r)) == FromIndex(Infos(q), r)
  {
    hide Infos, FromIndex, Rotated;
    FromTurn(q, r);
    FromTurn(Infos(q), r);
    if r > 0 {
      RotateInfos(q, r - 1);
    }
  }

  lemma FromTurn<T>(q: seq<T>, r: nat)
    requires r < |q|
    ensures FromIndex(q, r) == if r == 0 then q else Rotated(q, r - 1)
  {
  }

  lemma FromIn<T>(q: seq<T>, r: nat)
    requires r < |q|
    ensures forall t :: t in FromIndex(q, r) <==> t in q
  {
    assert q == q[..r] + q[r..];
  }

  lemma Unturn(now: seq<Info>, all: seq<Info>, r: nat, w: Wait)
    requires r < |all| == |now| && FromIndex(now, r) == AllReleased(FromIndex(all, r), w)
    ensures now == AllReleased(all, w)
  {
    hide AllReleased;
    forall k: nat | k < |all| ensures now[k] == Released(all[k], w) {
      var i := if k < r then k + (|all| - r) else k - r;
      assert FromIndex(now, r)[i] == now[k] && FromIndex(all, r)[i] == all[k];
      ReleasedAt(FromIndex(all, r), w, i);
    }
    ReleasedIs(all, w, now);
  }

  /** Whatever the last task is, the others are released alike. */
  lemma PrefixReleased(q: seq<Info>, x: Info, w: Wait)
    requires |q| > 0
    ensures AllReleased(AsLast(q, x), w)[..|q| - 1] == AllReleased(q, w)[..|q| - 1]
  {
  }

  lemma ReleasedAt(q: seq<Info>, w: Wait, i: nat)
    requires i < |q|
    ensures |AllReleased(q, w)| == |q| && AllReleased(q, w)[i] == Released(q[i], w)
  {
  }

  lemma ReleasedIs(q: seq<Info>, w: Wait, r: seq<Info>)
    requires |r| == |q| && forall k: nat | k < |q| :: r[k] == Released(q[k], w)
    ensures r == AllReleased(q, w)
  {
  }

  lemma LastOnly(q: seq<Task>, i: nat)
    requires Ring(q) && i < |q| && q[i].next == q[0]
    ensures i == |q| - 1
  {
    RingNext(q, i);
  }

  lemma RingNext(q: seq<Task>, k: nat)
    requires Ring(q) && k < |q|
    ensures q[k].next == After(q, k)
  {
  }

  lemma RotateRing(q: seq<Task>, k: nat)
    requires Ring(q) && k < |q|
    ensures Ring(Rotated(q, k)) && |Rotated(q, k)| == |q| && Rotated(q, k)[|q| - 1] == q[k] && q[k].next == Rotated(q, k)[0]
    ensures forall t | t in q :: t in Rotated(q, k)
  {
    hide Rotated, Place;
    var r := Rotated(q, k);
    RotatedLen(q, k);
    forall i: nat | i < |r| ensures r[i].next == After(r, i) {
      RingNext(q, Place(|q|, k, i));
      RotatedAt(q, k, i);
      RotatedAt(q, k, if i + 1 < |q| then i + 1 else 0);
      PlaceNext(|q|, k, i);
    }
    forall i: nat, j: nat | i < j < |r| ensures r[i] != r[j] {
      RotatedAt(q, k, i);
      RotatedAt(q, k, j);
      PlaceApart(|q|, k, i, j);
      RingApart(q, Place(|q|, k, i), Place(|q|, k, j));
    }
    RotatedAt(q, k, |q| - 1);
    RotatedAt(q, k, 0);
    PlaceEnds(|q|, k);
    RingNext(q, k);
    RotatedHas(q, k);
    RingIs(r);
  }

  lemma RingIs(q: seq<Task>)
    requires |q| > 0 && (forall i: nat, j: nat | i < j < |q| :: q[i] != q[j])
    requires forall i: nat {:trigger q[i].next} | i < |q| :: q[i].next == After(q, i)
    ensures Ring(q)
  {
  }

  lemma RingApart(q: seq<Task>, i: nat, j: nat)
    requires Ring(q) && i < |q| && j < |q| && i != j
    ensures q[i] != q[j]
  {
  }

  lemma RotatedHas<T>(q: seq<T>, k: nat)
    requires k < |q|
    ensures forall t | t in q :: t in Rotated(q, k)
  {
    assert q == q[..k + 1] + q[k + 1..];
  }

  lemma PlaceNext(n: nat, k: nat, i: nat)
    requires k < n && i < n
    ensures Place(n, k, if i + 1 < n then i + 1 else 0) == if Place(n, k, i) + 1 < n then Place(n, k, i) + 1 else 0
  {
  }

  lemma PlaceApart(n: nat, k: nat, i: nat, j: nat)
    requires k < n && i < n && j < n && i != j
    ensures Place(n, k, i) != Place(n, k, j)
  {
  }

  lemma PlaceEnds(n: nat, k: nat)
    requires k < n
    ensures Place(n, k, n - 1) == k && Place(n, k, 0) == if k + 1 < n then k + 1 else 0
  {
  }

  /** Where position i of the rotated queue comes from. */
  function Place(n: nat, k: nat, i: nat): (x: nat)
    requires k < n && i < n
    ensures x < n
  {
    if i < n - k - 1 then i + k + 1 else i - (n - k - 1)
  }

  lemma RotatedLen<T>(q: seq<T>, k: nat)
    requires k < |q|
    ensures |Rotated(q, k)| == |q|
  {
  }

  lemma RotatedAt<T>(q: seq<T>, k: nat, i: nat)
    requires k < |q| && i < |q|
    ensures |Rotated(q, k)| == |q| && Rotated(q, k)[i] == q[Place(|q|, k, i)]
  {
  }

  lemma RotateInfos(q: seq<Task>, k: nat)
    requires k < |q|
    ensures Infos(Rotated(q, k)) == Rotated(Infos(q), k)
  {
    hide Infos, Rotated, Place;
    RotatedLen(q, k);
    RotatedLen(Infos(q), k);
    forall i: nat | i < |q| ensures Rotated(q, k)[i].Get() == Rotated(Infos(q), k)[i] {
      RotatedAt(q, k, i);
      RotatedAt(Infos(q), k, i);
      InfoAt(q, Place(|q|, k, i));
    }
    InfosAre(Rotated(q, k), Rotated(Infos(q), k));
  }
}
