/**
 Round-robin scheduling as a queue: the tasks in ring order, beginning behind the current one, so that
 the current task, while it is in the ring, comes last.
 */
module Rounds {

  datatype State = Running | Ready | Sleeping | Dead

  datatype Info = Info(id: nat, state: State, ticks: nat, waitPid: nat, waitIo: nat)

  predicate Runnable(i: Info) {
    i.state == Ready || i.state == Running
  }

  /** One timer tick for one task: a sleeper that waits for no task counts down and becomes ready at 0. */
  function Woken(i: Info): Info {
    if i.state == Sleeping && i.waitPid == 0 then
      var t := if i.ticks > 0 then i.ticks - 1 else 0;
      i.(ticks := t, state := if t == 0 then Ready else Sleeping)
    else i
  }

  /** What a task can be waiting for besides time. */
  datatype Wait = OnIo(obj: nat) | OnPid(pid: nat)

  /** A sleeper that waits for this becomes ready. */
  function Released(i: Info, w: Wait): Info {
    if i.state != Sleeping then i
    else match w
      case OnIo(obj) => if i.waitIo == obj then i.(state := Ready, waitIo := 0) else i
      case OnPid(pid) => if i.waitPid == pid then i.(state := Ready, waitPid := 0) else i
  }

  function AllReleased(q: seq<Info>, w: Wait): (r: seq<Info>)
    ensures |r| == |q|
    ensures forall k | 0 <= k < |q| :: r[k] == Released(q[k], w)
  {
    seq(|q|, k requires 0 <= k < |q| => Released(q[k], w))
  }

  function AllWoken(q: seq<Info>): (r: seq<Info>)
    ensures |r| == |q|
    ensures forall k | 0 <= k < |q| :: r[k] == Woken(q[k])
  {
    seq(|q|, k requires 0 <= k < |q| => Woken(q[k]))
  }

  /** The first runnable position from i on, or the length. */
  function First(q: seq<Info>, i: nat): (k: nat)
    requires i <= |q|
    ensures i <= k <= |q| && (k < |q| ==> Runnable(q[k]))
    ensures forall j | i <= j < k :: !Runnable(q[j])
    decreases |q| - i
  {
    if i == |q| || Runnable(q[i]) then i else First(q, i + 1)
  }

  /** The queue seen from the task at position k. */
  function Rotated<T>(q: seq<T>, k: nat): seq<T>
    requires k < |q|
  {
    q[k + 1..] + q[..k + 1]
  }

  /** A task asleep on I/O is made ready by the very next tick, since it has no ticks to wait for. */
  lemma IoSleeperWakes(i: Info)
    requires i.state == Sleeping && i.waitPid == 0
    ensures Woken(i).state == Ready <==> i.ticks <= 1
  {
  }

  /** One task after n ticks. */
  function AfterTicks(i: Info, n: nat): Info {
    if n == 0 then i else Woken(AfterTicks(i, n - 1))
  }

  /**
   A sleeper that waits for no task counts down by one a tick: with k ticks left it sleeps through the
   first k - 1 and is ready from the k-th on. Nothing else about it changes.
   */
  lemma {:induction false} SleepLasts(i: Info, n: nat)
    requires i.state == Sleeping && i.waitPid == 0 && i.ticks > 0
    ensures AfterTicks(i, n).state == (if n < i.ticks then Sleeping else Ready)
    ensures AfterTicks(i, n).ticks == (if n < i.ticks then i.ticks - n else 0)
    ensures AfterTicks(i, n).id == i.id && AfterTicks(i, n).waitPid == 0 && AfterTicks(i, n).waitIo == i.waitIo
  {
    if n > 0 {
      SleepLasts(i, n - 1);
    }
  }

  /** Any number of ticks leaves every other task as it is: a sleeper that waits for a task, and one that does not sleep. */
  lemma {:induction false} TicksLeave(i: Info, n: nat)
    requires i.state != Sleeping || i.waitPid != 0
    ensures AfterTicks(i, n) == i
  {
    if n > 0 {
      TicksLeave(i, n - 1);
    }
  }

  /** What a wakeup does: exactly the sleepers that wait for this become ready, and their wait is cleared. */
  lemma ReleasedIff(i: Info, w: Wait)
    requires i.state == Sleeping
    ensures Released(i, w).state == Ready <==> (if w.OnIo? then i.waitIo == w.obj else i.waitPid == w.pid)
    ensures Released(i, w).state == Ready && w.OnIo? ==> Released(i, w) == i.(state := Ready, waitIo := 0)
    ensures Released(i, w).state == Ready && w.OnPid? ==> Released(i, w) == i.(state := Ready, waitPid := 0)
    ensures Released(i, w).state != Ready ==> Released(i, w) == i
  {
  }

  /** A task that does not sleep is not touched by a wakeup. */
  lemma AwakeReleased(i: Info, w: Wait)
    requires i.state != Sleeping
    ensures Released(i, w) == i
  {
  }

  predicate CanTick(q: seq<Info>) {
    First(AllWoken(q), 0) < |q|
  }

  /** timer_handler: wake, then select the first runnable task behind the current one. */
  function Tick(q: seq<Info>): (r: seq<Info>)
    requires CanTick(q)
    ensures |r| == |q| && r[|r| - 1] == AllWoken(q)[First(AllWoken(q), 0)]
  {
    Rotated(AllWoken(q), First(AllWoken(q), 0))
  }

  /** Selection moves tasks around in the ring; each of them has done its tick. */
  lemma TickOf(q: seq<Info>, k: nat) returns (j: nat)
    requires CanTick(q) && k < |q|
    ensures j < |q| && Tick(q)[j] == Woken(q[k])
  {
    var p := First(AllWoken(q), 0);
    j := if k > p then k - p - 1 else |q| - p - 1 + k;
  }

  /** The search ends on every queue with a runnable task, in particular while the main task stays runnable. */
  lemma CanTickIff(q: seq<Info>)
    ensures CanTick(q) <==> exists k :: 0 <= k < |q| && Runnable(Woken(q[k]))
  {
    if k :| 0 <= k < |q| && Runnable(Woken(q[k])) {
      assert Runnable(AllWoken(q)[k]);
    }
    if CanTick(q) {
      assert Runnable(Woken(q[First(AllWoken(q), 0)]));
    }
  }

  // ----- fairness -----

  function Ids(q: seq<Info>): (r: seq<nat>)
    ensures |r| == |q|
    ensures forall k | 0 <= k < |q| :: r[k] == q[k].id
  {
    seq(|q|, k requires 0 <= k < |q| => q[k].id)
  }

  predicate Distinct(ids: seq<nat>) {
    forall i, j | 0 <= i < j < |ids| :: ids[i] != ids[j]
  }

  /** A selection, the current task's exit, or anything that changes tasks but not the ring (sleeping, waking). */
  datatype Event = Select | Exit | Change

  ghost predicate Step(q: seq<Info>, r: seq<Info>, e: Event) {
    match e
    case Select => CanTick(q) && r == Tick(q)
    case Exit => |q| > 1 && Ids(r) == Ids(q)[..|q| - 1]
    case Change => Ids(r) == Ids(q)
  }

  ghost predicate Run(qs: seq<seq<Info>>, es: seq<Event>) {
    |qs| == |es| + 1 && forall i | 0 <= i < |es| :: Step(qs[i], qs[i + 1], es[i])
  }

  function Selections(es: seq<Event>): nat {
    if es == [] then 0 else (if es[0] == Select then 1 else 0) + Selections(es[1..])
  }

  /** Task t is in the ring in every state, and runnable whenever a task is selected. */
  ghost predicate StaysRunnable(qs: seq<seq<Info>>, es: seq<Event>, t: nat) {
    && (forall i | 0 <= i < |qs| :: t in Ids(qs[i]))
    && (forall i, k | 0 <= i < |es| && i < |qs| && es[i] == Select && 0 <= k < |qs[i]| && qs[i][k].id == t :: Runnable(Woken(qs[i][k])))
  }

  ghost predicate Chosen(qs: seq<seq<Info>>, es: seq<Event>, t: nat, i: int) {
    0 <= i < |es| && i + 1 < |qs| && es[i] == Select && |qs[i + 1]| > 0 && qs[i + 1][|qs[i + 1]| - 1].id == t
  }

  /** One event brings a waiting runnable task to the front by at least one selection. */
  lemma StepCloser(q: seq<Info>, r: seq<Info>, e: Event, p: nat) returns (s: nat)
    requires Step(q, r, e) && p < |q| && Distinct(Ids(q)) && q[p].id in Ids(r)
    requires e == Select ==> Runnable(Woken(q[p]))
    ensures Distinct(Ids(r)) && s < |r| && r[s].id == q[p].id
    ensures if e == Select then s < p || s == |r| - 1 else s == p
  {
    match e
    case Select =>
      var k := First(AllWoken(q), 0);
      assert Runnable(AllWoken(q)[p]) && k <= p;
      s := if k == p then |q| - 1 else p - k - 1;
      RotatedDistinct(q);
    case Exit =>
      assert Ids(r) == Ids(q)[..|q| - 1];
      var j :| 0 <= j < |Ids(r)| && Ids(r)[j] == q[p].id;
      assert Ids(q)[j] == Ids(q)[p];
      s := p;
    case Change =>
      assert Ids(r)[p] == Ids(q)[p];
      s := p;
  }

  lemma RotatedDistinct(q: seq<Info>)
    requires CanTick(q) && Distinct(Ids(q))
    ensures Distinct(Ids(Tick(q)))
  {
    hide First, Tick, AllWoken, Woken;
    var k, r := First(AllWoken(q), 0), Tick(q);
    forall i, j | 0 <= i < j < |r| ensures Ids(r)[i] != Ids(r)[j] {
      var x := RotatedFrom(q, i);
      var y := RotatedFrom(q, j);
      assert Ids(q)[x] != Ids(q)[y];
    }
  }

  /** Where position i of the rotated queue comes from. */
  lemma RotatedFrom(q: seq<Info>, i: nat) returns (x: nat)
    requires CanTick(q) && i < |q|
    ensures x == (if i < |q| - First(AllWoken(q), 0) - 1 then i + First(AllWoken(q), 0) + 1 else i - (|q| - First(AllWoken(q), 0) - 1))
    ensures x < |q| && Ids(Tick(q))[i] == Ids(q)[x]
  {
    var k := First(AllWoken(q), 0);
    x := if i < |q| - k - 1 then i + k + 1 else i - (|q| - k - 1);
    assert Tick(q)[i] == AllWoken(q)[x];
  }

  /**
   While no task is created, a task that stays runnable at position p behind the current one is
   selected within p + 1 selections, hence within as many as the ring has tasks.
   */
  lemma {:induction false} Fair(qs: seq<seq<Info>>, es: seq<Event>, t: nat, p: nat) returns (i: int)
    requires Run(qs, es) && p < |qs[0]| && qs[0][p].id == t && Distinct(Ids(qs[0])) && StaysRunnable(qs, es, t)
    requires Selections(es) >= p + 1
    ensures Chosen(qs, es, t, i)
    decreases |es|
  {
    hide First, Tick, Ids, AllWoken, CanTick;
    assert t in Ids(qs[1]);
    var s := StepCloser(qs[0], qs[1], es[0], p);
    if es[0] == Select && s == |qs[1]| - 1 {
      i := 0;
    } else {
      TailRun(qs, es, t);
      i := Fair(qs[1..], es[1..], t, s);
      i := i + 1;
    }
  }

  lemma TailRun(qs: seq<seq<Info>>, es: seq<Event>, t: nat)
    requires Run(qs, es) && es != [] && StaysRunnable(qs, es, t)
    ensures Run(qs[1..], es[1..]) && StaysRunnable(qs[1..], es[1..], t)
  {
    hide Step, Ids, Woken, Runnable;
    var rs, fs := qs[1..], es[1..];
    forall i | 0 <= i < |fs| ensures Step(rs[i], rs[i + 1], fs[i]) {
      assert Step(qs[i + 1], qs[i + 2], es[i + 1]);
    }
    forall i, k | 0 <= i < |fs| && i < |rs| && fs[i] == Select && 0 <= k < |rs[i]| && rs[i][k].id == t ensures Runnable(Woken(rs[i][k])) {
      assert rs[i] == qs[i + 1] && fs[i] == es[i + 1];
    }
  }
}
