/**
 Open files: tables of 16 slots per task that point into one global table of 16 counted entries.
 Every call as a function on the tables, and what it keeps.
 */
module Descriptors {

  datatype Slot = Empty | Ref(g: nat)

  /** What an entry stands for: a file of some driver, or one end of a pipe. */
  datatype Kind = File(driver: nat, path: string) | PipeEnd(pipe: nat, reader: bool)

  datatype Entry = Entry(used: bool, refcount: int, kind: Kind, offset: nat)

  /** The reference counts kept inside a pipe object. */
  datatype Ends = Ends(readers: int, writers: int)

  const SLOTS: nat := 16
  const MAXOPEN: nat := 16

  /** All tasks' tables, the running task, the global table, and the live pipe objects. */
  datatype Tables = Tables(tasks: seq<seq<Slot>>, cur: nat, global: seq<Entry>, pipes: map<nat, Ends>)

  predicate TablesOk(d: Tables) {
    && d.cur < |d.tasks| && |d.global| == MAXOPEN
    && forall t | 0 <= t < |d.tasks| :: TableOk(d.tasks[t])
  }

  predicate TableOk(t: seq<Slot>) {
    |t| == SLOTS && forall i | 0 <= i < |t| :: t[i].Ref? ==> t[i].g < MAXOPEN
  }

  // ----- counting pointers -----

  function One(s: Slot, g: nat): nat {
    if s == Ref(g) then 1 else 0
  }

  function CountIn(t: seq<Slot>, g: nat): nat {
    if t == [] then 0 else CountIn(t[..|t| - 1], g) + One(t[|t| - 1], g)
  }

  function Count(tasks: seq<seq<Slot>>, g: nat): nat {
    if tasks == [] then 0 else Count(tasks[..|tasks| - 1], g) + CountIn(tasks[|tasks| - 1], g)
  }

  lemma {:induction false} CountInSet(t: seq<Slot>, i: nat, s: Slot, g: nat)
    requires i < |t|
    ensures CountIn(t[i := s], g) == CountIn(t, g) - One(t[i], g) + One(s, g)
    ensures CountIn(t, g) >= One(t[i], g)
  {
    if i == |t| - 1 {
      assert t[i := s][..i] == t[..i];
    } else {
      assert t[i := s][..|t| - 1] == t[..|t| - 1][i := s];
      CountInSet(t[..|t| - 1], i, s, g);
    }
  }

  lemma {:induction false} CountSet(tasks: seq<seq<Slot>>, k: nat, t: seq<Slot>, g: nat)
    requires k < |tasks|
    ensures Count(tasks[k := t], g) == Count(tasks, g) - CountIn(tasks[k], g) + CountIn(t, g)
    ensures Count(tasks, g) >= CountIn(tasks[k], g)
  {
    if k == |tasks| - 1 {
      assert tasks[k := t][..k] == tasks[..k];
    } else {
      assert tasks[k := t][..|tasks| - 1] == tasks[..|tasks| - 1][k := t];
      CountSet(tasks[..|tasks| - 1], k, t, g);
    }
  }

  /** Changing one slot of one task. */
  lemma SlotCount(tasks: seq<seq<Slot>>, k: nat, i: nat, s: Slot, g: nat)
    requires k < |tasks| && i < |tasks[k]|
    ensures Count(tasks[k := tasks[k][i := s]], g) == Count(tasks, g) - One(tasks[k][i], g) + One(s, g)
    ensures Count(tasks, g) >= One(tasks[k][i], g)
  {
    CountInSet(tasks[k], i, s, g);
    CountSet(tasks, k, tasks[k][i := s], g);
  }

  // ----- the invariant -----

  predicate EndsHave(d: Tables, g: nat)
    requires g < |d.global|
  {
    d.global[g].used && d.global[g].kind.PipeEnd? ==>
      && d.global[g].kind.pipe in d.pipes
      && (if d.global[g].kind.reader then d.pipes[d.global[g].kind.pipe].readers == 1 else d.pipes[d.global[g].kind.pipe].writers == 1)
  }

  /** Two entries in use are not the same end of the same pipe. */
  predicate EndsApart(d: Tables, g: nat, h: nat)
    requires g < |d.global| && h < |d.global|
  {
    g != h && d.global[g].used && d.global[h].used && d.global[g].kind.PipeEnd? ==> d.global[g].kind != d.global[h].kind
  }

  /** The entry's count is the number of slots that point to it; an unused entry has none. */
  predicate Counted(d: Tables, g: nat)
    requires g < |d.global|
  {
    if d.global[g].used then d.global[g].refcount == Count(d.tasks, g) && d.global[g].refcount > 0 else Count(d.tasks, g) == 0
  }

  /** A pipe object that still exists has an end that is open. */
  predicate PipeLive(e: Ends) {
    0 <= e.readers <= 1 && 0 <= e.writers <= 1 && e.readers + e.writers > 0
  }

  ghost predicate Inv(d: Tables) {
    && TablesOk(d)
    && (forall g: nat | g < MAXOPEN :: Counted(d, g))
    && (forall g: nat | g < MAXOPEN :: EndsHave(d, g))
    && (forall g: nat, h: nat | g < MAXOPEN && h < MAXOPEN :: EndsApart(d, g, h))
    && (forall p | p in d.pipes :: PipeLive(d.pipes[p]))
  }

  // ----- the calls -----

  /** The lowest empty slot from i on, or 16. */
  function FreeSlot(t: seq<Slot>, i: nat): (r: nat)
    requires i <= |t|
    ensures i <= r <= |t| && (r < |t| ==> t[r] == Empty)
    ensures forall k | i <= k < r :: t[k] != Empty
    decreases |t| - i
  {
    if i == |t| || t[i] == Empty then i else FreeSlot(t, i + 1)
  }

  function FreeEntry(global: seq<Entry>, i: nat): (r: nat)
    requires i <= |global|
    ensures i <= r <= |global| && (r < |global| ==> !global[r].used)
    ensures forall k | i <= k < r :: global[k].used
    decreases |global| - i
  {
    if i == |global| || !global[i].used then i else FreeEntry(global, i + 1)
  }

  function SetSlot(d: Tables, i: nat, s: Slot): Tables
    requires TablesOk(d) && i < SLOTS
  {
    d.(tasks := d.tasks[d.cur := d.tasks[d.cur][i := s]])
  }

  /** fs_open, after the path was resolved: the driver found (if any) and what its open returned are inputs. */
  function Open(d: Tables, found: bool, status: int, kind: Kind): (r: (Tables, int))
    requires TablesOk(d)
  {
    var l, g := FreeSlot(d.tasks[d.cur], 0), FreeEntry(d.global, 0);
    if !found then (d, -1)
    else if status < 0 then (d, status)
    else if l == SLOTS || g == MAXOPEN then (d, -1)
    else (SetSlot(d.(global := d.global[g := Entry(true, 1, kind, 0)]), l, Ref(g)), l)
  }

  /** fs_pipe: two entries, two slots, one new pipe object p; have is whether memory for it was found. */
  function OpenPipe(d: Tables, have: bool, p: nat): (r: (Tables, bool))
    requires TablesOk(d)
  {
    var gr := FreeEntry(d.global, 0);
    var lr := FreeSlot(d.tasks[d.cur], 0);
    if gr == MAXOPEN || lr == SLOTS then (d, false)
    else
      var gw, lw := FreeEntry(d.global, gr + 1), FreeSlot(d.tasks[d.cur], lr + 1);
      if gw == MAXOPEN || lw == SLOTS || !have then (d, false)
      else
        var e := d.(global := d.global[gr := Entry(true, 1, PipeEnd(p, true), 0)][gw := Entry(true, 1, PipeEnd(p, false), 0)], pipes := d.pipes[p := Ends(1, 1)]);
        (SetSlot(SetSlot(e, lr, Ref(gr)), lw, Ref(gw)), true)
  }

  predicate IsOpen(d: Tables, fd: int)
    requires TablesOk(d)
  {
    0 <= fd < SLOTS && d.tasks[d.cur][fd] != Empty
  }

  /** The pipe driver's close: one end less, and the object goes with its last end. */
  function CloseEnd(pipes: map<nat, Ends>, k: Kind): map<nat, Ends> {
    if k.PipeEnd? && k.pipe in pipes then
      var e := pipes[k.pipe];
      var f := if k.reader then e.(readers := e.readers - 1) else e.(writers := e.writers - 1);
      if f.readers == 0 && f.writers == 0 then pipes - {k.pipe} else pipes[k.pipe := f]
    else pipes
  }

  function Close(d: Tables, fd: int): (r: (Tables, int))
    requires TablesOk(d)
    ensures TablesOk(r.0) && r.0.cur == d.cur && |r.0.tasks| == |d.tasks|
  {
    if !IsOpen(d, fd) then (d, -1)
    else
      var g := d.tasks[d.cur][fd].g;
      var e := d.global[g];
      var c := SetSlot(d.(global := d.global[g := e.(refcount := e.refcount - 1)]), fd, Empty);
      if e.refcount - 1 <= 0 then (c.(global := c.global[g := c.global[g].(used := false)], pipes := CloseEnd(d.pipes, e.kind)), 0)
      else (c, 0)
  }

  function Dup2(d: Tables, oldfd: int, newfd: int): (r: (Tables, int))
    requires TablesOk(d)
  {
    if !IsOpen(d, oldfd) then (d, -1)
    else if newfd < 0 || newfd >= SLOTS then (d, -1)
    else if oldfd == newfd then (d, newfd)
    else
      var c := Close(d, newfd).0;
      var g := d.tasks[d.cur][oldfd].g;
      (SetSlot(c.(global := c.global[g := c.global[g].(refcount := c.global[g].refcount + 1)]), newfd, Ref(g)), newfd)
  }

  /** Count every pointer of a table once more. */
  function Share(global: seq<Entry>, t: seq<Slot>): (r: seq<Entry>)
    requires |global| == MAXOPEN && forall i | 0 <= i < |t| :: t[i].Ref? ==> t[i].g < MAXOPEN
    ensures |r| == MAXOPEN
  {
    if t == [] then global
    else
      var h := Share(global, t[..|t| - 1]);
      match t[|t| - 1]
      case Empty => h
      case Ref(g) => h[g := h[g].(refcount := h[g].refcount + 1)]
  }

  /** create_process, and task_fork when it succeeds: the new task starts with the same pointers. */
  function Inherit(d: Tables): Tables
    requires TablesOk(d)
  {
    d.(tasks := d.tasks + [d.tasks[d.cur]], global := Share(d.global, d.tasks[d.cur]))
  }

  /** task_fork: the pointers are counted before the kernel stack is checked; a failed check drops the child only. */
  function Fork(d: Tables, stackOk: bool): Tables
    requires TablesOk(d)
  {
    if stackOk then Inherit(d) else d.(global := Share(d.global, d.tasks[d.cur]))
  }

  /** Exit: close every slot from i on. */
  function CloseFrom(d: Tables, i: nat): (r: Tables)
    requires TablesOk(d) && i <= SLOTS
    ensures TablesOk(r) && r.cur == d.cur && |r.tasks| == |d.tasks|
    decreases SLOTS - i
  {
    if i == SLOTS then d else CloseFrom(Close(d, i).0, i + 1)
  }

  // ----- what they keep -----

  lemma OpenKeeps(d: Tables, found: bool, status: int, kind: Kind)
    requires Inv(d) && kind.File?
    ensures Inv(Open(d, found, status, kind).0)
    ensures Open(d, found, status, kind).1 < 0 ==> Open(d, found, status, kind).0 == d
  {
    hide Count;
    var r := Open(d, found, status, kind);
    var l, g := FreeSlot(d.tasks[d.cur], 0), FreeEntry(d.global, 0);
    if r.1 >= 0 {
      var e := r.0;
      assert Counted(d, g);
      forall h: nat | h < MAXOPEN ensures Counted(e, h) {
        SlotCount(d.tasks, d.cur, l, Ref(g), h);
        assert Counted(d, h);
      }
      forall h: nat | h < MAXOPEN ensures EndsHave(e, h) {
        assert EndsHave(d, h);
      }
      forall h: nat, i: nat | h < MAXOPEN && i < MAXOPEN ensures EndsApart(e, h, i) {
        assert EndsApart(d, h, i);
      }
    }
  }

  lemma OpenPipeKeeps(d: Tables, have: bool, p: nat)
    requires Inv(d) && p !in d.pipes
    ensures Inv(OpenPipe(d, have, p).0)
    ensures !OpenPipe(d, have, p).1 ==> OpenPipe(d, have, p).0 == d
  {
    hide Count;
    var r := OpenPipe(d, have, p);
    if r.1 {
      var gr, lr := FreeEntry(d.global, 0), FreeSlot(d.tasks[d.cur], 0);
      var gw, lw := FreeEntry(d.global, gr + 1), FreeSlot(d.tasks[d.cur], lr + 1);
      var e := r.0;
      var m := d.tasks[d.cur := d.tasks[d.cur][lr := Ref(gr)]];
      assert e.tasks == m[d.cur := m[d.cur][lw := Ref(gw)]];
      assert Counted(d, gr) && Counted(d, gw);
      forall h: nat | h < MAXOPEN ensures Counted(e, h) {
        SlotCount(d.tasks, d.cur, lr, Ref(gr), h);
        SlotCount(m, d.cur, lw, Ref(gw), h);
        assert Counted(d, h);
      }
      forall h: nat | h < MAXOPEN ensures EndsHave(e, h) {
        assert EndsHave(d, h);
      }
      forall h: nat, i: nat | h < MAXOPEN && i < MAXOPEN ensures EndsApart(e, h, i) {
        assert EndsApart(d, h, i) && EndsHave(d, h) && EndsHave(d, i);
      }
    }
  }

  /** Closing: the entry and its driver's close go exactly when no pointer is left. */
  lemma CloseKeeps(d: Tables, fd: int)
    requires Inv(d)
    ensures Inv(Close(d, fd).0)
    ensures IsOpen(d, fd) ==> var g := d.tasks[d.cur][fd].g; var e := Close(d, fd).0;
      d.global[g].used && (!e.global[g].used <==> Count(e.tasks, g) == 0) && e.pipes == (if Count(e.tasks, g) == 0 then CloseEnd(d.pipes, d.global[g].kind) else d.pipes)
  {
    hide Count;
    if IsOpen(d, fd) {
      var g := d.tasks[d.cur][fd].g;
      var e := Close(d, fd).0;
      assert Counted(d, g) && EndsHave(d, g);
      forall h: nat | h < MAXOPEN ensures Counted(e, h) {
        SlotCount(d.tasks, d.cur, fd, Empty, h);
        assert Counted(d, h);
      }
      SlotCount(d.tasks, d.cur, fd, Empty, g);
      forall h: nat | h < MAXOPEN ensures EndsHave(e, h) {
        assert EndsHave(d, h) && EndsApart(d, h, g);
      }
      forall h: nat, i: nat | h < MAXOPEN && i < MAXOPEN ensures EndsApart(e, h, i) {
        assert EndsApart(d, h, i);
      }
    }
  }

  lemma Dup2Keeps(d: Tables, oldfd: int, newfd: int)
    requires Inv(d)
    ensures Inv(Dup2(d, oldfd, newfd).0)
    ensures Dup2(d, oldfd, newfd).1 < 0 ==> Dup2(d, oldfd, newfd).0 == d
    ensures Dup2(d, oldfd, newfd).1 >= 0 ==> Dup2(d, oldfd, newfd).0.tasks == d.tasks[d.cur := d.tasks[d.cur][newfd := d.tasks[d.cur][oldfd]]]
  {
    hide Count, Close;
    if IsOpen(d, oldfd) && 0 <= newfd < SLOTS && oldfd != newfd {
      var c := Close(d, newfd).0;
      var g := d.tasks[d.cur][oldfd].g;
      CloseKeeps(d, newfd);
      CloseSlots(d, newfd);
      var e := Dup2(d, oldfd, newfd).0;
      CountPositive(c, oldfd, g);
      forall h: nat | h < MAXOPEN ensures Counted(e, h) {
        SlotCount(c.tasks, c.cur, newfd, Ref(g), h);
        assert Counted(c, h);
      }
      forall h: nat | h < MAXOPEN ensures EndsHave(e, h) {
        assert EndsHave(c, h);
      }
      forall h: nat, i: nat | h < MAXOPEN && i < MAXOPEN ensures EndsApart(e, h, i) {
        assert EndsApart(c, h, i);
      }
      var t := d.tasks[d.cur];
      assert t[newfd := Empty][newfd := Ref(g)] == t[newfd := t[oldfd]];
      assert d.tasks[d.cur := t[newfd := Empty]][d.cur := t[newfd := t[oldfd]]] == d.tasks[d.cur := t[newfd := t[oldfd]]];
    } else if IsOpen(d, oldfd) && oldfd == newfd {
      assert d.tasks[d.cur][newfd := d.tasks[d.cur][oldfd]] == d.tasks[d.cur];
      assert d.tasks[d.cur := d.tasks[d.cur]] == d.tasks;
    }
  }

  lemma CloseSlots(d: Tables, fd: int)
    requires TablesOk(d) && 0 <= fd < SLOTS
    ensures Close(d, fd).0.tasks == d.tasks[d.cur := d.tasks[d.cur][fd := Empty]] && Close(d, fd).0.cur == d.cur
  {
    if !IsOpen(d, fd) {
      assert d.tasks[d.cur][fd := Empty] == d.tasks[d.cur];
      assert d.tasks[d.cur := d.tasks[d.cur]] == d.tasks;
    }
  }

  lemma CountPositive(d: Tables, fd: nat, g: nat)
    requires Inv(d) && fd < SLOTS && d.tasks[d.cur][fd] == Ref(g)
    ensures g < MAXOPEN && d.global[g].used
  {
    hide Count;
    assert Counted(d, g);
    SlotCount(d.tasks, d.cur, fd, Empty, g);
  }

  lemma {:induction false} ShareCounts(global: seq<Entry>, t: seq<Slot>, g: nat)
    requires |global| == MAXOPEN && g < MAXOPEN && forall i | 0 <= i < |t| :: t[i].Ref? ==> t[i].g < MAXOPEN
    ensures Share(global, t)[g] == global[g].(refcount := global[g].refcount + CountIn(t, g))
  {
    if t != [] {
      ShareCounts(global, t[..|t| - 1], g);
    }
  }

  lemma CountAppend(tasks: seq<seq<Slot>>, t: seq<Slot>, g: nat)
    ensures Count(tasks + [t], g) == Count(tasks, g) + CountIn(t, g)
  {
    assert (tasks + [t])[..|tasks|] == tasks;
  }

  lemma InheritKeeps(d: Tables)
    requires Inv(d)
    ensures Inv(Inherit(d))
  {
    hide Count, CountIn, Share;
    var e := Inherit(d);
    forall h: nat | h < MAXOPEN ensures Counted(e, h) && EndsHave(e, h) {
      ShareCounts(d.global, d.tasks[d.cur], h);
      CountAppend(d.tasks, d.tasks[d.cur], h);
      CountSet(d.tasks, d.cur, [], h);
      assert Counted(d, h) && EndsHave(d, h);
    }
    forall h: nat, i: nat | h < MAXOPEN && i < MAXOPEN ensures EndsApart(e, h, i) {
      ShareCounts(d.global, d.tasks[d.cur], h);
      ShareCounts(d.global, d.tasks[d.cur], i);
      assert EndsApart(d, h, i);
    }
  }

  /**
   The new process has exactly its creator's pointers, slot by slot; every entry is counted once more
   for each of them, and no other task, entry field or pipe changes.
   */
  lemma InheritShares(d: Tables)
    requires TablesOk(d)
    ensures |Inherit(d).tasks| == |d.tasks| + 1 && Inherit(d).cur == d.cur && Inherit(d).pipes == d.pipes
    ensures forall t | 0 <= t < |d.tasks| :: Inherit(d).tasks[t] == d.tasks[t]
    ensures |Inherit(d).tasks[|d.tasks|]| == SLOTS
    ensures forall k | 0 <= k < SLOTS :: Inherit(d).tasks[|d.tasks|][k] == d.tasks[d.cur][k]
    ensures forall g: nat | g < MAXOPEN :: Inherit(d).global[g] == d.global[g].(refcount := d.global[g].refcount + CountIn(d.tasks[d.cur], g))
  {
    hide CountIn, Share;
    forall g: nat | g < MAXOPEN ensures Share(d.global, d.tasks[d.cur])[g] == d.global[g].(refcount := d.global[g].refcount + CountIn(d.tasks[d.cur], g)) {
      ShareCounts(d.global, d.tasks[d.cur], g);
    }
  }

  /** A fork that passes its check does the same; one that fails adds no task, but has counted the pointers. */
  lemma ForkShares(d: Tables, stackOk: bool)
    requires TablesOk(d)
    ensures |Fork(d, stackOk).tasks| == |d.tasks| + (if stackOk then 1 else 0)
    ensures forall t | 0 <= t < |d.tasks| :: Fork(d, stackOk).tasks[t] == d.tasks[t]
    ensures stackOk ==> forall k | 0 <= k < SLOTS :: |Fork(d, stackOk).tasks[|d.tasks|]| == SLOTS && Fork(d, stackOk).tasks[|d.tasks|][k] == d.tasks[d.cur][k]
    ensures forall g: nat | g < MAXOPEN :: Fork(d, stackOk).global[g] == d.global[g].(refcount := d.global[g].refcount + CountIn(d.tasks[d.cur], g))
  {
    hide CountIn, Share;
    InheritShares(d);
  }

  /** The slots of a table that point to entry g. */
  function Pointing(t: seq<Slot>, g: nat): set<nat> {
    set k: nat | k < |t| && t[k] == Ref(g)
  }

  /** The count is the number of these slots. */
  lemma {:induction false} CountInIs(t: seq<Slot>, g: nat)
    ensures CountIn(t, g) == |Pointing(t, g)|
  {
    if t != [] {
      var n := |t| - 1;
      CountInIs(t[..n], g);
      assert Pointing(t, g) == Pointing(t[..n], g) + (if t[n] == Ref(g) then {n} else {});
    }
  }

  // ----- exactly what open, pipe and close do -----

  predicate HasFreeSlot(d: Tables)
    requires TablesOk(d)
  {
    exists k :: 0 <= k < SLOTS && d.tasks[d.cur][k] == Empty
  }

  predicate HasFreeEntry(d: Tables) {
    exists g :: 0 <= g < |d.global| && !d.global[g].used
  }

  /** Open succeeds exactly when a driver was found, its open agreed, and a slot and an entry are free. */
  lemma OpenIff(d: Tables, found: bool, status: int, kind: Kind)
    requires TablesOk(d)
    ensures Open(d, found, status, kind).1 >= 0 <==> found && status >= 0 && HasFreeSlot(d) && HasFreeEntry(d)
  {
    var l, g := FreeSlot(d.tasks[d.cur], 0), FreeEntry(d.global, 0);
    assert l < SLOTS ==> d.tasks[d.cur][l] == Empty;
    assert g < MAXOPEN ==> !d.global[g].used;
  }

  /** Slot l is the lowest free one, entry g the lowest free one, and g is new at offset 0; nothing else differs. */
  ghost predicate FileOpened(d: Tables, kind: Kind, r: Tables, l: int, g: nat)
    requires TablesOk(d)
  {
    && 0 <= l < SLOTS && g < MAXOPEN
    && d.tasks[d.cur][l] == Empty && (forall k | 0 <= k < l :: d.tasks[d.cur][k] != Empty)
    && !d.global[g].used && (forall h | 0 <= h < g :: d.global[h].used)
    && r == d.(tasks := d.tasks[d.cur := d.tasks[d.cur][l := Ref(g)]], global := d.global[g := Entry(true, 1, kind, 0)])
  }

  lemma OpenExact(d: Tables, found: bool, status: int, kind: Kind) returns (g: nat)
    requires TablesOk(d) && Open(d, found, status, kind).1 >= 0
    ensures FileOpened(d, kind, Open(d, found, status, kind).0, Open(d, found, status, kind).1, g)
  {
    g := FreeEntry(d.global, 0);
  }

  /** The two slots and entries of a pipe: the lowest ones, and the lower slot is the reading end. */
  ghost predicate PipeMade(d: Tables, p: nat, r: Tables, lr: nat, lw: nat, gr: nat, gw: nat)
    requires TablesOk(d)
  {
    && lr < lw < SLOTS && gr < gw < MAXOPEN
    && d.tasks[d.cur][lr] == Empty && d.tasks[d.cur][lw] == Empty && (forall k | 0 <= k < lw && k != lr :: d.tasks[d.cur][k] != Empty)
    && !d.global[gr].used && !d.global[gw].used && (forall g | 0 <= g < gw && g != gr :: d.global[g].used)
    && r.tasks == d.tasks[d.cur := d.tasks[d.cur][lr := Ref(gr)][lw := Ref(gw)]] && r.cur == d.cur
    && r.global == d.global[gr := Entry(true, 1, PipeEnd(p, true), 0)][gw := Entry(true, 1, PipeEnd(p, false), 0)]
    && r.pipes == d.pipes[p := Ends(1, 1)]
  }

  lemma OpenPipeExact(d: Tables, have: bool, p: nat) returns (lr: nat, lw: nat, gr: nat, gw: nat)
    requires TablesOk(d) && OpenPipe(d, have, p).1
    ensures PipeMade(d, p, OpenPipe(d, have, p).0, lr, lw, gr, gw)
  {
    lr, gr := FreeSlot(d.tasks[d.cur], 0), FreeEntry(d.global, 0);
    lw, gw := FreeSlot(d.tasks[d.cur], lr + 1), FreeEntry(d.global, gr + 1);
    var t := d.tasks[d.cur];
    assert d.tasks[d.cur := t[lr := Ref(gr)]][d.cur := t[lr := Ref(gr)][lw := Ref(gw)]] == d.tasks[d.cur := t[lr := Ref(gr)][lw := Ref(gw)]];
  }

  /** Pipe succeeds exactly when memory is found and two slots and two entries are free. */
  lemma OpenPipeIff(d: Tables, have: bool, p: nat)
    requires TablesOk(d)
    ensures OpenPipe(d, have, p).1 <==>
      have && (exists i, j :: 0 <= i < j < SLOTS && d.tasks[d.cur][i] == Empty && d.tasks[d.cur][j] == Empty)
           && (exists g, h :: 0 <= g < h < MAXOPEN && !d.global[g].used && !d.global[h].used)
  {
    var t := d.tasks[d.cur];
    var lr, gr := FreeSlot(t, 0), FreeEntry(d.global, 0);
    if lr < SLOTS && gr < MAXOPEN {
      var lw, gw := FreeSlot(t, lr + 1), FreeEntry(d.global, gr + 1);
      assert lw < SLOTS ==> t[lr] == Empty && t[lw] == Empty;
      assert gw < MAXOPEN ==> !d.global[gr].used && !d.global[gw].used;
    }
  }

  /** Close empties the slot and lowers the count of its entry; no other slot or entry changes. */
  lemma CloseExact(d: Tables, fd: int)
    requires TablesOk(d)
    ensures Close(d, fd).1 == (if IsOpen(d, fd) then 0 else -1)
    ensures !IsOpen(d, fd) ==> Close(d, fd).0 == d
    ensures IsOpen(d, fd) ==> var g := d.tasks[d.cur][fd].g; var r := Close(d, fd).0;
      && r.tasks == d.tasks[d.cur := d.tasks[d.cur][fd := Empty]]
      && r.global[g].refcount == d.global[g].refcount - 1 && r.global[g].kind == d.global[g].kind
      && forall h: nat | h < MAXOPEN && h != g :: r.global[h] == d.global[h]
  {
  }

  /** dup2 succeeds exactly for an open old descriptor and a new one in range; no entry changes but in its count. */
  lemma Dup2Exact(d: Tables, oldfd: int, newfd: int)
    requires TablesOk(d)
    ensures Dup2(d, oldfd, newfd).1 == (if IsOpen(d, oldfd) && 0 <= newfd < SLOTS then newfd else -1)
    ensures |Dup2(d, oldfd, newfd).0.global| == MAXOPEN
    ensures forall h: nat | h < MAXOPEN :: Dup2(d, oldfd, newfd).0.global[h].kind == d.global[h].kind && Dup2(d, oldfd, newfd).0.global[h].offset == d.global[h].offset
  {
  }

  predicate NoneOpen(t: seq<Slot>) {
    forall i | 0 <= i < |t| :: t[i] == Empty
  }

  lemma {:induction false} CountNone(t: seq<Slot>, g: nat)
    requires NoneOpen(t)
    ensures CountIn(t, g) == 0
  {
    if t != [] {
      CountNone(t[..|t| - 1], g);
    }
  }

  lemma {:induction false} ShareNone(global: seq<Entry>, t: seq<Slot>)
    requires |global| == MAXOPEN && NoneOpen(t)
    ensures Share(global, t) == global
  {
    if t != [] {
      ShareNone(global, t[..|t| - 1]);
    }
  }

  /** A fork keeps the counts right exactly when its stack check passes or the parent has nothing open. */
  lemma ForkKeepsIff(d: Tables, stackOk: bool)
    requires Inv(d)
    ensures Inv(Fork(d, stackOk)) <==> stackOk || NoneOpen(d.tasks[d.cur])
  {
    hide Count, CountIn, Share;
    var t := d.tasks[d.cur];
    if stackOk {
      InheritKeeps(d);
    } else if NoneOpen(t) {
      ShareNone(d.global, t);
    } else {
      var i :| 0 <= i < |t| && t[i] != Empty;
      var g := t[i].g;
      var e := Fork(d, false);
      ShareCounts(d.global, t, g);
      CountInSet(t, i, Empty, g);
      CountPositive(d, i, g);
      assert Counted(d, g) && One(t[i], g) == 1;
      assert !Counted(e, g);
    }
  }

  /** The leak on a concrete state: one open file, a failed fork, and the entry never becomes free. */
  lemma ForkLeak()
    ensures var t := seq<Slot>(SLOTS, i => if i == 0 then Ref(0) else Empty);
      var d := Tables([t], 0, seq<Entry>(MAXOPEN, i => Entry(i == 0, if i == 0 then 1 else 0, File(0, ""), 0)), map[]);
      TablesOk(d) && Fork(d, false).global[0].refcount == 2 && TablesOk(Fork(d, false)) && Close(Fork(d, false), 0).0.global[0].used
  {
    hide Share;
    var t := seq<Slot>(SLOTS, i => if i == 0 then Ref(0) else Empty);
    var global := seq<Entry>(MAXOPEN, i => Entry(i == 0, if i == 0 then 1 else 0, File(0, ""), 0));
    ShareCounts(global, t, 0);
    assert t == [Ref(0)] + t[1..];
    CountFirst(t);
  }

  lemma CountFirst(t: seq<Slot>)
    requires |t| > 0 && t[0] == Ref(0) && NoneOpen(t[1..])
    ensures CountIn(t, 0) == 1
  {
    CountInSet(t, 0, Empty, 0);
    assert forall i | 1 <= i < |t| :: t[i] == t[1..][i - 1];
    CountNone(t[0 := Empty], 0);
  }

  /** Exit closes everything the task had open, and counts stay right. */
  lemma {:induction false} CloseFromKeeps(d: Tables, i: nat)
    requires Inv(d) && i <= SLOTS && forall k | 0 <= k < i :: d.tasks[d.cur][k] == Empty
    ensures Inv(CloseFrom(d, i)) && NoneOpen(CloseFrom(d, i).tasks[d.cur])
    decreases SLOTS - i
  {
    hide Count, Close;
    if i < SLOTS {
      CloseKeeps(d, i);
      CloseSlots(d, i);
      CloseFromKeeps(Close(d, i).0, i + 1);
    }
  }

  // ----- runs -----

  datatype Call =
    | DoOpen(found: bool, status: int, driver: nat, path: string)
    | DoPipe(have: bool, p: nat)
    | DoDup2(oldfd: int, newfd: int)
    | DoClose(fd: int)
    | DoFork(stackOk: bool)
    | DoCreate
    | DoExit
    | Switch(t: nat)

  /** What a call needs: a fresh pipe object is a new one; a failing fork has nothing open. */
  predicate Allowed(d: Tables, c: Call)
    requires TablesOk(d)
  {
    match c
    case DoPipe(_, p) => p !in d.pipes
    case DoFork(stackOk) => stackOk || NoneOpen(d.tasks[d.cur])
    case Switch(t) => t < |d.tasks|
    case _ => true
  }

  function Apply(d: Tables, c: Call): Tables
    requires TablesOk(d) && Allowed(d, c)
  {
    match c
    case DoOpen(found, status, driver, path) => Open(d, found, status, File(driver, path)).0
    case DoPipe(have, p) => OpenPipe(d, have, p).0
    case DoDup2(oldfd, newfd) => Dup2(d, oldfd, newfd).0
    case DoClose(fd) => Close(d, fd).0
    case DoFork(stackOk) => Fork(d, stackOk)
    case DoCreate => Inherit(d)
    case DoExit => CloseFrom(d, 0)
    case Switch(t) => d.(cur := t)
  }

  lemma ApplyKeeps(d: Tables, c: Call)
    requires Inv(d) && Allowed(d, c)
    ensures Inv(Apply(d, c))
  {
    hide Count, Open, OpenPipe, Dup2, Close, Fork, Inherit, CloseFrom;
    match c
    case DoOpen(found, status, driver, path) => OpenKeeps(d, found, status, File(driver, path));
    case DoPipe(have, p) => OpenPipeKeeps(d, have, p);
    case DoDup2(oldfd, newfd) => Dup2Keeps(d, oldfd, newfd);
    case DoClose(fd) => CloseKeeps(d, fd);
    case DoFork(stackOk) => ForkKeepsIff(d, stackOk);
    case DoCreate => InheritKeeps(d);
    case DoExit => CloseFromKeeps(d, 0);
    case Switch(t) => SwitchKeeps(d, t);
  }

  lemma SwitchKeeps(d: Tables, t: nat)
    requires Inv(d) && t < |d.tasks|
    ensures Inv(d.(cur := t))
  {
    hide Count;
    var e := d.(cur := t);
    forall h: nat | h < MAXOPEN ensures Counted(e, h) && EndsHave(e, h) {
      assert Counted(d, h) && EndsHave(d, h);
    }
    forall h: nat, i: nat | h < MAXOPEN && i < MAXOPEN ensures EndsApart(e, h, i) {
      assert EndsApart(d, h, i);
    }
  }

  /** The states of a run of calls. */
  ghost predicate Run(states: seq<Tables>, calls: seq<Call>) {
    && |states| == |calls| + 1
    && forall i | 0 <= i < |calls| :: TablesOk(states[i]) && Allowed(states[i], calls[i]) && states[i + 1] == Apply(states[i], calls[i])
  }

  /** One task with nothing open, no entry in use. */
  function Boot(): Tables {
    Tables([seq<Slot>(SLOTS, _ => Empty)], 0, seq<Entry>(MAXOPEN, _ => Entry(false, 0, File(0, ""), 0)), map[])
  }

  lemma BootOk()
    ensures Inv(Boot())
  {
    var d := Boot();
    forall g: nat | g < MAXOPEN ensures Counted(d, g) {
      CountNone(d.tasks[0], g);
      assert d.tasks[..0] == [];
    }
  }

  /** In every state of every run the counts are the pointers, and no entry in use points to a freed pipe. */
  lemma {:induction false} RunKeeps(states: seq<Tables>, calls: seq<Call>, i: nat)
    requires Run(states, calls) && states[0] == Boot() && i < |states|
    ensures Inv(states[i])
  {
    hide Apply, Allowed, Count, Counted;
    if i > 0 {
      RunKeeps(states, calls, i - 1);
      ApplyKeeps(states[i - 1], calls[i - 1]);
    } else {
      BootOk();
    }
  }

  // ----- the calls in place -----

  class Files {
    var tasks: seq<seq<Slot>>
    var cur: nat
    var global: seq<Entry>
    var pipes: map<nat, Ends>

    constructor ()
      ensures St() == Boot()
    {
      tasks, cur := [seq<Slot>(SLOTS, _ => Empty)], 0;
      global, pipes := seq<Entry>(MAXOPEN, _ => Entry(false, 0, File(0, ""), 0)), map[];
    }

    function St(): Tables
      reads this
    {
      Tables(tasks, cur, global, pipes)
    }

    method FreeSlotFrom(i: nat) returns (l: nat)
      requires TablesOk(St()) && i <= SLOTS
      ensures l == FreeSlot(tasks[cur], i)
    {
      l := i;
      while l < SLOTS && tasks[cur][l] != Empty
        invariant i <= l <= SLOTS && FreeSlot(tasks[cur], i) == FreeSlot(tasks[cur], l)
      {
        l := l + 1;
      }
    }

    method FreeEntryFrom(i: nat) returns (g: nat)
      requires TablesOk(St()) && i <= MAXOPEN
      ensures g == FreeEntry(global, i)
    {
      g := i;
      while g < MAXOPEN && global[g].used
        invariant i <= g <= MAXOPEN && FreeEntry(global, i) == FreeEntry(global, g)
      {
        g := g + 1;
      }
    }

    method FsOpen(found: bool, status: int, kind: Kind) returns (fd: int)
      requires TablesOk(St())
      modifies this
      ensures (St(), fd) == Open(old(St()), found, status, kind)
    {
      if !found {
        return -1;
      }
      if status < 0 {
        return status;
      }
      var l := FreeSlotFrom(0);
      if l == SLOTS {
        return -1;
      }
      var g := FreeEntryFrom(0);
      if g == MAXOPEN {
        return -1;
      }
      global := global[g := Entry(true, 1, kind, 0)];
      tasks := tasks[cur := tasks[cur][l := Ref(g)]];
      fd := l;
    }

    /** The first two unused entries, then the first two empty slots, then the pipe object. */
    method FsPipe(have: bool, p: nat) returns (done: bool)
      requires TablesOk(St())
      modifies this
      ensures (St(), done) == OpenPipe(old(St()), have, p)
    {
      done := false;
      var gr := FreeEntryFrom(0);
      if gr == MAXOPEN {
        return;
      }
      var gw := FreeEntryFrom(gr + 1);
      var lr := FreeSlotFrom(0);
      if gw == MAXOPEN || lr == SLOTS {
        return;
      }
      var lw := FreeSlotFrom(lr + 1);
      if lw == SLOTS || !have {
        return;
      }
      pipes := pipes[p := Ends(1, 1)];
      global := global[gr := Entry(true, 1, PipeEnd(p, true), 0)];
      global := global[gw := Entry(true, 1, PipeEnd(p, false), 0)];
      tasks := tasks[cur := tasks[cur][lr := Ref(gr)]];
      tasks := tasks[cur := tasks[cur][lw := Ref(gw)]];
      done := true;
    }

    method FsClose(fd: int) returns (r: int)
      requires TablesOk(St())
      modifies this
      ensures (St(), r) == Close(old(St()), fd) && TablesOk(St())
    {
      if fd < 0 || fd >= SLOTS || tasks[cur][fd] == Empty {
        return -1;
      }
      var g := tasks[cur][fd].g;
      tasks := tasks[cur := tasks[cur][fd := Empty]];
      global := global[g := global[g].(refcount := global[g].refcount - 1)];
      if global[g].refcount <= 0 {
        ClosePipe(global[g].kind);
        global := global[g := global[g].(used := false)];
      }
      r := 0;
    }

    /** The driver's close: only the pipe driver has one. */
    method ClosePipe(k: Kind)
      modifies this`pipes
      ensures pipes == CloseEnd(old(pipes), k)
    {
      if k.PipeEnd? && k.pipe in pipes {
        var e := pipes[k.pipe];
        if k.reader {
          e := e.(readers := e.readers - 1);
        } else {
          e := e.(writers := e.writers - 1);
        }
        if e.readers == 0 && e.writers == 0 {
          pipes := pipes - {k.pipe};
        } else {
          pipes := pipes[k.pipe := e];
        }
      }
    }

    method FsDup2(oldfd: int, newfd: int) returns (r: int)
      requires TablesOk(St())
      modifies this
      ensures (St(), r) == Dup2(old(St()), oldfd, newfd)
    {
      if oldfd < 0 || oldfd >= SLOTS || tasks[cur][oldfd] == Empty {
        return -1;
      }
      if newfd < 0 || newfd >= SLOTS {
        return -1;
      }
      if oldfd == newfd {
        return newfd;
      }
      CloseSlots(St(), newfd);
      if tasks[cur][newfd] != Empty {
        var _ := FsClose(newfd);
      }
      var g := tasks[cur][oldfd].g;
      global := global[g := global[g].(refcount := global[g].refcount + 1)];
      tasks := tasks[cur := tasks[cur][newfd := Ref(g)]];
      r := newfd;
    }

    /** Count the current task's pointers once more, and add the child unless the stack check fails. */
    method TaskFork(stackOk: bool)
      requires TablesOk(St())
      modifies this
      ensures St() == Fork(old(St()), stackOk)
    {
      var t := tasks[cur];
      ghost var before := global;
      var i := 0;
      while i < SLOTS
        invariant i <= SLOTS && |global| == MAXOPEN && global == Share(before, t[..i])
        invariant tasks == old(tasks) && cur == old(cur) && pipes == old(pipes)
      {
        assert t[..i + 1][..i] == t[..i];
        if t[i] != Empty {
          global := global[t[i].g := global[t[i].g].(refcount := global[t[i].g].refcount + 1)];
        }
        i := i + 1;
      }
      assert t[..SLOTS] == t;
      if stackOk {
        tasks := tasks + [t];
      }
    }

    /** The closing part of destroy_current_process. */
    method CloseAll()
      requires TablesOk(St())
      modifies this
      ensures St() == CloseFrom(old(St()), 0)
    {
      hide Close;
      ghost var d := St();
      var i := 0;
      while i < SLOTS
        invariant i <= SLOTS && TablesOk(St()) && CloseFrom(d, 0) == CloseFrom(St(), i)
      {
        ghost var now := St();
        CloseEmpty(now, i);
        if tasks[cur][i] != Empty {
          var _ := FsClose(i);
        }
        i := i + 1;
      }
    }
  }

  lemma CloseEmpty(d: Tables, i: nat)
    requires TablesOk(d) && i < SLOTS
    ensures d.tasks[d.cur][i] == Empty ==> Close(d, i).0 == d
  {
  }
}
