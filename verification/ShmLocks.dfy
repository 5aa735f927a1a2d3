/** Shared-memory locks of the SQLite file layer: a registry of lock groups, shared by the files open on one path. */
module ShmState {
  import opened Bytes

  const NLOCK := 8
  const GROUP_MAX := 16

  /** A read/write lock of a slot; there is none while the group is not in use. */
  datatype Lock = Missing | Lock(readers: nat, writer: bool)

  datatype Group = Group(active: bool, path: string, refs: nat, locks: seq<Lock>)

  /** An open file: its lock group, or -1, and per slot -1 for exclusive, 0, or 1 for shared. */
  datatype File = File(path: string, group: int, state: seq<int>)

  type Files = map<nat, File>

  /** The open files of group `g` that hold slot `i` in state `v`. */
  ghost function Holders(files: Files, g: int, i: nat, v: int): set<nat> {
    set f | f in files && files[f].group == g && i < |files[f].state| && files[f].state[i] == v
  }

  ghost function Members(files: Files, g: int): set<nat> {
    set f | f in files && files[f].group == g
  }

  function Count(b: bool): nat {
    if b then 1 else 0
  }

  /** The lock of a slot counts exactly the files that hold it, and an exclusive holder is alone. */
  ghost predicate SlotOk(files: Files, g: int, i: nat, l: Lock) {
    && l.Lock?
    && l.readers == |Holders(files, g, i, 1)|
    && Count(l.writer) == |Holders(files, g, i, -1)|
    && (l.writer ==> l.readers == 0)
  }

  ghost predicate FileOk(groups: seq<Group>, f: File) {
    && |f.state| == NLOCK && -1 <= f.group < |groups|
    && (forall i {:trigger f.state[i]} :: 0 <= i < NLOCK ==>
         -1 <= f.state[i] <= 1 && (f.group == -1 ==> f.state[i] == 0))
    && (f.group >= 0 ==> groups[f.group].active && groups[f.group].path == f.path)
  }

  ghost predicate GroupOk(files: Files, g: int, grp: Group) {
    && |grp.locks| == NLOCK
    && grp.refs == |Members(files, g)| && (grp.active <==> grp.refs > 0)
    && forall i: nat {:trigger grp.locks[i]} :: i < NLOCK ==>
         if grp.active then SlotOk(files, g, i, grp.locks[i]) else grp.locks[i] == Missing
  }

  ghost predicate DistinctPaths(groups: seq<Group>) {
    forall g, h {:trigger groups[g], groups[h]} :: 0 <= g < h < |groups| && groups[g].active && groups[h].active ==>
      groups[g].path != groups[h].path
  }

  /** What every step keeps. */
  ghost predicate Inv(groups: seq<Group>, files: Files) {
    && |groups| == GROUP_MAX && DistinctPaths(groups)
    && (forall f {:trigger files[f]} :: f in files ==> FileOk(groups, files[f]))
    && (forall g {:trigger groups[g]} :: 0 <= g < GROUP_MAX ==> GroupOk(files, g, groups[g]))
  }

  /** An exclusive holder of a slot keeps all other files of its group out of it. */
  lemma Exclusion(groups: seq<Group>, files: Files, f: nat, h: nat, i: nat)
    requires Inv(groups, files) && f in files && h in files && f != h && i < NLOCK
    requires files[f].group == files[h].group >= 0 && files[f].state[i] == -1
    ensures files[h].state[i] == 0
  {
    var g := files[f].group;
    assert GroupOk(files, g, groups[g]) && SlotOk(files, g, i, groups[g].locks[i]);
    assert FileOk(groups, files[h]);
    var w, r := Holders(files, g, i, -1), Holders(files, g, i, 1);
    assert f in w && r == {};
    assert files[h].state[i] == 1 ==> h in r;
    if files[h].state[i] == -1 {
      Smaller({f, h}, w);
    }
  }

  /** A slot is held exclusively if and only if one file of the group has it and all others have nothing. */
  lemma WriteHeld(groups: seq<Group>, files: Files, g: nat, i: nat)
    requires Inv(groups, files) && g < GROUP_MAX && groups[g].active && i < NLOCK
    ensures groups[g].locks[i].Lock?
    ensures groups[g].locks[i].writer <==>
            exists f :: f in files && files[f].group == g && files[f].state[i] == -1
                        && forall h :: h in files && files[h].group == g && h != f ==> files[h].state[i] == 0
  {
    assert GroupOk(files, g, groups[g]) && SlotOk(files, g, i, groups[g].locks[i]);
    forall f | f in files
      ensures FileOk(groups, files[f])
    {
    }
    var w := Holders(files, g, i, -1);
    if groups[g].locks[i].writer {
      assert w != {};
      var f :| f in w;
      forall h | h in files && files[h].group == g && h != f
        ensures files[h].state[i] == 0
      {
        Exclusion(groups, files, f, h, i);
      }
    } else {
      assert w == {};
      assert forall f :: f in files && files[f].group == g && files[f].state[i] == -1 ==> f in w;
    }
  }

  lemma {:induction false} Smaller<T>(a: set<T>, b: set<T>)
    requires a <= b
    ensures |a| <= |b| && (|a| == |b| ==> a == b)
  {
    if a != {} {
      var x :| x in a;
      Smaller(a - {x}, b - {x});
    }
  }

  // ----- one slot changes

  function SetState(file: File, i: nat, v: int): File
    requires i < |file.state|
  {
    file.(state := file.state[i := v])
  }

  function SetLock(grp: Group, i: nat, l: Lock): Group
    requires i < |grp.locks|
  {
    grp.(locks := grp.locks[i := l])
  }

  lemma OneApart(a: set<nat>, b: set<nat>, f: nat)
    requires a - {f} == b - {f}
    ensures |b| == |a| + Count(f in b) - Count(f in a)
  {
    if f in a {
      assert a == (a - {f}) + {f};
    } else {
      assert a == a - {f};
    }
    if f in b {
      assert b == (b - {f}) + {f};
    } else {
      assert b == b - {f};
    }
  }

  lemma SameMembers(files: Files, f: nat, i: nat, v: int, g: int)
    requires f in files && i < |files[f].state|
    ensures Members(files[f := SetState(files[f], i, v)], g) == Members(files, g)
  {
  }

  lemma HoldersAfter(files: Files, f: nat, i: nat, v: int, g: int, j: nat, w: int)
    requires f in files && i < |files[f].state|
    ensures var now := files[f := SetState(files[f], i, v)];
            |Holders(now, g, j, w)| == |Holders(files, g, j, w)|
              + (if g == files[f].group && j == i then Count(w == v) - Count(w == files[f].state[i]) else 0)
  {
    var now := files[f := SetState(files[f], i, v)];
    var a, b := Holders(files, g, j, w), Holders(now, g, j, w);
    forall h
      ensures h in a - {f} <==> h in b - {f}
    {
      assert h != f && h in files ==> now[h] == files[h];
    }
    OneApart(a, b, f);
    assert f in b <==> g == files[f].group && j < |files[f].state| && now[f].state[j] == w;
    assert f in a <==> g == files[f].group && j < |files[f].state| && files[f].state[j] == w;
  }

  /** A slot that changes hands with its lock keeps the invariant. */
  lemma SlotChanged(groups: seq<Group>, files: Files, f: nat, i: nat, v: int, l: Lock)
    requires Inv(groups, files) && f in files && files[f].group >= 0 && i < NLOCK && -1 <= v <= 1
    requires |files[f].state| == NLOCK && |groups[files[f].group].locks| == NLOCK
    requires var was, st := groups[files[f].group].locks[i], files[f].state[i];
             was.Lock? && l.Lock? && l.readers == was.readers + Count(v == 1) - Count(st == 1)
             && Count(l.writer) == Count(was.writer) + Count(v == -1) - Count(st == -1) && (l.writer ==> l.readers == 0)
    ensures Inv(groups[files[f].group := SetLock(groups[files[f].group], i, l)], files[f := SetState(files[f], i, v)])
  {
    var g := files[f].group;
    var groups', files' := groups[g := SetLock(groups[g], i, l)], files[f := SetState(files[f], i, v)];
    forall h {:trigger groups'[h]} | 0 <= h < GROUP_MAX
      ensures GroupOk(files', h, groups'[h])
    {
      assert GroupOk(files, h, groups[h]);
      SameMembers(files, f, i, v, h);
      forall j: nat {:trigger groups'[h].locks[j]} | j < NLOCK
        ensures if groups'[h].active then SlotOk(files', h, j, groups'[h].locks[j]) else groups'[h].locks[j] == Missing
      {
        assert if groups[h].active then SlotOk(files, h, j, groups[h].locks[j]) else groups[h].locks[j] == Missing;
        HoldersAfter(files, f, i, v, h, j, 1);
        HoldersAfter(files, f, i, v, h, j, -1);
      }
    }
    forall k {:trigger files'[k]} | k in files'
      ensures FileOk(groups', files'[k])
    {
      assert FileOk(groups, files[k]);
    }
  }

  // ----- files come and go

  function FreshLocks(): (r: seq<Lock>)
    ensures |r| == NLOCK && forall i :: 0 <= i < NLOCK ==> r[i] == Lock(0, false)
  {
    seq(NLOCK, i => Lock(0, false))
  }

  function NoLocks(): (r: seq<Lock>)
    ensures |r| == NLOCK && forall i :: 0 <= i < NLOCK ==> r[i] == Missing
  {
    seq(NLOCK, i => Missing)
  }

  function Idle(): (r: seq<int>)
    ensures |r| == NLOCK && forall i :: 0 <= i < NLOCK ==> r[i] == 0
  {
    seq(NLOCK, i => 0)
  }

  /** Group `g` after one more file was opened on `path`. */
  function Joined(grp: Group, path: string): Group {
    if grp.active then grp.(refs := grp.refs + 1) else Group(true, path, 1, FreshLocks())
  }

  /** Group `g` after one of its files is closed. */
  function Left(grp: Group): Group {
    if grp.refs > 1 then grp.(refs := grp.refs - 1) else Group(false, "", 0, NoLocks())
  }

  /** The group a file on `path` belongs to: the active one of that path, or any free one if there is none. */
  ghost predicate Suits(groups: seq<Group>, path: string, g: int) {
    && 0 <= g < |groups|
    && if groups[g].active then groups[g].path == path
       else forall h {:trigger groups[h]} :: 0 <= h < |groups| && groups[h].active ==> groups[h].path != path
  }

  lemma IdleHolders(files: Files, f: nat, file: File, g: int, i: nat, v: int)
    requires f !in files && file.state == Idle() && v != 0
    ensures Holders(files[f := file], g, i, v) == Holders(files, g, i, v)
  {
  }

  lemma MembersJoin(files: Files, f: nat, file: File, g: int)
    requires f !in files
    ensures Members(files[f := file], g) == if file.group == g then Members(files, g) + {f} else Members(files, g)
    ensures f !in Members(files, g)
  {
  }

  /** Opening a file outside any group. */
  lemma OpenedAlone(groups: seq<Group>, files: Files, f: nat, path: string)
    requires Inv(groups, files) && f !in files
    ensures Inv(groups, files[f := File(path, -1, Idle())])
  {
    var file := File(path, -1, Idle());
    var files' := files[f := file];
    forall h {:trigger groups[h]} | 0 <= h < GROUP_MAX
      ensures GroupOk(files', h, groups[h])
    {
      GroupSurvives(files, f, file, h, groups[h]);
    }
    forall k {:trigger files'[k]} | k in files'
      ensures FileOk(groups, files'[k])
    {
      assert k != f ==> FileOk(groups, files[k]);
    }
  }

  /** A group is not concerned by a file that opens elsewhere. */
  lemma GroupSurvives(files: Files, f: nat, file: File, h: int, grp: Group)
    requires f !in files && file.state == Idle() && file.group != h && GroupOk(files, h, grp)
    ensures GroupOk(files[f := file], h, grp)
  {
    MembersJoin(files, f, file, h);
    forall j: nat {:trigger grp.locks[j]} | j < NLOCK
      ensures if grp.active then SlotOk(files[f := file], h, j, grp.locks[j]) else grp.locks[j] == Missing
    {
      IdleHolders(files, f, file, h, j, 1);
      IdleHolders(files, f, file, h, j, -1);
    }
  }

  /** Opening a file in a group. */
  lemma OpenedIn(groups: seq<Group>, files: Files, f: nat, path: string, g: nat)
    requires Inv(groups, files) && f !in files && Suits(groups, path, g)
    ensures Inv(groups[g := Joined(groups[g], path)], files[f := File(path, g, Idle())])
  {
    var file := File(path, g, Idle());
    var groups', files' := groups[g := Joined(groups[g], path)], files[f := file];
    forall h {:trigger groups'[h]} | 0 <= h < GROUP_MAX
      ensures GroupOk(files', h, groups'[h])
    {
      assert GroupOk(files, h, groups[h]);
      if h == g {
        GroupJoined(files, f, file, groups[g]);
      } else {
        GroupSurvives(files, f, file, h, groups[h]);
      }
    }
    forall k {:trigger files'[k]} | k in files'
      ensures FileOk(groups', files'[k])
    {
      assert k != f ==> FileOk(groups, files[k]);
    }
    forall a, b {:trigger groups'[a], groups'[b]} | 0 <= a < b < |groups'| && groups'[a].active && groups'[b].active
      ensures groups'[a].path != groups'[b].path
    {
      assert groups[a].active && groups[b].active ==> groups[a].path != groups[b].path;
    }
  }

  lemma GroupJoined(files: Files, f: nat, file: File, grp: Group)
    requires f !in files && file.state == Idle() && GroupOk(files, file.group, grp)
    ensures GroupOk(files[f := file], file.group, Joined(grp, file.path))
  {
    var g, now := file.group, Joined(grp, file.path);
    MembersJoin(files, f, file, g);
    forall j: nat {:trigger now.locks[j]} | j < NLOCK
      ensures SlotOk(files[f := file], g, j, now.locks[j])
    {
      IdleHolders(files, f, file, g, j, 1);
      IdleHolders(files, f, file, g, j, -1);
      if grp.active {
        assert SlotOk(files, g, j, grp.locks[j]);
      } else {
        NoHolders(files, g, j, 1);
        NoHolders(files, g, j, -1);
      }
    }
  }

  lemma NoHolders(files: Files, g: int, i: nat, v: int)
    requires Members(files, g) == {}
    ensures Holders(files, g, i, v) == {}
  {
    assert Holders(files, g, i, v) <= Members(files, g);
  }

  // closing

  lemma HoldersLeave(files: Files, f: nat, g: int, i: nat, v: int)
    requires f in files && files[f].state == Idle() && v != 0
    ensures Holders(files - {f}, g, i, v) == Holders(files, g, i, v)
  {
  }

  lemma MembersLeave(files: Files, f: nat, g: int)
    requires f in files
    ensures Members(files - {f}, g) == Members(files, g) - {f} && (f in Members(files, g) <==> files[f].group == g)
  {
  }

  lemma GroupUnaffected(files: Files, f: nat, h: int, grp: Group)
    requires f in files && files[f].state == Idle() && files[f].group != h && GroupOk(files, h, grp)
    ensures GroupOk(files - {f}, h, grp)
  {
    MembersLeave(files, f, h);
    forall j: nat {:trigger grp.locks[j]} | j < NLOCK
      ensures if grp.active then SlotOk(files - {f}, h, j, grp.locks[j]) else grp.locks[j] == Missing
    {
      HoldersLeave(files, f, h, j, 1);
      HoldersLeave(files, f, h, j, -1);
    }
  }

  lemma GroupLeft(files: Files, f: nat, grp: Group)
    requires f in files && files[f].state == Idle() && GroupOk(files, files[f].group, grp) && grp.active
    ensures GroupOk(files - {f}, files[f].group, Left(grp))
  {
    var g := files[f].group;
    MembersLeave(files, f, g);
    forall j: nat {:trigger grp.locks[j]} | j < NLOCK
      ensures SlotOk(files - {f}, g, j, grp.locks[j])
    {
      assert SlotOk(files, g, j, grp.locks[j]);
      HoldersLeave(files, f, g, j, 1);
      HoldersLeave(files, f, g, j, -1);
    }
  }

  /** When the last file of a group holds nothing, none of its locks is held: only then are they deleted. */
  lemma FreedUnheld(files: Files, f: nat, grp: Group, i: nat)
    requires f in files && files[f].state == Idle() && GroupOk(files, files[f].group, grp) && grp.refs == 1 && i < NLOCK
    ensures grp.locks[i] == Lock(0, false)
  {
    var g := files[f].group;
    MembersLeave(files, f, g);
    assert SlotOk(files, g, i, grp.locks[i]);
    Smaller({f}, Members(files, g));
    assert Members(files - {f}, g) == {};
    NoHolders(files - {f}, g, i, 1);
    NoHolders(files - {f}, g, i, -1);
    HoldersLeave(files, f, g, i, 1);
    HoldersLeave(files, f, g, i, -1);
  }

  lemma Closed(groups: seq<Group>, files: Files, f: nat)
    requires Inv(groups, files) && f in files && files[f].state == Idle()
    ensures var g := files[f].group; Inv(if g < 0 then groups else groups[g := Left(groups[g])], files - {f})
  {
    var g := files[f].group;
    var groups', files' := if g < 0 then groups else groups[g := Left(groups[g])], files - {f};
    assert FileOk(groups, files[f]);
    forall h {:trigger groups'[h]} | 0 <= h < GROUP_MAX
      ensures GroupOk(files', h, groups'[h])
    {
      assert GroupOk(files, h, groups[h]);
      if h == g {
        GroupLeft(files, f, groups[g]);
      } else {
        GroupUnaffected(files, f, h, groups[h]);
      }
    }
    forall k {:trigger files'[k]} | k in files'
      ensures FileOk(groups', files'[k])
    {
      assert FileOk(groups, files[k]);
      if files[k].group == g >= 0 {
        assert {f, k} <= Members(files, g);
        Smaller({f, k}, Members(files, g));
        assert GroupOk(files, g, groups[g]);
      }
    }
    forall a, b {:trigger groups'[a], groups'[b]} | 0 <= a < b < |groups'| && groups'[a].active && groups'[b].active
      ensures groups'[a].path != groups'[b].path
    {
      assert groups[a].active && groups[b].active ==> groups[a].path != groups[b].path;
    }
  }
}

/** The registry and the open files, with the operations SQLite calls on them. */
module ShmLocks {
  import opened Bytes
  import opened ShmState

  datatype Code = Success | Busy | IoErrShmLock | CantOpen | NoMem

  /** SQLITE_SHM_LOCK, SQLITE_SHM_UNLOCK, SQLITE_SHM_SHARED, SQLITE_SHM_EXCLUSIVE */
  datatype Flags = Flags(lock: bool, unlock: bool, shared: bool, exclusive: bool)

  /** The slot is already held as wanted. */
  predicate Held(fl: Flags, st: int) {
    (fl.shared && st > 0) || (fl.exclusive && st < 0)
  }

  /** The slot can be had, for a file that holds it in state `st`. */
  predicate CanTake(fl: Flags, l: Lock, st: int) {
    || Held(fl, st)
    || (l.Lock? && !l.writer && if fl.exclusive then l.readers == 0 else fl.shared)
  }

  function Taken(fl: Flags, st: int): int {
    if Held(fl, st) then st else if fl.exclusive then -1 else 1
  }

  function TakenLock(fl: Flags, l: Lock, st: int): Lock {
    if Held(fl, st) || l.Missing? then l
    else if fl.exclusive then Lock(l.readers, true)
    else Lock(l.readers + 1, l.writer)
  }

  /** XReadWriteLock_unlock */
  function Unlocked(l: Lock): Lock {
    if l.Missing? then l
    else if l.writer then Lock(l.readers, false)
    else Lock(if l.readers > 0 then l.readers - 1 else 0, false)
  }

  /** Slots `a` to `b` are taken as asked for, starting from group `g0` and file `f0`; the others are as they were. */
  ghost predicate LockedIn(fl: Flags, g0: Group, f0: File, g1: Group, f1: File, a: nat, b: nat) {
    && |g0.locks| == |f0.state| == |g1.locks| == |f1.state| == NLOCK
    && f1 == f0.(state := f1.state) && g1 == g0.(locks := g1.locks)
    && forall j: nat {:trigger At(j)} :: At(j) && j < NLOCK ==>
         if a <= j < b then
           && CanTake(fl, g0.locks[j], f0.state[j])
           && f1.state[j] == Taken(fl, f0.state[j]) && g1.locks[j] == TakenLock(fl, g0.locks[j], f0.state[j])
         else f1.state[j] == f0.state[j] && g1.locks[j] == g0.locks[j]
  }

  /** Slots `a` to `b` are given up; the others are as they were. */
  ghost predicate UnlockedIn(g0: Group, f0: File, g1: Group, f1: File, a: nat, b: nat) {
    && |g0.locks| == |f0.state| == |g1.locks| == |f1.state| == NLOCK
    && f1 == f0.(state := f1.state) && g1 == g0.(locks := g1.locks)
    && forall j: nat {:trigger At(j)} :: At(j) && j < NLOCK ==>
         if a <= j < b then
           && f1.state[j] == 0
           && g1.locks[j] == if f0.state[j] == 0 then g0.locks[j] else Unlocked(g0.locks[j])
         else f1.state[j] == f0.state[j] && g1.locks[j] == g0.locks[j]
  }

  lemma NothingLocked(fl: Flags, g0: Group, f0: File, g1: Group, f1: File, a: nat)
    requires LockedIn(fl, g0, f0, g1, f1, a, a)
    ensures g1 == g0 && f1 == f0
  {
    forall j: nat | j < NLOCK
      ensures f1.state[j] == f0.state[j] && g1.locks[j] == g0.locks[j]
    {
      assert At(j);
    }
    assert f1.state == f0.state && g1.locks == g0.locks;
  }

  class Vfs {
    var groups: seq<Group>
    var files: Files

    ghost predicate Valid()
      reads this
    {
      |groups| == GROUP_MAX && forall i {:trigger Unlock(i)} :: Unlock(i) ==> Inv(groups, files)
    }

    constructor ()
      ensures Valid() && files == map[]
    {
      groups := seq(GROUP_MAX, i => Group(false, "", 0, seq(NLOCK, j => Missing)));
      files := map[];
      new;
      assert forall g :: 0 <= g < GROUP_MAX ==> Members(files, g) == {};
    }

    /** The file has a lock group, whose locks are in place. */
    ghost predicate Grouped(f: nat)
      reads this
    {
      && f in files && 0 <= files[f].group < |groups| && |files[f].state| == NLOCK
      && |groups[files[f].group].locks| == NLOCK
      && forall i: nat {:trigger files[f].state[i]} :: i < NLOCK ==>
           groups[files[f].group].locks[i].Lock? && -1 <= files[f].state[i] <= 1
    }

    lemma FileGrouped(f: nat)
      requires Valid() && f in files && files[f].group >= 0
      ensures Grouped(f)
    {
      assert Unlock(0);
      assert FileOk(groups, files[f]);
      var g := files[f].group;
      assert GroupOk(files, g, groups[g]);
      forall i: nat {:trigger files[f].state[i]} | i < NLOCK
        ensures groups[g].locks[i].Lock?
      {
        assert SlotOk(files, g, i, groups[g].locks[i]);
      }
    }

    /** Set the state of a slot and its lock, together. */
    method SetSlot(f: nat, i: nat, v: int, l: Lock)
      requires Valid() && Grouped(f) && i < NLOCK && -1 <= v <= 1
      requires var was, st := groups[files[f].group].locks[i], files[f].state[i];
               l.Lock? && l.readers == was.readers + Count(v == 1) - Count(st == 1)
               && Count(l.writer) == Count(was.writer) + Count(v == -1) - Count(st == -1)
               && (l.writer ==> l.readers == 0)
      modifies this
      ensures Valid() && Grouped(f)
      ensures files == old(files)[f := SetState(old(files)[f], i, v)]
      ensures groups == old(groups)[old(files)[f].group := SetLock(old(groups)[old(files)[f].group], i, l)]
    {
      assert Inv(groups, files) by { assert Unlock(0); }
      SlotChanged(groups, files, f, i, v, l);
      var g := files[f].group;
      groups := groups[g := SetLock(groups[g], i, l)];
      files := files[f := SetState(files[f], i, v)];
    }

    /** What the lock of a slot says about the holder of it. */
    lemma HeldBy(f: nat, i: nat)
      requires Valid() && Grouped(f) && i < NLOCK
      ensures var l, st := groups[files[f].group].locks[i], files[f].state[i];
              (l.writer ==> l.readers == 0) && (st == 1 ==> l.readers > 0) && (st == -1 ==> l.writer)
    {
      assert Unlock(0);
      var g := files[f].group;
      assert GroupOk(files, g, groups[g]) && FileOk(groups, files[f]);
      var l := groups[g].locks[i];
      assert SlotOk(files, g, i, l);
      assert files[f].state[i] == 1 ==> f in Holders(files, g, i, 1);
      assert files[f].state[i] == -1 ==> f in Holders(files, g, i, -1);
    }

    /** One slot of a lock request. */
    method TakeSlot(f: nat, i: nat, fl: Flags) returns (acquired: bool, lockedNow: bool)
      requires Valid() && Grouped(f) && i < NLOCK
      modifies this
      ensures Valid() && Grouped(f)
      ensures acquired == CanTake(fl, old(groups)[old(files)[f].group].locks[i], old(files)[f].state[i])
      ensures acquired ==> lockedNow == !Held(fl, old(files)[f].state[i]) && (lockedNow ==> old(files)[f].state[i] == 0)
      ensures var g, st := old(files)[f].group, old(files)[f].state[i];
              if acquired then
                && files == old(files)[f := SetState(old(files)[f], i, Taken(fl, st))]
                && groups == old(groups)[g := SetLock(old(groups)[g], i, TakenLock(fl, old(groups)[g].locks[i], st))]
              else files == old(files) && groups == old(groups)
    {
      HeldBy(f, i);
      var g, st := files[f].group, files[f].state[i];
      var l := groups[g].locks[i];
      acquired, lockedNow := Held(fl, st), false;
      if !acquired {
        if fl.exclusive && !l.writer && l.readers == 0 {
          acquired, lockedNow := true, true;
          SetSlot(f, i, -1, Lock(l.readers, true));
        } else if !fl.exclusive && fl.shared && !l.writer {
          acquired, lockedNow := true, true;
          SetSlot(f, i, 1, Lock(l.readers + 1, l.writer));
        }
      }
      assert acquired && !lockedNow ==>
             files[f].state == files[f].state[i := st] && groups[g].locks == groups[g].locks[i := l];
    }

    /** XReadWriteLock_unlock of a held slot; its state becomes 0 */
    method ReleaseSlot(f: nat, i: nat)
      requires Valid() && Grouped(f) && i < NLOCK && files[f].state[i] != 0
      modifies this
      ensures Valid() && Grouped(f)
      ensures files == old(files)[f := SetState(old(files)[f], i, 0)]
      ensures var g := old(files)[f].group;
              groups == old(groups)[g := SetLock(old(groups)[g], i, Unlocked(old(groups)[g].locks[i]))]
    {
      HeldBy(f, i);
      SetSlot(f, i, 0, Unlocked(groups[files[f].group].locks[i]));
    }

    /** Undo what a refused request has locked so far. */
    method Rollback(f: nat, offset: nat, index: nat, lockedNow: seq<bool>, fl: Flags, ghost g0: Group, ghost f0: File)
      requires Valid() && Grouped(f) && offset <= index < NLOCK && |lockedNow| == NLOCK
      requires LockedIn(fl, g0, f0, groups[files[f].group], files[f], offset, index)
      requires forall j: nat {:trigger lockedNow[j]} :: offset <= j < index ==>
                 lockedNow[j] == !Held(fl, f0.state[j]) && (lockedNow[j] ==> f0.state[j] == 0)
      modifies this
      ensures Valid() && Grouped(f) && files == old(files)[f := f0] && groups == old(groups)[old(files)[f].group := g0]
    {
      ghost var g := files[f].group;
      var r := offset;
      while r < index
        invariant offset <= r <= index && Valid() && Grouped(f) && g == files[f].group
        invariant LockedIn(fl, g0, f0, groups[g], files[f], r, index)
        invariant files == old(files)[f := files[f]] && groups == old(groups)[g := groups[g]]
      {
        assert At(r);
        if lockedNow[r] {
          ReleaseSlot(f, r);
        }
        r := r + 1;
      }
      NothingLocked(fl, g0, f0, groups[g], files[f], index);
    }

    /** The SQLITE_SHM_LOCK part: all slots or none. */
    method LockSlots(f: nat, offset: nat, count: nat, fl: Flags) returns (code: Code)
      requires Valid() && Grouped(f) && offset + count <= NLOCK
      modifies this
      ensures Valid() && code in {Success, Busy}
      ensures code == Busy <==>
                exists j: nat {:trigger At(j)} ::
                  && At(j) && offset <= j < offset + count
                  && !CanTake(fl, old(groups)[old(files)[f].group].locks[j], old(files)[f].state[j])
      ensures code == Busy ==> groups == old(groups) && files == old(files)
      ensures code == Success ==> var g := old(files)[f].group;
                             && Grouped(f)
                             && LockedIn(fl, old(groups)[g], old(files)[f], groups[g], files[f], offset, offset + count)
                             && files == old(files)[f := files[f]] && groups == old(groups)[g := groups[g]]
    {
      ghost var g := files[f].group;
      ghost var g0, f0 := groups[g], files[f];
      var lockedNow := seq(NLOCK, i => false);
      var index := offset;
      while index < offset + count
        invariant offset <= index <= offset + count && Valid() && Grouped(f) && g == files[f].group
        invariant |lockedNow| == NLOCK
        invariant LockedIn(fl, g0, f0, groups[g], files[f], offset, index)
        invariant files == old(files)[f := files[f]] && groups == old(groups)[g := groups[g]]
        invariant forall j: nat {:trigger lockedNow[j]} :: offset <= j < index ==>
                    lockedNow[j] == !Held(fl, f0.state[j]) && (lockedNow[j] ==> f0.state[j] == 0)
      {
        assert At(index);
        var acquired, now := TakeSlot(f, index, fl);
        if !acquired {
          Rollback(f, offset, index, lockedNow, fl, g0, f0);
          assert files == old(files) && groups == old(groups);
          return Busy;
        }
        lockedNow := lockedNow[index := now];
        index := index + 1;
      }
      code := Success;
    }

    /** The SQLITE_SHM_UNLOCK part. */
    method UnlockSlots(f: nat, offset: nat, count: nat)
      requires Valid() && Grouped(f) && offset + count <= NLOCK
      modifies this
      ensures Valid() && Grouped(f)
      ensures var g := old(files)[f].group;
              && UnlockedIn(old(groups)[g], old(files)[f], groups[g], files[f], offset, offset + count)
              && files == old(files)[f := files[f]] && groups == old(groups)[g := groups[g]]
    {
      ghost var g := files[f].group;
      ghost var g0, f0 := groups[g], files[f];
      var index := offset;
      while index < offset + count
        invariant offset <= index <= offset + count && Valid() && Grouped(f) && g == files[f].group
        invariant UnlockedIn(g0, f0, groups[g], files[f], offset, index)
        invariant files == old(files)[f := files[f]] && groups == old(groups)[g := groups[g]]
      {
        assert At(index);
        var st := files[f].state[index];
        assert st <= 1;   // so the branch that counts a state above 1 down is never taken
        if st != 0 {
          ReleaseSlot(f, index);
        }
        index := index + 1;
      }
    }

    /** xsqlite_file_shm_lock */
    method ShmLock(f: nat, offset: int, count: int, fl: Flags) returns (code: Code)
      requires Valid() && f in files
      modifies this
      ensures Valid()
      ensures code == IoErrShmLock <==> offset < 0 || count <= 0 || offset + count > NLOCK || old(files)[f].group < 0
      ensures code in {IoErrShmLock, Busy} ==> groups == old(groups) && files == old(files)
      ensures code != IoErrShmLock ==>
                && 0 <= old(files)[f].group < |old(groups)|
                && |old(groups)[old(files)[f].group].locks| == NLOCK && |old(files)[f].state| == NLOCK
      ensures code != IoErrShmLock ==>
                (code == Busy <==>
                 fl.lock && exists j: nat {:trigger At(j)} ::
                   && At(j) && offset <= j < offset + count
                   && !CanTake(fl, old(groups)[old(files)[f].group].locks[j], old(files)[f].state[j]))
      ensures code == Success ==> f in files && |groups| == |old(groups)| && files == old(files)[f := files[f]]
      ensures code == Success ==>
                var g := old(files)[f].group;
                && groups == old(groups)[g := groups[g]]
                && if fl.lock then
                     LockedIn(fl, old(groups)[g], old(files)[f], groups[g], files[f], offset, offset + count)
                   else if fl.unlock then
                     UnlockedIn(old(groups)[g], old(files)[f], groups[g], files[f], offset, offset + count)
                   else groups == old(groups) && files == old(files)
    {
      if offset < 0 || count <= 0 || offset + count > NLOCK || files[f].group < 0 {
        return IoErrShmLock;
      }
      FileGrouped(f);
      code := Success;
      if fl.lock {
        code := LockSlots(f, offset, count, fl);
      } else if fl.unlock {
        UnlockSlots(f, offset, count);
      }
    }

    /** xsqlite_file_shm_unmap, the lock part: every slot of the file is given up */
    method ShmUnmap(f: nat)
      requires Valid() && f in files
      modifies this
      ensures Valid() && f in files && files == old(files)[f := files[f]]
      ensures files[f] == old(files)[f].(state := files[f].state) && |files[f].state| == NLOCK
      ensures forall j :: 0 <= j < NLOCK ==> files[f].state[j] == 0
      ensures var g := files[f].group; if g < 0 then groups == old(groups) else
                g < |groups| == |old(groups)| && groups == old(groups)[g := groups[g]]
                && UnlockedIn(old(groups)[g], old(files)[f], groups[g], files[f], 0, NLOCK)
    {
      if files[f].group >= 0 {
        FileGrouped(f);
        UnlockSlots(f, 0, NLOCK);
        forall j | 0 <= j < NLOCK
          ensures files[f].state[j] == 0
        {
          assert At(j);
        }
      } else {
        assert Unlock(0);
        assert FileOk(groups, files[f]);
      }
    }

    /** xsqlite_lock_group_acquire: one more reference to the group of a path, which is set up if there is none */
    method Acquire(path: string) returns (g: int)
      requires Valid()
      modifies this`groups
      ensures |groups| == GROUP_MAX
      ensures g < 0 ==> groups == old(groups)
      ensures g >= 0 ==> Suits(old(groups), path, g) && groups == old(groups)[g := Joined(old(groups)[g], path)]
      ensures g < 0 ==>
                forall h {:trigger groups[h]} :: 0 <= h < GROUP_MAX && groups[h].active ==> groups[h].path != path
    {
      var freeGroup: int, index: nat := -1, 0;
      g := -1;
      while index < GROUP_MAX && g < 0
        invariant index <= GROUP_MAX == |groups| && -1 <= freeGroup < GROUP_MAX
        invariant freeGroup >= 0 ==> !groups[freeGroup].active
        invariant g < 0 ==>
                    && groups == old(groups)
                    && forall h {:trigger groups[h]} :: 0 <= h < index && groups[h].active ==> groups[h].path != path
        invariant g >= 0 ==> Suits(old(groups), path, g) && groups == old(groups)[g := Joined(old(groups)[g], path)]
        decreases GROUP_MAX - index, g < 0
      {
        var group := groups[index];
        if group.active && group.path == path {
          groups := groups[index := group.(refs := group.refs + 1)];
          g := index;
        } else {
          if !group.active && freeGroup < 0 {
            freeGroup := index;
          }
          index := index + 1;
        }
      }
      if g < 0 && freeGroup >= 0 {
        var ok, locks := CreateLocks();
        if ok {
          groups := groups[freeGroup := Group(true, path, 1, locks)];
          g := freeGroup;
        }
      }
    }

    /** Create a lock for every slot; if one cannot be had, the earlier ones are deleted again. */
    method CreateLocks() returns (ok: bool, locks: seq<Lock>)
      ensures locks == if ok then FreshLocks() else NoLocks()
    {
      locks, ok := NoLocks(), true;
      var index: nat := 0;
      while index < NLOCK && ok
        invariant index <= NLOCK == |locks|
        invariant forall j {:trigger locks[j]} :: 0 <= j < NLOCK ==>
                    locks[j] == if j < index then Lock(0, false) else Missing
        decreases NLOCK - index, ok
      {
        if * {
          locks := locks[index := Lock(0, false)];
          index := index + 1;
        } else {
          ok := false;
        }
      }
      if !ok {
        while index > 0
          invariant index <= NLOCK == |locks|
          invariant forall j {:trigger locks[j]} :: 0 <= j < NLOCK ==>
                      locks[j] == if j < index then Lock(0, false) else Missing
        {
          index := index - 1;
          locks := locks[index := Missing];
        }
      }
      assert locks == if ok then FreshLocks() else NoLocks();
    }

    /** xsqlite_vfs_open, for a handle that is not open yet; opening the file itself may fail */
    method Open(f: nat, path: string, mainDb: bool) returns (code: Code)
      requires Valid() && f !in files
      modifies this
      ensures Valid() && code in {Success, CantOpen, NoMem}
      ensures code != Success ==> groups == old(groups) && files == old(files)
      ensures code == Success ==>
                f in files && files == old(files)[f := files[f]] && files[f] == File(path, files[f].group, Idle())
      ensures code == Success && !mainDb ==> files[f].group == -1 && groups == old(groups)
      ensures code == Success && mainDb ==>
                var g := files[f].group;
                Suits(old(groups), path, g) && groups == old(groups)[g := Joined(old(groups)[g], path)]
    {
      if * {
        return CantOpen;
      }
      assert Inv(groups, files) by { assert Unlock(0); }
      var g := -1;
      if mainDb {
        g := Acquire(path);
        if g < 0 {
          return NoMem;
        }
        OpenedIn(old(groups), files, f, path, g);
      } else {
        OpenedAlone(groups, files, f, path);
      }
      files := files[f := File(path, g, Idle())];
      code := Success;
    }

    /**
     * xsqlite_lock_group_release: one reference less; with the last one the locks are deleted, which must not be held
     */
    method Release(g: nat)
      requires |groups| == GROUP_MAX && g < GROUP_MAX && |groups[g].locks| == NLOCK && groups[g].active
      requires groups[g].refs > 0
      requires groups[g].refs == 1 ==>
                 forall i {:trigger groups[g].locks[i]} :: 0 <= i < NLOCK ==> groups[g].locks[i] == Lock(0, false)
      modifies this`groups
      ensures groups == old(groups)[g := Left(old(groups)[g])]
    {
      var group := groups[g];
      group := group.(refs := group.refs - 1);
      if group.refs == 0 {
        group := group.(active := false);
        var index: nat := 0;
        while index < NLOCK
          invariant index <= NLOCK && group == Group(false, groups[g].path, 0, group.locks) && |group.locks| == NLOCK
          invariant forall j {:trigger group.locks[j]} :: 0 <= j < index ==> group.locks[j] == Missing
        {
          group := group.(locks := group.locks[index := Missing]);
          index := index + 1;
        }
        assert group.locks == NoLocks();
        group := group.(path := "");
      }
      groups := groups[g := group];
    }

    /** xsqlite_file_close: what the file holds is given up first, then its reference to the group */
    method Close(f: nat)
      requires Valid() && f in files
      modifies this
      ensures Valid() && files == old(files) - {f}
      ensures |groups| == |old(groups)|
      ensures forall h {:trigger groups[h]} :: 0 <= h < GROUP_MAX && h != old(files)[f].group ==>
                groups[h] == old(groups)[h]
      ensures var g := old(files)[f].group; 0 <= g < GROUP_MAX ==>
                groups[g].active == (old(groups)[g].refs > 1) && groups[g].refs == old(groups)[g].refs - 1
      ensures var g := old(files)[f].group; 0 <= g < GROUP_MAX && groups[g].active ==>
                |groups[g].locks| == |old(groups)[g].locks| == |old(files)[f].state| == NLOCK
                && forall j: nat {:trigger At(j)} :: At(j) && j < NLOCK ==>
                     groups[g].locks[j] ==
                     if old(files)[f].state[j] == 0 then old(groups)[g].locks[j] else Unlocked(old(groups)[g].locks[j])
    {
      ShmUnmap(f);
      assert Inv(groups, files) by { assert Unlock(0); }
      assert FileOk(groups, files[f]) && files[f].state == Idle();
      Closed(groups, files, f);
      var g := files[f].group;
      if g >= 0 {
        assert GroupOk(files, g, groups[g]);
        if groups[g].refs == 1 {
          forall i | 0 <= i < NLOCK
            ensures groups[g].locks[i] == Lock(0, false)
          {
            FreedUnheld(files, f, groups[g], i);
          }
        }
        Release(g);
      }
      files := files - {f};
    }
  }
}
