/**
 Who owns which frame. Every context page, page directory, private page table and user
 frame has one owner; the directory slots that the kernel uses are shared by all contexts.
 `Owned` is kept by every operation on address spaces, and isolation follows from it.
 */
module Ownership {
  import opened Machine
  import opened Frames
  import opened Paging

  datatype Role =
    | Context(c: nat)
    | Directory(c: nat)
    | Table(c: nat, i: nat)
    | Page(c: nat, i: nat, j: nat)

  // A directory slot of c that the kernel directory does not use (all of the kernel's own).
  predicate Private(m: Mem, k: nat, c: nat, i: nat) {
    PdEntry(m, c, i) != 0 && (c == k || PdEntry(m, k, i) == 0)
  }

  // Frame f plays role r.
  predicate Plays(m: Mem, k: nat, f: nat, r: Role) {
    match r
    case Context(c) => f == c
    case Directory(c) => f == DirOf(m, c)
    case Table(c, i) => i < SLOTS && Private(m, k, c, i) && PdEntry(m, c, i) == f * PAGE + USER
    case Page(c, i, j) => i < SLOTS && j < SLOTS && c != k && Private(m, k, c, i) && PtEntry(m, c, i, j) == f * PAGE + USER
  }

  predicate Has(owner: map<nat, Role>, f: nat, r: Role) {
    f in owner && owner[f] == r
  }

  predicate PageOk(m: Mem, owner: map<nat, Role>, c: nat, i: nat, j: nat) {
    var w := PtEntry(m, c, i, j);
    w != 0 ==> w % PAGE == USER && HEAP_END <= w / PAGE < FRAMES && Has(owner, w / PAGE, Page(c, i, j))
  }

  ghost predicate TableOk(m: Mem, k: nat, owner: map<nat, Role>, c: nat, i: nat) {
    var e := PdEntry(m, c, i);
    Private(m, k, c, i) ==>
      && e % PAGE == USER && InPool(e / PAGE) && Has(owner, e / PAGE, Table(c, i))
      && (c != k ==> forall j :: 0 <= j < SLOTS ==> PageOk(m, owner, c, i, j))
  }

  predicate SharesKernel(m: Mem, k: nat, c: nat, i: nat) {
    PdEntry(m, k, i) != 0 ==> PdEntry(m, c, i) == PdEntry(m, k, i)
  }

  ghost predicate ContextOk(m: Mem, k: nat, owner: map<nat, Role>, c: nat) {
    && InPool(c) && Has(owner, c, Context(c))
    && InPool(DirOf(m, c)) && Has(owner, DirOf(m, c), Directory(c))
    && (forall i :: 0 <= i < SLOTS ==> TableOk(m, k, owner, c, i))
    && (forall i :: 0 <= i < SLOTS ==> SharesKernel(m, k, c, i))
  }

  // `reserved` is a set of used frames that is never handed out: what boot marked.
  ghost predicate Owned(m: Mem, k: nat, live: set<nat>, owner: map<nat, Role>, reserved: set<nat>) {
    && WellFormed(m)
    && k in live
    && (forall c <- live :: ContextOk(m, k, owner, c))
    && (forall f <- owner :: f in m.frames.used && owner[f].c in live && Plays(m, k, f, owner[f]))
    && (forall f <- reserved :: f in m.frames.used && f !in owner)
  }

  // Whatever is used has an owner or is reserved.
  ghost predicate AllOwned(m: Mem, owner: map<nat, Role>, reserved: set<nat>) {
    forall f <- m.frames.used :: f in owner || f in reserved
  }

  // Context c reads the same in m and m': its directory, the kernel's and its private tables.
  ghost predicate SameView(m: Mem, m': Mem, k: nat, c: nat) {
    && DirOf(m', c) == DirOf(m, c)
    && (forall i :: 0 <= i < SLOTS ==> PdEntry(m', c, i) == PdEntry(m, c, i))
    && (forall i :: 0 <= i < SLOTS ==> PdEntry(m', k, i) == PdEntry(m, k, i))
    && (forall i, j :: 0 <= i < SLOTS && 0 <= j < SLOTS && c != k && Private(m, k, c, i) ==> PtEntry(m', c, i, j) == PtEntry(m, c, i, j))
  }

  ghost predicate KeepsRolesOf(owner: map<nat, Role>, owner': map<nat, Role>, c: nat) {
    forall f <- owner :: owner[f].c == c ==> Has(owner', f, owner[f])
  }

  lemma ContextUntouched(m: Mem, m': Mem, k: nat, owner: map<nat, Role>, owner': map<nat, Role>, c: nat)
    requires ContextOk(m, k, owner, c) && SameView(m, m', k, c) && KeepsRolesOf(owner, owner', c)
    ensures ContextOk(m', k, owner', c)
  {
    forall i | 0 <= i < SLOTS ensures TableOk(m', k, owner', c, i) {
      assert TableOk(m, k, owner, c, i);
      if Private(m', k, c, i) && c != k {
        forall j | 0 <= j < SLOTS ensures PageOk(m', owner', c, i, j) {
          assert PageOk(m, owner, c, i, j);
        }
      }
    }
    forall i | 0 <= i < SLOTS ensures SharesKernel(m', k, c, i) {
      assert SharesKernel(m, k, c, i);
    }
  }

  lemma RoleUntouched(m: Mem, m': Mem, k: nat, f: nat, r: Role)
    requires Plays(m, k, f, r) && SameView(m, m', k, r.c)
    ensures Plays(m', k, f, r)
  {
  }

  // ----- claiming a frame

  // A frame that is just claimed belongs to nobody.
  lemma TakeKeepsOwned(m: Mem, k: nat, live: set<nat>, owner: map<nat, Role>, reserved: set<nat>, f: nat)
    requires Owned(m, k, live, owner, reserved)
    requires f < FRAMES && f !in m.frames.used
    ensures Owned(m.(frames := m.frames.Take(f)), k, live, owner, reserved)
    ensures f !in owner && f !in reserved
  {
    var m' := m.(frames := m.frames.Take(f));
    assert forall c :: SameView(m, m', k, c);
    forall c <- live ensures ContextOk(m', k, owner, c) {
      ContextUntouched(m, m', k, owner, owner, c);
    }
    forall g <- owner ensures Plays(m', k, g, owner[g]) {
      RoleUntouched(m, m', k, g, owner[g]);
    }
  }

  // ----- mapping a page

  // Entry j of table (a, i) is the only word that m and m' may disagree on, as seen by c.
  ghost predicate SameViewBut(m: Mem, m': Mem, k: nat, c: nat, a: nat, i: nat, j: nat) {
    && DirOf(m', c) == DirOf(m, c)
    && (forall x :: 0 <= x < SLOTS ==> PdEntry(m', c, x) == PdEntry(m, c, x))
    && (forall x, y :: 0 <= x < SLOTS && 0 <= y < SLOTS && Private(m, k, c, x) && !(c == a && x == i && y == j)
          ==> PtEntry(m', c, x, y) == PtEntry(m, c, x, y))
  }

  lemma TableStore(m: Mem, k: nat, live: set<nat>, owner: map<nat, Role>, reserved: set<nat>, a: nat, i: nat, j: nat, w: nat)
    requires Owned(m, k, live, owner, reserved) && a in live && i < SLOTS && j < SLOTS && Private(m, k, a, i)
    ensures var m' := Store(m, PdEntry(m, a, i) / PAGE, j, w);
            WellFormed(m') && m'.frames == m.frames && PtEntry(m', a, i, j) == w && forall c <- live :: SameViewBut(m, m', k, c, a, i, j)
  {
    var t := PdEntry(m, a, i) / PAGE;
    var m' := Store(m, t, j, w);
    assert ContextOk(m, k, owner, a) && TableOk(m, k, owner, a, i);
    assert forall g, x :: g != t || x != j ==> Word(m', g, x) == Word(m, g, x);
    forall c <- live ensures SameViewBut(m, m', k, c, a, i, j) {
      assert ContextOk(m, k, owner, c);
      assert c != t && DirOf(m, c) != t;
      forall x, y | 0 <= x < SLOTS && 0 <= y < SLOTS && Private(m, k, c, x) && !(c == a && x == i && y == j)
        ensures PtEntry(m', c, x, y) == PtEntry(m, c, x, y)
      {
        assert TableOk(m, k, owner, c, x);
      }
    }
  }

  // The owners once frame f is mapped at page (c, i, j): a frame mapped there before is
  // owned by nobody any more (it stays marked used: vmm_alloc over a mapped page leaks).
  function Remapped(owner: map<nat, Role>, c: nat, i: nat, j: nat, f: nat): map<nat, Role> {
    (map g | g in owner && owner[g] != Page(c, i, j) :: owner[g])[f := Page(c, i, j)]
  }

  // The mapped context itself, after entry (i, j) is set to frame f.
  lemma MappedContextOk(m: Mem, m': Mem, k: nat, owner: map<nat, Role>, c: nat, i: nat, j: nat, f: nat)
    requires ContextOk(m, k, owner, c) && c != k && i < SLOTS && j < SLOTS && Private(m, k, c, i)
    requires HEAP_END <= f < FRAMES && f !in owner
    requires SameViewBut(m, m', k, c, c, i, j) && SameViewBut(m, m', k, k, c, i, j)
    requires PtEntry(m', c, i, j) == f * PAGE + USER
    ensures ContextOk(m', k, Remapped(owner, c, i, j, f), c)
  {
    var owner' := Remapped(owner, c, i, j, f);
    forall x | 0 <= x < SLOTS ensures TableOk(m', k, owner', c, x) {
      assert TableOk(m, k, owner, c, x);
      forall y | 0 <= y < SLOTS && Private(m, k, c, x) ensures PageOk(m', owner', c, x, y) {
        assert PageOk(m, owner, c, x, y);
      }
    }
    forall x | 0 <= x < SLOTS ensures SharesKernel(m', k, c, x) {
      assert SharesKernel(m, k, c, x);
    }
  }

  lemma RoleUnmapped(m: Mem, m': Mem, k: nat, g: nat, r: Role, c: nat, i: nat, j: nat)
    requires Plays(m, k, g, r) && r != Page(c, i, j)
    requires SameViewBut(m, m', k, r.c, c, i, j) && SameViewBut(m, m', k, k, c, i, j)
    ensures Plays(m', k, g, r)
  {
  }

  lemma SeenByOthers(m: Mem, m': Mem, k: nat, a: nat, c: nat, i: nat, j: nat)
    requires SameViewBut(m, m', k, a, c, i, j) && SameViewBut(m, m', k, k, c, i, j) && a != c
    ensures SameView(m, m', k, a)
  {
  }

  lemma RemappedOwners(owner: map<nat, Role>, c: nat, i: nat, j: nat, f: nat)
    requires f !in owner
    ensures var owner' := Remapped(owner, c, i, j, f);
            && (forall g :: g in owner' <==> g == f || (g in owner && owner[g] != Page(c, i, j)))
            && (forall g <- owner' :: owner'[g] == if g == f then Page(c, i, j) else owner[g])
            && (forall a :: a != c ==> KeepsRolesOf(owner, owner', a))
  {
  }

  lemma RemappedRoles(m: Mem, m': Mem, k: nat, live: set<nat>, owner: map<nat, Role>, reserved: set<nat>, c: nat, i: nat, j: nat, f: nat, g: nat)
    requires Owned(m, k, live, owner, reserved) && c in live && c != k && i < SLOTS && j < SLOTS && Private(m, k, c, i)
    requires f in m.frames.used && f !in owner && PtEntry(m', c, i, j) == f * PAGE + USER
    requires forall a <- live :: SameViewBut(m, m', k, a, c, i, j)
    requires g in Remapped(owner, c, i, j, f)
    ensures var r := Remapped(owner, c, i, j, f)[g]; g in m.frames.used && r.c in live && Plays(m', k, g, r)
  {
    hide ContextOk;
    assert SameViewBut(m, m', k, k, c, i, j);
    if g == f {
      assert SameViewBut(m, m', k, c, c, i, j);
    } else {
      RoleUnmapped(m, m', k, g, owner[g], c, i, j);
    }
  }

  lemma RemappedOwned(m: Mem, m': Mem, k: nat, live: set<nat>, owner: map<nat, Role>, reserved: set<nat>, c: nat, i: nat, j: nat, f: nat)
    requires Owned(m, k, live, owner, reserved) && c in live && c != k && i < SLOTS && j < SLOTS && Private(m, k, c, i)
    requires HEAP_END <= f < FRAMES && f in m.frames.used && f !in owner && f !in reserved
    requires WellFormed(m') && m'.frames == m.frames && PtEntry(m', c, i, j) == f * PAGE + USER
    requires forall a <- live :: SameViewBut(m, m', k, a, c, i, j)
    ensures Owned(m', k, live, Remapped(owner, c, i, j, f), reserved)
  {
    var owner' := Remapped(owner, c, i, j, f);
    RemappedOwners(owner, c, i, j, f);
    hide SameViewBut, ContextOk, WellFormed, Plays, Remapped, PtEntry, Private, PdEntry, KeepsRolesOf;
    forall a <- live ensures ContextOk(m', k, owner', a) {
      if a == c {
        MappedContextOk(m, m', k, owner, c, i, j, f);
      } else {
        SeenByOthers(m, m', k, a, c, i, j);
        ContextUntouched(m, m', k, owner, owner', a);
      }
    }
    forall g <- owner' {
      RemappedRoles(m, m', k, live, owner, reserved, c, i, j, f, g);
    }
  }

  // Mapping into a private table that exists.
  lemma MapPrivate(m: Mem, k: nat, live: set<nat>, owner: map<nat, Role>, reserved: set<nat>, c: nat, i: nat, j: nat, f: nat)
    requires Owned(m, k, live, owner, reserved) && c in live && c != k && i < SLOTS && j < SLOTS && Private(m, k, c, i)
    requires HEAP_END <= f < FRAMES && f in m.frames.used && f !in owner && f !in reserved
    ensures Owned(Store(m, PdEntry(m, c, i) / PAGE, j, f * PAGE + USER), k, live, Remapped(owner, c, i, j, f), reserved)
  {
    TableStore(m, k, live, owner, reserved, c, i, j, f * PAGE + USER);
    RemappedOwned(m, Store(m, PdEntry(m, c, i) / PAGE, j, f * PAGE + USER), k, live, owner, reserved, c, i, j, f);
  }

  // Mapping into a table of the kernel, by any context: no private view changes.
  lemma MapShared(m: Mem, k: nat, live: set<nat>, owner: map<nat, Role>, reserved: set<nat>, i: nat, j: nat, w: nat)
    requires Owned(m, k, live, owner, reserved) && i < SLOTS && j < SLOTS && PdEntry(m, k, i) != 0
    ensures Owned(Store(m, PdEntry(m, k, i) / PAGE, j, w), k, live, owner, reserved)
  {
    var m' := Store(m, PdEntry(m, k, i) / PAGE, j, w);
    TableStore(m, k, live, owner, reserved, k, i, j, w);
    assert SameViewBut(m, m', k, k, k, i, j);
    forall a <- live ensures ContextOk(m', k, owner, a) {
      assert SameViewBut(m, m', k, a, k, i, j);
      ContextUntouched(m, m', k, owner, owner, a);
    }
    forall g <- owner ensures Plays(m', k, g, owner[g]) {
      assert SameViewBut(m, m', k, owner[g].c, k, i, j);
      RoleUntouched(m, m', k, g, owner[g]);
    }
  }

  // ----- mapping a page whose table does not exist yet

  // Context c after slot i got the new table t with the single entry j; its other
  // private tables read as before.
  ghost predicate GrownView(m: Mem, m': Mem, k: nat, c: nat, i: nat, t: nat, j: nat, w: nat) {
    && DirOf(m', c) == DirOf(m, c)
    && (forall x :: 0 <= x < SLOTS ==> PdEntry(m', c, x) == if x == i then t * PAGE + USER else PdEntry(m, c, x))
    && (forall y :: 0 <= y < SLOTS ==> PtEntry(m', c, i, y) == if y == j then w else 0)
    && (forall x, y :: 0 <= x < SLOTS && 0 <= y < SLOTS && x != i && Private(m, k, c, x) ==> PtEntry(m', c, x, y) == PtEntry(m, c, x, y))
  }

  ghost predicate SameDirectory(m: Mem, m': Mem, c: nat) {
    DirOf(m', c) == DirOf(m, c) && forall x :: 0 <= x < SLOTS ==> PdEntry(m', c, x) == PdEntry(m, c, x)
  }

  ghost predicate SamePrivateTables(m: Mem, m': Mem, k: nat, c: nat) {
    forall x, y :: 0 <= x < SLOTS && 0 <= y < SLOTS && Private(m, k, c, x) ==> PtEntry(m', c, x, y) == PtEntry(m, c, x, y)
  }

  // The memory after map_page has installed table t (frame t just claimed) in slot i of c.
  function WithTable(m: Mem, c: nat, i: nat, t: nat, j: nat, w: nat): Mem {
    var m1 := m.(frames := m.frames.Take(t), pool := m.pool[t := Zeros()]);
    Store(Store(m1, DirOf(m1, c), i, t * PAGE + USER), t, j, w)
  }

  lemma TableInstalled(m: Mem, k: nat, live: set<nat>, owner: map<nat, Role>, reserved: set<nat>, c: nat, i: nat, t: nat, j: nat, w: nat)
    requires Owned(m, k, live, owner, reserved) && c in live && i < SLOTS && j < SLOTS
    requires InPool(t) && t !in m.frames.used
    ensures var m' := WithTable(m, c, i, t, j, w);
            && WellFormed(m') && m'.frames == m.frames.Take(t)
            && GrownView(m, m', k, c, i, t, j, w)
            && (forall a <- live :: a != c ==> SameDirectory(m, m', a) && SamePrivateTables(m, m', k, a))
  {
    hide WithTable, Word, Owned, Private, ContextOk, SameDirectory, SamePrivateTables, WellFormed;
    var m' := WithTable(m, c, i, t, j, w);
    Rooms(m, k, live, owner, reserved, c, t);
    WithTableWords(m, c, i, t, j, w);
    forall x | 0 <= x < SLOTS && Private(m, k, c, x) ensures PdEntry(m, c, x) / PAGE != t && PdEntry(m, c, x) / PAGE != DirOf(m, c) {
      TablesApart(m, k, live, owner, reserved, c, c, x, t);
    }
    forall a <- live | a != c ensures SameDirectory(m, m', a) && SamePrivateTables(m, m', k, a) {
      SeenAsBefore(m, m', k, live, owner, reserved, c, i, t, a);
    }
  }

  // The words of the memory with the new table: the entry for it in the directory, the
  // entry in it, all else as before.
  lemma WithTableWords(m: Mem, c: nat, i: nat, t: nat, j: nat, w: nat)
    requires WellFormed(m) && InPool(t) && i < SLOTS && j < SLOTS
    requires var d := DirOf(m, c); InPool(d) && t != c && t != d && c != d && t !in m.frames.used
    ensures var m', d := WithTable(m, c, i, t, j, w), DirOf(m, c);
            && WellFormed(m') && m'.frames == m.frames.Take(t)
            && (forall g, x :: g != t && (g != d || x != i) ==> Word(m', g, x) == Word(m, g, x))
            && (forall x :: 0 <= x < SLOTS ==> Word(m', t, x) == if x == j then w else 0)
            && Word(m', d, i) == t * PAGE + USER
  {
  }

  lemma Rooms(m: Mem, k: nat, live: set<nat>, owner: map<nat, Role>, reserved: set<nat>, a: nat, t: nat)
    requires Owned(m, k, live, owner, reserved) && a in live && InPool(t) && t !in m.frames.used
    ensures WellFormed(m) && InPool(DirOf(m, a)) && t != a && t != DirOf(m, a) && a != DirOf(m, a)
  {
    hide DirOf, TableOk, WellFormed;
    assert ContextOk(m, k, owner, a);
  }

  // A private table is neither a fresh frame nor the directory of a live context.
  lemma TablesApart(m: Mem, k: nat, live: set<nat>, owner: map<nat, Role>, reserved: set<nat>, c: nat, a: nat, x: nat, t: nat)
    requires Owned(m, k, live, owner, reserved) && c in live && a in live && t !in m.frames.used
    requires 0 <= x < SLOTS && Private(m, k, a, x)
    ensures PdEntry(m, a, x) / PAGE != t && PdEntry(m, a, x) / PAGE != DirOf(m, c)
  {
    hide DirOf, PdEntry, PtEntry, WellFormed;
    assert ContextOk(m, k, owner, a) && TableOk(m, k, owner, a, x) && ContextOk(m, k, owner, c);
  }

  lemma DirectoriesApart(m: Mem, k: nat, live: set<nat>, owner: map<nat, Role>, reserved: set<nat>, c: nat, a: nat)
    requires Owned(m, k, live, owner, reserved) && c in live && a in live && a != c
    ensures a != DirOf(m, c) && DirOf(m, a) != DirOf(m, c)
  {
    hide DirOf, TableOk, WellFormed;
    assert ContextOk(m, k, owner, a) && ContextOk(m, k, owner, c);
  }

  lemma SeenAsBefore(m: Mem, m': Mem, k: nat, live: set<nat>, owner: map<nat, Role>, reserved: set<nat>, c: nat, i: nat, t: nat, a: nat)
    requires Owned(m, k, live, owner, reserved) && c in live && a in live && a != c && InPool(t) && t !in m.frames.used
    requires forall g, x :: g != t && (g != DirOf(m, c) || x != i) ==> Word(m', g, x) == Word(m, g, x)
    ensures SameDirectory(m, m', a) && SamePrivateTables(m, m', k, a)
  {
    hide Word, Owned, Private;
    Rooms(m, k, live, owner, reserved, a, t);
    DirectoriesApart(m, k, live, owner, reserved, c, a);
    forall x | 0 <= x < SLOTS && Private(m, k, a, x) ensures PdEntry(m, a, x) / PAGE != t && PdEntry(m, a, x) / PAGE != DirOf(m, c) {
      TablesApart(m, k, live, owner, reserved, c, a, x, t);
    }
  }

  function WithTableOwner(owner: map<nat, Role>, c: nat, i: nat, t: nat): map<nat, Role> {
    owner[t := Table(c, i)]
  }

  function WithPageOwner(owner: map<nat, Role>, c: nat, i: nat, t: nat, j: nat, f: nat): map<nat, Role> {
    owner[t := Table(c, i)][f := Page(c, i, j)]
  }

  lemma GrownContextOk(m: Mem, m': Mem, k: nat, owner: map<nat, Role>, c: nat, i: nat, t: nat, j: nat, f: nat)
    requires ContextOk(m, k, owner, c) && c != k && i < SLOTS && j < SLOTS && PdEntry(m, c, i) == 0
    requires InPool(t) && t !in owner && f !in owner && HEAP_END <= f < FRAMES
    requires GrownView(m, m', k, c, i, t, j, f * PAGE + USER) && SameDirectory(m, m', k)
    ensures ContextOk(m', k, WithPageOwner(owner, c, i, t, j, f), c)
  {
    var owner' := WithPageOwner(owner, c, i, t, j, f);
    assert SharesKernel(m, k, c, i);
    forall x | 0 <= x < SLOTS ensures TableOk(m', k, owner', c, x) {
      assert TableOk(m, k, owner, c, x);
      forall y | 0 <= y < SLOTS && Private(m', k, c, x) ensures PageOk(m', owner', c, x, y) {
        if x != i { assert PageOk(m, owner, c, x, y); }
      }
    }
    forall x | 0 <= x < SLOTS ensures SharesKernel(m', k, c, x) {
      assert SharesKernel(m, k, c, x);
    }
  }

  lemma GrownRoles(m: Mem, m': Mem, k: nat, live: set<nat>, owner: map<nat, Role>, reserved: set<nat>, c: nat, i: nat, t: nat, j: nat, f: nat, g: nat)
    requires Owned(m, k, live, owner, reserved) && c in live && c != k && i < SLOTS && j < SLOTS && PdEntry(m, c, i) == 0
    requires t !in owner && f !in owner && t != f
    requires GrownView(m, m', k, c, i, t, j, f * PAGE + USER)
    requires forall a <- live :: a != c ==> SameDirectory(m, m', a) && SamePrivateTables(m, m', k, a)
    requires g in WithPageOwner(owner, c, i, t, j, f)
    ensures var r := WithPageOwner(owner, c, i, t, j, f)[g]; r.c in live && Plays(m', k, g, r)
  {
    assert ContextOk(m, k, owner, c) && SharesKernel(m, k, c, i);
    hide ContextOk;
    assert SameDirectory(m, m', k);
    if g != t && g != f {
      assert Plays(m, k, g, owner[g]);
      if owner[g].c != c {
        assert SameDirectory(m, m', owner[g].c) && SamePrivateTables(m, m', k, owner[g].c);
      }
    }
  }

  lemma GrownOwned(m: Mem, m': Mem, k: nat, live: set<nat>, owner: map<nat, Role>, reserved: set<nat>, c: nat, i: nat, t: nat, j: nat, f: nat)
    requires Owned(m, k, live, owner, reserved) && c in live && c != k && i < SLOTS && j < SLOTS && PdEntry(m, c, i) == 0
    requires InPool(t) && t !in m.frames.used && t !in owner && t !in reserved
    requires HEAP_END <= f < FRAMES && f in m.frames.used && f !in owner && f !in reserved
    requires WellFormed(m') && m'.frames == m.frames.Take(t) && GrownView(m, m', k, c, i, t, j, f * PAGE + USER)
    requires forall a <- live :: a != c ==> SameDirectory(m, m', a) && SamePrivateTables(m, m', k, a)
    ensures Owned(m', k, live, WithPageOwner(owner, c, i, t, j, f), reserved)
  {
    hide ContextOk, Plays, WellFormed, GrownView, SameDirectory, SamePrivateTables, KeepsRolesOf, PdEntry;
    var owner' := WithPageOwner(owner, c, i, t, j, f);
    forall a <- live ensures ContextOk(m', k, owner', a) {
      if a == c {
        GrownContextOk(m, m', k, owner, c, i, t, j, f);
      } else {
        SeenBySameDirectory(m, m', k, a);
        KeptByNewOwners(owner, owner', c, i, t, j, f, a);
        ContextUntouched(m, m', k, owner, owner', a);
      }
    }
    forall g <- owner' ensures g in m'.frames.used && owner'[g].c in live && Plays(m', k, g, owner'[g]) {
      GrownRoles(m, m', k, live, owner, reserved, c, i, t, j, f, g);
    }
  }

  lemma SeenBySameDirectory(m: Mem, m': Mem, k: nat, a: nat)
    requires SameDirectory(m, m', a) && SameDirectory(m, m', k) && SamePrivateTables(m, m', k, a)
    ensures SameView(m, m', k, a)
  {
  }

  lemma KeptByNewOwners(owner: map<nat, Role>, owner': map<nat, Role>, c: nat, i: nat, t: nat, j: nat, f: nat, a: nat)
    requires t !in owner && f !in owner && owner' == WithPageOwner(owner, c, i, t, j, f)
    ensures KeepsRolesOf(owner, owner', a)
  {
  }

  // While the kernel context is the only one, its directory may grow too.
  lemma GrownKernelOwned(m: Mem, m': Mem, k: nat, owner: map<nat, Role>, reserved: set<nat>, i: nat, t: nat, j: nat, w: nat)
    requires Owned(m, k, {k}, owner, reserved) && i < SLOTS && j < SLOTS && PdEntry(m, k, i) == 0
    requires InPool(t) && t !in m.frames.used && t !in owner && t !in reserved
    requires WellFormed(m') && m'.frames == m.frames.Take(t) && GrownView(m, m', k, k, i, t, j, w)
    ensures Owned(m', k, {k}, WithTableOwner(owner, k, i, t), reserved)
  {
    var owner' := WithTableOwner(owner, k, i, t);
    assert ContextOk(m, k, owner, k);
    forall x | 0 <= x < SLOTS ensures TableOk(m', k, owner', k, x) && SharesKernel(m', k, k, x) {
      assert TableOk(m, k, owner, k, x);
    }
    assert ContextOk(m', k, owner', k);
  }

  // ----- destroying a context

  function OwnedBy(owner: map<nat, Role>, c: nat): set<nat> {
    set f | f in owner && owner[f].c == c
  }

  function WithoutContext(owner: map<nat, Role>, c: nat): map<nat, Role> {
    map f | f in owner && owner[f].c != c :: owner[f]
  }

  // The pages released from one table are the frames owned as its pages, each once.
  lemma {:induction false} TableFreesItsPages(m: Mem, k: nat, live: set<nat>, owner: map<nat, Role>, reserved: set<nat>, c: nat, i: nat, n: nat)
    requires Owned(m, k, live, owner, reserved) && c in live && c != k && i < SLOTS && Private(m, k, c, i) && n <= SLOTS
    ensures var frees := TableFrees(m, PdEntry(m, c, i) / PAGE, n);
            && Distinct(frees)
            && forall f :: f in frees <==> f in owner && owner[f].Page? && owner[f].c == c && owner[f].i == i && owner[f].j < n
  {
    hide Owned, PdEntry, EntryFrees, Private;
    if n > 0 {
      TableFreesItsPages(m, k, live, owner, reserved, c, i, n - 1);
      EntryFreesItsPage(m, k, live, owner, reserved, c, i, n - 1);
      assert TableFrees(m, PdEntry(m, c, i) / PAGE, n) == TableFrees(m, PdEntry(m, c, i) / PAGE, n - 1) + EntryFrees(PtEntry(m, c, i, n - 1));
      DistinctAppend(TableFrees(m, PdEntry(m, c, i) / PAGE, n - 1), EntryFrees(PtEntry(m, c, i, n - 1)));
    }
  }

  lemma EntryFreesItsPage(m: Mem, k: nat, live: set<nat>, owner: map<nat, Role>, reserved: set<nat>, c: nat, i: nat, j: nat)
    requires Owned(m, k, live, owner, reserved) && c in live && c != k && i < SLOTS && Private(m, k, c, i) && j < SLOTS
    ensures var frees := EntryFrees(PtEntry(m, c, i, j));
            Distinct(frees) && forall f :: f in frees <==> f in owner && owner[f] == Page(c, i, j)
  {
    hide PdEntry, PtEntry, Private, WellFormed, DirOf;
    assert ContextOk(m, k, owner, c) && TableOk(m, k, owner, c, i) && PageOk(m, owner, c, i, j);
    forall f | f in owner && owner[f] == Page(c, i, j) ensures f in EntryFrees(PtEntry(m, c, i, j)) {
      assert Plays(m, k, f, owner[f]);
    }
  }

  ghost predicate InSlot(r: Role, c: nat, i: nat) {
    r.c == c && (r.Table? || r.Page?) && r.i == i
  }

  ghost predicate BelowSlot(r: Role, c: nat, n: nat) {
    r.c == c && (r.Table? || r.Page?) && r.i < n
  }

  lemma SlotFreesItsFrames(m: Mem, k: nat, live: set<nat>, owner: map<nat, Role>, reserved: set<nat>, c: nat, i: nat)
    requires Owned(m, k, live, owner, reserved) && c in live && c != k && i < SLOTS
    ensures Distinct(SlotFrees(m, c, k, i))
    ensures forall f :: f in SlotFrees(m, c, k, i) <==> f in owner && InSlot(owner[f], c, i)
  {
    hide Owned, PdEntry, PtEntry, TableFrees, TableOk, Distinct;
    SlotOwners(m, k, live, owner, reserved, c, i);
    if Private(m, k, c, i) {
      TableFreesItsPages(m, k, live, owner, reserved, c, i, SLOTS);
      var pages := TableFrees(m, PdEntry(m, c, i) / PAGE, SLOTS);
      FlagsDropped(PdEntry(m, c, i));
      assert SlotFrees(m, c, k, i) == pages + [PdEntry(m, c, i) / PAGE];
      DistinctSnoc(pages, PdEntry(m, c, i) / PAGE);
    } else {
      assert SlotFrees(m, c, k, i) == [];
      NothingDistinct();
    }
  }

  lemma NothingDistinct()
    ensures Distinct([])
  {
  }

  lemma DistinctSnoc(fs: seq<nat>, f: nat)
    requires Distinct(fs) && f !in fs
    ensures Distinct(fs + [f])
  {
    DistinctAppend(fs, [f]);
  }

  lemma FlagsDropped(e: nat)
    ensures (e - e % 0x100) / PAGE == e / PAGE
  {
  }

  // The frames of a slot: none but for a private one, whose table is owned as such.
  lemma SlotOwners(m: Mem, k: nat, live: set<nat>, owner: map<nat, Role>, reserved: set<nat>, c: nat, i: nat)
    requires Owned(m, k, live, owner, reserved) && c in live && c != k && i < SLOTS
    ensures Private(m, k, c, i) ==> Has(owner, PdEntry(m, c, i) / PAGE, Table(c, i))
    ensures Differs(m, c, k, i) == Private(m, k, c, i)
    ensures forall f :: f in owner && InSlot(owner[f], c, i) ==>
              Private(m, k, c, i) && (owner[f].Table? ==> f == PdEntry(m, c, i) / PAGE) && (owner[f].Page? ==> owner[f].j < SLOTS)
  {
    hide PdEntry, PtEntry, WellFormed;
    assert ContextOk(m, k, owner, c) && TableOk(m, k, owner, c, i) && SharesKernel(m, k, c, i);
    forall f | f in owner && InSlot(owner[f], c, i)
      ensures Private(m, k, c, i) && (owner[f].Table? ==> f == PdEntry(m, c, i) / PAGE) && (owner[f].Page? ==> owner[f].j < SLOTS)
    {
      assert Plays(m, k, f, owner[f]);
    }
  }

  lemma {:induction false} DirFreesItsTables(m: Mem, k: nat, live: set<nat>, owner: map<nat, Role>, reserved: set<nat>, c: nat, n: nat)
    requires Owned(m, k, live, owner, reserved) && c in live && c != k && n <= SLOTS
    ensures Distinct(DirFrees(m, c, k, n))
    ensures forall f :: f in DirFrees(m, c, k, n) <==> f in owner && BelowSlot(owner[f], c, n)
  {
    hide Owned, SlotFrees, Distinct;
    if n == 0 {
      NothingDistinct();
    } else {
      DirFreesItsTables(m, k, live, owner, reserved, c, n - 1);
      SlotFreesItsFrames(m, k, live, owner, reserved, c, n - 1);
      DistinctAppend(DirFrees(m, c, k, n - 1), SlotFrees(m, c, k, n - 1));
    }
  }

  lemma DistinctAppend(a: seq<nat>, b: seq<nat>)
    requires Distinct(a) && Distinct(b) && forall f <- a :: f !in b
    ensures Distinct(a + b)
  {
    forall i, j | 0 <= i < j < |a + b| ensures (a + b)[i] != (a + b)[j] {
      if i < |a| <= j { assert a[i] in a && b[j - |a|] in b; }
    }
  }

  // destroy_context releases exactly the frames the context owns, each once.
  lemma ContextFreesExactlyItsFrames(m: Mem, k: nat, live: set<nat>, owner: map<nat, Role>, reserved: set<nat>, c: nat)
    requires Owned(m, k, live, owner, reserved) && c in live && c != k
    ensures Distinct(ContextFrees(m, c, k)) && Elements(ContextFrees(m, c, k)) == OwnedBy(owner, c)
  {
    hide Owned, DirFrees, Distinct, DirOf;
    var tables := DirFrees(m, c, k, SLOTS);
    DirFreesItsTables(m, k, live, owner, reserved, c, SLOTS);
    ContextFrames(m, k, live, owner, reserved, c);
    DistinctSnoc(tables, DirOf(m, c));
    DistinctSnoc(tables + [DirOf(m, c)], c);
    forall f | f in owner && owner[f].c == c ensures f in ContextFrees(m, c, k) {
      if BelowSlot(owner[f], c, SLOTS) { assert f in tables; }
    }
    forall f <- ContextFrees(m, c, k) ensures f in OwnedBy(owner, c) {
      if f in tables { assert BelowSlot(owner[f], c, SLOTS); }
    }
  }

  // Apart from its tables and pages a context owns its own page and its directory.
  lemma ContextFrames(m: Mem, k: nat, live: set<nat>, owner: map<nat, Role>, reserved: set<nat>, c: nat)
    requires Owned(m, k, live, owner, reserved) && c in live
    ensures Has(owner, c, Context(c)) && Has(owner, DirOf(m, c), Directory(c)) && c != DirOf(m, c)
    ensures forall f :: f in owner && owner[f].c == c ==> BelowSlot(owner[f], c, SLOTS) || f == c || f == DirOf(m, c)
  {
    hide DirOf, PdEntry, PtEntry, Private, WellFormed;
    assert ContextOk(m, k, owner, c);
    forall f | f in owner && owner[f].c == c ensures BelowSlot(owner[f], c, SLOTS) || f == c || f == DirOf(m, c) {
      assert Plays(m, k, f, owner[f]);
    }
  }

  lemma ReleasedKeepsOwned(m: Mem, m': Mem, k: nat, live: set<nat>, owner: map<nat, Role>, reserved: set<nat>, c: nat)
    requires Owned(m, k, live, owner, reserved) && c in live && c != k
    requires m'.pool == m.pool && m'.frames.Valid() && m'.frames.used == m.frames.used - OwnedBy(owner, c)
    ensures Owned(m', k, live - {c}, WithoutContext(owner, c), reserved)
  {
    var owner' := WithoutContext(owner, c);
    assert forall a :: SameView(m, m', k, a);
    hide ContextOk, Plays, SameView;
    forall a <- live - {c} ensures ContextOk(m', k, owner', a) {
      ContextUntouched(m, m', k, owner, owner', a);
    }
    forall g <- owner' ensures Plays(m', k, g, owner'[g]) {
      RoleUntouched(m, m', k, g, owner[g]);
    }
  }

  lemma DestroyKeepsOwned(m: Mem, k: nat, live: set<nat>, owner: map<nat, Role>, reserved: set<nat>, c: nat)
    requires Owned(m, k, live, owner, reserved) && c in live && c != k
    ensures var m' := Destroy(m, c, k).value;
            && m'.pool == m.pool && m'.frames.used == m.frames.used - OwnedBy(owner, c)
            && m'.frames.Ledger() == m.frames.Ledger()
            && Owned(m', k, live - {c}, WithoutContext(owner, c), reserved)
  {
    ContextFreesExactlyItsFrames(m, k, live, owner, reserved, c);
    forall f <- ContextFrees(m, c, k) ensures f in m.frames.used {
      assert f in Elements(ContextFrees(m, c, k));
    }
    ReleaseAllExact(m.frames, ContextFrees(m, c, k));
    ReleasedKeepsOwned(m, Destroy(m, c, k).value, k, live, owner, reserved, c);
  }

  // ----- creating a context

  function WithContext(owner: map<nat, Role>, c: nat, d: nat): map<nat, Role> {
    owner[c := Context(c)][d := Directory(c)]
  }

  // create_context claims two different free pool frames and nothing else changes.
  lemma ContextCreated(m: Mem)
    requires WellFormed(m) && CreateContext(m).Some?
    ensures var (m', c) := CreateContext(m).value; var d := DirOf(m', c);
            && WellFormed(m') && InPool(c) && InPool(d) && c != d && c !in m.frames.used && d !in m.frames.used
            && m'.frames == m.frames.Take(c).Take(d)
            && (forall f, i :: f != c && f != d ==> Word(m', f, i) == Word(m, f, i))
            && (forall i :: Word(m', d, i) == 0)
  {
  }

  lemma FirstContextOwned(m: Mem)
    requires WellFormed(m) && CreateContext(m).Some?
    ensures var (m', k) := CreateContext(m).value;
            Owned(m', k, {k}, WithContext(map[], k, DirOf(m', k)), m.frames.used)
            && AllOwned(m', WithContext(map[], k, DirOf(m', k)), m.frames.used)
            && forall i :: PdEntry(m', k, i) == 0
  {
    ContextCreated(m);
  }

  lemma UserCreated(m: Mem, k: nat)
    requires WellFormed(m) && CreateUser(m, k).Some? && InPool(k) && InPool(DirOf(m, k))
    requires k in m.frames.used && DirOf(m, k) in m.frames.used
    ensures var (m', c) := CreateUser(m, k).value; var d := DirOf(m', c);
            && WellFormed(m') && InPool(c) && InPool(d) && c != d && c !in m.frames.used && d !in m.frames.used
            && m'.frames == m.frames.Take(c).Take(d)
            && (forall f, i :: f != c && f != d ==> Word(m', f, i) == Word(m, f, i))
            && (forall i :: Word(m', d, i) == PdEntry(m, k, i))
  {
    ContextCreated(m);
    var m1 := CreateContext(m).value.0;
    assert DirOf(m1, k) == DirOf(m, k);
    assert forall i :: Word(m1, DirOf(m, k), i) == Word(m, DirOf(m, k), i);
  }

  lemma CreateKeepsOwned(m: Mem, k: nat, live: set<nat>, owner: map<nat, Role>, reserved: set<nat>)
    requires Owned(m, k, live, owner, reserved) && CreateUser(m, k).Some?
    ensures var (m', c) := CreateUser(m, k).value; var d := DirOf(m', c);
            && c !in live && c !in owner && d !in owner
            && Owned(m', k, live + {c}, WithContext(owner, c, d), reserved)
            && m'.frames == m.frames.Take(c).Take(d) && c !in m.frames.used && d !in m.frames.used && c != d
            && (forall i :: PdEntry(m', c, i) == PdEntry(m, k, i))
            && (forall a <- live :: SameDirectory(m, m', a) && SamePrivateTables(m, m', k, a))
  {
    assert ContextOk(m, k, owner, k);
    UserCreated(m, k);
    var (m', c) := CreateUser(m, k).value;
    var d := DirOf(m', c);
    forall a <- live ensures SameDirectory(m, m', a) && SamePrivateTables(m, m', k, a) {
      UntouchedByCreate(m, m', k, live, owner, reserved, c, d, a);
    }
    CreatedOwned(m, m', k, live, owner, reserved, c);
  }

  lemma UntouchedByCreate(m: Mem, m': Mem, k: nat, live: set<nat>, owner: map<nat, Role>, reserved: set<nat>, c: nat, d: nat, a: nat)
    requires Owned(m, k, live, owner, reserved) && a in live && c !in owner && d !in owner
    requires forall f, i :: f != c && f != d ==> Word(m', f, i) == Word(m, f, i)
    ensures SameDirectory(m, m', a) && SamePrivateTables(m, m', k, a)
  {
    assert ContextOk(m, k, owner, a);
    forall x | 0 <= x < SLOTS && Private(m, k, a, x) ensures PdEntry(m, a, x) / PAGE != c && PdEntry(m, a, x) / PAGE != d {
      assert TableOk(m, k, owner, a, x);
    }
  }

  lemma CreatedOwned(m: Mem, m': Mem, k: nat, live: set<nat>, owner: map<nat, Role>, reserved: set<nat>, c: nat)
    requires Owned(m, k, live, owner, reserved) && WellFormed(m')
    requires var d := DirOf(m', c); InPool(c) && InPool(d) && c != d && c !in m.frames.used && d !in m.frames.used
                                    && m'.frames == m.frames.Take(c).Take(d)
    requires forall i :: PdEntry(m', c, i) == PdEntry(m, k, i)
    requires forall a <- live :: SameDirectory(m, m', a) && SamePrivateTables(m, m', k, a)
    ensures Owned(m', k, live + {c}, WithContext(owner, c, DirOf(m', c)), reserved)
  {
    var d := DirOf(m', c);
    var owner' := WithContext(owner, c, d);
    assert SameDirectory(m, m', k);
    forall a <- live + {c} ensures ContextOk(m', k, owner', a) {
      if a != c {
        SeenBySameDirectory(m, m', k, a);
        ContextUntouched(m, m', k, owner, owner', a);
      }
    }
    forall g <- owner' ensures g in m'.frames.used && owner'[g].c in live + {c} && Plays(m', k, g, owner'[g]) {
      if g != c && g != d {
        SeenBySameDirectory(m, m', k, owner[g].c);
        RoleUntouched(m, m', k, g, owner[g]);
      }
    }
  }
}
