/** Four-level page tables as data: how an address is translated, what it means for the tables to form a
    tree, and what writing one entry does to the translation of every address. */
module PageTables {

  type Tables = map<nat, seq<nat>>   // frame address -> 512 entries

  /** The bytes of address space one entry stands for, by level; level 0 is the PML4. */
  function Span(level: nat): (s: nat)
    ensures s > 0
  {
    match level
    case 0 => 0x80_0000_0000
    case 1 => 0x4000_0000
    case 2 => 0x20_0000
    case _ => 0x1000
  }

  function Index(v: nat, level: nat): (i: nat)
    ensures i < 512
  {
    v / Span(level) % 512
  }

  /** The indices that lead to the entry of `v` at level `n - 1`. */
  function Path(v: nat, n: nat): (p: seq<nat>)
    ensures |p| == n
  {
    if n == 0 then [] else Path(v, n - 1) + [Index(v, n - 1)]
  }

  predicate SamePage(v: nat, v': nat) {
    Path(v, 4) == Path(v', 4)
  }

  predicate Present(e: nat) { e % 2 == 1 }

  predicate Huge(e: nat) { e / 128 % 2 == 1 }

  /** The address part of an entry. */
  function Base(e: nat): nat { e - e % 4096 }

  function Entry(mem: Tables, t: nat, i: nat): nat {
    if t in mem && i < |mem[t]| then mem[t][i] else 0
  }

  /** What an entry found at `level` makes of address `v`; 0 when it is not mapped. */
  function Resolve(mem: Tables, e: nat, level: nat, v: nat): nat
    requires level < 4
    decreases 4 - level
  {
    if !Present(e) then 0
    else if level == 3 || Huge(e) then Base(e) + v % Span(level)
    else Resolve(mem, Entry(mem, Base(e), Index(v, level + 1)), level + 1, v)
  }

  /** `virt_to_phys_on`. */
  function Translate(mem: Tables, root: nat, v: nat): nat {
    Resolve(mem, Entry(mem, root, Index(v, 0)), 0, v)
  }

  /** The entry leads on to another table. */
  predicate Leads(e: nat) { Present(e) && !Huge(e) }

  /** The tables reached from the root form a tree: each is reached along one path only, the one that
      `path` gives for it. */
  ghost predicate Tree(mem: Tables, root: nat, path: map<nat, seq<nat>>) {
    && root in path && path[root] == []
    && (forall t :: t in path ==> t in mem && |mem[t]| == 512 && |path[t]| <= 3 && 0 < t && t % 4096 == 0)
    && (forall t, i :: t in path && 0 <= i < 512 ==> ChildOk(mem, path, t, i))
  }

  ghost predicate ChildOk(mem: Tables, path: map<nat, seq<nat>>, t: nat, i: nat)
    requires t in path && t in mem && i < |mem[t]|
  {
    |path[t]| < 3 && Leads(mem[t][i]) ==> Base(mem[t][i]) in path && path[Base(mem[t][i])] == path[t] + [i]
  }

  // ---------------------------------------------------------------- going down

  /** The table met at level `n` on the way of `v`. */
  function TableAt(mem: Tables, root: nat, v: nat, n: nat): nat {
    if n == 0 then root else Base(Entry(mem, TableAt(mem, root, v, n - 1), Index(v, n - 1)))
  }

  /** The entries of `v` above level `n` all lead on. */
  predicate Descends(mem: Tables, root: nat, v: nat, n: nat) {
    n == 0 || (Descends(mem, root, v, n - 1) && Leads(Entry(mem, TableAt(mem, root, v, n - 1), Index(v, n - 1))))
  }

  lemma RootDescends(mem: Tables, root: nat, v: nat)
    ensures Descends(mem, root, v, 0) && TableAt(mem, root, v, 0) == root
  {
  }

  lemma PathStep(v: nat, v': nat, n: nat)
    ensures Path(v, n + 1) == Path(v', n + 1) <==> Path(v, n) == Path(v', n) && Index(v, n) == Index(v', n)
    ensures Path(v, n + 1) == Path(v, n) + [Index(v, n)]
  {
    var p, p' := Path(v, n), Path(v', n);
    if Path(v, n + 1) == Path(v', n + 1) {
      assert p == (p + [Index(v, n)])[..n] && p' == (p' + [Index(v', n)])[..n];
      assert (p + [Index(v, n)])[n] == (p' + [Index(v', n)])[n];
    }
  }

  lemma {:induction false} TableLabel(mem: Tables, root: nat, path: map<nat, seq<nat>>, v: nat, n: nat)
    requires Tree(mem, root, path) && n <= 3 && Descends(mem, root, v, n)
    ensures var t := TableAt(mem, root, v, n); t in path && t in mem && |mem[t]| == 512 && path[t] == Path(v, n)
  {
    if n > 0 {
      TableLabel(mem, root, path, v, n - 1);
      assert ChildOk(mem, path, TableAt(mem, root, v, n - 1), Index(v, n - 1));
    }
  }

  /** The translation of an address is what the entry at any level on its way makes of it. */
  lemma {:induction false} TranslateAt(mem: Tables, root: nat, v: nat, n: nat)
    requires n <= 3 && Descends(mem, root, v, n)
    ensures Translate(mem, root, v) == Resolve(mem, Entry(mem, TableAt(mem, root, v, n), Index(v, n)), n, v)
  {
    if n > 0 { TranslateAt(mem, root, v, n - 1); }
  }

  lemma {:induction false} SameWay(mem: Tables, root: nat, v: nat, v': nat, n: nat)
    requires Path(v, n) == Path(v', n)
    ensures TableAt(mem, root, v, n) == TableAt(mem, root, v', n)
    ensures Descends(mem, root, v, n) <==> Descends(mem, root, v', n)
  {
    if n > 0 {
      PathStep(v, v', n - 1);
      SameWay(mem, root, v, v', n - 1);
    }
  }

  // ---------------------------------------------------------------- writing one entry

  /** The tables of the tree differ at most in entry `i` of table `t`. */
  ghost predicate SameBut(mem: Tables, mem': Tables, path: map<nat, seq<nat>>, t: nat, i: nat) {
    forall u, j :: u in path && 0 <= j < 512 && !(u == t && j == i) ==> Entry(mem', u, j) == Entry(mem, u, j)
  }

  lemma {:induction false} ResolveElsewhere(mem: Tables, mem': Tables, root: nat, path: map<nat, seq<nat>>,
                                            t: nat, i: nat, u: nat, k: nat, v: nat)
    requires Tree(mem, root, path) && SameBut(mem, mem', path, t, i) && t in path
    requires k <= 3 && u in path && path[u] == Path(v, k) && Path(v, |path[t]| + 1) != path[t] + [i]
    ensures Resolve(mem', Entry(mem', u, Index(v, k)), k, v) == Resolve(mem, Entry(mem, u, Index(v, k)), k, v)
    decreases 3 - k
  {
    PathStep(v, v, k);
    var e := Entry(mem, u, Index(v, k));
    assert Entry(mem', u, Index(v, k)) == e;
    if k < 3 && Leads(e) {
      assert ChildOk(mem, path, u, Index(v, k));
      ResolveElsewhere(mem, mem', root, path, t, i, Base(e), k + 1, v);
    }
  }

  /** Addresses whose way does not lead through the entry written keep their translation. */
  lemma TranslateElsewhere(mem: Tables, mem': Tables, root: nat, path: map<nat, seq<nat>>, t: nat, i: nat, v: nat)
    requires Tree(mem, root, path) && SameBut(mem, mem', path, t, i) && t in path
    requires Path(v, |path[t]| + 1) != path[t] + [i]
    ensures Translate(mem', root, v) == Translate(mem, root, v)
  {
    ResolveElsewhere(mem, mem', root, path, t, i, root, 0, v);
  }

  /** The way down to the entry written is unchanged. */
  lemma {:induction false} WayUnchanged(mem: Tables, mem': Tables, root: nat, path: map<nat, seq<nat>>,
                                        t: nat, i: nat, v: nat, n: nat)
    requires Tree(mem, root, path) && SameBut(mem, mem', path, t, i) && t in path
    requires n <= |path[t]| && n <= 3 && Descends(mem, root, v, n)
    ensures Descends(mem', root, v, n) && TableAt(mem', root, v, n) == TableAt(mem, root, v, n)
  {
    if n > 0 {
      WayUnchanged(mem, mem', root, path, t, i, v, n - 1);
      TableLabel(mem, root, path, v, n - 1);
    }
  }

  /** Writing the entry of `v` at level `n` gives the addresses below that entry the meaning of the new
      entry and leaves the translation of all others alone. */
  lemma WriteEffect(mem: Tables, mem': Tables, root: nat, path: map<nat, seq<nat>>, v: nat, n: nat, v': nat)
    requires Tree(mem, root, path) && n <= 3 && Descends(mem, root, v, n)
    requires SameBut(mem, mem', path, TableAt(mem, root, v, n), Index(v, n))
    ensures Descends(mem', root, v, n) && TableAt(mem', root, v, n) == TableAt(mem, root, v, n)
    ensures var t, i := TableAt(mem, root, v, n), Index(v, n);
            if Path(v', n + 1) == Path(v, n + 1)
            then Translate(mem', root, v') == Resolve(mem', Entry(mem', t, i), n, v') &&
                 Translate(mem, root, v') == Resolve(mem, Entry(mem, t, i), n, v')
            else Translate(mem', root, v') == Translate(mem, root, v')
  {
    var t, i := TableAt(mem, root, v, n), Index(v, n);
    TableLabel(mem, root, path, v, n);
    WayUnchanged(mem, mem', root, path, t, i, v, n);
    PathStep(v, v', n);
    if Path(v', n + 1) == Path(v, n + 1) {
      SameWay(mem, root, v, v', n);
      SameWay(mem', root, v, v', n);
      TranslateAt(mem, root, v', n);
      TranslateAt(mem', root, v', n);
    } else {
      TranslateElsewhere(mem, mem', root, path, t, i, v');
    }
  }

  function Write(mem: Tables, t: nat, i: nat, e: nat): Tables
    requires t in mem && i < |mem[t]|
  {
    var row: seq<nat> := mem[t][i := e];
    mem[t := row]
  }

  lemma WriteIs(mem: Tables, path: map<nat, seq<nat>>, t: nat, i: nat, e: nat)
    requires t in mem && i < |mem[t]|
    ensures SameBut(mem, Write(mem, t, i, e), path, t, i) && Entry(Write(mem, t, i, e), t, i) == e
  {
  }

  /** An entry that leads nowhere new keeps the tree. */
  lemma WriteKeepsTree(mem: Tables, root: nat, path: map<nat, seq<nat>>, t: nat, i: nat, e: nat)
    requires Tree(mem, root, path) && t in path && i < 512 && (|path[t]| < 3 ==> !Leads(e))
    ensures Tree(Write(mem, t, i, e), root, path)
  {
    var mem' := Write(mem, t, i, e);
    forall u, j | u in path && 0 <= j < 512 ensures ChildOk(mem', path, u, j) { assert ChildOk(mem, path, u, j); }
  }

  /** Hanging a new table with no leading entries below an entry keeps the tree. */
  lemma HangKeepsTree(mem: Tables, root: nat, path: map<nat, seq<nat>>, t: nat, i: nat, f: nat, e: nat, fill: seq<nat>)
    requires Tree(mem, root, path) && t in path && i < 512 && |path[t]| < 3
    requires 0 < f && f % 4096 == 0 && f !in path && |fill| == 512
    requires Base(e) == f && Leads(e) && forall j :: 0 <= j < 512 && |path[t]| < 2 ==> !Leads(fill[j])
    ensures Tree(Write(mem[f := fill], t, i, e), root, path[f := path[t] + [i]])
  {
    var mem', path' := Write(mem[f := fill], t, i, e), path[f := path[t] + [i]];
    forall u, j | u in path' && 0 <= j < 512 ensures ChildOk(mem', path', u, j) {
      if u != f { assert ChildOk(mem, path, u, j); }
    }
  }
}
