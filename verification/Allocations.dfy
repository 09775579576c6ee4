/** Every run of allocations and frees of virtual memory. */
module Allocations {
  import opened Frames
  import opened PageTables
  import opened Mapping
  import opened MissingTables
  import opened VirtualMemory

  datatype Range = Range(start: nat, pages: nat)

  /** A space, the pages in use with their frames, every range ever handed out, and how many pages have
      been freed. */
  datatype State = State(space: Space, live: map<nat, nat>, given: seq<Range>, freed: nat)

  datatype Op = Take(size: nat) | Give(v: nat, size: nat)

  /** An allocation may be anything that does not wrap around; a free may be anything that does not reach a
      page which is mapped and not in use. */
  ghost predicate Enabled(st: State, op: Op) {
    match op
    case Take(size) => st.space.address + PagesFor(size) * PAGE < TWO_64
    case Give(v, size) => CanRelease(st.space, st.live, v, size)
  }

  ghost function Apply(st: State, op: Op): State {
    match op
    case Take(size) =>
      var (space, r) := Malloc(st.space, size);
      State(space, MallocLive(st.space, st.live, size),
            if r == 0 then st.given else st.given + [Range(r, PagesFor(size))],
            st.freed)
    case Give(v, size) =>
      State(Release(st.space, v, size), ReleaseLive(st.space, st.live, v, size), st.given,
            if Ignored(st.space, v, size) then st.freed else st.freed + PagesFor(size))
  }

  ghost predicate InRange(r: Range, isUser: bool, top: nat) {
    r.start % PAGE == 0 && Start(isUser) + PAGE <= r.start && PageAt(r.start, r.pages) <= top
  }

  /** Page-aligned ranges, one above the other. */
  ghost predicate Stacked(given: seq<Range>, isUser: bool, top: nat) {
    && (forall i :: 0 <= i < |given| ==> InRange(given[i], isUser, top))
    && (forall i, j :: 0 <= i < j < |given| ==> PageAt(given[i].start, given[i].pages) <= given[j].start)
  }

  ghost predicate Inv(st: State) {
    && (exists path :: SpaceInv(st.space, path, st.live))
    && Stacked(st.given, st.space.isUser, st.space.address)
    && (forall v :: v in st.live ==> InGiven(st.given, v))
  }

  ghost predicate InGiven(given: seq<Range>, v: nat) {
    exists i, k :: 0 <= i < |given| && 0 <= k < given[i].pages && v == PageAt(given[i].start, k)
  }

  lemma StackedGrows(given: seq<Range>, isUser: bool, top: nat, n: nat)
    requires Stacked(given, isUser, top) && top % PAGE == 0 && Start(isUser) + PAGE <= top
    ensures Stacked(given + [Range(top, n)], isUser, PageAt(top, n))
  {
    var g := given + [Range(top, n)];
    assert top <= PageAt(top, n);
    hide PageAt, Start;
    forall i | 0 <= i < |g| ensures InRange(g[i], isUser, PageAt(top, n)) {
      if i < |given| { assert InRange(given[i], isUser, top); }
    }
    forall i, j | 0 <= i < j < |g| ensures PageAt(g[i].start, g[i].pages) <= g[j].start {
      assert InRange(given[i], isUser, top);
    }
  }

  lemma GivenGrows(given: seq<Range>, r: Range, v: nat)
    requires InGiven(given, v)
    ensures InGiven(given + [r], v)
  {
    var i, k :| 0 <= i < |given| && 0 <= k < given[i].pages && v == PageAt(given[i].start, k);
    assert (given + [r])[i] == given[i];
  }

  lemma GivenNew(given: seq<Range>, r: Range, v: nat, k: nat)
    requires k < r.pages && v == PageAt(r.start, k)
    ensures InGiven(given + [r], v)
  {
    assert (given + [r])[|given|] == r;
  }

  lemma TakeKeeps(st: State, size: nat)
    requires Inv(st) && Enabled(st, Take(size))
    ensures Inv(Apply(st, Take(size)))
  {
    var s, path :| s == st.space && SpaceInv(s, path, st.live);
    var n, live' := PagesFor(size), MallocLive(s, st.live, size);
    hide PagesFor, SpaceInv, Free, Malloc, MallocLive, PageAt, Start, FreeCount;
    var path' := MallocSpec(s, path, st.live, size);
    var (s', r) := Malloc(s, size);
    MallocResult(s, path, st.live, size);
    if r != 0 {
      SpaceIs(s, path, st.live);
      StackedGrows(st.given, s.isUser, r, n);
      forall v | v in live' ensures InGiven(st.given + [Range(r, n)], v) {
        if v in st.live {
          GivenGrows(st.given, Range(r, n), v);
        } else {
          var k :| 0 <= k < n && v == PageAt(r, k);
          GivenNew(st.given, Range(r, n), v, k);
        }
      }
    }
  }

  lemma GiveKeeps(st: State, v: nat, size: nat)
    requires Inv(st) && Enabled(st, Give(v, size))
    ensures Inv(Apply(st, Give(v, size)))
  {
    var s, path :| s == st.space && SpaceInv(s, path, st.live);
    hide PagesFor, SpaceInv, Free, PageAt, Start, Release, ReleaseLive, Ignored, CanRelease, InGiven, Stacked;
    ReleaseSpec(s, path, st.live, v, size);
    ReleaseIs(s, st.live, v, size);
  }

  ghost predicate CanRun(st: State, ops: seq<Op>)
    decreases |ops|
  {
    ops == [] || (Enabled(st, ops[0]) && CanRun(Apply(st, ops[0]), ops[1..]))
  }

  ghost function After(st: State, ops: seq<Op>): State
    requires CanRun(st, ops)
    decreases |ops|
  {
    if ops == [] then st else After(Apply(st, ops[0]), ops[1..])
  }

  lemma {:induction false} RunKeeps(st: State, ops: seq<Op>)
    requires Inv(st) && CanRun(st, ops)
    ensures Inv(After(st, ops))
    decreases |ops|
  {
    hide Inv, Enabled, Apply;
    if ops != [] {
      match ops[0] {
        case Take(size) => TakeKeeps(st, size);
        case Give(v, size) => GiveKeeps(st, v, size);
      }
      RunKeeps(Apply(st, ops[0]), ops[1..]);
    }
  }

  /** Over every run, frees included, the ranges handed out are page aligned and never overlap, and every
      page in use translates to a frame that is not free and belongs to that page alone. */
  lemma RangesAndFrames(space: Space, path: map<nat, seq<nat>>, ops: seq<Op>)
    requires SpaceInv(space, path, map[]) && CanRun(State(space, map[], [], 0), ops)
    ensures var st := After(State(space, map[], [], 0), ops);
            && (forall i :: 0 <= i < |st.given| ==> st.given[i].start % PAGE == 0)
            && (forall i, j :: 0 <= i < j < |st.given| ==>
                  PageAt(st.given[i].start, st.given[i].pages) <= st.given[j].start)
            && (forall v :: v in st.live ==> Translate(st.space.mem.tables, st.space.root, v) == st.live[v] &&
                                             !Free(st.space.mem.frames, st.live[v]))
            && (forall v, v' :: v in st.live && v' in st.live && st.live[v] == st.live[v'] ==> v == v')
  {
    var st0 := State(space, map[], [], 0);
    assert Inv(st0);
    RunKeeps(st0, ops);
    var st := After(st0, ops);
    var s, p :| s == st.space && SpaceInv(s, p, st.live);
    hide After, CanRun, Free, Translate, PageAt, Start, Backed, MappedTo, Window;
    forall i | 0 <= i < |st.given| ensures st.given[i].start % PAGE == 0 {
      assert InRange(st.given[i], s.isUser, s.address);
    }
    forall v | v in st.live
      ensures Translate(s.mem.tables, s.root, v) == st.live[v] && !Free(s.mem.frames, st.live[v])
    {
      assert Held(s.mem, s.root, p, v, st.live[v]) && InWindow(v, s.isUser);
      MappedTranslates(s.mem.tables, s.root, v, st.live[v]);
    }
  }

  // ---------------------------------------------------------------- the descriptor's statistics

  function Total(given: seq<Range>): nat {
    if given == [] then 0 else Total(given[..|given| - 1]) + given[|given| - 1].pages
  }

  /** The descriptor counts the pages handed out and not freed, and their bytes, in 64 bits. */
  ghost predicate Booked(st: State) {
    var n := Total(st.given) - st.freed;
    st.space.pages == n % TWO_64 && st.space.bytes == n * PAGE % TWO_64
  }

  lemma AddMod(x: int, y: int)
    ensures (x % TWO_64 + y) % TWO_64 == (x + y) % TWO_64
  {
  }

  lemma MallocBooks(s: Space, size: nat)
    ensures var (s', r) := Malloc(s, size);
            var n := PagesFor(size);
            if r == 0 then (s'.pages == s.pages && s'.bytes == s.bytes) || s.address == 0
            else s'.pages == (s.pages + n) % TWO_64 && s'.bytes == (s.bytes + n * PAGE) % TWO_64
  {
    hide Fits, Collect, GiveAll, MapRange, PagesFor;
  }

  lemma BookedIs(st: State, n: int)
    requires n == Total(st.given) - st.freed
    ensures Booked(st) <==> st.space.pages == n % TWO_64 && st.space.bytes == n * PAGE % TWO_64
  {
  }

  lemma MoveBooks(pages: nat, bytes: nat, n: int, k: int)
    requires pages == n % TWO_64 && bytes == n * PAGE % TWO_64
    ensures (pages + k) % TWO_64 == (n + k) % TWO_64 && (bytes + k * PAGE) % TWO_64 == (n + k) * PAGE % TWO_64
  {
    AddMod(n, k);
    AddMod(n * PAGE, k * PAGE);
  }

  lemma TotalGrows(given: seq<Range>, r: Range)
    ensures Total(given + [r]) == Total(given) + r.pages
  {
    assert (given + [r])[..|given|] == given;
  }

  lemma InvAddress(st: State)
    requires Inv(st)
    ensures st.space.address != 0
  {
  }

  lemma ApplyTake(st: State, size: nat)
    ensures var (s', r) := Malloc(st.space, size);
            var st' := Apply(st, Take(size));
            && st'.space == s' && st'.freed == st.freed
            && st'.given == if r == 0 then st.given else st.given + [Range(r, PagesFor(size))]
  {
  }

  lemma TakeBooks(st: State, size: nat)
    requires Inv(st) && Booked(st)
    ensures Booked(Apply(st, Take(size)))
  {
    hide *;
    var n, total, st' := PagesFor(size), Total(st.given) - st.freed, Apply(st, Take(size));
    var (s', r) := Malloc(st.space, size);
    ApplyTake(st, size);
    InvAddress(st);
    MallocBooks(st.space, size);
    BookedIs(st, total);
    MoveBooks(st.space.pages, st.space.bytes, total, n);
    TotalGrows(st.given, Range(r, n));
    BookedIs(st', if r == 0 then total else total + n);
  }

  lemma ReleaseBooks(s: Space, v: nat, size: nat)
    ensures var s', n := Release(s, v, size), PagesFor(size);
            if Ignored(s, v, size) then s' == s
            else s'.pages == (s.pages - n) % TWO_64 && s'.bytes == (s.bytes - n * PAGE) % TWO_64
  {
    hide PagesFor, FreePages, Ignored;
  }

  lemma ApplyGive(st: State, v: nat, size: nat)
    ensures var st' := Apply(st, Give(v, size));
            && st'.given == st.given && st'.space == Release(st.space, v, size)
            && st'.freed == if Ignored(st.space, v, size) then st.freed else st.freed + PagesFor(size)
  {
  }

  lemma BackBooks(pages: nat, bytes: nat, n: int, k: nat)
    requires pages == n % TWO_64 && bytes == n * PAGE % TWO_64
    ensures (pages - k) % TWO_64 == (n - k) % TWO_64 && (bytes - k * PAGE) % TWO_64 == (n - k) * PAGE % TWO_64
  {
    AddMod(n, 0 - k);
    AddMod(n * PAGE, 0 - k * PAGE);
  }

  lemma GiveBooks(st: State, v: nat, size: nat)
    requires Booked(st)
    ensures Booked(Apply(st, Give(v, size)))
  {
    hide *;
    var n, total := PagesFor(size), Total(st.given) - st.freed;
    ApplyGive(st, v, size);
    ReleaseBooks(st.space, v, size);
    BookedIs(st, total);
    BackBooks(st.space.pages, st.space.bytes, total, n);
    BookedIs(Apply(st, Give(v, size)), if Ignored(st.space, v, size) then total else total - n);
  }

  /** Over every run the statistics are right, whatever the sizes asked for and freed. */
  lemma {:induction false} BooksBalance(st: State, ops: seq<Op>)
    requires Inv(st) && Booked(st) && CanRun(st, ops)
    ensures Booked(After(st, ops))
    decreases |ops|
  {
    hide Inv, Enabled, Apply, Booked;
    if ops != [] {
      match ops[0] {
        case Take(size) =>
          TakeKeeps(st, size);
          TakeBooks(st, size);
        case Give(v, size) =>
          GiveKeeps(st, v, size);
          GiveBooks(st, v, size);
      }
      BooksBalance(Apply(st, ops[0]), ops[1..]);
    }
  }
}
