/** A bitmap in a byte array. */
module Bitmap {

  /** `1 << k`. */
  function Mask(k: nat): bv8
    requires k < 8
  {
    match k
    case 0 => 0x01
    case 1 => 0x02
    case 2 => 0x04
    case 3 => 0x08
    case 4 => 0x10
    case 5 => 0x20
    case 6 => 0x40
    case 7 => 0x80
  }

  predicate BitOf(b: bv8, k: nat)
    requires k < 8
  {
    b & Mask(k) != 0
  }

  lemma SetBitOf(b: bv8, k: nat, j: nat)
    requires k < 8 && j < 8
    ensures BitOf(b | Mask(k), j) <==> j == k || BitOf(b, j)
  {
  }

  lemma ClearBitOf(b: bv8, k: nat, j: nat)
    requires k < 8 && j < 8
    ensures BitOf(b & !Mask(k), j) <==> j != k && BitOf(b, j)
  {
  }

  lemma ChangedBit(b: bv8, k: nat, v: bool, j: nat)
    requires k < 8 && j < 8
    ensures BitOf(if v then b | Mask(k) else b & !Mask(k), j) == if j == k then v else BitOf(b, j)
  {
    SetBitOf(b, k, j);
    ClearBitOf(b, k, j);
    hide BitOf, Mask;
  }

  lemma SameBit(i: nat, j: nat)
    ensures i == j <==> i / 8 == j / 8 && i % 8 == j % 8
  {
  }

  /** The bits with `n` of them, from `index` on, set to `v`; bits past the end are ignored. */
  function SetRange(s: seq<bool>, index: nat, n: nat, v: bool): (r: seq<bool>)
    ensures |r| == |s|
    ensures forall i :: 0 <= i < |s| ==> r[i] == if index <= i < index + n then v else s[i]
  {
    seq(|s|, i requires 0 <= i < |s| => if index <= i < index + n then v else s[i])
  }

  class Bitmap {
    const bits: array<bv8>
    const size: nat

    /** `BitmapInit`. */
    constructor (size: nat, value: bool)
      ensures Valid() && fresh(bits) && this.size == size
      ensures View() == seq(size, i => value)
    {
      this.size := size;
      bits := new bv8[(size + 7) / 8](_ => if value then 0xFF else 0x00);
      new;
      assert forall k :: 0 <= k < 8 ==> BitOf(0xFF, k) && !BitOf(0x00, k);
    }

    ghost predicate Valid() {
      size <= 8 * bits.Length
    }

    /** The bits as a sequence. */
    ghost function View(): (s: seq<bool>)
      requires Valid()
      reads bits
      ensures |s| == size
    {
      seq(size, i requires 0 <= i < size reads bits => BitOf(bits[i / 8], i % 8))
    }

    /** `BitmapGetBit`. */
    method GetBit(index: nat) returns (b: bool)
      requires Valid() && index < size
      ensures b == View()[index]
    {
      b := bits[index / 8] & Mask(index % 8) != 0;
    }

    method SetBit(index: nat, value: bool)
      requires Valid() && index < size
      modifies bits
      ensures View() == old(View())[index := value]
    {
      hide BitOf, Mask;
      ghost var was := View();
      var b, k := bits[index / 8], index % 8;
      var b' := if value then b | Mask(k) else b & !Mask(k);
      bits[index / 8] := b';
      forall i | 0 <= i < size ensures View()[i] == if i == index then value else was[i] {
        SameBit(i, index);
        if i / 8 == index / 8 { ChangedBit(b, k, value, i % 8); }
      }
    }

    /** `BitmapSetBits`. */
    method SetBits(index: nat, n: nat, value: bool)
      requires Valid()
      modifies bits
      ensures View() == SetRange(old(View()), index, n, value)
    {
      var at, i := index, 0;
      while i < n && at < size
        invariant 0 <= i <= n && at == index + i
        invariant View() == SetRange(old(View()), index, i, value)
      {
        SetBit(at, value);
        at, i := at + 1, i + 1;
      }
    }

    /** Looks at bits from `start` on until one differs from `value`, `n - 1` have been seen or the map
        ends. */
    method Run(value: bool, n: nat, start: nat) returns (i: nat, at: nat, broken: bool)
      requires Valid() && start < size && View()[start] == value
      ensures 1 <= i && start <= at <= size
      ensures broken ==> start < at && i < n && at - 1 < start + n - 1 && View()[at - 1] != value
      ensures !broken ==> at == start + i - 1 && (i >= n || at == size) && (i <= n || i == 1)
      ensures !broken ==> RunAt(View(), value, n, start)
    {
      i, at, broken := 1, start, false;
      while i < n && at < size
        invariant 1 <= i && (i <= n || i == 1) && start <= at <= size && at == start + i - 1
        invariant forall k :: start <= k < at ==> View()[k] == value
      {
        var c := GetBit(at);
        at := at + 1;
        if c != value { return i, at, true; }
        i := i + 1;
      }
    }

    /** `BitmapAllocBits`.  The search looks at `n - 1` bits of a run of `n`, fewer at the end of the map: it
        returns the first position whose bits pass that, -1 exactly when there is none, and sets `n` bits
        from there unless the map ended first. */
    method AllocBits(value: bool, n: nat) returns (r: int)
      requires Valid()
      modifies bits
      ensures r == -1 || 0 <= r < size
      ensures r == -1 ==> View() == old(View()) && forall p :: 0 <= p < size ==> !RunAt(old(View()), value, n, p)
      ensures r >= 0 ==> RunAt(old(View()), value, n, r) && forall p :: 0 <= p < r ==> !RunAt(old(View()), value, n, p)
      ensures r >= 0 ==> View() == Taken(old(View()), n, r)
      ensures var p := FirstRun(old(View()), value, n, 0); r == if p == size then -1 else p
    {
      ghost var s := View();
      var at, start := 0, -1;
      while at < size
        invariant 0 <= at <= size && -1 <= start < size && View() == s
        invariant start == -1 ==> forall p :: 0 <= p < at ==> !RunAt(s, value, n, p)
        invariant start >= 0 ==> at == size && RunAt(s, value, n, start) && Taken(s, n, start) == s
        invariant start >= 0 ==> forall p :: 0 <= p < start ==> !RunAt(s, value, n, p)
        decreases size - at, if start == -1 then 0 else 1
      {
        var b := GetBit(at);
        if b != value { at := at + 1; continue; }
        start := at;
        var i, at', broken := Run(value, n, start);
        at := at';
        if broken {
          assert forall p :: start <= p < at ==> !RunAt(s, value, n, p) by { Broken(s, value, n, start, at); }
          start := -1;
        } else if i >= n {
          SetBits(start, n, true);
          return start;
        }
      }
      return start;
    }
  }

  /** The bits the search looks at from `p` on have the value asked for: the first one, and `n - 1` in all
      as far as the map goes. */
  ghost predicate RunAt(s: seq<bool>, value: bool, n: nat, p: nat) {
    p < |s| && s[p] == value && forall k :: p <= k < |s| && k < p + n - 1 ==> s[k] == value
  }

  /** The map after `n` bits were allocated at `p`. */
  function Taken(s: seq<bool>, n: nat, p: nat): seq<bool> {
    if n <= 1 || p + n - 1 <= |s| then SetRange(s, p, n, true) else s
  }

  /** A bit that breaks a run breaks every run that begins between its start and the bit. */
  lemma Broken(s: seq<bool>, value: bool, n: nat, start: nat, at: nat)
    requires start < at <= |s| && at - 1 < start + n - 1 && s[at - 1] != value
    ensures forall p :: start <= p < at ==> !RunAt(s, value, n, p)
  {
    forall p | start <= p < at ensures !RunAt(s, value, n, p) {
      assert p <= at - 1 < |s| && at - 1 < p + n - 1;
    }
  }

  /** The first position at or behind `p` that passes the search; the length of the map if there is none. */
  ghost function FirstRun(s: seq<bool>, value: bool, n: nat, p: nat): (r: nat)
    requires p <= |s|
    ensures p <= r <= |s| && (r < |s| ==> RunAt(s, value, n, r)) && forall q :: p <= q < r ==> !RunAt(s, value, n, q)
    decreases |s| - p
  {
    if p < |s| && !RunAt(s, value, n, p) then FirstRun(s, value, n, p + 1) else p
  }

  lemma AllocatedOne(s: seq<bool>, r: nat)
    requires r < |s|
    ensures Taken(s, 1, r) == s[r := true]
  {
  }

  /** `n` bits with the value, all in the map. */
  ghost predicate Whole(s: seq<bool>, value: bool, n: nat, p: nat) {
    p + n <= |s| && forall k :: p <= k < p + n ==> s[k] == value
  }

  /** What an allocation of `n` bits should do: hand out and set a whole run, or fail and change nothing if
      there is none. */
  ghost predicate Correct(s: seq<bool>, value: bool, n: nat, r: int, s': seq<bool>) {
    if r == -1 then s' == s && forall p :: 0 <= p < |s| ==> !Whole(s, value, n, p)
    else 0 <= r && Whole(s, value, n, r) && s' == SetRange(s, r, n, true)
  }

  /** It does so if and only if nothing in the map passes the search, or the first position that does
      begins a whole run. */
  lemma AllocExactIff(s: seq<bool>, value: bool, n: nat)
    requires n >= 1
    ensures var p := FirstRun(s, value, n, 0);
            Correct(s, value, n, if p == |s| then -1 else p, if p == |s| then s else Taken(s, n, p)) <==>
            p == |s| || Whole(s, value, n, p)
  {
    var p := FirstRun(s, value, n, 0);
    if p == |s| {
      forall q | 0 <= q < |s| ensures !Whole(s, value, n, q) { WholePasses(s, value, n, q); }
    }
  }

  lemma WholePasses(s: seq<bool>, value: bool, n: nat, p: nat)
    requires n >= 1
    ensures Whole(s, value, n, p) ==> RunAt(s, value, n, p)
  {
  }

  /** One bit is always allocated right. */
  lemma AllocOneExact(s: seq<bool>, value: bool)
    ensures var p := FirstRun(s, value, 1, 0); p == |s| || Whole(s, value, 1, p)
  {
  }

  /** Two bits asked for in a map with one free bit in front of a used one, and two free ones behind: the
      used bit is handed out.  In a map with a used bit and a free one, the free one is returned for two
      bits and not even marked. */
  lemma AllocTwoFails()
    ensures var s := [false, true, false, false];
            FirstRun(s, false, 2, 0) == 0 && !Correct(s, false, 2, 0, Taken(s, 2, 0)) && Whole(s, false, 2, 2)
    ensures var s := [true, false];
            FirstRun(s, false, 3, 0) == 1 && Taken(s, 3, 1) == s && !Correct(s, false, 3, 1, s)
  {
    var s := [false, true, false, false];
    assert RunAt(s, false, 2, 0) && s[1];
    var t := [true, false];
    assert !RunAt(t, false, 3, 0) && RunAt(t, false, 3, 1);
    assert FirstRun(t, false, 3, 0) == FirstRun(t, false, 3, 1);
  }
}
