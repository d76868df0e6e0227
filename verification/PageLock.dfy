/** Stacking memory locks: a count per page, so that a page stays locked while any range on it is. */
module PageLock {
  import opened Arithmetic

  // ---------------------------------------------------------------- the mask

  /** Bitwise and of unsigned numbers. */
  function And(a: nat, b: nat): nat {
    if a == 0 || b == 0 then 0 else 2 * And(a / 2, b / 2) + (if a % 2 == 1 && b % 2 == 1 then 1 else 0)
  }

  /** Bitwise complement of a w-bit number. */
  function Not(a: nat, w: nat): nat {
    if w == 0 then 0 else 2 * Not(a / 2, w - 1) + (1 - a % 2)
  }

  const WIDTH: nat := 64

  lemma {:induction false} AndSelf(a: nat)
    ensures And(a, a) == a
  {
    if a > 0 { AndSelf(a / 2); }
  }

  lemma {:induction false} AndAllOnes(x: nat, w: nat)
    requires x < Pow2(w)
    ensures And(x, Not(0, w)) == x
  {
    if w > 0 && x > 0 {
      AndAllOnes(x / 2, w - 1);
      assert Not(0, w) == 2 * Not(0, w - 1) + 1;
    }
  }

  /** The multiple of pageSize at or below x. */
  function Floor(x: nat, pageSize: nat): nat
    requires pageSize > 0
  {
    x / pageSize * pageSize
  }

  lemma FloorHalf(x: nat, n: nat)
    requires n > 0
    ensures 2 * Floor(x / 2, n) == Floor(x, 2 * n)
  {
    var q, r := x / 2 / n, x / 2 % n;
    assert x / 2 == q * n + r;
    assert x == (2 * n) * q + (2 * r + x % 2);
    assert 0 <= 2 * r + x % 2 < 2 * n;
    DivUnique(x, 2 * n, q, 2 * r + x % 2);
    assert 2 * (q * n) == q * (2 * n);
  }

  lemma AndEven(x: nat, m: nat)
    ensures And(x, 2 * m) == 2 * And(x / 2, m)
  {
  }

  lemma MaskHalf(k: nat, w: nat)
    requires 1 <= k <= w
    ensures Not(Pow2(k) - 1, w) == 2 * Not(Pow2(k - 1) - 1, w - 1)
  {
    assert (Pow2(k) - 1) / 2 == Pow2(k - 1) - 1 && (Pow2(k) - 1) % 2 == 1;
  }

  /** Masking with the complement of pageSize - 1 rounds down to a multiple of pageSize. */
  lemma {:induction false} MaskRoundsDown(x: nat, k: nat, w: nat)
    requires k <= w && x < Pow2(w)
    ensures And(x, Not(Pow2(k) - 1, w)) == Floor(x, Pow2(k))
  {
    hide And, Not, Floor;
    if k == 0 {
      AndAllOnes(x, w);
      FloorOne(x);
    } else {
      MaskRoundsDown(x / 2, k - 1, w - 1);
      MaskHalf(k, w);
      AndEven(x, Not(Pow2(k - 1) - 1, w - 1));
      FloorHalf(x, Pow2(k - 1));
    }
  }

  lemma FloorOne(x: nat)
    ensures Floor(x, 1) == x
  {
  }

  ghost predicate IsPow2(n: nat) {
    exists k: nat :: n == Pow2(k)
  }

  lemma HalfPow2(n: nat)
    requires n > 0 && n % 2 == 0
    ensures IsPow2(n) <==> IsPow2(n / 2)
  {
    if IsPow2(n / 2) {
      var k: nat :| n / 2 == Pow2(k);
      assert n == Pow2(k + 1);
    }
    if IsPow2(n) {
      var k: nat :| n == Pow2(k);
      assert k > 0 && n / 2 == Pow2(k - 1);
    }
  }

  lemma OddPow2(n: nat)
    requires n % 2 == 1
    ensures IsPow2(n) <==> n == 1
  {
    assert Pow2(0) == 1;
    if IsPow2(n) {
      var k: nat :| n == Pow2(k);
      assert k > 0 ==> Pow2(k) == 2 * Pow2(k - 1);
    }
  }

  /** The constructor's test accepts exactly the powers of two, and zero. */
  lemma {:induction false} PowerOfTwoTest(n: nat)
    requires n > 0
    ensures And(n, n - 1) == 0 <==> IsPow2(n)
  {
    hide IsPow2, Pow2;
    if n % 2 == 0 {
      HalfPow2(n);
      PowerOfTwoTest(n / 2);
      assert (n - 1) / 2 == n / 2 - 1;
      assert And(n, n - 1) == 2 * And(n / 2, n / 2 - 1);
    } else {
      OddPow2(n);
      AndSelf(n / 2);
      assert And(n, n - 1) == 2 * (n / 2);
    }
  }

  // ---------------------------------------------------------------- what a range covers

  datatype Range = Range(addr: nat, size: nat)

  predicate Aligned(x: nat, pageSize: nat)
    requires pageSize > 0
  {
    x % pageSize == 0
  }

  /** The page shares a byte with the range. */
  predicate Touches(r: Range, page: nat, pageSize: nat)
    requires pageSize > 0
  {
    r.size > 0 && Aligned(page, pageSize) && page < r.addr + r.size && r.addr < page + pageSize
  }

  lemma FloorFacts(x: nat, n: nat)
    requires n > 0
    ensures Floor(x, n) <= x < Floor(x, n) + n && Aligned(Floor(x, n), n)
  {
    assert x == x / n * n + x % n;
    MultipleMod(x / n, n);
  }

  lemma MultipleMod(q: nat, n: nat)
    requires n > 0
    ensures q * n % n == 0
  {
    DivUnique(q * n, n, q, 0);
  }

  lemma AlignedIs(a: nat, n: nat)
    requires n > 0 && Aligned(a, n)
    ensures a == n * (a / n)
  {
  }

  lemma MulDistance(n: nat, p: nat, q: nat)
    ensures n * (q - p) == n * q - n * p
  {
  }

  /** Page-aligned numbers are at least a page apart. */
  lemma AlignedApart(a: nat, b: nat, n: nat)
    requires n > 0 && Aligned(a, n) && Aligned(b, n) && a < b
    ensures a + n <= b
  {
    hide Aligned;
    AlignedIs(a, n);
    AlignedIs(b, n);
    var p, q := a / n, b / n;
    MulDistance(n, p, q);
    if q > p {
      MulAtLeast(n, q - p);
    }
  }

  lemma NextAligned(a: nat, n: nat)
    requires n > 0 && Aligned(a, n)
    ensures Aligned(a + n, n)
  {
    var p := a / n;
    AlignedIs(a, n);
    assert a + n == (p + 1) * n;
    MultipleMod(p + 1, n);
  }

  /** The 64-bit address of a range's last byte. */
  function LastByte(r: Range): nat
    requires r.size > 0
  {
    if r.addr + r.size - 1 >= Pow2(WIDTH) then r.addr + r.size - 1 - Pow2(WIDTH) else r.addr + r.size - 1
  }

  function FirstPage(r: Range, pageSize: nat): nat
    requires pageSize > 0
  {
    Floor(r.addr, pageSize)
  }

  function LastPage(r: Range, pageSize: nat): nat
    requires pageSize > 0 && r.size > 0
  {
    Floor(LastByte(r), pageSize)
  }

  /** The loop over the range comes to this page. */
  predicate Visits(r: Range, page: nat, pageSize: nat)
    requires pageSize > 0
  {
    r.size > 0 && Aligned(page, pageSize) && FirstPage(r, pageSize) <= page <= LastPage(r, pageSize)
  }

  /** Address and size are 64-bit numbers. */
  predicate Sizes(r: Range) {
    r.addr < Pow2(WIDTH) && r.size < Pow2(WIDTH)
  }

  /** The range does not run past the end of the address space. */
  predicate Fits(r: Range) {
    r.addr + r.size <= Pow2(WIDTH)
  }

  /** In a range that fits, the loop visits exactly the pages that share a byte with it. */
  lemma VisitsIffTouches(r: Range, page: nat, n: nat)
    requires n > 0 && Fits(r)
    ensures Visits(r, page, n) <==> Touches(r, page, n)
  {
    hide Pow2;
    if r.size > 0 && Aligned(page, n) { TouchesIffBetween(r, page, n); }
  }

  /** In a range that runs past the end, it visits the first page if the wrapped end is on it, and nothing otherwise. */
  lemma WrappedVisits(r: Range, page: nat, n: nat)
    requires n > 0 && Sizes(r) && !Fits(r)
    ensures Visits(r, page, n) <==> page == FirstPage(r, n) == LastPage(r, n)
  {
    hide Pow2, Aligned;
    FloorFacts(r.addr, n);
    FloorFacts(LastByte(r), n);
    FloorMonotone(LastByte(r), r.addr, n);
  }

  lemma FloorMonotone(x: nat, y: nat, n: nat)
    requires n > 0 && x <= y
    ensures Floor(x, n) <= Floor(y, n)
  {
    hide Aligned, Floor;
    FloorFacts(x, n);
    FloorFacts(y, n);
    if Floor(y, n) < Floor(x, n) { AlignedApart(Floor(y, n), Floor(x, n), n); }
  }

  lemma TouchesIffBetween(r: Range, page: nat, n: nat)
    requires n > 0 && r.size > 0 && Aligned(page, n)
    ensures Touches(r, page, n) <==> Floor(r.addr, n) <= page <= Floor(r.addr + r.size - 1, n)
  {
    var first, last := Floor(r.addr, n), Floor(r.addr + r.size - 1, n);
    FloorFacts(r.addr, n);
    FloorFacts(r.addr + r.size - 1, n);
    if page < first { AlignedApart(page, first, n); }
    if last < page { AlignedApart(last, page, n); }
  }

  // ---------------------------------------------------------------- when the loop ends

  /** The 64-bit page counter of the two loops. */
  function Advance(page: nat, pageSize: nat): nat {
    if page + pageSize >= Pow2(WIDTH) then page + pageSize - Pow2(WIDTH) else page + pageSize
  }

  /** The counter after k rounds. */
  function PageAt(first: nat, pageSize: nat, k: nat): nat {
    if k == 0 then first else Advance(PageAt(first, pageSize, k - 1), pageSize)
  }

  /** The guard holds in every round. */
  ghost predicate NeverEnds(r: Range, pageSize: nat)
    requires pageSize > 0
  {
    r.size > 0 && forall k: nat :: PageAt(FirstPage(r, pageSize), pageSize, k) <= LastPage(r, pageSize)
  }

  /** The last page of the address space. */
  ghost function TopPage(bits: nat): nat
    requires bits < WIDTH
  {
    Pow2Grows(bits, WIDTH);
    Pow2(WIDTH) - Pow2(bits)
  }

  lemma {:induction false} CounterBelowTop(first: nat, bits: nat, k: nat)
    requires bits < WIDTH && Aligned(first, Pow2(bits)) && first < Pow2(WIDTH)
    ensures Aligned(PageAt(first, Pow2(bits), k), Pow2(bits)) && PageAt(first, Pow2(bits), k) <= TopPage(bits)
  {
    hide Pow2, Aligned;
    Pow2Grows(bits, WIDTH);
    Pow2Divides(bits, WIDTH);
    if k == 0 {
      AlignedApart(first, Pow2(WIDTH), Pow2(bits));
    } else {
      CounterBelowTop(first, bits, k - 1);
      var page := PageAt(first, Pow2(bits), k - 1);
      NextAligned(page, Pow2(bits));
      ZeroAligned(Pow2(bits));
      var next := Advance(page, Pow2(bits));
      AlignedApart(next, Pow2(WIDTH), Pow2(bits));
    }
  }

  lemma {:induction false} CounterLinear(first: nat, n: nat, k: nat)
    requires first + k * n < Pow2(WIDTH)
    ensures PageAt(first, n, k) == first + k * n
  {
    hide Pow2;
    if k > 0 {
      assert k * n == (k - 1) * n + n;
      CounterLinear(first, n, k - 1);
    }
  }

  lemma FloorBounds(r: Range, n: nat)
    requires n > 0 && Sizes(r) && r.size > 0
    ensures FirstPage(r, n) <= r.addr < Pow2(WIDTH) && LastPage(r, n) <= LastByte(r) < Pow2(WIDTH)
    ensures Aligned(FirstPage(r, n), n) && Aligned(LastPage(r, n), n)
  {
    hide Pow2;
    FloorFacts(r.addr, n);
    FloorFacts(LastByte(r), n);
  }

  /** A range whose last page is not the top one is left after finitely many rounds. */
  lemma LeavesBelowTop(r: Range, bits: nat) returns (k: nat)
    requires bits < WIDTH && Sizes(r) && r.size > 0 && LastPage(r, Pow2(bits)) != TopPage(bits)
    ensures PageAt(FirstPage(r, Pow2(bits)), Pow2(bits), k) > LastPage(r, Pow2(bits))
  {
    hide Pow2, Aligned, Floor;
    var n := Pow2(bits);
    var first, last := FirstPage(r, n), LastPage(r, n);
    FloorBounds(r, n);
    Pow2Grows(bits, WIDTH);
    Pow2Divides(bits, WIDTH);
    AlignedApart(last, Pow2(WIDTH), n);
    if last < first {
      k := 0;
      assert PageAt(first, n, 0) == first;
    } else {
      k := RoundsTo(first, last, n);
      CounterLinear(first, n, k);
    }
  }

  lemma RoundsTo(first: nat, last: nat, n: nat) returns (k: nat)
    requires n > 0 && first <= last && Aligned(first, n) && Aligned(last, n)
    ensures first + k * n == last + n
  {
    var p, q := first / n, last / n;
    assert first == n * p && last == n * q;
    assert n * (p - q) == n * p - n * q;
    if q < p { MulAtLeast(n, p - q); }
    k := q - p + 1;
    assert k * n == n * q - n * p + n;
  }

  /** The loop over a range never ends exactly if its last page is the last one of the address space. */
  lemma NeverEndsIff(r: Range, bits: nat)
    requires bits < WIDTH && Sizes(r) && r.size > 0
    ensures NeverEnds(r, Pow2(bits)) <==> LastPage(r, Pow2(bits)) == TopPage(bits)
  {
    hide Pow2, Aligned, Floor;
    var n := Pow2(bits);
    if LastPage(r, n) == TopPage(bits) {
      FloorBounds(r, n);
      forall k: nat ensures PageAt(FirstPage(r, n), n, k) <= LastPage(r, n) {
        CounterBelowTop(FirstPage(r, n), bits, k);
      }
    } else {
      var k := LeavesBelowTop(r, bits);
    }
  }

  /** Subtracting one, in WIDTH bits. */
  function OneLess(n: nat): nat {
    if n == 0 then Pow2(WIDTH) - 1 else n - 1
  }

  lemma {:induction false} NotAllOnes(w: nat)
    ensures Not(Pow2(w) - 1, w) == 0
  {
    if w > 0 {
      NotAllOnes(w - 1);
      MaskHalf(w, w);
    }
  }

  /** A page size of 0 passes the constructor's test; its mask maps every address to page 0, and no loop ever ends. */
  lemma {:induction false} ZeroPageSize(addr: nat, last: nat, k: nat)
    ensures And(0, OneLess(0)) == 0
    ensures var mask := Not(OneLess(0), WIDTH);
            mask == 0 && PageAt(And(addr, mask), 0, k) <= And(last, mask)
  {
    hide Pow2, Not;
    NotAllOnes(WIDTH);
    if k > 0 { ZeroPageSize(addr, last, k - 1); }
  }

  lemma {:induction false} Pow2Sum(j: nat, k: nat)
    ensures Pow2(j + k) == Pow2(j) * Pow2(k)
  {
    if j > 0 {
      Pow2Sum(j - 1, k);
      Reassociate(Pow2(j - 1), Pow2(k));
    }
  }

  lemma Reassociate(a: nat, b: nat)
    ensures 2 * (a * b) == (2 * a) * b
  {
  }

  lemma Pow2Twice(k: nat, v: nat)
    requires Pow2(k) == v
    ensures Pow2(2 * k) == v * v
  {
    Pow2Sum(k, k);
  }

  lemma Pow2Four()
    ensures Pow2(4) == 16
  {
  }

  lemma AddressSpace()
    ensures Pow2(WIDTH) == 0x1_0000_0000_0000_0000
  {
    hide Pow2;
    Pow2Four();
    Pow2Twice(4, 16);
    Pow2Twice(8, 0x100);
    Pow2Twice(16, 0x1_0000);
    Pow2Twice(32, 0x1_0000_0000);
  }

  /** Ends of ranges and page counters are taken modulo 2^64, and so is one less than a page size. */
  lemma AddressArithmetic(r: Range, page: nat, pageSize: nat)
    requires r.addr < 0x1_0000_0000_0000_0000 && 0 < r.size < 0x1_0000_0000_0000_0000
    requires page < 0x1_0000_0000_0000_0000 && pageSize < 0x1_0000_0000_0000_0000
    ensures LastByte(r) == (r.addr + r.size - 1) % 0x1_0000_0000_0000_0000
    ensures Advance(page, pageSize) == (page + pageSize) % 0x1_0000_0000_0000_0000
    ensures OneLess(pageSize) == (pageSize - 1) % 0x1_0000_0000_0000_0000
    ensures Sizes(r) && (Fits(r) <==> r.addr + r.size <= 0x1_0000_0000_0000_0000)
  {
    hide Pow2;
    AddressSpace();
  }

  // ---------------------------------------------------------------- counting

  /** How many of the ranges come to the page. */
  function Covering(live: seq<Range>, page: nat, pageSize: nat): nat
    requires pageSize > 0
  {
    if live == [] then 0
    else Covering(live[..|live| - 1], page, pageSize) + if Visits(live[|live| - 1], page, pageSize) then 1 else 0
  }

  lemma {:induction false} CoveringAppend(a: seq<Range>, b: seq<Range>, page: nat, n: nat)
    requires n > 0
    ensures Covering(a + b, page, n) == Covering(a, page, n) + Covering(b, page, n)
  {
    hide Visits;
    if b == [] {
      assert a + b == a;
    } else {
      assert (a + b)[..|a + b| - 1] == a + b[..|b| - 1];
      CoveringAppend(a, b[..|b| - 1], page, n);
    }
  }

  function Without(live: seq<Range>, i: nat): seq<Range>
    requires i < |live|
  {
    live[..i] + live[i + 1..]
  }

  lemma CoveringWithout(live: seq<Range>, i: nat, page: nat, n: nat)
    requires i < |live| && n > 0
    ensures Covering(Without(live, i), page, n) == Covering(live, page, n) - if Visits(live[i], page, n) then 1 else 0
  {
    hide Visits;
    assert live == live[..i] + [live[i]] + live[i + 1..];
    CoveringAppend(live[..i] + [live[i]], live[i + 1..], page, n);
    CoveringOneMore(live[..i], live[i], page, n);
    CoveringAppend(live[..i], live[i + 1..], page, n);
  }

  lemma NothingCovers(n: nat)
    ensures n > 0 ==> forall page: nat :: Covering([], page, n) == 0
  {
  }

  lemma CoveringOneMore(live: seq<Range>, r: Range, page: nat, n: nat)
    requires n > 0
    ensures Covering(live + [r], page, n) == Covering(live, page, n) + if Visits(r, page, n) then 1 else 0
  {
    assert (live + [r])[..|live|] == live;
  }

  lemma {:induction false} CoveringPositive(live: seq<Range>, page: nat, n: nat)
    requires n > 0
    ensures Covering(live, page, n) > 0 <==> exists i :: 0 <= i < |live| && Visits(live[i], page, n)
  {
    hide Visits;
    if live != [] {
      CoveringPositive(live[..|live| - 1], page, n);
      if Covering(live[..|live| - 1], page, n) > 0 {
        var i :| 0 <= i < |live| - 1 && Visits(live[..|live| - 1][i], page, n);
        assert live[i] == live[..|live| - 1][i];
      }
      if exists i :: 0 <= i < |live| && Visits(live[i], page, n) {
        var i :| 0 <= i < |live| && Visits(live[i], page, n);
        if i < |live| - 1 { assert live[..|live| - 1][i] == live[i]; }
      }
    }
  }

  // ---------------------------------------------------------------- the manager

  class LockedPageManager {
    const pageSize: nat
    const pageMask: nat
    ghost const bits: nat
    var histogram: map<nat, int>
    ghost var osLocked: set<nat>        // what the operating system holds locked
    ghost var live: seq<Range>          // ranges locked and not yet unlocked

    ghost predicate Sized()
      reads {}
    {
      bits < WIDTH && pageSize == Pow2(bits) && pageSize > 0 && pageMask == Not(pageSize - 1, WIDTH)
    }

    /** Each page counts the live ranges on it; exactly the counted pages are locked. */
    ghost predicate Valid()
      reads this
    {
      Booked() && forall page: nat :: Aligned(page, pageSize) ==> Count(page) == Covering(live, page, pageSize)
    }

    ghost predicate Booked()
      reads this
    {
      && Sized() && osLocked == histogram.Keys
      && (forall page :: page in histogram ==> Aligned(page, pageSize) && histogram[page] > 0)
    }

    function Count(page: nat): int
      reads this
    {
      if page in histogram then histogram[page] else 0
    }

    /** The constructor's assertion admits the powers of two, and zero. */
    constructor (pageSize: nat)
      requires pageSize < Pow2(WIDTH) && And(pageSize, OneLess(pageSize)) == 0
      ensures this.pageSize == pageSize && pageMask == Not(OneLess(pageSize), WIDTH) && live == []
      ensures Valid() <==> pageSize > 0
    {
      hide Pow2, And, Not, Covering;
      ghost var k: nat := 0;
      if pageSize > 0 {
        PowerOfTwoTest(pageSize);
        k :| pageSize == Pow2(k);
        SmallExponent(k);
      }
      NothingCovers(pageSize);
      this.pageSize := pageSize;
      this.pageMask := Not(OneLess(pageSize), WIDTH);
      this.bits := k;
      histogram, osLocked, live := map[], {}, [];
    }

    method PageOf(addr: nat) returns (page: nat)
      requires Sized() && addr < Pow2(WIDTH)
      ensures page == Floor(addr, pageSize)
    {
      hide Pow2, Not, And;
      MaskRoundsDown(addr, bits, WIDTH);
      page := And(addr, pageMask);
    }

    /** The loop over the range ends. */
    ghost predicate Ends(r: Range)
      requires Sized()
    {
      r.size > 0 ==> LastPage(r, pageSize) != TopPage(bits)
    }

    method LockPage(page: nat)
      requires Booked() && Aligned(page, pageSize)
      modifies this`histogram, this`osLocked
      ensures Booked()
      ensures forall q: nat :: Count(q) == old(Count(q)) + if q == page then 1 else 0
    {
      hide Aligned;
      if page !in histogram {
        osLocked := osLocked + {page};
        histogram := histogram[page := 1];
      } else {
        histogram := histogram[page := histogram[page] + 1];
      }
    }

    method UnlockPage(page: nat)
      requires Booked() && page in histogram
      modifies this`histogram, this`osLocked
      ensures Booked()
      ensures forall q: nat :: Count(q) == old(Count(q)) - if q == page then 1 else 0
    {
      hide Aligned;
      histogram := histogram[page := histogram[page] - 1];
      if histogram[page] == 0 {
        osLocked := osLocked - {page};
        histogram := histogram - {page};
      }
    }

    /** One step of the counter inside a range whose loop ends. */
    lemma StepInside(r: Range, page: nat)
      requires Sized() && Sizes(r) && r.size > 0 && Ends(r) && Aligned(page, pageSize) && page <= LastPage(r, pageSize)
      ensures Advance(page, pageSize) == page + pageSize && Aligned(page + pageSize, pageSize)
      ensures forall q: nat :: Aligned(q, pageSize) && page < q ==> page + pageSize <= q
    {
      hide Pow2, Aligned, Floor, Not;
      FloorBounds(r, pageSize);
      Pow2Grows(bits, WIDTH);
      Pow2Divides(bits, WIDTH);
      AlignedApart(LastPage(r, pageSize), Pow2(WIDTH), pageSize);
      NextPage(page, pageSize);
    }

    /** Locks every page the loop comes to, counting those already locked. */
    method LockRange(r: Range)
      requires Valid() && Sizes(r) && Ends(r)
      modifies this
      ensures Valid()
      ensures live == if r.size == 0 then old(live) else old(live) + [r]
    {
      hide Aligned, Floor, Visits, Covering, Pow2, Not, Advance;
      if r.size == 0 {
        return;
      }
      FloorBounds(r, pageSize);
      var page := PageOf(r.addr);
      var last := PageOf(LastByte(r));
      ghost var first := page;
      while page <= last
        invariant first <= page && Aligned(page, pageSize)
        invariant live == old(live) && Booked()
        invariant forall q: nat :: Aligned(q, pageSize) ==>
                    Count(q) == Covering(live, q, pageSize) + if first <= q <= last && q < page then 1 else 0
        decreases last + pageSize - page
      {
        StepInside(r, page);
        LockPage(page);
        page := Advance(page, pageSize);
      }
      forall q: nat | Aligned(q, pageSize) ensures Count(q) == Covering(live + [r], q, pageSize) {
        CoveringOneMore(live, r, q, pageSize);
        VisitsBetween(r, q, pageSize);
      }
      live := live + [r];
    }

    /** Takes back one LockRange of the same range; pages nothing else is on are unlocked. */
    method UnlockRange(r: Range, ghost i: nat)
      requires Valid() && Sizes(r) && Ends(r)
      requires r.size > 0 ==> i < |live| && live[i] == r
      modifies this
      ensures Valid()
      ensures live == if r.size == 0 then old(live) else Without(old(live), i)
    {
      hide Aligned, Floor, Visits, Covering, Without, Pow2, Not, Advance;
      if r.size == 0 {
        return;
      }
      FloorBounds(r, pageSize);
      var page := PageOf(r.addr);
      var last := PageOf(LastByte(r));
      ghost var first := page;
      while page <= last
        invariant first <= page && Aligned(page, pageSize)
        invariant live == old(live) && Booked()
        invariant forall q: nat :: Aligned(q, pageSize) ==>
                    Count(q) == Covering(live, q, pageSize) - if first <= q <= last && q < page then 1 else 0
        decreases last + pageSize - page
      {
        StepInside(r, page);
        VisitsBetween(r, page, pageSize);
        CoveringPositive(live, page, pageSize);
        // The source's assertion that the area was locked.
        assert page in histogram;
        UnlockPage(page);
        page := Advance(page, pageSize);
      }
      forall q: nat | Aligned(q, pageSize) ensures Count(q) == Covering(Without(live, i), q, pageSize) {
        CoveringWithout(live, i, q, pageSize);
        VisitsBetween(r, q, pageSize);
      }
      live := Without(live, i);
    }

    /** A page is locked exactly while a live range comes to it: for ranges that fit, has a byte on it. */
    lemma LockedIffTouched(page: nat)
      requires Valid()
      ensures page in osLocked <==> exists i :: 0 <= i < |live| && Visits(live[i], page, pageSize)
      ensures (forall i :: 0 <= i < |live| ==> Fits(live[i])) ==>
                (page in osLocked <==> exists i :: 0 <= i < |live| && Touches(live[i], page, pageSize))
    {
      hide Pow2, Not, Floor, LastPage, FirstPage;
      CoveringPositive(live, page, pageSize);
      if forall i :: 0 <= i < |live| ==> Fits(live[i]) {
        forall i | 0 <= i < |live| ensures Visits(live[i], page, pageSize) <==> Touches(live[i], page, pageSize) {
          VisitsIffTouches(live[i], page, pageSize);
        }
      }
    }
  }

  lemma VisitsBetween(r: Range, page: nat, n: nat)
    requires n > 0 && r.size > 0 && Aligned(page, n)
    ensures Visits(r, page, n) <==> Floor(r.addr, n) <= page <= Floor(LastByte(r), n)
  {
  }

  /** The next page, and nothing aligned in between. */
  lemma NextPage(page: nat, n: nat)
    requires n > 0 && Aligned(page, n)
    ensures Aligned(page + n, n)
    ensures forall q: nat :: Aligned(q, n) && page < q ==> page + n <= q
  {
    NextAligned(page, n);
    forall q: nat | Aligned(q, n) && page < q ensures page + n <= q {
      AlignedApart(page, q, n);
    }
  }

  lemma SmallExponent(k: nat)
    requires Pow2(k) < Pow2(WIDTH)
    ensures k < WIDTH
  {
    hide Pow2;
    if k >= WIDTH { Pow2Grows(WIDTH, k); }
  }

  lemma {:induction false} Pow2Grows(a: nat, b: nat)
    requires a <= b
    ensures Pow2(a) <= Pow2(b)
  {
    if a < b { Pow2Grows(a, b - 1); }
  }

  lemma ZeroAligned(n: nat)
    requires n > 0
    ensures Aligned(0, n)
  {
  }

  lemma DoubleAligned(x: nat, n: nat)
    requires n > 0 && Aligned(x, n)
    ensures Aligned(2 * x, n)
  {
    var q := x / n;
    assert x == n * q;
    assert 2 * x == (2 * q) * n;
    MultipleMod(2 * q, n);
  }

  lemma {:induction false} Pow2Divides(a: nat, b: nat)
    requires a <= b
    ensures Aligned(Pow2(b), Pow2(a))
  {
    hide Aligned;
    if a == b {
      ZeroAligned(Pow2(a));
      NextAligned(0, Pow2(a));
    } else {
      Pow2Divides(a, b - 1);
      DoubleAligned(Pow2(b - 1), Pow2(a));
    }
  }

  // ---------------------------------------------------------------- every history

  datatype Event = Lock(r: Range) | Unlock(r: Range)

  ghost function IndexOf(live: seq<Range>, r: Range): (i: nat)
    requires r in live
    ensures i < |live| && live[i] == r
  {
    var i: nat :| i < |live| && live[i] == r;
    i
  }

  /** The ranges locked and not yet unlocked after a history. */
  ghost function LiveAfter(events: seq<Event>): seq<Range> {
    if events == [] then []
    else
      var live := LiveAfter(events[..|events| - 1]);
      match events[|events| - 1]
      case Lock(r) => if r.size == 0 then live else live + [r]
      case Unlock(r) => if r.size == 0 || r !in live then live else Without(live, IndexOf(live, r))
  }

  /** Every unlock answers a lock of the same range. */
  ghost predicate Matched(events: seq<Event>) {
    forall i :: 0 <= i < |events| && events[i].Unlock? && events[i].r.size > 0 ==> events[i].r in LiveAfter(events[..i])
  }

  /** Every loop of the history ends. */
  ghost predicate AllEnd(events: seq<Event>, pageSize: nat)
    requires pageSize > 0
  {
    forall e :: e in events ==> Sizes(e.r) && (e.r.size > 0 ==> LastPage(e.r, pageSize) + pageSize != Pow2(WIDTH))
  }

  /** Any matched history whose loops end: counts equal live ranges, and exactly the counted pages are locked. */
  method RunHistory(pageSize: nat, events: seq<Event>) returns (m: LockedPageManager)
    requires 0 < pageSize < Pow2(WIDTH) && And(pageSize, pageSize - 1) == 0
    requires Matched(events) && AllEnd(events, pageSize)
    ensures m.pageSize == pageSize
    ensures forall page: nat :: Aligned(page, pageSize) ==> m.Count(page) == Covering(LiveAfter(events), page, pageSize)
    ensures forall page: nat :: page in m.osLocked <==> exists r :: r in LiveAfter(events) && Visits(r, page, pageSize)
    ensures (forall r :: r in LiveAfter(events) ==> Fits(r)) ==>
              forall page: nat ::
                page in m.osLocked <==> exists r :: r in LiveAfter(events) && Touches(r, page, pageSize)
  {
    hide Pow2, And, Not, Covering, Aligned, Without, Touches, Visits, Fits, LastPage;
    m := new LockedPageManager(pageSize);
    var i := 0;
    while i < |events|
      invariant 0 <= i <= |events|
      invariant fresh(m) && m.Valid() && m.pageSize == pageSize && m.live == LiveAfter(events[..i])
    {
      assert events[..i + 1][..i] == events[..i];
      match events[i] {
        case Lock(r) =>
          m.LockRange(r);
        case Unlock(r) =>
          m.UnlockRange(r, if r.size > 0 then IndexOf(m.live, r) else 0);
      }
      i := i + 1;
    }
    assert events[..i] == events;
    forall page: nat
      ensures page in m.osLocked <==> exists r :: r in m.live && Visits(r, page, pageSize)
      ensures (forall r :: r in m.live ==> Fits(r)) ==>
                (page in m.osLocked <==> exists r :: r in m.live && Touches(r, page, pageSize))
    {
      m.LockedIffTouched(page);
    }
  }
}
