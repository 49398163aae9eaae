/** The region cover of core/drivers/tzc380.c: tzc_auto_configure programs regions, whole or
    by eighths, that together enable exactly the requested range. */
module Tzc380 {
  import opened Common

  // ---- Powers of two and multiples ----

  lemma MulLe(x: nat, y: nat, m: nat)
    requires x <= y
    ensures x * m <= y * m
  {
  }

  /** The quotient and remainder of a division are the only ones. */
  lemma DivisionUnique(a: nat, m: nat, q: int, r: nat)
    requires m > 0 && a == q * m + r && r < m
    ensures a / m == q && a % m == r
  {
    var d := a / m;
    assert a == d * m + a % m;
    if d < q {
      MulLe(1, q - d, m);
    } else if d > q {
      MulLe(1, d - q, m);
    }
  }

  /** Two different multiples are at least m apart. */
  lemma MultiplesApart(a: nat, b: nat, m: nat)
    requires m > 0 && a % m == 0 && b % m == 0 && a < b
    ensures a + m <= b
  {
    var x, y := a / m, b / m;
    assert a == x * m && b == y * m;
    if y <= x {
      MulLe(y, x, m);
    }
    MulLe(x + 1, y, m);
    assert (x + 1) * m == x * m + m;
  }

  function RoundDown(a: nat, m: nat): nat
    requires m > 0
  {
    MulLe(0, a / m, m);
    (a / m) * m
  }

  /** Addresses in eighths: a multiple of e within the aligned block of 8 * e around it. */
  lemma InBlock(a: nat, e: nat, base: nat)
    requires e > 0 && a % e == 0 && base == (a / (8 * e)) * (8 * e)
    ensures base % (8 * e) == 0 && 0 <= a - base < 8 * e && (a - base) / e < 8 && a == base + ((a - base) / e) * e
  {
    var q := a / (8 * e);
    DivisionUnique(base, 8 * e, q, 0);
    assert a == q * (8 * e) + a % (8 * e);
    var k := a / e;
    assert a == k * e && base == (8 * q) * e;
    assert a - base == (k - 8 * q) * e;
    if k < 8 * q {
      MulLe(k, 8 * q, e);
    }
    DivisionUnique(a - base, e, k - 8 * q, 0);
    if k - 8 * q >= 8 {
      MulLe(8, k - 8 * q, e);
    }
  }

  /** From 64 KiB on a region is a whole number of 32 KiB units, from 256 KiB on so is an eighth. */
  lemma {:induction false} PowerUnits(n: nat)
    requires n >= 15
    ensures Pow2(n) % UNIT == 0 && Pow2(n) >= UNIT
    decreases n
  {
    if n == 15 {
      assert Pow2(5) == 32;
      assert Pow2(10) == 1024;
    } else {
      PowerUnits(n - 1);
    }
  }

  lemma Eighth(n: nat)
    requires n >= 3
    ensures Pow2(n) / 8 == Pow2(n - 3) && Pow2(n) == 8 * Pow2(n - 3)
  {
    assert Pow2(n) == 2 * Pow2(n - 1);
    assert Pow2(n - 1) == 2 * Pow2(n - 2);
  }

  lemma SmallPowers()
    ensures Pow2(13) == 8192 && Pow2(14) == 16384
  {
    assert Pow2(5) == 32;
    assert Pow2(9) == 512;
  }

  // ---- Registers ----

  const UNIT: nat := 32768

  /** The region registers as tzc_configure_region writes them: base address, size field,
      enable bit, subregion disable bits, permissions. */
  datatype Region = Region(base: nat, sizeField: nat, enabled: bool, disabled: seq<bool>, sp: nat)

  /** The size field holds the power less one. */
  function Size(g: Region): nat {
    Pow2(g.sizeField + 1)
  }

  /** An address is matched by a region when one of its enabled eighths holds it. */
  ghost predicate Matches(g: Region, x: nat) {
    g.enabled && exists i :: 0 <= i < |g.disabled| && InEighth(g, x, i)
  }

  ghost predicate InEighth(g: Region, x: nat, i: nat)
    requires i < |g.disabled|
  {
    !g.disabled[i] && g.base + i * (Size(g) / 8) <= x < g.base + (i + 1) * (Size(g) / 8)
  }

  /** Matches exactly the addresses from lo up to hi, from a base aligned to its size. */
  ghost predicate Spans(g: Region, lo: nat, hi: nat, sp: nat) {
    g.base % Size(g) == 0 && g.sp == sp && forall x: nat :: Matches(g, x) <==> lo <= x < hi
  }

  /** x lies in eighth i, and that is one of a up to b. */
  lemma FindEighth(base: nat, e: nat, a: nat, b: nat, x: nat) returns (i: nat)
    requires e > 0 && base + a * e <= x < base + b * e
    ensures a <= i < b && base + i * e <= x < base + (i + 1) * e
  {
    i := (x - base) / e;
    assert x - base == i * e + (x - base) % e;
    assert (i + 1) * e == i * e + e;
    if i < a {
      MulLe(i + 1, a, e);
    } else if i >= b {
      MulLe(b, i, e);
    }
  }

  lemma MatchIff(g: Region, a: nat, b: nat, e: nat, x: nat)
    requires a <= b <= 8 && |g.disabled| == 8 && g.enabled && e == Size(g) / 8 && e > 0
    requires forall i :: 0 <= i < 8 ==> (g.disabled[i] <==> i < a || i >= b)
    ensures Matches(g, x) <==> g.base + a * e <= x < g.base + b * e
  {
    if g.base + a * e <= x < g.base + b * e {
      var i := FindEighth(g.base, e, a, b, x);
      assert InEighth(g, x, i);
    } else if Matches(g, x) {
      var i :| 0 <= i < |g.disabled| && InEighth(g, x, i);
      MulLe(a, i, e);
      MulLe(i + 1, b, e);
    }
  }

  /** Eighths a up to b are enabled. */
  lemma EighthsSpan(g: Region, a: nat, b: nat, e: nat)
    requires a <= b <= 8 && |g.disabled| == 8 && g.enabled && e == Size(g) / 8 && g.base % Size(g) == 0 && e > 0
    requires forall i :: 0 <= i < 8 ==> (g.disabled[i] <==> i < a || i >= b)
    ensures Spans(g, g.base + a * e, g.base + b * e, g.sp)
  {
    forall x: nat ensures Matches(g, x) <==> g.base + a * e <= x < g.base + b * e {
      MatchIff(g, a, b, e, x);
    }
  }

  // ---- Configuration ----

  /** Done with the next free region, out of regions (the assert of tzc_configure_region), or
      stopped with a rest that no region size fits (the final asserts). */
  datatype Outcome = Done(next: nat) | OutOfRegions | Uncovered

  /** Region first + i spans the i-th range. */
  ghost predicate Link(regs: map<nat, Region>, first: nat, ends: seq<nat>, sp: nat, i: nat)
    requires i + 1 < |ends|
  {
    ends[i] <= ends[i + 1] && first + i in regs && Spans(regs[first + i], ends[i], ends[i + 1], sp)
  }

  /** Consecutive regions from first on span consecutive ranges, from ends[0] to the last end. */
  ghost predicate Chain(regs: map<nat, Region>, first: nat, ends: seq<nat>, sp: nat) {
    ends != [] && forall i: nat :: i + 1 < |ends| ==> Link(regs, first, ends, sp, i)
  }

  lemma ChainOn(regs: map<nat, Region>, first: nat, ends: seq<nat>, sp: nat, g: Region, hi: nat)
    requires Chain(regs, first, ends, sp) && ends[|ends| - 1] <= hi && Spans(g, ends[|ends| - 1], hi, sp)
    ensures Chain(regs[first + |ends| - 1 := g], first, ends + [hi], sp)
  {
    var r, e := regs[first + |ends| - 1 := g], ends + [hi];
    forall i: nat | i + 1 < |e| ensures Link(r, first, e, sp, i) {
      if i + 1 < |ends| {
        assert Link(regs, first, ends, sp, i);
      }
    }
  }

  lemma {:induction false} EndsGrow(regs: map<nat, Region>, first: nat, ends: seq<nat>, sp: nat, i: nat, j: nat)
    requires Chain(regs, first, ends, sp) && i <= j < |ends|
    ensures ends[i] <= ends[j]
    decreases j
  {
    if i < j {
      assert Link(regs, first, ends, sp, j - 1);
      EndsGrow(regs, first, ends, sp, i, j - 1);
    }
  }

  ghost predicate MatchedBy(regs: map<nat, Region>, k: nat, x: nat) {
    k in regs && Matches(regs[k], x)
  }

  /** Together the regions match exactly the whole range. */
  lemma {:induction false} ChainCovers(regs: map<nat, Region>, first: nat, ends: seq<nat>, sp: nat, x: nat, n: nat)
    requires Chain(regs, first, ends, sp) && n < |ends|
    ensures ends[0] <= x < ends[n] <==> exists k: nat :: first <= k < first + n && MatchedBy(regs, k, x)
    decreases n
  {
    if n > 0 {
      ChainCovers(regs, first, ends, sp, x, n - 1);
      assert Link(regs, first, ends, sp, n - 1);
      EndsGrow(regs, first, ends, sp, 0, n - 1);
      if ends[n - 1] <= x < ends[n] {
        assert MatchedBy(regs, first + (n - 1), x);
      }
    }
  }

  /** No address is matched by two of them. */
  lemma ChainDisjoint(regs: map<nat, Region>, first: nat, ends: seq<nat>, sp: nat, i: nat, j: nat, x: nat)
    requires Chain(regs, first, ends, sp) && i < j && j + 1 < |ends|
    ensures first + i in regs && first + j in regs
    ensures !(Matches(regs[first + i], x) && Matches(regs[first + j], x))
  {
    assert Link(regs, first, ends, sp, i) && Link(regs, first, ends, sp, j);
    EndsGrow(regs, first, ends, sp, i + 1, j);
  }

  /** The eighths that lie between the requested address and its end. */
  method SubRegions(base: nat, e: nat, address: nat, lsize: nat, ghost a: nat)
    returns (mask: seq<bool>, address1: nat, lsize1: nat, ghost b: nat)
    requires e > 0 && a < 8 && address == base + a * e && lsize > 2 * e
    ensures |mask| == 8 && a < b <= 8 && address1 == base + b * e && address1 + lsize1 == address + lsize
    ensures forall i :: 0 <= i < 8 ==> (mask[i] <==> i < a || i >= b)
    ensures b == 8 || lsize1 < e
  {
    mask, address1, lsize1, b := [], address, lsize, a;
    var i := 0;
    while i < 8
      invariant 0 <= i <= 8 && |mask| == i && a <= b <= 8 && address1 == base + b * e
      invariant address1 + lsize1 == address + lsize
      invariant forall j :: 0 <= j < i ==> (mask[j] <==> j < a || j >= b)
      invariant if i <= a then b == a else b == i || (a < b < i && lsize1 < e)
    {
      var area := (i + 1) * e;
      assert area == i * e + e;
      if i + 1 <= b {
        MulLe(i + 1, b, e);
      } else {
        MulLe(b, i, e);
      }
      if base + area <= address1 || base + area > address1 + lsize1 {
        mask := mask + [true];
      } else {
        mask := mask + [false];
        address1, lsize1 := address1 + e, lsize1 - e;
        assert (b + 1) * e == b * e + e;
        b := b + 1;
      }
      i := i + 1;
    }
  }

  // ---- One turn of the loop ----

  /** A region for the front of the requested range, and what is left. */
  datatype Placement = NoFit | Fit(g: Region, address: nat, lsize: nat)

  /** How region sizes relate to the unit: size is 2^pow for a pow above 15, e an eighth of it. */
  ghost predicate Sizes(size: nat, e: nat) {
    size == 8 * e && e > 0 && size % UNIT == 0 && (e % UNIT == 0 || e == 8192 || e == 16384)
  }

  lemma PowerSizes(pow: nat)
    requires pow >= 16
    ensures Sizes(Pow2(pow), Pow2(pow) / 8) && (pow == 16 ==> Pow2(pow) / 8 == 8192)
  {
    Eighth(pow);
    PowerUnits(pow);
    SmallPowers();
    if pow >= 18 {
      PowerUnits(pow - 3);
    }
  }

  lemma MultipleOfMultiple(a: nat, m: nat)
    requires m > 0 && a % m == 0 && m % UNIT == 0
    ensures a % UNIT == 0
  {
    var q, k := a / m, m / UNIT;
    assert a == q * m && m == k * UNIT;
    assert a == (q * k) * UNIT;
    DivisionUnique(a, UNIT, q * k, 0);
  }

  lemma UnitsTimes(base: nat, b: nat, e: nat)
    requires base % UNIT == 0 && e % UNIT == 0
    ensures (base + b * e) % UNIT == 0
  {
    var q, k := base / UNIT, e / UNIT;
    assert b * e == (b * k) * UNIT;
    DivisionUnique(base + b * e, UNIT, q + b * k, 0);
  }

  /** What is reached by eighths is again a multiple of 32 KiB. */
  lemma UnitsKept(size: nat, e: nat, base: nat, b: nat, end: nat)
    requires Sizes(size, e) && base % UNIT == 0 && b <= 8 && end % UNIT == 0
    requires base + b * e <= end && (b == 8 || end < base + b * e + e)
    ensures (base + b * e) % UNIT == 0
  {
    if b == 8 {
    } else if e % UNIT == 0 {
      UnitsTimes(base, b, e);
    } else if e == 8192 {
      UnitReached(base / UNIT, end / UNIT, b, 8192);
    } else {
      UnitReached(base / UNIT, end / UNIT, b, 16384);
    }
  }

  lemma UnitReached(k: nat, m: nat, b: nat, e: nat)
    requires e == 8192 || e == 16384
    requires UNIT * k + b * e <= UNIT * m < UNIT * k + b * e + e
    ensures UNIT * k + b * e == UNIT * m
  {
    if e == 8192 {
      var d := 4 * (m - k) - b;
      assert 0 <= 8192 * d < 8192;
    } else {
      var d := 2 * (m - k) - b;
      assert 0 <= 16384 * d < 16384;
    }
  }

  /** A placement of size reaches a multiple of an eighth, either the end of the block of that size
      around the address or less than an eighth short of the request. */
  predicate Took(size: nat, address: nat, address1: nat, lsize1: nat) {
    && size >= 8 && address1 % (size / 8) == 0
    && (lsize1 < size / 8 || address1 == RoundDown(address, size) + size)
  }

  lemma TookWhole(size: nat, e: nat, address: nat, lsize1: nat)
    requires size == 8 * e && e > 0 && address % size == 0
    ensures Took(size, address, address + size, lsize1)
  {
    var q := address / size;
    assert address == q * size;
    assert address + size == (8 * q + 8) * e;
    DivisionUnique(address + size, e, 8 * q + 8, 0);
  }

  lemma TookEighths(size: nat, e: nat, address: nat, base: nat, b: nat, lsize1: nat)
    requires size == 8 * e && e > 0 && base == RoundDown(address, size) && b <= 8 && (b == 8 || lsize1 < e)
    ensures Took(size, address, base + b * e, lsize1)
  {
    var q := address / size;
    assert base == (8 * q) * e;
    assert base + b * e == (8 * q + b) * e;
    DivisionUnique(base + b * e, e, 8 * q + b, 0);
  }

  /** The first case: the region's size divides the address and the end. */
  method PlaceWhole(pow: nat, size: nat, e: nat, address: nat, lsize: nat, sp: nat) returns (p: Placement)
    requires pow > 0 && size == Pow2(pow) && e == size / 8 && Sizes(size, e)
    requires lsize > 0 && address % size == 0 && (address + lsize) % size == 0
    ensures p.Fit? && Spans(p.g, address, p.address, sp) && address < p.address
    ensures p.address + p.lsize == address + lsize && (address % UNIT == 0 ==> p.address % UNIT == 0)
    ensures Took(size, address, p.address, p.lsize)
  {
    MultiplesApart(address, address + lsize, size);
    var g := Region(address, pow - 1, true, seq(8, _ => false), sp);
    WholeSpans(g, size, e);
    UnitsAdd(address, size);
    TookWhole(size, e, address, lsize - size);
    p := Fit(g, address + size, lsize - size);
  }

  lemma WholeSpans(g: Region, size: nat, e: nat)
    requires g.enabled && g.disabled == seq(8, _ => false) && Size(g) == size == 8 * e && e > 0 && g.base % size == 0
    ensures Spans(g, g.base, g.base + size, g.sp)
  {
    EighthsSpan(g, 0, 8, e);
  }

  /** A whole number of 32 KiB units. */
  predicate InUnits(a: nat) {
    a % UNIT == 0
  }

  lemma UnitsAdd(a: nat, b: nat)
    ensures InUnits(a) && InUnits(b) ==> InUnits(a + b)
  {
  }

  lemma ReachedUnits(size: nat, e: nat, base: nat, b: nat, end: nat)
    requires Sizes(size, e) && base % size == 0 && b <= 8
    requires base + b * e <= end && (b == 8 || end < base + b * e + e)
    ensures end % UNIT == 0 ==> (base + b * e) % UNIT == 0
  {
    if end % UNIT == 0 {
      MultipleOfMultiple(base, size);
      UnitsKept(size, e, base, b, end);
    }
  }

  /** The second case: eighths from the address on. */
  method PlaceEighths(pow: nat, size: nat, e: nat, address: nat, lsize: nat, sp: nat) returns (p: Placement)
    requires pow > 0 && size == Pow2(pow) && e == size / 8 && Sizes(size, e)
    requires address % e == 0 && lsize > 2 * e
    ensures p.Fit? && Spans(p.g, address, p.address, sp) && address < p.address
    ensures p.address + p.lsize == address + lsize
    ensures (address + lsize) % UNIT == 0 ==> p.address % UNIT == 0
    ensures Took(size, address, p.address, p.lsize)
  {
    var base := RoundDown(address, size);
    ghost var a := EighthOf(address, size, e, base);
    var mask, address1, lsize1;
    ghost var b;
    mask, address1, lsize1, b := SubRegions(base, e, address, lsize, a);
    var g := Region(base, pow - 1, true, mask, sp);
    EighthsSpan(g, a, b, e);
    Further(a, b, e);
    ReachedUnits(size, e, base, b, address + lsize);
    TookEighths(size, e, address, base, b, lsize1);
    p := Fit(g, address1, lsize1);
  }

  lemma EighthOf(address: nat, size: nat, e: nat, base: nat) returns (a: nat)
    requires size == 8 * e && e > 0 && address % e == 0 && base == RoundDown(address, size)
    ensures base % size == 0 && a < 8 && address == base + a * e
  {
    InBlock(address, e, base);
    a := (address - base) / e;
  }

  lemma Further(a: nat, b: nat, e: nat)
    requires a < b && e > 0
    ensures a * e < b * e
  {
    MulLe(a + 1, b, e);
    assert (a + 1) * e == a * e + e;
  }

  predicate FitsWhole(size: nat, address: nat, lsize: nat) {
    size > 0 && address % size == 0 && (address + lsize) % size == 0
  }

  predicate FitsEighths(size: nat, address: nat, lsize: nat) {
    size >= 8 && address % (size / 8) == 0 && lsize > 2 * (size / 8)
  }

  predicate Fits(pow: nat, address: nat, lsize: nat) {
    FitsWhole(Pow2(pow), address, lsize) || FitsEighths(Pow2(pow), address, lsize)
  }

  /** Something is left, and no region of 64 KiB up to 2^width bytes takes its front. */
  ghost predicate Stuck(width: nat, address: nat, lsize: nat) {
    lsize > 0 && NoneLarger(width, 15, address, lsize)
  }

  ghost predicate NoneLarger(width: nat, pow: nat, address: nat, lsize: nat) {
    forall q: nat :: pow < q <= width ==> !Fits(q, address, lsize)
  }

  lemma StuckAt(width: nat, pow: nat, address: nat, lsize: nat)
    requires pow <= 15 && lsize > 0 && NoneLarger(width, pow, address, lsize)
    ensures Stuck(width, address, lsize)
  {
  }

  method Place(pow: nat, address: nat, lsize: nat, sp: nat) returns (p: Placement)
    requires pow >= 16 && lsize > 0
    ensures p.Fit? ==> Spans(p.g, address, p.address, sp) && address < p.address
    ensures p.Fit? ==> p.address + p.lsize == address + lsize
    ensures p.Fit? <==> Fits(pow, address, lsize)
    ensures p.Fit? ==> Took(Pow2(pow), address, p.address, p.lsize)
    ensures address % UNIT == 0 && (address + lsize) % UNIT == 0 ==>
      (pow == 16 ==> p.Fit?) && (p.Fit? ==> p.address % UNIT == 0)
  {
    var size := Pow2(pow);
    var e := size / 8;
    PowerSizes(pow);
    if FitsWhole(size, address, lsize) {
      p := PlaceWhole(pow, size, e, address, lsize, sp);
    } else if FitsEighths(size, address, lsize) {
      p := PlaceEighths(pow, size, e, address, lsize, sp);
    } else {
      p := NoFit;
      if pow == 16 {
        SmallFits(address, lsize);
      }
    }
  }

  /** Every region placed takes at least one unit. */
  lemma OneUnitMore(addr: nat, a: nat, b: nat)
    requires InUnits(addr) && InUnits(a) && InUnits(b) && addr <= a < b
    ensures (a - addr) / UNIT < (b - addr) / UNIT
  {
    MultiplesApart(a, b, UNIT);
  }

  /** The smallest region takes any range of whole units. */
  lemma SmallFits(address: nat, lsize: nat)
    requires lsize > 0
    ensures address % UNIT == 0 && (address + lsize) % UNIT == 0 ==> address % 8192 == 0 && lsize > 2 * 8192
  {
    if address % UNIT == 0 && (address + lsize) % UNIT == 0 {
      DivisionUnique(address, 8192, 4 * (address / UNIT), 0);
      MultiplesApart(address, address + lsize, UNIT);
    }
  }

  // ---- How many regions a request takes ----

  /** Where the loop stands: the address is known to be a multiple of 2^k, or it is one of 2^k
      and what is left is no more than that. */
  datatype Phase = Aligning(k: nat) | Closing(k: nat)

  ghost predicate InPhase(ph: Phase, width: nat, address: nat, lsize: nat) {
    && 13 <= ph.k <= width && address % Pow2(ph.k) == 0
    && (if ph.Aligning? then ph.k >= 15 else lsize <= Pow2(ph.k))
  }

  /** A bound on the turns still to come: an aligning turn wins three bits of alignment, a closing
      one loses two bits of length. */
  function TurnsLeft(ph: Phase, width: nat, lsize: nat): nat
    requires 13 <= ph.k <= width
  {
    if lsize == 0 then 0
    else if ph.Closing? then (ph.k - 13) / 2
    else (width - ph.k) / 3 + 1 + (width - 13) / 2
  }

  /** Regions enough for any request in units of 32 KiB in an address space of 2^width bytes: for 32
      bits those that a controller of 16 has behind region 0. */
  function Enough(width: nat): (r: nat)
    requires width >= 16
    ensures width <= 32 ==> r <= 15
  {
    (width - 15) / 3 + 1 + (width - 13) / 2
  }

  lemma {:induction false} PowGrows(i: nat, j: nat)
    requires i <= j
    ensures Pow2(i) <= Pow2(j) && (i < j ==> 2 * Pow2(i) <= Pow2(j))
    decreases j
  {
    if i < j {
      PowGrows(i, j - 1);
    }
  }

  lemma {:induction false} PowDivides(i: nat, j: nat, a: nat)
    requires i <= j && a % Pow2(j) == 0
    ensures a % Pow2(i) == 0
    decreases j
  {
    if i < j {
      var h := Pow2(j - 1);
      var q := a / Pow2(j);
      assert a == (2 * q) * h;
      DivisionUnique(a, h, 2 * q, 0);
      PowDivides(i, j - 1, a);
    }
  }

  lemma NextMultiple(a: nat, m: nat)
    requires m > 0
    ensures (RoundDown(a, m) + m) % m == 0 && RoundDown(a, m) <= a < RoundDown(a, m) + m
  {
    assert a == (a / m) * m + a % m;
    assert RoundDown(a, m) + m == (a / m + 1) * m;
    DivisionUnique(RoundDown(a, m) + m, m, a / m + 1, 0);
  }

  /** The turn with the largest size that fits, e an eighth of it. */
  ghost predicate LargestFit(width: nat, pow: nat, address: nat, lsize: nat, address1: nat, lsize1: nat) {
    && 16 <= pow <= width && lsize > 0 && address + lsize == address1 + lsize1 <= Pow2(width)
    && Fits(pow, address, lsize) && Took(Pow2(pow), address, address1, lsize1)
    && (pow < width ==> !Fits(pow + 1, address, lsize))
  }

  /** More than two eighths are left when a size fits. */
  lemma MoreThanTwo(pow: nat, e: nat, address: nat, lsize: nat)
    requires pow >= 16 && lsize > 0 && Fits(pow, address, lsize) && Pow2(pow) == 8 * e && e > 0
    ensures lsize > 2 * e
  {
    if FitsWhole(Pow2(pow), address, lsize) {
      MultiplesApart(address, address + lsize, Pow2(pow));
    }
  }

  /** At most four, if the address is a multiple of two of them and a larger size was tried. */
  lemma AtMostFour(width: nat, pow: nat, e: nat, address: nat, lsize: nat, address1: nat, lsize1: nat)
    requires LargestFit(width, pow, address, lsize, address1, lsize1) && pow < width && e == Pow2(pow - 3)
    requires address % Pow2(pow - 2) == 0
    ensures lsize <= 4 * e
  {
    Eighth(pow + 1);
    assert Pow2(pow - 2) == 2 * e;
  }

  /** A turn that ends a block of the largest size has reached the end. */
  lemma LastBlock(width: nat, address: nat, lsize: nat, address1: nat, lsize1: nat)
    requires LargestFit(width, width, address, lsize, address1, lsize1)
    requires address1 == RoundDown(address, Pow2(width)) + Pow2(width)
    ensures lsize1 == 0
  {
  }

  /** A turn while the request is longer than the address is aligned. */
  lemma AligningTurn(width: nat, k: nat, pow: nat, address: nat, lsize: nat, address1: nat, lsize1: nat)
    returns (ph: Phase)
    requires LargestFit(width, pow, address, lsize, address1, lsize1) && InPhase(Aligning(k), width, address, lsize)
    ensures InPhase(ph, width, address1, lsize1)
    ensures TurnsLeft(ph, width, lsize1) < TurnsLeft(Aligning(k), width, lsize)
  {
    Eighth(pow);
    NextMultiple(address, Pow2(pow));
    var e := Pow2(pow - 3);
    if lsize1 < e {
      ph := Closing(pow - 3);
    } else if pow == width {
      LastBlock(width, address, lsize, address1, lsize1);
      ph := Closing(pow);
    } else if pow >= k + 3 {
      ph := Aligning(pow);
    } else {
      PowDivides(pow - 2, k, address);
      AtMostFour(width, pow, e, address, lsize, address1, lsize1);
      ph := Closing(pow);
    }
  }

  /** A turn after that. */
  lemma ClosingTurn(width: nat, k: nat, pow: nat, address: nat, lsize: nat, address1: nat, lsize1: nat)
    requires LargestFit(width, pow, address, lsize, address1, lsize1) && InPhase(Closing(k), width, address, lsize)
    ensures lsize1 < Pow2(pow - 3) && pow - 3 + 2 <= k
  {
    var e := Pow2(pow - 3);
    Eighth(pow);
    NextMultiple(address, Pow2(pow));
    MoreThanTwo(pow, e, address, lsize);
    assert Pow2(pow - 2) == 2 * e;
    if k < pow - 1 {
      PowGrows(k, pow - 2);
    }
    if address1 == RoundDown(address, Pow2(pow)) + Pow2(pow) {
      if pow == width {
        LastBlock(width, address, lsize, address1, lsize1);
      } else {
        PowDivides(pow - 1, k, address);
        PowDivides(pow - 2, pow - 1, address);
        AtMostFour(width, pow, e, address, lsize, address1, lsize1);
        PowDivides(pow - 1, pow, address1);
        assert Pow2(pow - 1) == 2 * Pow2(pow - 2) == 4 * e;
        MultiplesApart(address, address1, 4 * e);
      }
    }
  }

  lemma FirstPhase(addr: nat)
    ensures InUnits(addr) ==> addr % Pow2(15) == 0
  {
    assert Pow2(5) == 32;
    assert Pow2(10) == 1024;
  }

  /** Either way fewer turns are left. */
  lemma NextPhase(width: nat, ph: Phase, pow: nat, address: nat, lsize: nat, address1: nat, lsize1: nat)
    returns (ph1: Phase)
    requires LargestFit(width, pow, address, lsize, address1, lsize1) && InPhase(ph, width, address, lsize)
    ensures InPhase(ph1, width, address1, lsize1)
    ensures TurnsLeft(ph1, width, lsize1) < TurnsLeft(ph, width, lsize)
  {
    match ph
    case Aligning(k) => ph1 := AligningTurn(width, k, pow, address, lsize, address1, lsize1);
    case Closing(k) =>
      ClosingTurn(width, k, pow, address, lsize, address1, lsize1);
      Eighth(pow);
      ph1 := Closing(pow - 3);
  }

  /** A request in units of 32 KiB for a controller that can place one. */
  predicate Regular(width: nat, addr: nat, size: nat) {
    InUnits(addr) && InUnits(size) && width >= 16
  }

  /** After used turns the loop has reached address: each took a unit, and no more turns than the
      width calls for are used or left. */
  ghost predicate Paced(width: nat, addr: nat, size: nat, address: nat, used: nat, ph: Phase) {
    addr <= address <= addr + size && (Regular(width, addr, size) ==>
      && InUnits(address) && used <= (address - addr) / UNIT
      && (addr + size <= Pow2(width) ==>
            && InPhase(ph, width, address, addr + size - address)
            && used + TurnsLeft(ph, width, addr + size - address) <= Enough(width)))
  }

  lemma PacedFirst(width: nat, addr: nat, size: nat)
    ensures Paced(width, addr, size, addr, 0, Aligning(15))
  {
    FirstPhase(addr);
  }

  lemma PacedOn(width: nat, addr: nat, size: nat, address: nat, lsize: nat, used: nat, ph: Phase, pow: nat,
                address1: nat, lsize1: nat)
    returns (ph1: Phase)
    requires Paced(width, addr, size, address, used, ph) && address < address1 && 16 <= pow <= width
    requires address + lsize == address1 + lsize1 == addr + size
    requires Fits(pow, address, lsize) && NoneLarger(width, pow, address, lsize)
    requires Took(Pow2(pow), address, address1, lsize1)
    requires Regular(width, addr, size) ==> InUnits(address1)
    ensures Paced(width, addr, size, address1, used + 1, ph1)
  {
    ph1 := ph;
    if Regular(width, addr, size) {
      OneUnitMore(addr, address, address1);
      if addr + size <= Pow2(width) {
        ph1 := NextPhase(width, ph, pow, address, lsize, address1, lsize1);
      }
    }
  }

  lemma PacedBound(width: nat, addr: nat, size: nat, address: nat, used: nat, ph: Phase)
    requires Paced(width, addr, size, address, used, ph) && Regular(width, addr, size)
    ensures used <= size / UNIT && (addr + size <= Pow2(width) ==> used <= Enough(width))
  {
  }

  /** The regions below the first one are as they were. */
  ghost predicate Below(was: map<nat, Region>, regs: map<nat, Region>, region: nat) {
    forall k :: k < region && k in was ==> k in regs && regs[k] == was[k]
  }

  // ---- The controller ----

  class Tzc {
    const addrWidth: nat
    const numRegions: nat
    var regs: map<nat, Region>

    ghost predicate Valid()
      reads this
    {
      0 in regs
    }

    constructor (addrWidth: nat, numRegions: nat, regs: map<nat, Region>)
      requires 0 in regs
      ensures Valid() && this.addrWidth == addrWidth && this.numRegions == numRegions && this.regs == regs
    {
      this.addrWidth, this.numRegions, this.regs := addrWidth, numRegions, regs;
    }

    /** tzc_configure_region: of region 0 only the permissions can be written. */
    method Configure(region: nat, g: Region) returns (ok: bool)
      requires Valid()
      modifies this
      ensures Valid() && ok == (region < numRegions)
      ensures regs == if !ok then old(regs)
                      else old(regs)[region := if region == 0 then old(regs)[0].(sp := g.sp) else g]
    {
      ok := region < numRegions;
      if ok {
        regs := regs[region := if region == 0 then regs[0].(sp := g.sp) else g];
      }
    }

    /** One turn of the loop: a region placed and configured, if one of this size fits. */
    method Advance(pow: nat, lregion: nat, address: nat, lsize: nat, sp: nat, ghost region: nat, ghost ends: seq<nat>)
      returns (p: Placement, ok: bool)
      requires Valid() && pow >= 16 && lsize > 0
      requires ends != [] && ends[|ends| - 1] == address && lregion == region + |ends| - 1
      requires region > 0 ==> Chain(regs, region, ends, sp)
      modifies this
      ensures Valid() && forall k :: k != lregion && k in old(regs) ==> k in regs && regs[k] == old(regs)[k]
      ensures p.NoFit? || !ok ==> regs == old(regs)
      ensures p.Fit? <==> Fits(pow, address, lsize)
      ensures p.Fit? ==> Took(Pow2(pow), address, p.address, p.lsize)
      ensures p.Fit? ==> ok == (lregion < numRegions) && address < p.address && p.address + p.lsize == address + lsize
      ensures p.Fit? && ok && region > 0 ==> Chain(regs, region, ends + [p.address], sp)
      ensures InUnits(address) && InUnits(address + lsize) ==> (pow == 16 ==> p.Fit?) && (p.Fit? ==> InUnits(p.address))
    {
      p := Place(pow, address, lsize, sp);
      ok := true;
      if p.Fit? {
        if region > 0 {
          ChainOn(regs, region, ends, sp, p.g, p.address);
        }
        ok := Configure(lregion, p.g);
      }
    }

    /** The same with the pace of the loop. */
    method Turn(pow: nat, lregion: nat, address: nat, lsize: nat, sp: nat, region: nat,
                ghost addr: nat, ghost size: nat, ghost ends: seq<nat>, ghost ph: Phase)
      returns (p: Placement, ok: bool, ghost ph1: Phase)
      requires Valid() && 16 <= pow <= addrWidth && lsize > 0 && address + lsize == addr + size
      requires ends != [] && ends[|ends| - 1] == address && lregion == region + |ends| - 1
      requires region > 0 ==> Chain(regs, region, ends, sp)
      requires NoneLarger(addrWidth, pow, address, lsize) && Paced(addrWidth, addr, size, address, |ends| - 1, ph)
      modifies this
      ensures Valid() && Below(old(regs), regs, region)
      ensures p.NoFit? || !ok ==> regs == old(regs)
      ensures p.NoFit? ==> ph1 == ph && NoneLarger(addrWidth, pow - 1, address, lsize)
      ensures p.NoFit? && Regular(addrWidth, addr, size) ==> pow > 16
      ensures p.Fit? ==> ok == (lregion < numRegions) && address < p.address && p.address + p.lsize == address + lsize
      ensures p.Fit? && ok && region > 0 ==> Chain(regs, region, ends + [p.address], sp)
      ensures p.Fit? ==> Paced(addrWidth, addr, size, p.address, |ends|, ph1)
    {
      p, ok := Advance(pow, lregion, address, lsize, sp, region, ends);
      UnitsAdd(addr, size);
      ph1 := ph;
      if p.Fit? {
        ph1 := PacedOn(addrWidth, addr, size, address, lsize, |ends| - 1, ph, pow, p.address, p.lsize);
      }
    }

    /** tzc_auto_configure. */
    method AutoConfigure(addr: nat, size: nat, sp: nat, region: nat) returns (r: Outcome, ghost ends: seq<nat>)
      requires Valid() && addrWidth <= 63 && addr + size < Pow2(64)
      modifies this
      ensures Valid() && Below(old(regs), regs, region)
      // so far the regions cover what they were asked for
      ensures ends != [] && ends[0] == addr && (region > 0 ==> Chain(regs, region, ends, sp))
      // whatever it was asked for, a normal exit has covered exactly that
      ensures r.Done? ==> r.next == region + |ends| - 1 && ends[|ends| - 1] == addr + size
      ensures r.Done? && size > 0 ==> region < r.next <= numRegions
      // it gives up only when every region from the first one on has been used
      ensures r.OutOfRegions? ==> numRegions <= region + |ends| - 1 && ends[|ends| - 1] < addr + size
      // it stops short only when what is left fits no region size
      ensures r.Uncovered? ==>
        ends[|ends| - 1] < addr + size && Stuck(addrWidth, ends[|ends| - 1], addr + size - ends[|ends| - 1])
      // a request in units of 32 KiB fails only for want of regions: with one for every unit it
      // succeeds, and with as many as the address width calls for
      ensures Regular(addrWidth, addr, size) ==> !r.Uncovered?
      ensures Regular(addrWidth, addr, size) && region + size / UNIT <= numRegions ==> r.Done?
      ensures Regular(addrWidth, addr, size) && addr + size <= Pow2(addrWidth) ==>
                (region + Enough(addrWidth) <= numRegions ==> r.Done?)
    {
      var lregion, address: nat, lsize: nat, pow: nat := region, addr, size, addrWidth;
      ghost var units := Regular(addrWidth, addr, size);
      ghost var ph := Aligning(15);
      PacedFirst(addrWidth, addr, size);
      ends := [addr];
      while lsize != 0 && pow > 15
        invariant Valid() && pow <= addrWidth && address + lsize == addr + size && lregion == region + |ends| - 1
        invariant lsize < size ==> region < lregion <= numRegions
        invariant Below(old(regs), regs, region)
        invariant ends != [] && ends[0] == addr && ends[|ends| - 1] == address
        invariant region > 0 ==> Chain(regs, region, ends, sp)
        invariant NoneLarger(addrWidth, pow, address, lsize) && (units ==> pow > 15)
        invariant Paced(addrWidth, addr, size, address, |ends| - 1, ph)
        decreases lsize, pow
      {
        var p, ok;
        p, ok, ph := Turn(pow, lregion, address, lsize, sp, region, addr, size, ends, ph);
        if p.NoFit? {
          pow := pow - 1;
        } else if !ok {
          if units {
            PacedBound(addrWidth, addr, size, p.address, |ends|, ph);
          }
          return OutOfRegions, ends;
        } else {
          ends := ends + [p.address];
          lregion, address, lsize, pow := lregion + 1, p.address, p.lsize, addrWidth;
        }
      }
      if lsize == 0 {
        return Done(lregion), ends;
      }
      StuckAt(addrWidth, pow, address, lsize);
      return Uncovered, ends;
    }
  }
}
