/** Merging and page-aligning the load segments of a TA, adjust_segments in ldelf/ta_elf.c. */
module ElfSegments {
  import opened Common

  const PAGE: nat := 4096

  /** Program header flags (ELF gABI, chapter 5). */
  datatype Flag = Execute | Write | Read

  /** struct segment. */
  datatype Segment = Segment(offset: nat, vaddr: nat, filesz: nat, memsz: nat, flags: set<Flag>, align: nat,
                             remapped: bool)

  function Down(v: nat): (r: nat)
    ensures r <= v < r + PAGE && r % PAGE == 0
  {
    v - v % PAGE
  }

  function Up(v: nat): nat {
    Down(v + PAGE - 1)
  }

  function End(s: Segment): nat {
    s.vaddr + s.memsz
  }

  /** Bitwise and. */
  function BitAnd(a: nat, b: nat): nat {
    if a == 0 || b == 0 then 0 else (a % 2) * (b % 2) + 2 * BitAnd(a / 2, b / 2)
  }

  /** Bit i of a number. */
  function Bit(n: nat, i: nat): nat {
    if i == 0 then n % 2 else Bit(n / 2, i - 1)
  }

  lemma {:induction false} ZeroBit(i: nat)
    ensures Bit(0, i) == 0
  {
    if i > 0 {
      ZeroBit(i - 1);
    }
  }

  /** A bit of the result is set exactly when it is set in both. */
  lemma {:induction false} AndBits(a: nat, b: nat, i: nat)
    ensures Bit(BitAnd(a, b), i) == 1 <==> Bit(a, i) == 1 && Bit(b, i) == 1
    decreases i
  {
    if a == 0 || b == 0 {
      ZeroBit(i);
    } else if i > 0 {
      AndBits(a / 2, b / 2, i - 1);
    }
  }

  /** The distance between a segment's place in memory and in the file. */
  function Displacement(s: Segment): int {
    s.vaddr - s.offset
  }

  // ---- The sanity check ----

  /** One segment and the one before it; range is that of size_t, in which sums wrap. */
  predicate SaneNext(segs: seq<Segment>, i: nat, range: nat)
    requires i < |segs|
  {
    var s := segs[i];
    && s.align >= PAGE && s.align == segs[0].align && s.vaddr + s.memsz < range && s.filesz <= s.memsz
    && s.offset % PAGE == s.vaddr % PAGE
    && (i > 0 ==>
          var p := segs[i - 1];
          s.vaddr >= p.vaddr + p.memsz && s.offset >= WrapOnce(p.offset + p.filesz, range))
  }

  function WrapOnce(n: nat, range: nat): nat {
    if n >= range then n - range else n
  }

  predicate Sane(segs: seq<Segment>, range: nat) {
    forall i :: 0 <= i < |segs| ==> SaneNext(segs, i, range)
  }

  /** As add_segment leaves them. */
  predicate Added(segs: seq<Segment>) {
    forall i :: 0 <= i < |segs| ==> !segs[i].remapped
  }

  // ---- The loop as a function ----

  /** Case 1: the segment shares a page with the previous one and joins it. */
  function Merge(p: Segment, s: Segment): Segment
    requires s.vaddr >= p.vaddr
  {
    p.(filesz := s.vaddr + s.filesz - p.vaddr, memsz := s.vaddr + s.memsz - p.vaddr, flags := p.flags + s.flags)
  }

  /** Case 2: it shares only a page of the file. */
  predicate SharesFilePage(p: Segment, s: Segment, mask: nat, range: nat) {
    BitAnd(s.offset, mask) != 0 && Down(s.offset) < WrapOnce(p.offset + p.filesz, range)
  }

  /** The segment extended down to its page. */
  function Aligned(p: Segment, s: Segment, mask: nat, range: nat): Segment {
    var d := s.vaddr - Down(s.vaddr);
    s.(filesz := s.filesz + d, memsz := s.memsz + d, vaddr := Down(s.vaddr), offset := Down(s.offset),
       remapped := s.remapped || SharesFilePage(p, s, mask, range))
  }

  /** Addresses rise from the last segment before the cursor on. */
  predicate Rising(done: seq<Segment>, rest: seq<Segment>) {
    && done != [] && (rest != [] ==> done[|done| - 1].vaddr <= rest[0].vaddr)
    && forall i :: 0 <= i < |rest| - 1 ==> rest[i].vaddr <= rest[i + 1].vaddr
  }

  /** What becomes of the list: done are the segments up to the cursor, rest those after it;
      None when an assert fails. */
  function Adjust(done: seq<Segment>, rest: seq<Segment>, mask: nat, range: nat): Option<seq<Segment>>
    requires Rising(done, rest)
    decreases |rest|
  {
    if rest == [] then Some(done)
    else
      var p, s := done[|done| - 1], rest[0];
      if Down(s.vaddr) < End(p) then
        if BitAnd(s.vaddr, mask) == BitAnd(s.offset, mask) && p.memsz == p.filesz
        then Adjust(done[|done| - 1 := Merge(p, s)], rest[1..], mask, range)
        else None
      else if SharesFilePage(p, s, mask, range) && Write !in s.flags then None
      else Adjust(done + [Aligned(p, s, mask, range)], rest[1..], mask, range)
  }

  // ---- Which survivor an original segment is in ----

  /** Segment j begins on a page that the one before it reaches. */
  predicate Touches(orig: seq<Segment>, j: nat)
    requires 0 < j < |orig|
  {
    Down(orig[j].vaddr) < End(orig[j - 1])
  }

  /** The number of the survivor that holds segment j. */
  function Owner(orig: seq<Segment>, j: nat): nat
    requires j < |orig|
  {
    if j == 0 then 0 else Owner(orig, j - 1) + if Touches(orig, j) then 0 else 1
  }

  /** The first segment of the run that j was merged into. */
  function Head(orig: seq<Segment>, j: nat): (r: nat)
    requires j < |orig|
    ensures r <= j
  {
    if j == 0 || !Touches(orig, j) then j else Head(orig, j - 1)
  }

  // ---- Correctness ----

  /** Segment o lies in survivor d, in memory and in the file, with its permissions. */
  predicate Inside(o: Segment, d: Segment) {
    && d.vaddr <= o.vaddr && End(o) <= End(d) && o.vaddr + o.filesz <= d.vaddr + d.filesz
    && o.flags <= d.flags
  }

  /** The permissions of those among the first k segments that survivor i holds. */
  ghost function FlagsOf(orig: seq<Segment>, i: nat, k: nat): set<Flag>
    requires k <= |orig|
  {
    if k == 0 then {} else FlagsOf(orig, i, k - 1) + if Owner(orig, k - 1) == i then orig[k - 1].flags else {}
  }

  lemma {:induction false} NoFlags(orig: seq<Segment>, i: nat, k: nat)
    requires k <= |orig| && forall j :: 0 <= j < k ==> Owner(orig, j) < i
    ensures FlagsOf(orig, i, k) == {}
    decreases k
  {
    if k > 0 {
      NoFlags(orig, i, k - 1);
    }
  }

  /** Where segment j went. */
  ghost predicate Kept(orig: seq<Segment>, j: nat, done: seq<Segment>)
    requires j < |orig|
  {
    && Owner(orig, j) < |done| && Inside(orig[j], done[Owner(orig, j)])
    && Displacement(done[Owner(orig, j)]) == Displacement(orig[Head(orig, j)])
  }

  /** Survivor i begins on a page of its own; a page of the file mapped twice is writeable. */
  ghost predicate Separate(done: seq<Segment>, i: nat)
    requires i < |done|
  {
    && done[i].filesz <= done[i].memsz && (done[i].remapped ==> Write in done[i].flags)
    && (i > 0 ==> done[i].vaddr % PAGE == 0 && Up(End(done[i - 1])) <= done[i].vaddr)
  }

  /** The first k segments are placed in done. */
  ghost predicate Sound(orig: seq<Segment>, k: nat, done: seq<Segment>)
    requires 0 < k <= |orig|
  {
    && |done| == Owner(orig, k - 1) + 1 && End(done[|done| - 1]) == End(orig[k - 1])
    && (forall j :: 0 <= j < k ==> Kept(orig, j, done))
    && (forall i :: 0 <= i < |done| ==> Separate(done, i) && done[i].flags == FlagsOf(orig, i, k))
  }

  lemma DownIs(v: nat)
    requires v % PAGE == 0
    ensures Down(v) == v
  {
  }

  lemma UpAbove(e: nat)
    ensures e <= Up(e)
  {
  }

  lemma PageAfter(e: nat, v: nat)
    requires e <= v && v % PAGE == 0
    ensures Up(e) <= v
  {
  }

  lemma MergeSound(orig: seq<Segment>, k: nat, done: seq<Segment>, range: nat, m: Segment)
    requires 0 < k < |orig| && Sane(orig, range) && Sound(orig, k, done) && Touches(orig, k)
    requires var p := done[|done| - 1]; p.memsz == p.filesz && p.vaddr <= orig[k].vaddr && m == Merge(p, orig[k])
    ensures Sound(orig, k + 1, done[|done| - 1 := m])
  {
    var r := done[|done| - 1 := m];
    assert SaneNext(orig, k, range);
    forall j | 0 <= j < k + 1 ensures Kept(orig, j, r) {
      assert Kept(orig, if j < k then j else k - 1, done);
    }
    forall i | 0 <= i < |r| ensures Separate(r, i) && r[i].flags == FlagsOf(orig, i, k + 1) {
      assert Separate(done, i) && done[i].flags == FlagsOf(orig, i, k);
    }
  }

  lemma AlignSound(orig: seq<Segment>, k: nat, done: seq<Segment>, range: nat, a: Segment, mask: nat)
    requires 0 < k < |orig| && Sane(orig, range) && Sound(orig, k, done) && !Touches(orig, k)
    requires a == Aligned(done[|done| - 1], orig[k], mask, range) && (a.remapped ==> Write in a.flags)
    ensures Sound(orig, k + 1, done + [a])
  {
    var r := done + [a];
    assert SaneNext(orig, k, range);
    PageAfter(End(done[|done| - 1]), a.vaddr);
    forall j | 0 <= j < k ensures Owner(orig, j) < |done| {
      assert Kept(orig, j, done);
    }
    forall j | 0 <= j < k + 1 ensures Kept(orig, j, r) {
      if j < k {
        assert Kept(orig, j, done);
      }
    }
    NoFlags(orig, |done|, k);
    forall i | 0 <= i < |r| ensures Separate(r, i) && r[i].flags == FlagsOf(orig, i, k + 1) {
      if i < |done| {
        assert Separate(done, i);
      }
    }
  }

  lemma {:induction false} AdjustSound(orig: seq<Segment>, k: nat, done: seq<Segment>, mask: nat, range: nat,
                                       r: seq<Segment>)
    requires 0 < k <= |orig| && Sane(orig, range) && Added(orig) && Sound(orig, k, done)
    requires Rising(done, orig[k..]) && Adjust(done, orig[k..], mask, range) == Some(r)
    ensures Sound(orig, |orig|, r)
    decreases |orig| - k
  {
    if k < |orig| {
      var p, s := done[|done| - 1], orig[k];
      assert orig[k..][1..] == orig[k + 1..];
      if Touches(orig, k) {
        MergeSound(orig, k, done, range, Merge(p, s));
        AdjustSound(orig, k + 1, done[|done| - 1 := Merge(p, s)], mask, range, r);
      } else {
        AlignSound(orig, k, done, range, Aligned(p, s, mask, range), mask);
        AdjustSound(orig, k + 1, done + [Aligned(p, s, mask, range)], mask, range, r);
      }
    }
  }

  /** The sanity check leaves the addresses rising, so that no size of a merge wraps. */
  lemma SaneRises(segs: seq<Segment>, range: nat)
    requires segs != [] && Sane(segs, range)
    ensures segs[0].align > 0 && Rising([segs[0]], segs[1..])
  {
    assert SaneNext(segs, 0, range);
    forall i | 0 <= i < |segs| - 1 ensures segs[i].vaddr <= segs[i + 1].vaddr {
      assert SaneNext(segs, i + 1, range);
    }
  }

  // ---- Pages of the file that are mapped twice ----

  /** The survivor that begins with segment j is marked as remapped exactly when the segment does not
      begin aligned and the page of the file it begins in also lies in the file range of the
      survivor before. */
  ghost predicate RemapAt(orig: seq<Segment>, j: nat, done: seq<Segment>, mask: nat, range: nat)
    requires j < |orig|
  {
    var i := Owner(orig, j);
    Head(orig, j) == j && i < |done| ==>
      (done[i].remapped <==>
         i > 0 && BitAnd(orig[j].offset, mask) != 0
         && done[i].offset < WrapOnce(done[i - 1].offset + done[i - 1].filesz, range))
  }

  ghost predicate Remaps(orig: seq<Segment>, k: nat, done: seq<Segment>, mask: nat, range: nat)
    requires k <= |orig|
  {
    forall j :: 0 <= j < k ==> RemapAt(orig, j, done, mask, range)
  }

  lemma {:induction false} OwnerGrows(orig: seq<Segment>, i: nat, j: nat)
    requires i <= j < |orig|
    ensures Owner(orig, i) <= Owner(orig, j) && (i < j && Head(orig, j) == j ==> Owner(orig, i) < Owner(orig, j))
    decreases j
  {
    if i < j {
      OwnerGrows(orig, i, j - 1);
    }
  }

  /** A segment between which and the survivor before nothing else changes. */
  lemma RemapStays(orig: seq<Segment>, j: nat, done: seq<Segment>, r: seq<Segment>, mask: nat, range: nat)
    requires j < |orig| && RemapAt(orig, j, done, mask, range) && Owner(orig, j) < |done| <= |r|
    requires var i := Owner(orig, j);
             && r[i].remapped == done[i].remapped && r[i].offset == done[i].offset
             && (i > 0 ==> r[i - 1] == done[i - 1])
    ensures RemapAt(orig, j, r, mask, range)
  {
  }

  lemma MergeRemaps(orig: seq<Segment>, k: nat, done: seq<Segment>, mask: nat, range: nat, m: Segment)
    requires 0 < k < |orig| && |done| == Owner(orig, k - 1) + 1 && Touches(orig, k)
    requires Remaps(orig, k, done, mask, range)
    requires m.remapped == done[|done| - 1].remapped && m.offset == done[|done| - 1].offset
    ensures Remaps(orig, k + 1, done[|done| - 1 := m], mask, range)
  {
    var r := done[|done| - 1 := m];
    forall j | 0 <= j < k + 1 ensures RemapAt(orig, j, r, mask, range) {
      if j < k {
        OwnerGrows(orig, j, k - 1);
        RemapStays(orig, j, done, r, mask, range);
      }
    }
  }

  lemma AlignedRemap(p: Segment, s: Segment, a: Segment, mask: nat, range: nat)
    requires !s.remapped && a == Aligned(p, s, mask, range)
    ensures a.remapped <==> BitAnd(s.offset, mask) != 0 && a.offset < WrapOnce(p.offset + p.filesz, range)
  {
  }

  lemma AlignRemaps(orig: seq<Segment>, k: nat, done: seq<Segment>, mask: nat, range: nat, a: Segment)
    requires 0 < k < |orig| && |done| == Owner(orig, k - 1) + 1 && !Touches(orig, k)
    requires Remaps(orig, k, done, mask, range)
    requires var p := done[|done| - 1];
             a.remapped <==> BitAnd(orig[k].offset, mask) != 0 && a.offset < WrapOnce(p.offset + p.filesz, range)
    ensures Remaps(orig, k + 1, done + [a], mask, range)
  {
    var r := done + [a];
    forall j | 0 <= j < k + 1 ensures RemapAt(orig, j, r, mask, range) {
      if j < k {
        OwnerGrows(orig, j, k - 1);
        RemapStays(orig, j, done, r, mask, range);
      }
    }
  }

  lemma {:induction false} AdjustRemaps(orig: seq<Segment>, k: nat, done: seq<Segment>, mask: nat, range: nat,
                                        r: seq<Segment>)
    requires 0 < k <= |orig| && Added(orig) && |done| == Owner(orig, k - 1) + 1
    requires End(done[|done| - 1]) == End(orig[k - 1]) && Remaps(orig, k, done, mask, range)
    requires Rising(done, orig[k..]) && Adjust(done, orig[k..], mask, range) == Some(r)
    ensures Remaps(orig, |orig|, r, mask, range)
    decreases |orig| - k
  {
    if k < |orig| {
      var p, s := done[|done| - 1], orig[k];
      assert orig[k..][1..] == orig[k + 1..];
      if Touches(orig, k) {
        MergeRemaps(orig, k, done, mask, range, Merge(p, s));
        AdjustRemaps(orig, k + 1, done[|done| - 1 := Merge(p, s)], mask, range, r);
      } else {
        AlignedRemap(p, s, Aligned(p, s, mask, range), mask, range);
        AlignRemaps(orig, k, done, mask, range, Aligned(p, s, mask, range));
        AdjustRemaps(orig, k + 1, done + [Aligned(p, s, mask, range)], mask, range, r);
      }
    }
  }

  /** adjust_segments on a whole list. */
  function AdjustAll(segs: seq<Segment>, range: nat): Option<seq<Segment>> {
    if !Sane(segs, range) then None
    else if segs == [] then Some([])
    else
      SaneRises(segs, range);
      Adjust([segs[0]], segs[1..], segs[0].align - 1, range)
  }

  /** Every list that passes the asserts becomes a sorted list of page-disjoint survivors, and
      every segment lies in one of them. */
  lemma SurvivorsSound(segs: seq<Segment>, range: nat, r: seq<Segment>)
    requires segs != [] && Added(segs) && AdjustAll(segs, range) == Some(r)
    ensures Sound(segs, |segs|, r)
  {
    assert SaneNext(segs, 0, range);
    SaneRises(segs, range);
    assert FlagsOf(segs, 0, 0) == {} && Kept(segs, 0, [segs[0]]);
    AdjustSound(segs, 1, [segs[0]], segs[0].align - 1, range, r);
  }

  lemma SurvivorsRemap(segs: seq<Segment>, range: nat, r: seq<Segment>)
    requires segs != [] && Added(segs) && AdjustAll(segs, range) == Some(r)
    ensures Sane(segs, range) && segs[0].align > 0 && Remaps(segs, |segs|, r, segs[0].align - 1, range)
  {
    SaneRises(segs, range);
    assert RemapAt(segs, 0, [segs[0]], segs[0].align - 1, range);
    AdjustRemaps(segs, 1, [segs[0]], segs[0].align - 1, range, r);
  }

  /** Survivors' page ranges do not meet. */
  lemma {:induction false} PagesDisjoint(orig: seq<Segment>, done: seq<Segment>, i: nat, j: nat)
    requires orig != [] && Sound(orig, |orig|, done) && i < j < |done|
    ensures Up(End(done[i])) <= Down(done[j].vaddr)
    decreases j
  {
    assert Separate(done, j);
    DownIs(done[j].vaddr);
    if i < j - 1 {
      PagesDisjoint(orig, done, i, j - 1);
      UpAbove(End(done[j - 1]));
    }
  }

  // ---- What the merged segments map ----

  /** The place in the file that a segment maps at address x. */
  function FileOffset(s: Segment, x: int): int {
    s.offset + (x - s.vaddr)
  }

  /** Every file byte of o appears in d at the address that o gives it. */
  ghost predicate MapsAs(o: Segment, d: Segment) {
    forall x :: o.vaddr <= x < o.vaddr + o.filesz ==> FileOffset(d, x) == FileOffset(o, x)
  }

  /** Merging looks at the low bits of the displacements only: the bytes of a segment that was
      merged are those of the file exactly when its displacement is that of the first segment
      of its run. */
  lemma MappedRightIff(segs: seq<Segment>, range: nat, r: seq<Segment>, j: nat)
    requires j < |segs| && Added(segs) && AdjustAll(segs, range) == Some(r)
    ensures Owner(segs, j) < |r| && Inside(segs[j], r[Owner(segs, j)])
    ensures MapsAs(segs[j], r[Owner(segs, j)]) <==>
            segs[j].filesz == 0 || Displacement(segs[j]) == Displacement(segs[Head(segs, j)])
  {
    SurvivorsSound(segs, range, r);
    assert Kept(segs, j, r);
    var o, d := segs[j], r[Owner(segs, j)];
    if MapsAs(o, d) && o.filesz > 0 {
      assert FileOffset(d, o.vaddr) == FileOffset(o, o.vaddr);
    }
  }

  /** Two page-aligned segments on one page always merge, wherever they are in the file. */
  lemma PairMerges(a: Segment, b: Segment, range: nat)
    requires Sane([a, b], range) && a.align == PAGE && a.memsz == a.filesz && Down(b.vaddr) < End(a) <= b.vaddr
    ensures AdjustAll([a, b], range) == Some([Merge(a, b)])
  {
    var m, mask := Merge(a, b), PAGE - 1;
    assert SaneNext([a, b], 1, range);
    AndPage(b.vaddr, b.vaddr % PAGE, b.vaddr / PAGE);
    AndPage(b.offset, b.offset % PAGE, b.offset / PAGE);
    assert [a, b][1..] == [b] && [b][1..] == [] && [a][0 := m] == [m];
    SaneRises([a, b], range);
    assert Adjust([m], [], mask, range) == Some([m]);
    assert Adjust([a], [b], mask, range) == Some([m]);
  }

  /** A pair of that kind that lies apart in the file. */
  lemma ShiftedPair() returns (a: Segment, b: Segment)
    ensures Sane([a, b], 0x1_0000_0000) && a.align == PAGE && a.memsz == a.filesz && Down(b.vaddr) < End(a) <= b.vaddr
    ensures b.filesz > 0 && Displacement(a) != Displacement(b)
  {
    a := Segment(0, 0, 0x1800, 0x1800, {Read, Execute}, PAGE, false);
    b := Segment(0x2900, 0x1900, 0x100, 0x100, {Read, Write}, PAGE, false);
    assert SaneNext([a, b], 0, 0x1_0000_0000) && SaneNext([a, b], 1, 0x1_0000_0000);
  }

  /** So a list can pass every assert although bytes of its second segment are not mapped. */
  lemma MergeMayShift() returns (a: Segment, b: Segment)
    ensures End(a) <= b.vaddr && AdjustAll([a, b], 0x1_0000_0000) == Some([Merge(a, b)]) && !MapsAs(b, Merge(a, b))
  {
    a, b := ShiftedPair();
    PairMerges(a, b, 0x1_0000_0000);
    assert FileOffset(b, b.vaddr) != FileOffset(Merge(a, b), b.vaddr);
  }

  /** Masking with the page mask leaves the place in the page. */
  lemma AndPage(v: nat, low: nat, page: nat)
    requires v == page * PAGE + low && low < PAGE
    ensures BitAnd(v, PAGE - 1) == low
  {
    AndLow(v, low, page, 12, PAGE);
  }

  lemma {:induction false} AndLow(v: nat, low: nat, high: nat, n: nat, p: nat)
    requires p == Pow2(n) && v == high * p + low && low < p
    ensures BitAnd(v, p - 1) == low
    decreases n
  {
    if n > 0 {
      var h := Pow2(n - 1);
      assert high * p == 2 * (high * h);
      AndLow(v / 2, low / 2, high, n - 1, h);
      assert (p - 1) / 2 == h - 1 && (p - 1) % 2 == 1 && v % 2 == low % 2;
      assert v == 0 ==> low == 0;
    }
  }

  // ---- Program headers ----

  /** Elf32_Phdr and Elf64_Phdr: headers of type PT_LOAD, and others. */
  datatype Header =
    | Load(offset: nat, vaddr: nat, filesz: nat, memsz: nat, flags: set<Flag>, align: nat)
    | Other

  predicate Accepted(h: Header) {
    h.Load? ==> h.filesz <= h.memsz
  }

  /** The segments of the first n headers. */
  function Loads(headers: seq<Header>, n: nat): seq<Segment>
    requires n <= |headers|
  {
    if n == 0 then []
    else
      Loads(headers, n - 1) +
      match headers[n - 1]
      case Load(offset, vaddr, filesz, memsz, flags, align) =>
        [Segment(offset, vaddr, filesz, memsz, flags, align, false)]
      case Other => []
  }

  lemma {:induction false} LoadsAdded(headers: seq<Header>, n: nat)
    requires n <= |headers|
    ensures Added(Loads(headers, n))
    decreases n
  {
    if n > 0 {
      LoadsAdded(headers, n - 1);
    }
  }

  // ---- The list in place ----

  class TaElf {
    var segs: seq<Segment>

    constructor (segs: seq<Segment>)
      ensures this.segs == segs
    {
      this.segs := segs;
    }

    /** add_segment: a header with less memory than file is refused. */
    method AddSegment(offset: nat, vaddr: nat, filesz: nat, memsz: nat, flags: set<Flag>, align: nat) returns (ok: bool)
      modifies this
      ensures ok == (memsz >= filesz)
      ensures segs == if ok then old(segs) + [Segment(offset, vaddr, filesz, memsz, flags, align, false)] else old(segs)
    {
      ok := memsz >= filesz;
      if ok {
        segs := segs + [Segment(offset, vaddr, filesz, memsz, flags, align, false)];
      }
    }

    /** parse_load_segments; false when a header is refused. */
    method ParseLoadSegments(headers: seq<Header>) returns (ok: bool)
      modifies this
      ensures ok <==> forall i :: 0 <= i < |headers| ==> Accepted(headers[i])
      ensures ok ==> segs == old(segs) + Loads(headers, |headers|)
    {
      var n := 0;
      while n < |headers|
        invariant 0 <= n <= |headers| && forall i :: 0 <= i < n ==> Accepted(headers[i])
        invariant segs == old(segs) + Loads(headers, n)
      {
        match headers[n] {
          case Load(offset, vaddr, filesz, memsz, flags, align) =>
            ok := AddSegment(offset, vaddr, filesz, memsz, flags, align);
            if !ok {
              assert !Accepted(headers[n]);
              return;
            }
          case Other =>
        }
        n := n + 1;
      }
      ok := true;
    }

    /** The two calls of the loader: from the program headers to the survivors. */
    method LoadSegments(headers: seq<Header>, range: nat) returns (ok: bool)
      requires segs == []
      modifies this
      ensures ok <==> (forall i :: 0 <= i < |headers| ==> Accepted(headers[i]))
                      && AdjustAll(Loads(headers, |headers|), range).Some?
      ensures var loads := Loads(headers, |headers|);
              ok ==> AdjustAll(loads, range) == Some(segs) && (loads != [] ==> Sound(loads, |loads|, segs))
    {
      ok := ParseLoadSegments(headers);
      if ok {
        assert [] + Loads(headers, |headers|) == Loads(headers, |headers|);
        LoadsAdded(headers, |headers|);
        ok := AdjustSegments(range);
      }
    }

    /** The first loop of adjust_segments. */
    method CheckSane(range: nat) returns (ok: bool)
      ensures ok == Sane(segs, range)
    {
      var i, align := 0, 0;
      while i < |segs|
        invariant 0 <= i <= |segs| && forall j :: 0 <= j < i ==> SaneNext(segs, j, range)
        invariant if i == 0 then align == 0 else align == segs[0].align > 0
      {
        var s := segs[i];
        ok := s.align >= PAGE && s.vaddr + s.memsz < range && s.filesz <= s.memsz && s.offset % PAGE == s.vaddr % PAGE;
        if ok && i > 0 {
          var p := segs[i - 1];
          ok := s.vaddr >= p.vaddr + p.memsz && s.offset >= WrapOnce(p.offset + p.filesz, range);
        }
        if align == 0 {
          align := s.align;
        }
        if !ok || align != s.align {
          assert !SaneNext(segs, i, range);
          return false;
        }
        i := i + 1;
      }
      ok := true;
    }

    /** adjust_segments; false when an assert stops it. */
    method AdjustSegments(range: nat) returns (ok: bool)
      modifies this
      ensures ok <==> AdjustAll(old(segs), range).Some?
      ensures ok ==> AdjustAll(old(segs), range) == Some(segs)
      ensures ok && old(segs) != [] && Added(old(segs)) ==>
          Sound(old(segs), |old(segs)|, segs) && old(segs)[0].align > 0
          && Remaps(old(segs), |old(segs)|, segs, old(segs)[0].align - 1, range)
    {
      ok := AdjustList(range);
      if ok && old(segs) != [] && Added(old(segs)) {
        SurvivorsRemap(old(segs), range, segs);
        SurvivorsSound(old(segs), range, segs);
      }
    }

    method AdjustList(range: nat) returns (ok: bool)
      modifies this
      ensures ok <==> AdjustAll(old(segs), range).Some?
      ensures ok ==> AdjustAll(old(segs), range) == Some(segs)
    {
      ok := CheckSane(range);
      if !ok || segs == [] {
        return;
      }
      SaneRises(segs, range);
      var mask := segs[0].align - 1;
      var i := 1;
      assert segs[..1] == [segs[0]];
      while i < |segs|
        invariant 0 < i <= |segs| && Rising(segs[..i], segs[i..])
        invariant AdjustAll(old(segs), range) == Adjust(segs[..i], segs[i..], mask, range)
        decreases |segs| - i
      {
        var p, s := segs[i - 1], segs[i];
        ghost var done, rest := segs[..i], segs[i..];
        if Down(s.vaddr) < End(p) {
          if BitAnd(s.vaddr, mask) != BitAnd(s.offset, mask) || p.memsz != p.filesz {
            return false;
          }
          segs := segs[..i - 1] + [Merge(p, s)] + segs[i + 1..];
          assert segs[..i] == done[|done| - 1 := Merge(p, s)] && segs[i..] == rest[1..];
        } else {
          if SharesFilePage(p, s, mask, range) && Write !in s.flags {
            return false;
          }
          segs := segs[i := Aligned(p, s, mask, range)];
          i := i + 1;
          assert segs[..i] == done + [Aligned(p, s, mask, range)] && segs[i..] == rest[1..];
        }
      }
      assert segs[..i] == segs && segs[i..] == [];
    }
  }
}
