/** The per-page relocation index of the read-only pager, core/mm/fobj.c. */
module PageRelocs {
  const PAGE: nat := 4096
  /** UINT16_MAX: a page without relocations. */
  const NONE: nat := 65535

  function PageOf(r: nat): nat {
    r / PAGE
  }

  /** The offset of the object's end from its beginning. */
  function Extent(pages: nat): nat {
    PAGE * pages
  }

  // ---- The plain list ----

  /** Sorted, above zero, aligned to words of w bytes. */
  predicate WellFormed(reloc: seq<nat>, w: nat)
    requires w > 0
  {
    forall i :: 0 <= i < |reloc| ==> WellPlaced(reloc, i, w)
  }

  predicate WellPlaced(reloc: seq<nat>, i: nat, w: nat)
    requires w > 0 && i < |reloc|
  {
    reloc[i] % w == 0 && (if i == 0 then 0 else reloc[i - 1]) < reloc[i]
  }

  /** The relocations among the first n that lie in the object, from its beginning. */
  function InObject(reloc: seq<nat>, offs: nat, extent: nat, n: nat): (r: seq<nat>)
    requires n <= |reloc|
    ensures |r| <= n
  {
    if n == 0 then []
    else
      var x := reloc[n - 1];
      InObject(reloc, offs, extent, n - 1) + if offs <= x < offs + extent then [x - offs] else []
  }

  lemma {:induction false} ListGrows(reloc: seq<nat>, w: nat, i: nat, j: nat)
    requires w > 0 && WellFormed(reloc, w) && i < j < |reloc|
    ensures reloc[i] < reloc[j]
    decreases j
  {
    assert WellPlaced(reloc, j, w);
    if i < j - 1 {
      ListGrows(reloc, w, i, j - 1);
    }
  }

  /** Strictly increasing and inside the object. */
  ghost predicate Increasing(rs: seq<nat>, extent: nat) {
    && (forall k :: 0 <= k < |rs| ==> rs[k] < extent)
    && (forall i, j :: 0 <= i < j < |rs| ==> rs[i] < rs[j])
  }

  ghost predicate AllBelow(rs: seq<nat>, x: int) {
    forall k :: 0 <= k < |rs| ==> rs[k] < x
  }

  lemma IncreasingOn(rs: seq<nat>, r: nat, extent: nat)
    requires Increasing(rs, extent) && AllBelow(rs, r) && r < extent
    ensures Increasing(rs + [r], extent) && AllBelow(rs + [r], r + 1)
  {
  }

  lemma {:induction false} InObjectIncreases(reloc: seq<nat>, w: nat, offs: nat, extent: nat, n: nat)
    requires w > 0 && WellFormed(reloc, w) && n <= |reloc|
    ensures Increasing(InObject(reloc, offs, extent, n), extent)
    ensures n > 0 ==> AllBelow(InObject(reloc, offs, extent, n), reloc[n - 1] - offs + 1)
    decreases n
  {
    if n > 0 {
      InObjectIncreases(reloc, w, offs, extent, n - 1);
      assert WellPlaced(reloc, n - 1, w);
      var rs, x := InObject(reloc, offs, extent, n - 1), reloc[n - 1];
      assert AllBelow(rs, x - offs);
      if offs <= x < offs + extent {
        IncreasingOn(rs, x - offs, extent);
      }
    }
  }

  lemma {:induction false} InObjectAligned(reloc: seq<nat>, w: nat, offs: nat, extent: nat, n: nat)
    requires WordSize(w) && WellFormed(reloc, w) && n <= |reloc| && offs % w == 0
    ensures forall k :: 0 <= k < |InObject(reloc, offs, extent, n)| ==> InObject(reloc, offs, extent, n)[k] % w == 0
    decreases n
  {
    if n > 0 {
      InObjectAligned(reloc, w, offs, extent, n - 1);
      assert WellPlaced(reloc, n - 1, w);
      if offs <= reloc[n - 1] {
        AlignedFrom(reloc[n - 1], offs, w);
      }
    }
  }

  lemma AlignedFrom(x: nat, offs: nat, w: nat)
    requires WordSize(w) && offs <= x && x % w == 0 && offs % w == 0
    ensures (x - offs) % w == 0
  {
    if w == 4 {
      assert x - offs == 4 * (x / 4 - offs / 4);
    } else {
      assert x - offs == 8 * (x / 8 - offs / 8);
    }
  }

  /** The list in the object holds exactly the relocations of the plain list. */
  lemma {:induction false} InObjectIff(reloc: seq<nat>, offs: nat, extent: nat, n: nat, r: nat)
    requires n <= |reloc|
    ensures r in InObject(reloc, offs, extent, n) <==> r < extent && offs + r in reloc[..n]
    decreases n
  {
    if n > 0 {
      InObjectIff(reloc, offs, extent, n - 1, r);
      assert reloc[..n] == reloc[..n - 1] + [reloc[n - 1]];
    }
  }

  // ---- Counting ----

  /** get_num_rels; not ok when one of its asserts fails. */
  method GetNumRels(pages: nat, offs: nat, reloc: seq<nat>, w: nat) returns (ok: bool, nrels: nat)
    requires w > 0
    ensures ok == WellFormed(reloc, w)
    ensures ok ==>
        nrels == |InObject(reloc, offs, Extent(pages), |reloc|)| + if offs + Extent(pages) in reloc then 1 else 0
  {
    var n, last: nat := 0, 0;
    nrels := 0;
    while n < |reloc|
      invariant 0 <= n <= |reloc| && last == if n == 0 then 0 else reloc[n - 1]
      invariant forall i :: 0 <= i < n ==> WellPlaced(reloc, i, w)
      invariant forall i :: 0 <= i < n ==> reloc[i] <= last
      invariant nrels == |InObject(reloc, offs, Extent(pages), n)| + if offs + Extent(pages) in reloc[..n] then 1 else 0
    {
      if reloc[n] % w != 0 || last >= reloc[n] {
        assert !WellPlaced(reloc, n, w);
        return false, 0;
      }
      last := reloc[n];
      assert reloc[..n + 1] == reloc[..n] + [reloc[n]];
      if last >= offs && last <= offs + Extent(pages) {
        nrels := nrels + 1;
      }
      n := n + 1;
    }
    assert reloc[..n] == reloc;
    ok := true;
  }

  // ---- The index ----

  /** The index entry of page p over the first n relocations rs: the first one in the page. */
  ghost predicate EntryOk(rs: seq<nat>, p: nat, v: nat) {
    if v == NONE then forall k :: 0 <= k < |rs| ==> PageOf(rs[k]) != p
    else v < |rs| && PageOf(rs[v]) == p && forall k :: 0 <= k < v ==> PageOf(rs[k]) < p
  }

  ghost predicate Indexed(rs: seq<nat>, idx: seq<nat>) {
    forall p :: 0 <= p < |idx| ==> EntryOk(rs, p, idx[p])
  }

  /** The stored relocations are offsets into their pages. */
  ghost predicate Stored(rs: seq<nat>, relocs: seq<nat>) {
    |rs| <= |relocs| && forall k :: 0 <= k < |rs| ==> relocs[k] == rs[k] - PAGE * PageOf(rs[k])
  }

  lemma PageGrows(a: nat, b: nat)
    requires a <= b
    ensures PageOf(a) <= PageOf(b)
  {
  }

  lemma PageIn(r: nat, pages: nat)
    ensures PageOf(r) < pages <==> r < Extent(pages)
  {
  }

  /** No page's first relocation has a number that 16 bits, less NONE, cannot hold. */
  ghost predicate FirstsFit(rs: seq<nat>) {
    forall k :: NONE <= k < |rs| ==> PageOf(rs[k - 1]) == PageOf(rs[k])
  }

  /** Then no 16-bit index of the relocations could be right. */
  lemma IndexedOnlyIfFit(rs: seq<nat>, idx: seq<nat>)
    requires Increasing(rs, Extent(|idx|)) && Indexed(rs, idx) && forall p :: 0 <= p < |idx| ==> idx[p] <= NONE
    ensures FirstsFit(rs)
  {
    forall k | NONE <= k < |rs| ensures PageOf(rs[k - 1]) == PageOf(rs[k]) {
      PageIn(rs[k], |idx|);
      var q := PageOf(rs[k]);
      assert EntryOk(rs, q, idx[q]);
      var v := idx[q];
      assert v < NONE <= k;
      PageGrows(rs[k - 1], rs[k]);
      if v < k - 1 {
        PageGrows(rs[v], rs[k - 1]);
      }
    }
  }

  lemma FirstsFitOn(rs: seq<nat>, r: nat)
    requires FirstsFit(rs + [r])
    ensures FirstsFit(rs) && (|rs| < NONE || PageOf(rs[|rs| - 1]) == PageOf(r))
  {
    var all := rs + [r];
    forall k | NONE <= k < |rs| ensures PageOf(rs[k - 1]) == PageOf(rs[k]) {
      assert PageOf(all[k - 1]) == PageOf(all[k]);
    }
    if |rs| >= NONE {
      assert PageOf(all[|rs| - 1]) == PageOf(all[|rs|]);
    }
  }

  /** A free entry means a first relocation, whose number then fits. */
  lemma EntryFree(rs: seq<nat>, r: nat, idx: seq<nat>)
    requires Indexed(rs, idx) && PageOf(r) < |idx| && (|rs| < NONE || PageOf(rs[|rs| - 1]) == PageOf(r))
    ensures idx[PageOf(r)] == NONE ==> |rs| < NONE && |rs| % (NONE + 1) == |rs|
  {
    assert EntryOk(rs, PageOf(r), idx[PageOf(r)]);
  }

  /** One more relocation r. */
  lemma IndexOn(rs: seq<nat>, r: nat, idx: seq<nat>, extent: nat)
    requires Increasing(rs + [r], extent) && Indexed(rs, idx) && PageOf(r) < |idx|
    requires |rs| < NONE || PageOf(rs[|rs| - 1]) == PageOf(r)
    ensures Indexed(rs + [r], if idx[PageOf(r)] == NONE then idx[PageOf(r) := |rs|] else idx)
  {
    var q := PageOf(r);
    var idx1 := if idx[q] == NONE then idx[q := |rs|] else idx;
    forall p | 0 <= p < |idx1| ensures EntryOk(rs + [r], p, idx1[p]) {
      assert EntryOk(rs, p, idx[p]);
      if p == q && idx[q] == NONE {
        assert |rs| < NONE;
        forall k | 0 <= k < |rs| ensures PageOf((rs + [r])[k]) < q {
          assert rs[k] == (rs + [r])[k] < (rs + [r])[|rs|];
          PageGrows(rs[k], r);
        }
      }
    }
  }

  /** After the first relocation beyond the object there are only such. */
  lemma {:induction false} RestBeyond(reloc: seq<nat>, w: nat, offs: nat, extent: nat, n: nat, m: nat)
    requires w > 0 && WellFormed(reloc, w) && n < m <= |reloc| && reloc[n] >= offs + extent
    ensures InObject(reloc, offs, extent, m) == InObject(reloc, offs, extent, n)
    decreases m
  {
    if n < m - 1 {
      RestBeyond(reloc, w, offs, extent, n, m - 1);
      ListGrows(reloc, w, n, m - 1);
    }
  }

  /** The loop over the relocations of page p does not start at the number NONE by mistake. */
  ghost predicate Reached(rs: seq<nat>, p: nat) {
    |rs| <= NONE || exists k :: 0 <= k < |rs| && PageOf(rs[k]) >= p
  }

  // ---- Words of a page ----

  /** sizeof(long). */
  predicate WordSize(w: nat) {
    w == 4 || w == 8
  }

  /** The word of w bytes that begins at an offset. */
  function WordAt(b: nat, w: nat): nat
    requires WordSize(w)
  {
    if w == 4 then b / 4 else b / 8
  }

  /** Where word i begins. */
  function WordOffset(i: nat, w: nat): nat
    requires WordSize(w)
  {
    if w == 4 then 4 * i else 8 * i
  }

  /** A relocation in page p begins a word of it. */
  lemma WordFound(r: nat, p: nat, w: nat, words: nat)
    requires WordSize(w) && PageOf(r) == p && r % w == 0 && WordOffset(words, w) == PAGE
    ensures WordAt(r - PAGE * p, w) < words && WordOffset(WordAt(r - PAGE * p, w), w) == r - PAGE * p
  {
    if w == 4 {
      FourthPage(r, p);
    } else {
      EighthPage(r, p);
    }
  }

  lemma FourthPage(r: nat, p: nat)
    requires r / PAGE == p && r % 4 == 0
    ensures 4 * ((r - PAGE * p) / 4) == r - PAGE * p < PAGE
  {
    var q := r / 4;
    assert r - PAGE * p == 4 * (q - 1024 * p);
  }

  lemma EighthPage(r: nat, p: nat)
    requires r / PAGE == p && r % 8 == 0
    ensures 8 * ((r - PAGE * p) / 8) == r - PAGE * p < PAGE
  {
    var q := r / 8;
    assert r - PAGE * p == 8 * (q - 512 * p);
  }

  /** One of the relocations from a up to b is at word i of page p. */
  ghost predicate AtWord(rs: seq<nat>, p: nat, w: nat, i: nat, a: nat, b: nat)
    requires WordSize(w)
  {
    exists k :: 0 <= k < |rs| && a <= k < b && rs[k] == PAGE * p + WordOffset(i, w)
  }

  /** fobj_ro_reloc_paged: a read-only object of pages of words, with its index. */
  class RelocPaged {
    const pages: nat
    const w: nat
    const range: nat
    /** The store, page by page, as words. */
    const store: seq<seq<nat>>
    var pageRelocIdx: array<nat>
    var relocs: array<nat>

    constructor (pages: nat, w: nat, range: nat, store: seq<seq<nat>>, nrels: nat)
      requires WordSize(w) && range > 0 && |store| == pages
      requires forall p :: 0 <= p < pages ==> WordOffset(|store[p]|, w) == PAGE
      ensures Valid() && fresh(pageRelocIdx) && fresh(relocs) && relocs.Length == nrels
      ensures this.pages == pages && this.w == w && this.range == range && this.store == store
    {
      this.pages, this.w, this.range, this.store := pages, w, range, store;
      pageRelocIdx := new nat[pages];
      relocs := new nat[nrels];
    }

    ghost predicate Valid()
      reads this
    {
      && WordSize(w) && range > 0 && pageRelocIdx.Length == pages && pageRelocIdx != relocs
      && |store| == pages && forall p :: 0 <= p < pages ==> WordOffset(|store[p]|, w) == PAGE
    }

    /** uint16_t. */
    ghost predicate Narrow()
      reads this, pageRelocIdx
    {
      forall p :: 0 <= p < pageRelocIdx.Length ==> pageRelocIdx[p] <= NONE
    }

    /** The relocations rs are recorded, as far as 16 bits go. */
    ghost predicate Recorded(rs: seq<nat>)
      reads this, pageRelocIdx, relocs
    {
      Narrow() && Stored(rs, relocs[..]) && (FirstsFit(rs) ==> Indexed(rs, pageRelocIdx[..]))
    }

    /** The index of the relocations rs. */
    ghost predicate Ready(rs: seq<nat>)
      reads this, pageRelocIdx, relocs
    {
      && Valid() && relocs.Length == |rs| && Increasing(rs, Extent(pages)) && Narrow()
      && Indexed(rs, pageRelocIdx[..]) && Stored(rs, relocs[..])
    }

    method ClearIndex()
      requires Valid()
      modifies pageRelocIdx
      ensures Narrow() && Indexed([], pageRelocIdx[..])
    {
      var n := 0;
      while n < pages
        invariant 0 <= n <= pages && forall p :: 0 <= p < n ==> pageRelocIdx[p] == NONE
      {
        pageRelocIdx[n] := NONE;
        n := n + 1;
      }
    }

    /** Records relocation r as number reln, of which the index keeps 16 bits. */
    method AddRel(r: nat, reln: nat, ghost rs: seq<nat>)
      requires Valid() && Increasing(rs + [r], Extent(pages)) && reln == |rs| < relocs.Length
      requires Recorded(rs)
      modifies pageRelocIdx, relocs
      ensures Recorded(rs + [r])
    {
      assert r == (rs + [r])[|rs|];
      PageIn(r, pages);
      var p := r / PAGE;
      ghost var idx := pageRelocIdx[..];
      if FirstsFit(rs + [r]) {
        FirstsFitOn(rs, r);
        IndexOn(rs, r, idx, Extent(pages));
        EntryFree(rs, r, idx);
      }
      if pageRelocIdx[p] == NONE {
        var number: nat := reln % (NONE + 1);
        pageRelocIdx[p] := number;
        assert pageRelocIdx[..] == idx[p := number];
      }
      relocs[reln] := r - PAGE * p;
    }

    /** init_rels: its final assert holds exactly when no relocation lies exactly at the object's
        end, and then the index is right exactly when 16 bits hold the numbers it needs. */
    method InitRels(offs: nat, reloc: seq<nat>) returns (ok: bool)
      requires Valid() && WellFormed(reloc, w)
      requires var rs := InObject(reloc, offs, Extent(pages), |reloc|);
               relocs.Length == |rs| + if offs + Extent(pages) in reloc then 1 else 0
      modifies pageRelocIdx, relocs
      ensures ok <==> offs + Extent(pages) !in reloc
      ensures var rs := InObject(reloc, offs, Extent(pages), |reloc|);
              ok ==> (Ready(rs) <==> FirstsFit(rs))
    {
      ghost var all := InObject(reloc, offs, Extent(pages), |reloc|);
      ClearIndex();
      var reln := FillIndex(offs, reloc);
      InObjectIncreases(reloc, w, offs, Extent(pages), |reloc|);
      ok := reln == relocs.Length;
      if Indexed(all, pageRelocIdx[..]) {
        IndexedOnlyIfFit(all, pageRelocIdx[..]);
      }
    }

    /** Its second loop. */
    method FillIndex(offs: nat, reloc: seq<nat>) returns (reln: nat)
      requires Valid() && WellFormed(reloc, w) && Recorded([])
      requires |InObject(reloc, offs, Extent(pages), |reloc|)| <= relocs.Length
      modifies pageRelocIdx, relocs
      ensures reln == |InObject(reloc, offs, Extent(pages), |reloc|)|
      ensures Recorded(InObject(reloc, offs, Extent(pages), |reloc|))
    {
      ghost var extent := Extent(pages);
      assert InObject(reloc, offs, extent, 0) == [];
      var n := 0;
      reln := 0;
      while n < |reloc|
        invariant 0 <= n <= |reloc| && reln == |InObject(reloc, offs, extent, n)|
        invariant Recorded(InObject(reloc, offs, extent, n))
      {
        if reloc[n] >= offs {
          var r := reloc[n] - offs;
          PageIn(r, pages);
          if r / PAGE >= pages {
            RestBeyond(reloc, w, offs, extent, n, |reloc|);
            break;
          }
          RecordNext(offs, reloc, n, r, reln);
          reln := reln + 1;
        } else {
          NotYetIn(reloc, offs, extent, n);
        }
        n := n + 1;
      }
    }

    /** Its turn for a relocation in the object. */
    method RecordNext(offs: nat, reloc: seq<nat>, n: nat, r: nat, reln: nat)
      requires Valid() && WellFormed(reloc, w) && n < |reloc| && reloc[n] == offs + r && r < Extent(pages)
      requires |InObject(reloc, offs, Extent(pages), |reloc|)| <= relocs.Length
      requires reln == |InObject(reloc, offs, Extent(pages), n)| && Recorded(InObject(reloc, offs, Extent(pages), n))
      modifies pageRelocIdx, relocs
      ensures reln + 1 == |InObject(reloc, offs, Extent(pages), n + 1)|
      ensures Recorded(InObject(reloc, offs, Extent(pages), n + 1))
    {
      ghost var rs := InObject(reloc, offs, Extent(pages), n);
      ghost var rs1 := InObject(reloc, offs, Extent(pages), n + 1);
      OneMoreIn(reloc, offs, Extent(pages), n, r, rs, rs1);
      InObjectIncreases(reloc, w, offs, Extent(pages), n + 1);
      AddRel(r, reln, rs);
    }

    /** The first relocation behind page p: the entry of the next page that has one. */
    method EndOfPage(p: nat, ghost rs: seq<nat>) returns (e: nat)
      requires Ready(rs) && p < pages
      ensures e <= |rs| && forall k :: 0 <= k < |rs| ==> (k < e <==> PageOf(rs[k]) <= p)
    {
      var n := p + 1;
      while n < pages
        invariant p < n <= pages && forall q :: p < q < n ==> pageRelocIdx[q] == NONE
      {
        if pageRelocIdx[n] != NONE {
          e := pageRelocIdx[n];
          NextPage(rs, pageRelocIdx[..], p, n, Extent(pages));
          return;
        }
        n := n + 1;
      }
      e := relocs.Length;
      LastPage(rs, pageRelocIdx[..], p, pages);
    }

    /** rrp_load_page, for the plain list: every word of the page that has a relocation gets
        the load offset once, and every other word is as stored; hashOk is the verdict of the
        hash check. */
    method LoadPage(p: nat, va: array<nat>, hashOk: bool, loadOffset: nat, ghost offs: nat, ghost reloc: seq<nat>)
      returns (ok: bool)
      requires WordSize(w) && WellFormed(reloc, w) && offs % w == 0
      requires Ready(InObject(reloc, offs, Extent(pages), |reloc|))
      requires p < pages && va != pageRelocIdx && va != relocs && va.Length == |store[p]|
      modifies va
      ensures ok == hashOk
      ensures ok && Reached(InObject(reloc, offs, Extent(pages), |reloc|), p) ==>
          forall i :: 0 <= i < va.Length ==>
            va[i] == if offs + (PAGE * p + WordOffset(i, w)) in reloc then (store[p][i] + loadOffset) % range
                     else store[p][i]
    {
      ghost var rs := InObject(reloc, offs, Extent(pages), |reloc|);
      InObjectAligned(reloc, w, offs, Extent(pages), |reloc|);
      ok := Relocate(p, va, hashOk, loadOffset, rs);
      forall i | 0 <= i < va.Length
        ensures PAGE * p + WordOffset(i, w) in rs <==> offs + (PAGE * p + WordOffset(i, w)) in reloc {
        InObjectIff(reloc, offs, Extent(pages), |reloc|, PAGE * p + WordOffset(i, w));
        assert reloc[..|reloc|] == reloc;
      }
    }

    /** The same for the relocations of the object. */
    method Relocate(p: nat, va: array<nat>, hashOk: bool, loadOffset: nat, ghost rs: seq<nat>) returns (ok: bool)
      requires Ready(rs) && p < pages && va != pageRelocIdx && va != relocs && va.Length == |store[p]|
      requires forall k :: 0 <= k < |rs| ==> rs[k] % w == 0
      modifies va
      ensures ok == hashOk
      ensures ok && Reached(rs, p) ==> forall i :: 0 <= i < va.Length ==>
          va[i] == if PAGE * p + WordOffset(i, w) in rs then (store[p][i] + loadOffset) % range else store[p][i]
      ensures ok && !Reached(rs, p) ==> forall i :: 0 <= i < va.Length ==>
          va[i] == if AtWord(rs, PageOf(rs[NONE]), w, i, NONE, |rs|) then (store[p][i] + loadOffset) % range
                   else store[p][i]
    {
      CopyPage(p, va);
      if !hashOk {
        return false;
      }
      var e := EndOfPage(p, rs);
      assert EntryOk(rs, p, pageRelocIdx[..][p]);
      var first := pageRelocIdx[p];
      IndexedOnlyIfFit(rs, pageRelocIdx[..]);
      ghost var q := if Reached(rs, p) then p else PageOf(rs[NONE]);
      LoopsOver(rs, p, q, first, e);
      AddOffsets(va, first, e, loadOffset, store[p], q, rs);
      forall i | 0 <= i < va.Length && Reached(rs, p)
        ensures AtWord(rs, p, w, i, first, e) <==> PAGE * p + WordOffset(i, w) in rs {
        AllOfPage(rs, p, w, i, first, e, va.Length);
      }
      ok := true;
    }

    /** The loop over relocations that are all in page q. */
    method AddOffsets(va: array<nat>, first: nat, e: nat, loadOffset: nat, ghost words: seq<nat>, ghost q: nat,
                      ghost rs: seq<nat>)
      requires Valid() && va != pageRelocIdx && va != relocs && va[..] == words && WordOffset(|words|, w) == PAGE
      requires Stored(rs, relocs[..]) && Increasing(rs, Extent(pages)) && e <= |rs|
      requires forall k :: first <= k < e ==> PageOf(rs[k]) == q && rs[k] % w == 0
      modifies va
      ensures forall i :: 0 <= i < va.Length ==>
          va[i] == if AtWord(rs, q, w, i, first, e) then (words[i] + loadOffset) % range else words[i]
    {
      var n := first;
      while n < e
        invariant first <= n && (n <= e || n == first)
        invariant forall i :: 0 <= i < va.Length ==>
            va[i] == if AtWord(rs, q, w, i, first, n) then (words[i] + loadOffset) % range else words[i]
      {
        WordFound(rs[n], q, w, va.Length);
        var i := WordAt(relocs[n], w);
        WordOnce(rs, q, w, first, n, i);
        va[i] := (va[i] + loadOffset) % range;
        n := n + 1;
      }
    }

    /** The copy of rop_load_page_helper. */
    method CopyPage(p: nat, va: array<nat>)
      requires Valid() && p < pages && va.Length == |store[p]|
      modifies va
      ensures forall i :: 0 <= i < va.Length ==> va[i] == store[p][i]
    {
      var i := 0;
      while i < va.Length
        invariant 0 <= i <= va.Length && forall j :: 0 <= j < i ==> va[j] == store[p][j]
      {
        va[i] := store[p][i];
        i := i + 1;
      }
    }
  }

  lemma NextPage(rs: seq<nat>, idx: seq<nat>, p: nat, n: nat, extent: nat)
    requires Increasing(rs, extent) && Indexed(rs, idx) && p < n < |idx| && idx[n] != NONE
    requires forall q :: p < q < n ==> idx[q] == NONE
    ensures idx[n] < |rs| && forall k :: 0 <= k < |rs| ==> (k < idx[n] <==> PageOf(rs[k]) <= p)
  {
    var e := idx[n];
    assert EntryOk(rs, n, e);
    forall k | 0 <= k < |rs| ensures k < e <==> PageOf(rs[k]) <= p {
      if k < e {
        var q := PageOf(rs[k]);
        assert EntryOk(rs, q, idx[q]);
      } else {
        PageGrows(rs[e], rs[k]);
      }
    }
  }

  lemma LastPage(rs: seq<nat>, idx: seq<nat>, p: nat, pages: nat)
    requires Increasing(rs, Extent(pages)) && Indexed(rs, idx) && |idx| == pages
    requires forall q :: p < q < pages ==> idx[q] == NONE
    ensures forall k :: 0 <= k < |rs| ==> PageOf(rs[k]) <= p
  {
    forall k | 0 <= k < |rs| ensures PageOf(rs[k]) <= p {
      PageIn(rs[k], pages);
      var q := PageOf(rs[k]);
      assert EntryOk(rs, q, idx[q]);
    }
  }

  /** Relocation n is the first one at its word, and adds no other word. */
  lemma WordOnce(rs: seq<nat>, p: nat, w: nat, first: nat, n: nat, i: nat)
    requires WordSize(w) && first <= n < |rs| && rs[n] == PAGE * p + WordOffset(i, w)
    requires forall k, m :: 0 <= k < m < |rs| ==> rs[k] < rs[m]
    ensures !AtWord(rs, p, w, i, first, n)
    ensures forall j: nat :: AtWord(rs, p, w, j, first, n + 1) <==> j == i || AtWord(rs, p, w, j, first, n)
  {
    forall j: nat ensures AtWord(rs, p, w, j, first, n + 1) <==> j == i || AtWord(rs, p, w, j, first, n) {
      if AtWord(rs, p, w, j, first, n + 1) {
        var k :| 0 <= k < |rs| && first <= k < n + 1 && rs[k] == PAGE * p + WordOffset(j, w);
        if k < n {
          assert AtWord(rs, p, w, j, first, n);
        }
      }
    }
  }

  /** The loop of a page runs over relocations of that page, or else over those of the page that
      has relocation number NONE. */
  lemma LoopsOver(rs: seq<nat>, p: nat, q: nat, first: nat, e: nat)
    requires EntryOk(rs, p, first) && FirstsFit(rs) && e <= |rs| && first <= NONE
    requires forall k :: 0 <= k < |rs| ==> (k < e <==> PageOf(rs[k]) <= p)
    requires forall k, m :: 0 <= k < m < |rs| ==> rs[k] < rs[m]
    requires q == if Reached(rs, p) then p else PageOf(rs[NONE])
    ensures forall k :: first <= k < e ==> PageOf(rs[k]) == q
    ensures !Reached(rs, p) ==> first == NONE && e == |rs|
  {
    if Reached(rs, p) {
      StartsRight(rs, p, first, e);
      forall k | first <= k < e ensures PageOf(rs[k]) == q {
        if first < k {
          PageGrows(rs[first], rs[k]);
        }
      }
    } else {
      assert PageOf(rs[|rs| - 1]) < p;
      forall k | first <= k < e ensures PageOf(rs[k]) == q {
        SamePage(rs, k);
      }
    }
  }

  /** From number NONE on all relocations are in one page. */
  lemma {:induction false} SamePage(rs: seq<nat>, k: nat)
    requires FirstsFit(rs) && NONE <= k < |rs|
    ensures PageOf(rs[k]) == PageOf(rs[NONE])
    decreases k
  {
    if k > NONE {
      SamePage(rs, k - 1);
      assert PageOf(rs[k - 1]) == PageOf(rs[k]);
    }
  }

  /** A page's loop that starts at a number below NONE starts at a relocation of the page. */
  lemma StartsRight(rs: seq<nat>, p: nat, first: nat, e: nat)
    requires EntryOk(rs, p, first) && Reached(rs, p) && FirstsFit(rs) && e <= |rs| && first <= NONE
    requires forall k :: 0 <= k < |rs| ==> (k < e <==> PageOf(rs[k]) <= p)
    ensures first < e ==> first < NONE
  {
    if NONE <= e < |rs| {
      assert PageOf(rs[e - 1]) == PageOf(rs[e]);
    } else if |rs| > NONE {
      var k :| 0 <= k < |rs| && PageOf(rs[k]) >= p;
      assert k < e <==> PageOf(rs[k]) <= p;
    }
  }

  /** From the first to the last relocation of a page, none of the page is missed. */
  lemma AllOfPage(rs: seq<nat>, p: nat, w: nat, i: nat, first: nat, n: nat, words: nat)
    requires WordSize(w) && i < words && WordOffset(words, w) == PAGE && EntryOk(rs, p, first)
    requires forall k :: 0 <= k < |rs| && PageOf(rs[k]) <= p ==> k < n
    requires forall k, m :: 0 <= k < m < |rs| ==> rs[k] < rs[m]
    ensures AtWord(rs, p, w, i, first, n) <==> PAGE * p + WordOffset(i, w) in rs
  {
    var r := PAGE * p + WordOffset(i, w);
    if r in rs {
      var k :| 0 <= k < |rs| && rs[k] == r;
      assert PageOf(r) == p;
      assert first <= k;
    }
  }

  lemma OneMoreIn(reloc: seq<nat>, offs: nat, extent: nat, n: nat, r: nat, rs: seq<nat>, rs1: seq<nat>)
    requires n < |reloc| && reloc[n] == offs + r && r < extent
    requires rs == InObject(reloc, offs, extent, n) && rs1 == InObject(reloc, offs, extent, n + 1)
    ensures rs1 == rs + [r] && |rs| < |InObject(reloc, offs, extent, |reloc|)|
  {
    LongerList(reloc, offs, extent, n + 1);
  }

  lemma NotYetIn(reloc: seq<nat>, offs: nat, extent: nat, n: nat)
    requires n < |reloc| && reloc[n] < offs
    ensures InObject(reloc, offs, extent, n + 1) == InObject(reloc, offs, extent, n)
  {
  }

  lemma {:induction false} LongerList(reloc: seq<nat>, offs: nat, extent: nat, n: nat)
    requires n <= |reloc|
    ensures |InObject(reloc, offs, extent, n)| <= |InObject(reloc, offs, extent, |reloc|)|
    decreases |reloc| - n
  {
    if n < |reloc| {
      LongerList(reloc, offs, extent, n + 1);
    }
  }

  // ---- Inputs that go wrong ----

  /** A single relocation exactly behind the object: counted, but not indexed. */
  lemma EndIsCounted(pages: nat, w: nat)
    requires WordSize(w) && pages > 0
    ensures var reloc := [Extent(pages)];
            WellFormed(reloc, w) && InObject(reloc, 0, Extent(pages), |reloc|) == [] && Extent(pages) in reloc
  {
    var reloc := [Extent(pages)];
    assert InObject(reloc, 0, Extent(pages), 0) == [];
    assert Extent(pages) == 4 * (1024 * pages) == 8 * (512 * pages);
    assert WellPlaced(reloc, 0, w);
  }

  /** One relocation in each of n words, the first at an offset. */
  function Dense(n: nat, first: nat): (r: seq<nat>)
    ensures |r| == n
  {
    seq(n, i requires 0 <= i < n => 8 * i + first)
  }

  lemma DenseWellFormed(n: nat, k: nat)
    requires k > 0
    ensures WellFormed(Dense(n, 8 * k), 8) && Increasing(Dense(n, 8 * k), 8 * (n + k))
  {
    var rs := Dense(n, 8 * k);
    forall i | 0 <= i < |rs| ensures WellPlaced(rs, i, 8) {
      assert rs[i] == 8 * (i + k);
    }
  }

  /** In 129 pages of 64-bit words full of relocations from the second word on, the last page's
      first one has number 65535. */
  lemma DenseDoesNotFit()
    ensures var rs := Dense(NONE + 1, 8);
            WellFormed(rs, 8) && Increasing(rs, Extent(129)) && !FirstsFit(rs)
  {
    var rs := Dense(NONE + 1, 8);
    DenseWellFormed(NONE + 1, 1);
    assert rs[NONE] == 128 * PAGE && rs[NONE - 1] < 128 * PAGE;
    assert PageOf(rs[NONE]) == 128 && PageOf(rs[NONE - 1]) < 128;
  }

  /** From the third word on and in 130 pages, the index is right, but the last page, which has no
      relocation, is given that of number 65535. */
  lemma DenseIsNotReached()
    ensures var rs := Dense(NONE + 1, 16);
            WellFormed(rs, 8) && Increasing(rs, Extent(130)) && FirstsFit(rs) && !Reached(rs, 129)
    ensures AtWord(Dense(NONE + 1, 16), 128, 8, 1, NONE, NONE + 1)
  {
    var rs := Dense(NONE + 1, 16);
    DenseWellFormed(NONE + 1, 2);
    assert rs[NONE] == 128 * PAGE + 8 && rs[NONE - 1] == 128 * PAGE;
    assert PageOf(rs[NONE]) == 128 && PageOf(rs[NONE - 1]) == 128;
    forall k | 0 <= k < |rs| ensures PageOf(rs[k]) < 129 {
      assert rs[k] <= rs[NONE];
      PageGrows(rs[k], rs[NONE]);
    }
    assert WordOffset(1, 8) == 8;
  }
}
