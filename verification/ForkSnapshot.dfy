/**
 The memory of a forked process in src/yos/proc.c: the parent copies what is resident and notes where,
 the child replays the notes, and a list that overflowed is replaced by one full copy.
 */
module ForkSnapshot {
  import opened Bytes

  const MAX_REGIONS: nat := 16384

  datatype Region = Region(off: nat, len: nat)

  predicate Has(r: Region, k: nat) { r.off <= k < r.off + r.len }

  /** Some region of the list has the byte in it. */
  ghost predicate Covered(regions: seq<Region>, k: nat) {
    exists i :: 0 <= i < |regions| && Has(regions[i], k)
  }

  /** In order, apart from each other, not empty and not past `end`. */
  ghost predicate Sorted(regions: seq<Region>, end: nat) {
    && (forall i :: 0 <= i < |regions| ==> regions[i].len > 0 && regions[i].off + regions[i].len <= end)
    && (forall i, j :: 0 <= i < j < |regions| ==> regions[i].off + regions[i].len <= regions[j].off)
  }

  /** How the source cuts memory up: an unaligned head, whole pages, and what is left over. */
  datatype Layout = Layout(head: nat, page: nat, pages: nat, size: nat) {
    function Middle(): nat { pages * page }

    predicate Valid() { page > 0 && head + Middle() <= size }
  }

  function RoundUp(n: nat, page: nat): nat
    requires page > 0
  {
    (n + page - 1) / page * page
  }

  lemma RoundUpIs(n: nat, page: nat)
    requires page > 0
    ensures n <= RoundUp(n, page) < n + page && RoundUp(n, page) % page == 0
  {
    var q := (n + page - 1) / page;
    assert n + page - 1 == q * page + (n + page - 1) % page;
    Multiple(q, page);
  }

  lemma Multiple(q: nat, page: nat)
    requires page > 0
    ensures q * page % page == 0 && q * page / page == q
  {
    var x := q * page;
    var d := q - x / page;
    assert d * page == x % page;
    Apart(d, page);
  }

  lemma Apart(d: int, page: nat)
    ensures d >= 1 ==> d * page >= page
    ensures d <= -1 ==> d * page + page <= 0
  {
  }

  /** The head ends at a page boundary or with the memory; the rest is whole pages and less than one more. */
  function Cut(address: nat, size: nat, page: nat): (l: Layout)
    requires page > 0
    ensures l.Valid() && l.size == size && l.page == page && l.head < page && size - l.head - l.Middle() < page
    ensures l.head < size ==> (address + l.head) % page == 0
  {
    RoundUpIs(address, page);
    var head := RoundUp(address, page) - address;
    var head' := if head > size then size else head;
    assert size - head' == (size - head') / page * page + (size - head') % page;
    Layout(head', page, (size - head') / page, size)
  }

  /** The bytes that are always copied, and those of the resident pages. */
  predicate Live(l: Layout, resident: seq<bool>, k: nat)
    requires l.page > 0 && |resident| == l.pages && l.head + l.Middle() <= l.size
  {
    k < l.head || k >= l.head + l.Middle() || InResident(l, resident, k - l.head)
  }

  predicate InResident(l: Layout, resident: seq<bool>, m: nat)
    requires l.page > 0 && |resident| == l.pages
  {
    m / l.page < l.pages && resident[m / l.page]
  }

  /** A byte lies in the pages from `a` to `b` exactly when its page number does. */
  lemma PageOf(m: nat, page: nat, a: nat, b: nat)
    requires page > 0
    ensures a * page <= m < b * page <==> a <= m / page < b
  {
    var q := m / page;
    assert q * page <= m < (q + 1) * page;
    if a <= q {
      Monotone(a, q, page);
    } else {
      Monotone(q + 1, a, page);
    }
    if q < b {
      Monotone(q + 1, b, page);
    } else {
      Monotone(b, q, page);
    }
  }

  lemma Monotone(a: nat, b: nat, page: nat)
    requires a <= b
    ensures a * page <= b * page
  {
  }

  /** How far a snapshot has come: up to `pos` it is the source, and `all` are the live runs; after it, zero. */
  ghost predicate Progress(l: Layout, resident: seq<bool>, dst: seq<byte>, src: seq<byte>, all: seq<Region>, pos: nat)
    requires l.Valid() && |resident| == l.pages
  {
    && pos <= l.size == |dst| == |src|
    && Sorted(all, pos)
    && (forall k :: 0 <= k < pos ==> (Covered(all, k) <==> Live(l, resident, k)))
    && (forall k :: 0 <= k < pos ==> dst[k] == src[k])
    && (forall k :: pos <= k < l.size ==> dst[k] == 0)
  }

  lemma ProgressCopies(l: Layout, resident: seq<bool>, dst: seq<byte>, dst': seq<byte>, src: seq<byte>, all: seq<Region>, pos: nat, next: nat, pos': nat)
    requires l.Valid() && |resident| == l.pages && Progress(l, resident, dst, src, all, pos)
    requires pos <= next < pos' <= l.size && |dst'| == l.size
    requires forall k :: pos <= k < next ==> !Live(l, resident, k) && src[k] == 0
    requires forall k :: next <= k < pos' ==> Live(l, resident, k) && dst'[k] == src[k]
    requires forall k :: 0 <= k < l.size && !(next <= k < pos') ==> dst'[k] == dst[k]
    ensures Progress(l, resident, dst', src, all + [Region(next, pos' - next)], pos')
  {
    hide Live;
    var more := all + [Region(next, pos' - next)];
    forall k | 0 <= k < pos' ensures Covered(more, k) <==> Live(l, resident, k) {
      CoveredSnoc(all, Region(next, pos' - next), k);
      if pos <= k {
        NotCoveredPast(all, pos, k);
      }
    }
  }

  lemma ProgressSkips(l: Layout, resident: seq<bool>, dst: seq<byte>, src: seq<byte>, all: seq<Region>, pos: nat, pos': nat)
    requires l.Valid() && |resident| == l.pages && Progress(l, resident, dst, src, all, pos)
    requires pos <= pos' <= l.size && forall k :: pos <= k < pos' ==> !Live(l, resident, k) && src[k] == 0
    ensures Progress(l, resident, dst, src, all, pos')
  {
    hide Live;
    forall k | 0 <= k < pos' ensures Covered(all, k) <==> Live(l, resident, k) {
      if pos <= k {
        NotCoveredPast(all, pos, k);
      }
    }
  }

  lemma CoveredSnoc(all: seq<Region>, r: Region, k: nat)
    ensures Covered(all + [r], k) <==> Covered(all, k) || Has(r, k)
  {
    var more := all + [r];
    if Covered(all, k) {
      var i :| 0 <= i < |all| && Has(all[i], k);
      assert Has(more[i], k);
    }
    if Has(r, k) {
      assert Has(more[|all|], k);
    }
  }

  lemma NotCoveredPast(all: seq<Region>, pos: nat, k: nat)
    requires Sorted(all, pos) && pos <= k
    ensures !Covered(all, k)
  {
  }

  /** What the caller's table holds of the runs: as many as fit. */
  ghost predicate Recorded(regions: seq<Region>, count: nat, overflow: bool, all: seq<Region>) {
    && count <= |regions| && count <= |all| && regions[..count] == all[..count]
    && (overflow <==> |all| > |regions|)
    && (if overflow then count == |regions| else count == |all|)
  }

  /** memcpy */
  method Copy(dst: array<byte>, src: array<byte>, off: nat, len: nat)
    requires dst != src && off + len <= dst.Length && off + len <= src.Length
    modifies dst
    ensures forall k :: off <= k < off + len ==> dst[k] == src[k]
    ensures forall k :: 0 <= k < dst.Length && !(off <= k < off + len) ==> dst[k] == old(dst[k])
  {
    forall k | off <= k < off + len {
      dst[k] := src[k];
    }
  }

  method Record(regions: array<Region>, count: nat, overflow: bool, off: nat, len: nat, ghost all: seq<Region>)
    returns (count': nat, overflow': bool)
    requires Recorded(regions[..], count, overflow, all)
    modifies regions
    ensures Recorded(regions[..], count', overflow', all + [Region(off, len)])
  {
    count', overflow' := count, overflow;
    if count < regions.Length {
      regions[count] := Region(off, len);
      count' := count + 1;
      assert regions[..count] == all[..count];
      assert (all + [Region(off, len)])[..count + 1] == all[..count] + [Region(off, len)];
    } else {
      overflow' := true;
      assert (all + [Region(off, len)])[..count] == all[..count];
    }
  }

  /** What is known when a page is not resident: it reads as zero. */
  ghost predicate ZeroUnlessLive(l: Layout, resident: seq<bool>, src: seq<byte>)
    requires l.Valid() && |resident| == l.pages
  {
    |src| == l.size && forall k :: 0 <= k < l.size && !Live(l, resident, k) ==> src[k] == 0
  }

  /** The bytes of the pages from `a` to `b` are live exactly when the pages are resident. */
  lemma LivePages(l: Layout, resident: seq<bool>, a: nat, b: nat, live: bool)
    requires l.Valid() && |resident| == l.pages && a <= b <= l.pages
    requires forall i :: a <= i < b ==> resident[i] == live
    ensures l.head + a * l.page <= l.head + b * l.page <= l.head + l.Middle()
    ensures forall k :: l.head + a * l.page <= k < l.head + b * l.page ==> Live(l, resident, k) == live
  {
    Monotone(a, b, l.page);
    Monotone(b, l.pages, l.page);
    forall k | l.head + a * l.page <= k < l.head + b * l.page ensures Live(l, resident, k) == live {
      PageOf(k - l.head, l.page, a, b);
    }
  }

  /** A run that is always copied: the head, or what is left after the whole pages. */
  method CopyEdge(dst: array<byte>, src: array<byte>, l: Layout, off: nat, len: nat, regions: array<Region>, count: nat, overflow: bool,
                  ghost resident: seq<bool>, ghost all: seq<Region>)
    returns (count': nat, overflow': bool, ghost all': seq<Region>)
    requires l.Valid() && |resident| == l.pages && dst != src && src.Length == l.size
    requires Progress(l, resident, dst[..], src[..], all, off) && Recorded(regions[..], count, overflow, all)
    requires off + len <= l.size && forall k :: off <= k < off + len ==> Live(l, resident, k)
    modifies dst, regions
    ensures Progress(l, resident, dst[..], src[..], all', off + len) && Recorded(regions[..], count', overflow', all')
  {
    hide Live, Recorded;
    count', overflow', all' := count, overflow, all;
    if len > 0 {
      ghost var was := dst[..];
      Copy(dst, src, off, len);
      count', overflow' := Record(regions, count, overflow, off, len, all);
      all' := all + [Region(off, len)];
      ProgressCopies(l, resident, was, dst[..], src[..], all, off, off, off + len);
    }
  }

  /** The loop over the pages: each run of resident ones is copied and noted. */
  method CopyMiddle(dst: array<byte>, src: array<byte>, l: Layout, vec: seq<bool>, regions: array<Region>, count: nat, overflow: bool,
                    ghost all: seq<Region>)
    returns (count': nat, overflow': bool, ghost all': seq<Region>)
    requires l.Valid() && |vec| == l.pages && dst != src && src.Length == l.size
    requires Progress(l, vec, dst[..], src[..], all, l.head) && Recorded(regions[..], count, overflow, all)
    requires ZeroUnlessLive(l, vec, src[..])
    modifies dst, regions
    ensures Progress(l, vec, dst[..], src[..], all', l.head + l.Middle()) && Recorded(regions[..], count', overflow', all')
  {
    hide Live, Recorded, Progress;
    count', overflow', all' := count, overflow, all;
    var i := 0;
    while i < l.pages
      invariant i <= l.pages
      invariant Progress(l, vec, dst[..], src[..], all', l.head + i * l.page)
      invariant Recorded(regions[..], count', overflow', all')
    {
      if !vec[i] {
        LivePages(l, vec, i, i + 1, false);
        ProgressSkips(l, vec, dst[..], src[..], all', l.head + i * l.page, l.head + (i + 1) * l.page);
        i := i + 1;
      } else {
        var start := i;
        while i < l.pages && vec[i]
          invariant start <= i <= l.pages && forall k :: start <= k < i ==> vec[k]
        {
          i := i + 1;
        }
        LivePages(l, vec, start, i, true);
        Grows(start, i, l.page);
        var off := l.head + start * l.page;
        var len := (i - start) * l.page;
        ghost var was := dst[..];
        ProgressLength(l, vec, dst[..], src[..], all', off);
        Copy(dst, src, off, len);
        count', overflow' := Record(regions, count', overflow', off, len, all');
        ProgressCopies(l, vec, was, dst[..], src[..], all', off, off, off + len);
        all' := all' + [Region(off, len)];
      }
    }
  }

  lemma Grows(a: nat, b: nat, page: nat)
    requires a < b && page > 0
    ensures a * page + (b - a) * page == b * page && (b - a) * page > 0
  {
  }

  lemma ProgressLength(l: Layout, resident: seq<bool>, dst: seq<byte>, src: seq<byte>, all: seq<Region>, pos: nat)
    requires l.Valid() && |resident| == l.pages && Progress(l, resident, dst, src, all, pos)
    ensures |dst| == |src| == l.size
  {
  }

  lemma Begins(l: Layout, resident: seq<bool>, dst: seq<byte>, src: seq<byte>, regions: seq<Region>)
    requires l.Valid() && |resident| == l.pages && |dst| == |src| == l.size
    requires forall k :: 0 <= k < l.size ==> dst[k] == 0
    ensures Progress(l, resident, dst, src, [], 0) && Recorded(regions, 0, false, [])
    ensures forall k :: 0 <= k < l.head ==> Live(l, resident, k)
    ensures forall k :: l.head + l.Middle() <= k < l.size ==> Live(l, resident, k)
  {
  }

  /** The middle pages' residency; when mincore fails it does not matter. */
  ghost function Residency(mincore: Option<seq<bool>>, pages: nat): seq<bool> {
    if mincore.Some? then mincore.value else seq(pages, _ => false)
  }

  /** mincore, if it succeeds, speaks of every page, and a page that is not resident reads as zero. */
  ghost predicate Answers(mincore: Option<seq<bool>>, l: Layout, src: seq<byte>)
    requires l.Valid()
  {
    mincore.Some? ==> |mincore.value| == l.pages && ZeroUnlessLive(l, mincore.value, src)
  }

  /** What a snapshot leaves: everything, with its live runs recorded as far as they fit, or only the head. */
  ghost predicate Snapped(mincore: Option<seq<bool>>, l: Layout, dst: seq<byte>, src: seq<byte>, regions: seq<Region>, count: nat, result: int,
                          all: seq<Region>)
    requires l.Valid() && (mincore.Some? ==> |mincore.value| == l.pages)
  {
    && (result == 0 || result == -1)
    && if mincore.Some? || l.pages == 0 then
         Progress(l, Residency(mincore, l.pages), dst, src, all, l.size) && Recorded(regions, count, result == -1, all)
       else
         result == -1 && Progress(l, Residency(mincore, l.pages), dst, src, all, l.head)
  }

  /** snapshot_wasm_memory; `mincore` is its answer for the middle pages, None when it fails. */
  method Snapshot(dst: array<byte>, src: array<byte>, address: nat, page: nat, mincore: Option<seq<bool>>, regions: array<Region>)
    returns (result: int, count: nat, ghost all: seq<Region>)
    requires page > 0 && dst != src && dst.Length == src.Length
    requires forall k :: 0 <= k < dst.Length ==> dst[k] == 0
    requires Answers(mincore, Cut(address, src.Length, page), src[..])
    modifies dst, regions
    ensures Snapped(mincore, Cut(address, src.Length, page), dst[..], src[..], regions[..], count, result, all)
    ensures result < 0 || count <= regions.Length
  {
    hide Progress, Recorded, Live, Cut, RoundUp;
    var l := Cut(address, src.Length, page);
    ghost var resident := Residency(mincore, l.pages);
    Begins(l, resident, dst[..], src[..], regions[..]);
    count, all := 0, [];
    var overflow := false;
    count, overflow, all := CopyEdge(dst, src, l, 0, l.head, regions, count, overflow, resident, all);
    if l.pages > 0 {
      if mincore.None? {
        return -1, count, all;
      }
      count, overflow, all := CopyMiddle(dst, src, l, mincore.value, regions, count, overflow, all);
    }
    count, overflow, all := CopyEdge(dst, src, l, l.head + l.Middle(), l.size - l.head - l.Middle(), regions, count, overflow, resident, all);
    result := if overflow then -1 else 0;
    RecordedFits(regions[..], count, overflow, all);
  }

  lemma RecordedFits(regions: seq<Region>, count: nat, overflow: bool, all: seq<Region>)
    requires Recorded(regions, count, overflow, all)
    ensures count <= |regions|
  {
  }

  /** The child's side: replay the list, or copy everything if there is none. */
  method Restore(child: array<byte>, snapshot: array<byte>, regions: array<Region>, count: nat)
    requires child != snapshot && snapshot.Length <= child.Length && count <= regions.Length
    modifies child
    ensures forall k :: snapshot.Length <= k < child.Length ==> child[k] == old(child[k])
    ensures forall k :: 0 <= k < snapshot.Length ==>
              child[k] == if count == 0 || Covered(Usable(regions[..count], snapshot.Length), k) then snapshot[k] else old(child[k])
  {
    hide Covered, Usable, Has;
    if count > 0 {
      ghost var was := child[..];
      NoneUsable(snapshot.Length);
      assert regions[..0] == [];
      for i := 0 to count
        invariant forall k :: snapshot.Length <= k < child.Length ==> child[k] == was[k]
        invariant Replayed(child[..snapshot.Length], snapshot[..], was, Usable(regions[..i], snapshot.Length))
      {
        var r := regions[i];
        ghost var before, done := child[..snapshot.Length], Usable(regions[..i], snapshot.Length);
        UsableSnoc(regions[..i], r, snapshot.Length);
        assert regions[..i + 1] == regions[..i] + [r];
        if r.off + r.len <= snapshot.Length {
          Copy(child, snapshot, r.off, r.len);
          ReplayedMore(before, child[..snapshot.Length], snapshot[..], was, done, r);
        } else {
          assert done + [] == done;
          assert child[..snapshot.Length] == before;
        }
      }
    } else {
      Copy(child, snapshot, 0, snapshot.Length);
    }
  }

  /** What the list covers is the snapshot, and the rest is as it was. */
  ghost predicate Replayed(child: seq<byte>, snapshot: seq<byte>, was: seq<byte>, done: seq<Region>)
    requires |child| == |snapshot| <= |was|
  {
    forall k :: 0 <= k < |snapshot| ==> child[k] == if Covered(done, k) then snapshot[k] else was[k]
  }

  lemma ReplayedMore(child: seq<byte>, child': seq<byte>, snapshot: seq<byte>, was: seq<byte>, done: seq<Region>, r: Region)
    requires |child| == |child'| == |snapshot| <= |was| && r.off + r.len <= |snapshot|
    requires Replayed(child, snapshot, was, done)
    requires forall k :: 0 <= k < |snapshot| ==> child'[k] == if r.off <= k < r.off + r.len then snapshot[k] else child[k]
    ensures Replayed(child', snapshot, was, done + [r])
  {
    hide Covered;
    forall k | 0 <= k < |snapshot| ensures child'[k] == if Covered(done + [r], k) then snapshot[k] else was[k] {
      CoveredSnoc(done, r, k);
    }
  }

  lemma NoneUsable(size: nat)
    ensures Usable([], size) == [] && forall k :: !Covered([], k)
  {
  }

  /** The regions that lie in the snapshot; the others are passed over. */
  function Usable(regions: seq<Region>, size: nat): seq<Region> {
    if regions == [] then []
    else
      var last := regions[|regions| - 1];
      Usable(regions[..|regions| - 1], size) + if last.off + last.len <= size then [last] else []
  }

  lemma UsableSnoc(regions: seq<Region>, r: Region, size: nat)
    ensures Usable(regions + [r], size) == Usable(regions, size) + if r.off + r.len <= size then [r] else []
  {
    assert (regions + [r])[..|regions|] == regions;
  }

  lemma SortedPrefix(regions: seq<Region>, size: nat)
    requires Sorted(regions, size) && regions != []
    ensures Sorted(regions[..|regions| - 1], size)
    ensures regions[|regions| - 1].off + regions[|regions| - 1].len <= size
  {
  }

  lemma {:induction false} AllUsable(regions: seq<Region>, size: nat)
    requires Sorted(regions, size)
    ensures Usable(regions, size) == regions
  {
    hide Sorted;
    if regions != [] {
      var most := regions[..|regions| - 1];
      SortedPrefix(regions, size);
      AllUsable(most, size);
      assert regions == most + [regions[|regions| - 1]];
    }
  }

  /** Nothing in the part of memory that needs mincore. */
  ghost predicate ZeroFrom(bytes: seq<byte>, start: nat) {
    forall k :: start <= k < |bytes| ==> bytes[k] == 0
  }

  /**
   A fork: the child's memory is the parent's, byte for byte, exactly when mincore succeeds, is not needed, or
   there is nothing past the head to lose.  A list that overflowed changes nothing.
   */
  method Fork(parent: array<byte>, address: nat, page: nat, mincore: Option<seq<bool>>) returns (child: array<byte>)
    requires page > 0 && Answers(mincore, Cut(address, parent.Length, page), parent[..])
    ensures fresh(child) && child.Length == parent.Length && parent[..] == old(parent[..])
    ensures var l := Cut(address, parent.Length, page);
            child[..] == parent[..] <==> mincore.Some? || l.pages == 0 || ZeroFrom(parent[..], l.head)
  {
    hide Snapped, Answers, Covered, Usable, ZeroFrom, Cut, Layout.Middle;
    ghost var l := Cut(address, parent.Length, page);
    var copy := new byte[parent.Length](_ => 0);
    var regions := new Region[MAX_REGIONS](_ => Region(0, 0));
    var result, count;
    ghost var all;
    result, count, all := Snapshot(copy, parent, address, page, mincore, regions);
    if result < 0 {
      count := 0;
    }
    child := new byte[parent.Length](_ => 0);
    Restore(child, copy, regions, count);
    Outcome(mincore, l, copy[..], parent[..], child[..], regions[..], count, result, all);
  }

  /** A list that did not overflow covers the live bytes of the snapshot. */
  lemma SnappedUsable(mincore: Option<seq<bool>>, l: Layout, copy: seq<byte>, parent: seq<byte>, regions: seq<Region>, count: nat, all: seq<Region>)
    requires l.Valid() && (mincore.Some? ==> |mincore.value| == l.pages)
    requires Snapped(mincore, l, copy, parent, regions, count, 0, all)
    ensures count == |all| && count <= |regions| && Usable(regions[..count], l.size) == all
  {
    hide Live;
    AllUsable(all, l.size);
    assert regions[..count] == all[..count] == all;
  }

  lemma NotLiveIsZero(mincore: Option<seq<bool>>, l: Layout, parent: seq<byte>)
    requires l.Valid() && |parent| == l.size && Answers(mincore, l, parent) && (mincore.Some? || l.pages == 0)
    ensures forall k :: 0 <= k < l.size && !Live(l, Residency(mincore, l.pages), k) ==> parent[k] == 0
  {
  }

  lemma Outcome(mincore: Option<seq<bool>>, l: Layout, copy: seq<byte>, parent: seq<byte>, child: seq<byte>, regions: seq<Region>, count: nat, result: int,
                all: seq<Region>)
    requires l.Valid() && |copy| == |parent| == |child| == l.size && Answers(mincore, l, parent)
    requires result < 0 ==> count == 0
    requires exists made: nat :: (result == 0 ==> made == count) && Snapped(mincore, l, copy, parent, regions, made, result, all)
    requires count <= |regions|
    requires forall k :: 0 <= k < l.size ==> child[k] == if count == 0 || Covered(Usable(regions[..count], l.size), k) then copy[k] else 0
    ensures child == parent <==> mincore.Some? || l.pages == 0 || ZeroFrom(parent, l.head)
  {
    hide Covered, Live;
    var whole := mincore.Some? || l.pages == 0;
    if result == 0 {
      SnappedUsable(mincore, l, copy, parent, regions, count, all);
    }
    if whole {
      NotLiveIsZero(mincore, l, parent);
      forall k | 0 <= k < l.size ensures child[k] == parent[k] {
        assert copy[k] == parent[k];
      }
    } else if child == parent {
      forall k | l.head <= k < l.size ensures parent[k] == 0 {
        assert child[k] == copy[k];
      }
    }
  }
}
