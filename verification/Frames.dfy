/** The physical frame allocator: a cursor over the flattened list of usable frames. */
module Frames {
  import opened Basics

  datatype Region = Region(usable: bool, start: nat, end: nat)

  /** First and last frame address of an inclusive frame range. */
  datatype FrameRange = FrameRange(begin: nat, last: nat)

  // ----- the list of usable frames -----

  /** `PhysFrame::containing_address`. */
  function FrameOf(addr: nat): nat {
    addr / 4096 * 4096
  }

  /** `(start..end).step_by(4096)`, each address taken to its frame. */
  function RegionFrames(start: nat, end: nat): seq<nat>
    decreases if start < end then end - start else 0
  {
    if start >= end then [] else [FrameOf(start)] + RegionFrames(start + 4096, end)
  }

  /** `KernelFrameAlloc::usable`. */
  function Usable(map_: seq<Region>): seq<nat> {
    if map_ == [] then []
    else (if map_[0].usable then RegionFrames(map_[0].start, map_[0].end) else []) + Usable(map_[1..])
  }

  /** What the boot loader is taken to guarantee: usable regions are page-aligned, ascending and disjoint. */
  ghost predicate WellFormed(map_: seq<Region>) {
    && (forall i :: 0 <= i < |map_| && map_[i].usable ==>
          map_[i].start % 4096 == 0 && map_[i].end % 4096 == 0 && map_[i].start <= map_[i].end)
    && (forall i, j :: 0 <= i < j < |map_| && map_[i].usable && map_[j].usable ==> map_[i].end <= map_[j].start)
  }

  ghost predicate Aligned(frames: seq<nat>) {
    forall i :: 0 <= i < |frames| ==> frames[i] % 4096 == 0
  }

  lemma {:induction false} RegionFramesAt(start: nat, end: nat)
    requires start % 4096 == 0 && end % 4096 == 0 && start <= end
    ensures 4096 * |RegionFrames(start, end)| == end - start
    ensures forall i :: 0 <= i < |RegionFrames(start, end)| ==> RegionFrames(start, end)[i] == start + 4096 * i
    decreases end - start
  {
    if start < end {
      RegionFramesAt(start + 4096, end);
    }
  }

  ghost predicate Within(frames: seq<nat>, lo: nat, hi: nat) {
    forall i :: 0 <= i < |frames| ==> lo <= frames[i] < hi
  }

  lemma JoinAscending(a: seq<nat>, b: seq<nat>, lo: nat, mid: nat)
    requires Ascending(a) && Aligned(a) && Within(a, lo, mid)
    requires Ascending(b) && Aligned(b) && forall i :: 0 <= i < |b| ==> mid <= b[i]
    requires lo <= mid
    ensures Ascending(a + b) && Aligned(a + b) && forall i :: 0 <= i < |a + b| ==> lo <= (a + b)[i]
  {
  }

  lemma RegionAscending(r: Region)
    requires r.start % 4096 == 0 && r.end % 4096 == 0 && r.start <= r.end
    ensures var frames := RegionFrames(r.start, r.end);
      Ascending(frames) && Aligned(frames) && Within(frames, r.start, r.end)
  {
    RegionFramesAt(r.start, r.end);
  }

  /** The flattened list is in strictly ascending order, so no frame occurs twice. */
  lemma {:induction false} UsableAscending(map_: seq<Region>, floor: nat)
    requires WellFormed(map_)
    requires forall i :: 0 <= i < |map_| && map_[i].usable ==> floor <= map_[i].start
    ensures Ascending(Usable(map_)) && Aligned(Usable(map_))
    ensures forall i :: 0 <= i < |Usable(map_)| ==> floor <= Usable(map_)[i]
  {
    hide Ascending, Aligned, Within, RegionFrames, WellFormed;
    if map_ == [] {
      EmptyAscending();
    } else {
      var r, rest := map_[0], map_[1..];
      WellFormedTail(map_);
      if r.usable {
        RegionAscending(r);
        UsableAscending(rest, r.end);
        WithinWider(RegionFrames(r.start, r.end), r.start, r.end, floor);
        JoinAscending(RegionFrames(r.start, r.end), Usable(rest), floor, r.end);
      } else {
        UsableAscending(rest, floor);
        assert [] + Usable(rest) == Usable(rest);
      }
    }
  }

  ghost predicate InUsable(map_: seq<Region>, f: nat) {
    exists i :: 0 <= i < |map_| && map_[i].usable && map_[i].start <= f < map_[i].end
  }

  /** The flattened list holds the frames of usable regions, all of them and no other. */
  lemma {:induction false} UsableExactly(map_: seq<Region>, f: nat)
    requires WellFormed(map_) && f % 4096 == 0
    ensures f in Usable(map_) <==> InUsable(map_, f)
  {
    hide RegionFrames, WellFormed;
    if map_ != [] {
      var r, rest := map_[0], map_[1..];
      WellFormedTail(map_);
      UsableExactly(rest, f);
      assert InUsable(map_, f) <==> (r.usable && r.start <= f < r.end) || InUsable(rest, f) by {
        InUsableSplit(map_, f);
      }
      if r.usable {
        RegionExactly(r, f);
      }
    }
  }

  lemma InUsableSplit(map_: seq<Region>, f: nat)
    requires map_ != []
    ensures InUsable(map_, f) <==> (map_[0].usable && map_[0].start <= f < map_[0].end) || InUsable(map_[1..], f)
  {
    var rest := map_[1..];
    assert forall i :: 0 < i < |map_| ==> map_[i] == rest[i - 1];
    assert forall i :: 0 <= i < |rest| ==> rest[i] == map_[i + 1];
  }

  lemma RegionExactly(r: Region, f: nat)
    requires r.start % 4096 == 0 && r.end % 4096 == 0 && r.start <= r.end && f % 4096 == 0
    ensures f in RegionFrames(r.start, r.end) <==> r.start <= f < r.end
  {
    hide RegionFrames;
    RegionFramesAt(r.start, r.end);
    if r.start <= f < r.end {
      WholePages(r.start, f);
      assert RegionFrames(r.start, r.end)[(f - r.start) / 4096] == f;
    }
  }

  lemma WellFormedTail(map_: seq<Region>)
    requires WellFormed(map_) && map_ != []
    ensures var r, rest := map_[0], map_[1..];
      && WellFormed(rest) && (forall i :: 0 <= i < |rest| ==> rest[i] == map_[i + 1])
      && (r.usable ==>
            && r.start % 4096 == 0 && r.end % 4096 == 0 && r.start <= r.end
            && forall i :: 0 <= i < |rest| && rest[i].usable ==> r.end <= rest[i].start)
  {
  }

  lemma WithinWider(frames: seq<nat>, lo: nat, hi: nat, floor: nat)
    requires Within(frames, lo, hi) && floor <= lo
    ensures Within(frames, floor, hi)
  {
  }

  lemma EmptyAscending()
    ensures Ascending([]) && Aligned([])
  {
  }

  // ----- allocation as a function of the cursor -----

  datatype Request = One | Many(size: nat)

  /** What a request returns at a cursor, and the cursor after it. A failed bulk request leaves the cursor,
      a failed single one still moves it. */
  function Alloc(frames: seq<nat>, next: nat, request: Request): (Option<FrameRange>, nat) {
    match request
    case One =>
      (if next < |frames| then Some(FrameRange(frames[next], frames[next])) else None, next + 1)
    case Many(size) =>
      if next + size < |frames| then (Some(FrameRange(frames[next], frames[next + size])), next + size + 1)
      else (None, next)
  }

  /** The ranges a run of requests hands out. */
  function Run(frames: seq<nat>, next: nat, requests: seq<Request>): seq<FrameRange>
    decreases |requests|
  {
    if requests == [] then []
    else
      var (granted, after) := Alloc(frames, next, requests[0]);
      (if granted.Some? then [granted.value] else []) + Run(frames, after, requests[1..])
  }

  /** Single requests hand out the frames from the cursor on, one after the other and none left out. */
  lemma {:induction false} SinglesInOrder(frames: seq<nat>, next: nat, n: nat, i: nat)
    requires next + n <= |frames| && i < n
    ensures
      var granted := Run(frames, next, seq(n, _ => One));
      |granted| == n && granted[i] == FrameRange(frames[next + i], frames[next + i])
    decreases n
  {
    var requests := seq(n, _ => One);
    assert requests[1..] == seq(n - 1, _ => One);
    if n > 1 {
      SinglesInOrder(frames, next + 1, n - 1, if i > 0 then i - 1 else 0);
    }
  }

  ghost predicate Contains(r: FrameRange, addr: nat) {
    r.begin <= addr < r.last + 4096
  }

  /** Ranges handed out from a cursor on start at or above the frame under it. */
  lemma {:induction false} RunAbove(frames: seq<nat>, next: nat, requests: seq<Request>, k: nat)
    requires Ascending(frames) && k < |Run(frames, next, requests)|
    ensures next < |frames| && frames[next] <= Run(frames, next, requests)[k].begin
    ensures Run(frames, next, requests)[k].begin <= Run(frames, next, requests)[k].last
    decreases |requests|
  {
    var (granted, after) := Alloc(frames, next, requests[0]);
    if granted.Some? && k > 0 {
      RunAbove(frames, after, requests[1..], k - 1);
    } else if granted.None? {
      RunAbove(frames, after, requests[1..], k);
    }
  }

  lemma PageApart(f: nat, g: nat)
    requires f % 4096 == 0 && g % 4096 == 0 && f < g
    ensures f + 4096 <= g
  {
  }

  /** A range ends below every range that is handed out after it. */
  lemma FirstBelow(frames: seq<nat>, next: nat, requests: seq<Request>, k: nat)
    requires Ascending(frames) && Aligned(frames) && requests != [] && Alloc(frames, next, requests[0]).0.Some?
    requires var after := Alloc(frames, next, requests[0]).1;
      k < |Run(frames, after, requests[1..])|
    ensures var (granted, after) := Alloc(frames, next, requests[0]);
      granted.value.last + 4096 <= Run(frames, after, requests[1..])[k].begin
  {
    hide Run;
    var after := Alloc(frames, next, requests[0]).1;
    RunAbove(frames, after, requests[1..], k);
    PageApart(frames[after - 1], frames[after]);
  }

  /** No address is ever handed out twice: in any run of single and bulk requests without frees,
      the address ranges, holes included, are pairwise disjoint. */
  lemma {:induction false} RunDisjoint(frames: seq<nat>, next: nat, requests: seq<Request>, j: nat, k: nat, addr: nat)
    requires Ascending(frames) && Aligned(frames) && j < k < |Run(frames, next, requests)|
    ensures !(Contains(Run(frames, next, requests)[j], addr) && Contains(Run(frames, next, requests)[k], addr))
    decreases |requests|
  {
    hide Ascending, Aligned;
    var (granted, after) := Alloc(frames, next, requests[0]);
    if granted.None? {
      RunDisjoint(frames, after, requests[1..], j, k, addr);
    } else if j > 0 {
      RunDisjoint(frames, after, requests[1..], j - 1, k - 1, addr);
    } else {
      FirstBelow(frames, next, requests, k - 1);
    }
  }

  // ----- freeing a bulk range -----

  /** The frames of an inclusive range, as its iterator counts them. */
  function Span(r: FrameRange): nat {
    if r.begin <= r.last then (r.last - r.begin) / 4096 + 1 else 0
  }

  /** The frame addresses a range covers. */
  ghost function Pages(r: FrameRange): set<nat>
    requires r.begin <= r.last
  {
    set k: nat | k < Span(r) :: r.begin + 4096 * k
  }

  ghost function Elements(frames: seq<nat>): set<nat> {
    set f | f in frames
  }

  /** The pages of a range that are not usable memory. */
  ghost function Holes(frames: seq<nat>, r: FrameRange): set<nat>
    requires r.begin <= r.last
  {
    Pages(r) - Elements(frames)
  }

  lemma {:induction false} CountMultiples(begin: nat, n: nat)
    ensures |set k: nat | k < n :: begin + 4096 * k| == n
  {
    var all := set k: nat | k < n :: begin + 4096 * k;
    if n > 0 {
      var most := set k: nat | k < n - 1 :: begin + 4096 * k;
      CountMultiples(begin, n - 1);
      assert all == most + {begin + 4096 * (n - 1)};
    } else {
      assert all == {};
    }
  }

  lemma {:induction false} CountAscending(frames: seq<nat>)
    requires Ascending(frames)
    ensures |Elements(frames)| == |frames|
  {
    if frames != [] {
      var n := |frames| - 1;
      CountAscending(frames[..n]);
      assert Elements(frames) == Elements(frames[..n]) + {frames[n]};
    }
  }

  lemma FrameInRange(frames: seq<nat>, next: nat, size: nat, i: nat)
    requires Ascending(frames) && Aligned(frames) && next <= i <= next + size < |frames|
    ensures frames[next] <= frames[i] <= frames[next + size]
    ensures frames[i] in Pages(FrameRange(frames[next], frames[next + size]))
  {
    var r := FrameRange(frames[next], frames[next + size]);
    var k := (frames[i] - r.begin) / 4096;
    WholePages(r.begin, frames[i]);
    assert k < Span(r);
  }

  lemma WholePages(f: nat, g: nat)
    requires f % 4096 == 0 && g % 4096 == 0 && f <= g
    ensures g == f + 4096 * ((g - f) / 4096)
  {
    assert g - f == 4096 * (g / 4096 - f / 4096);
  }

  lemma PageInRange(r: FrameRange, page: nat)
    requires r.begin <= r.last && page in Pages(r)
    ensures r.begin <= page <= r.last
  {
  }

  /** The usable pages of a bulk range are exactly the frames between the two cursors. */
  lemma UsablePages(frames: seq<nat>, next: nat, size: nat)
    requires Ascending(frames) && Aligned(frames) && next + size < |frames|
    ensures frames[next] <= frames[next + size]
    ensures Pages(FrameRange(frames[next], frames[next + size])) * Elements(frames)
      == Elements(frames[next..next + size + 1])
  {
    hide Pages, Span, Aligned;
    var r := FrameRange(frames[next], frames[next + size]);
    var slice := frames[next..next + size + 1];
    forall f | f in slice
      ensures f in Pages(r) && f in frames
    {
      var i :| 0 <= i < |slice| && slice[i] == f;
      FrameInRange(frames, next, size, next + i);
    }
    forall f | f in Pages(r) && f in frames
      ensures f in slice
    {
      PageInRange(r, f);
      var i :| 0 <= i < |frames| && frames[i] == f;
      assert slice[i - next] == f;
    }
  }

  /** A bulk range spans the frames it was cut from and the holes between them. */
  lemma SpanCounts(frames: seq<nat>, next: nat, size: nat)
    requires Ascending(frames) && Aligned(frames) && next + size < |frames|
    ensures frames[next] <= frames[next + size]
    ensures var r := FrameRange(frames[next], frames[next + size]);
      Span(r) == size + 1 + |Holes(frames, r)|
  {
    UsablePages(frames, next, size);
    var r := FrameRange(frames[next], frames[next + size]);
    CountMultiples(r.begin, Span(r));
    CountAscending(frames[next..next + size + 1]);
    var pages, all := Pages(r), Elements(frames);
    assert pages == (pages * all) + (pages - all);
  }

  /** Every page of the range is usable. */
  ghost predicate NoHole(frames: seq<nat>, r: FrameRange)
    requires r.begin <= r.last
  {
    Pages(r) <= Elements(frames)
  }

  lemma HolesNone(frames: seq<nat>, r: FrameRange)
    requires r.begin <= r.last
    ensures |Holes(frames, r)| == 0 <==> NoHole(frames, r)
  {
    NoDifference(Pages(r), Elements(frames));
  }

  lemma NoDifference(a: set<nat>, b: set<nat>)
    ensures |a - b| == 0 <==> a <= b
  {
    if a <= b {
      assert a - b == {};
    }
    if a - b == {} {
      assert forall x :: x in a ==> x in b || x in a - b;
    }
  }

  /** The cursor after a range was freed; `None` when a checked subtraction panics. */
  function Free(next: nat, r: FrameRange): Option<nat> {
    if Span(r) == 0 || (r.begin >= 4096 && Span(r) <= next) then Some(next - Span(r)) else None
  }

  /** Freeing the range a bulk request just returned leaves the cursor below its old place by the number of
      non-usable pages in the range. It is restored exactly when the range has no hole and does not start at
      page 0; otherwise it panics, or the next single request returns a frame that was handed out before the
      range. */
  lemma FreeAfterMany(frames: seq<nat>, next: nat, size: nat)
    requires Ascending(frames) && Aligned(frames) && next + size < |frames|
    ensures
      var (granted, after) := Alloc(frames, next, Many(size));
      && granted == Some(FrameRange(frames[next], frames[next + size])) && after == next + size + 1
      && granted.value.begin <= granted.value.last
      && var r, holes := granted.value, |Holes(frames, granted.value)|;
      && Free(after, r) == (if r.begin >= 4096 && holes <= next then Some(next - holes) else None)
      && (Free(after, r) == Some(next) <==> r.begin >= 4096 && NoHole(frames, r))
      && (Free(after, r).Some? && holes > 0 ==>
            var again := Alloc(frames, Free(after, r).value, One).0;
            again.Some? && again.value.begin == frames[next - holes] < r.begin)
  {
    hide Holes, NoHole;
    SpanCounts(frames, next, size);
    HolesNone(frames, FrameRange(frames[next], frames[next + size]));
  }

  class KernelFrameAlloc {
    const map_: seq<Region>
    var next: nat

    constructor (map_: seq<Region>)
      ensures this.map_ == map_ && next == 0
    {
      this.map_, next := map_, 0;
    }

    method AllocateFrame() returns (frame: Option<nat>)
      modifies this
      ensures next == Alloc(Usable(map_), old(next), One).1 == old(next) + 1
      ensures match frame
        case Some(f) => Alloc(Usable(map_), old(next), One).0 == Some(FrameRange(f, f))
        case None => Alloc(Usable(map_), old(next), One).0 == None
    {
      var usable := Usable(map_);
      frame := if next < |usable| then Some(usable[next]) else None;
      next := next + 1;
    }

    method AllocateMultiple(size: nat) returns (r: Option<(FrameRange, nat)>)
      modifies this
      ensures next == Alloc(Usable(map_), old(next), Many(size)).1
      ensures match r
        case Some((range, cursor)) => Alloc(Usable(map_), old(next), Many(size)).0 == Some(range) && cursor == next
        case None => Alloc(Usable(map_), old(next), Many(size)).0 == None && next == old(next)
    {
      var usable := Usable(map_);
      if next >= |usable| {
        return None;
      }
      var begin := usable[next];
      if next + size >= |usable| {
        return None;
      }
      var end := usable[next + size];
      next := next + size + 1;
      r := Some((FrameRange(begin, end), next));
    }

    /** Subtracts a page from the address and one from the cursor; a subtraction below zero panics. */
    method DeallocateFrame(frame: nat) returns (ok: bool)
      modifies this
      ensures ok <==> frame >= 4096 && old(next) >= 1
      ensures next == if ok then old(next) - 1 else old(next)
    {
      if frame < 4096 {
        return false;
      }
      if next == 0 {
        return false;
      }
      next := next - 1;
      return true;
    }

    /** Frees frame by frame up to the first panic. */
    method DeallocateMultiple(range: FrameRange) returns (ok: bool, count: nat)
      modifies this
      ensures ok <==> Free(old(next), range).Some?
      ensures ok ==> next == Free(old(next), range).value && count == Span(range)
    {
      count := 0;
      var frame := range.begin;
      while frame <= range.last
        invariant frame == range.begin + 4096 * count && count <= Span(range)
        invariant frame <= range.last ==> count < Span(range)
        invariant frame > range.last ==> count == Span(range)
        invariant count <= old(next) && next == old(next) - count && (count > 0 ==> range.begin >= 4096)
        decreases Span(range) - count
      {
        ok := DeallocateFrame(frame);
        if !ok {
          return;
        }
        frame := frame + 4096;
        count := count + 1;
      }
      ok := true;
    }
  }

  /** A memory map with one hole, at frame 3. */
  const HOLED: seq<Region> :=
    [Region(true, 0x1000, 0x3000), Region(false, 0x3000, 0x4000), Region(true, 0x4000, 0x5000)]

  lemma HoledFrames()
    ensures WellFormed(HOLED) && Usable(HOLED) == [0x1000, 0x2000, 0x4000]
  {
    hide RegionFrames;
    RegionFramesAt(0x1000, 0x3000);
    RegionFramesAt(0x4000, 0x5000);
    UsableCons(HOLED[0], HOLED[1..]);
    UsableCons(HOLED[1], HOLED[2..]);
    UsableCons(HOLED[2], []);
    assert HOLED == [HOLED[0]] + HOLED[1..] && HOLED[1..] == [HOLED[1]] + HOLED[2..] && HOLED[2..] == [HOLED[2]] + [];
    assert RegionFrames(0x1000, 0x3000) == [0x1000, 0x2000] && RegionFrames(0x4000, 0x5000) == [0x4000];
  }

  lemma UsableCons(r: Region, rest: seq<Region>)
    ensures Usable([r] + rest) == (if r.usable then RegionFrames(r.start, r.end) else []) + Usable(rest)
  {
    assert ([r] + rest)[1..] == rest;
  }

  /** One hole is enough: after frame 1 was taken, frames 2 and 4 are taken in bulk and freed, and the next
      single request gets frame 1 again. */
  lemma HoleReissues()
    ensures
      var frames := Usable(HOLED);
      && Alloc(frames, 0, One) == (Some(FrameRange(0x1000, 0x1000)), 1)
      && Alloc(frames, 1, Many(1)) == (Some(FrameRange(0x2000, 0x4000)), 3)
      && Free(3, FrameRange(0x2000, 0x4000)) == Some(0)
      && Alloc(frames, 0, One).0 == Some(FrameRange(0x1000, 0x1000))
  {
    hide Usable;
    HoledFrames();
  }
}
