/** Mapping the kernel heap: one frame per page, while `map_to` draws page-table frames
    from the same allocator. */
module Heap {
  import opened Basics
  import opened Frames

  const BEGIN_HEAP: nat := 0x2000_0000_0000

  /** What `map_to` does for one page: the page-table frames it asks for, and whether it accepts the page. */
  datatype MapStep = MapStep(tables: nat, accepts: bool)

  function PageAt(i: nat): nat {
    BEGIN_HEAP + 4096 * i
  }

  /** The cursor when page `i` is reached, all pages before it having been mapped. */
  function Pos(next: nat, steps: seq<MapStep>, i: nat): nat
    requires i <= |steps|
  {
    if i == 0 then next else Pos(next, steps, i - 1) + 1 + steps[i - 1].tables
  }

  /** Page `i` gets its own frame and all its page-table frames. */
  predicate Fits(frames: seq<nat>, next: nat, steps: seq<MapStep>, i: nat)
    requires i < |steps|
  {
    Pos(next, steps, i + 1) <= |frames| && steps[i].accepts
  }

  /** The page-table frames drawn for the first `k` pages. */
  function TableFrames(frames: seq<nat>, next: nat, steps: seq<MapStep>, k: nat): seq<nat>
    requires k <= |steps| && (k > 0 ==> Pos(next, steps, k) <= |frames|)
  {
    if k == 0 then []
    else TableFrames(frames, next, steps, k - 1) + frames[Pos(next, steps, k - 1) + 1..Pos(next, steps, k)]
  }

  /** The mapping of the first `k` pages. */
  function PagesFor(frames: seq<nat>, next: nat, steps: seq<MapStep>, k: nat): map<nat, nat>
    requires k <= |steps| && (k > 0 ==> Pos(next, steps, k) <= |frames|)
  {
    if k == 0 then map[] else PagesFor(frames, next, steps, k - 1)[PageAt(k - 1) := frames[Pos(next, steps, k - 1)]]
  }

  /** The page-table frames drawn for a page that could not be mapped. */
  function Lost(frames: seq<nat>, next: nat, steps: seq<MapStep>, k: nat): seq<nat>
    requires k < |steps|
  {
    frames[Min(|frames|, Pos(next, steps, k) + 1)..Min(|frames|, Pos(next, steps, k + 1))]
  }

  /** Where the cursor stands after the loop stopped at page `k`. */
  function Cursor(frames: seq<nat>, next: nat, steps: seq<MapStep>, k: nat): nat
    requires k <= |steps|
  {
    if k == |steps| then Pos(next, steps, k)
    else if Pos(next, steps, k) >= |frames| then Pos(next, steps, k) + 1
    else if Pos(next, steps, k + 1) > |frames| then |frames| + 1
    else Pos(next, steps, k + 1)
  }

  lemma {:induction false} PosAscends(next: nat, steps: seq<MapStep>, i: nat, j: nat)
    requires i <= j <= |steps|
    ensures i == j || Pos(next, steps, i) < Pos(next, steps, j)
  {
    if i < j {
      PosAscends(next, steps, i, j - 1);
    }
  }

  /** A page-table frame lies strictly between the frames of two neighbouring pages. */
  lemma {:induction false} TableFrameAt(frames: seq<nat>, next: nat, steps: seq<MapStep>, k: nat, t: nat)
    returns (i: nat, p: nat)
    requires k <= |steps| && Pos(next, steps, k) <= |frames| && t in TableFrames(frames, next, steps, k)
    ensures i < k && Pos(next, steps, i) < p < Pos(next, steps, i + 1) && p < |frames| && frames[p] == t
  {
    var drawn := frames[Pos(next, steps, k - 1) + 1..Pos(next, steps, k)];
    if t in drawn {
      var d :| 0 <= d < |drawn| && drawn[d] == t;
      i, p := k - 1, Pos(next, steps, k - 1) + 1 + d;
    } else {
      i, p := TableFrameAt(frames, next, steps, k - 1, t);
    }
  }

  lemma {:induction false} PagesForAt(frames: seq<nat>, next: nat, steps: seq<MapStep>, k: nat, page: nat)
    requires k <= |steps| && (k > 0 ==> Pos(next, steps, k) <= |frames|)
    ensures page in PagesFor(frames, next, steps, k) <==> exists i :: 0 <= i < k && page == PageAt(i)
    ensures forall i :: 0 <= i < k && page == PageAt(i) ==>
      Pos(next, steps, i) < |frames| && PagesFor(frames, next, steps, k)[page] == frames[Pos(next, steps, i)]
  {
    if k > 0 {
      PagesForAt(frames, next, steps, k - 1, page);
      assert page == PageAt(k - 1) ==> forall i :: 0 <= i < k - 1 ==> page != PageAt(i);
    }
  }

  /** The heap is one run of consecutive 4 KiB pages from its start on, and page by page it gets the frames the cursor
      comes to. */
  lemma HeapPages(frames: seq<nat>, next: nat, steps: seq<MapStep>, k: nat, page: nat)
    requires k <= |steps| && (k > 0 ==> Pos(next, steps, k) <= |frames|) && page % 4096 == 0
    ensures page in PagesFor(frames, next, steps, k) <==> 0x2000_0000_0000 <= page < 0x2000_0000_0000 + 4096 * k
    ensures page in PagesFor(frames, next, steps, k) ==>
      var i := (page - 0x2000_0000_0000) / 4096;
      && 0 <= i < k && Pos(next, steps, i) < |frames|
      && PagesFor(frames, next, steps, k)[page] == frames[Pos(next, steps, i)]
  {
    hide PagesFor, Pos;
    PagesForAt(frames, next, steps, k, page);
    if 0x2000_0000_0000 <= page < 0x2000_0000_0000 + 4096 * k {
      var i := (page - 0x2000_0000_0000) / 4096;
      assert page == PageAt(i);
    }
  }

  /** Distinct heap pages get distinct frames. */
  lemma HeapInjective(frames: seq<nat>, next: nat, steps: seq<MapStep>, k: nat, p: nat, q: nat)
    requires Ascending(frames) && k <= |steps| && (k > 0 ==> Pos(next, steps, k) <= |frames|)
    requires p in PagesFor(frames, next, steps, k) && q in PagesFor(frames, next, steps, k) && p != q
    ensures PagesFor(frames, next, steps, k)[p] != PagesFor(frames, next, steps, k)[q]
  {
    PagesForAt(frames, next, steps, k, p);
    PagesForAt(frames, next, steps, k, q);
    var i :| 0 <= i < k && p == PageAt(i);
    var j :| 0 <= j < k && q == PageAt(j);
    PosAscends(next, steps, if i < j then i else j, if i < j then j else i);
  }

  /** No heap frame is a page-table frame, not even one drawn for the page at which the loop failed. */
  lemma HeapAvoidsTables(frames: seq<nat>, next: nat, steps: seq<MapStep>, k: nat, page: nat)
    requires Ascending(frames) && k <= |steps| && (k > 0 ==> Pos(next, steps, k) <= |frames|)
    requires page in PagesFor(frames, next, steps, k)
    ensures PagesFor(frames, next, steps, k)[page] !in TableFrames(frames, next, steps, k)
    ensures k < |steps| ==> PagesFor(frames, next, steps, k)[page] !in Lost(frames, next, steps, k)
  {
    PagesForAt(frames, next, steps, k, page);
    var i :| 0 <= i < k && page == PageAt(i);
    forall t | t in TableFrames(frames, next, steps, k)
      ensures t != frames[Pos(next, steps, i)]
    {
      var j, p := TableFrameAt(frames, next, steps, k, t);
      PosAscends(next, steps, if i <= j then i else j + 1, if i <= j then j else i);
    }
    if k < |steps| {
      LostAbove(frames, next, steps, k, i);
    }
  }

  /** No frame goes missing: all that the cursor passed while `k` pages were mapped are heap frames or page tables,
      and their number says that none was taken twice. */
  lemma {:induction false} HeapConserves(frames: seq<nat>, next: nat, steps: seq<MapStep>, k: nat, p: nat)
    requires k <= |steps| && Pos(next, steps, k) <= |frames|
    ensures Pos(next, steps, k) - next == k + |TableFrames(frames, next, steps, k)|
    ensures next <= p < Pos(next, steps, k) ==>
      (exists i :: 0 <= i < k && p == Pos(next, steps, i)) || frames[p] in TableFrames(frames, next, steps, k)
  {
    hide Pos;
    if k == 0 {
      PosNone(next, steps);
    } else {
      PosNext(next, steps, k - 1);
      HeapConserves(frames, next, steps, k - 1, p);
      var at := Pos(next, steps, k - 1);
      var drawn := frames[at + 1..Pos(next, steps, k)];
      if at < p < Pos(next, steps, k) {
        assert drawn[p - at - 1] == frames[p];
      }
    }
  }

  lemma LostAbove(frames: seq<nat>, next: nat, steps: seq<MapStep>, k: nat, i: nat)
    requires Ascending(frames) && i < k < |steps| && Pos(next, steps, k) <= |frames|
    ensures Pos(next, steps, i) < |frames| && frames[Pos(next, steps, i)] !in Lost(frames, next, steps, k)
  {
    PosAscends(next, steps, i, k);
    forall d | 0 <= d < |Lost(frames, next, steps, k)|
      ensures Lost(frames, next, steps, k)[d] != frames[Pos(next, steps, i)]
    {
      assert Lost(frames, next, steps, k)[d] == frames[Pos(next, steps, k) + 1 + d];
    }
  }

  /** The state after one more page. */
  lemma NextPage(frames: seq<nat>, next: nat, steps: seq<MapStep>, k: nat, pages: map<nat, nat>, tables: seq<nat>)
    requires k < |steps| && (k > 0 ==> Pos(next, steps, k) <= |frames|) && Pos(next, steps, k + 1) <= |frames|
    ensures Pos(next, steps, k + 1) == Pos(next, steps, k) + 1 + steps[k].tables
    ensures (pages + PagesFor(frames, next, steps, k))[PageAt(k) := frames[Pos(next, steps, k)]]
      == pages + PagesFor(frames, next, steps, k + 1)
    ensures tables + TableFrames(frames, next, steps, k) + frames[Pos(next, steps, k) + 1..Pos(next, steps, k + 1)]
      == tables + TableFrames(frames, next, steps, k + 1)
  {
  }

  lemma NoPage(frames: seq<nat>, next: nat, steps: seq<MapStep>, pages: map<nat, nat>, tables: seq<nat>)
    ensures Pos(next, steps, 0) == next
    ensures pages + PagesFor(frames, next, steps, 0) == pages
    ensures tables + TableFrames(frames, next, steps, 0) == tables
  {
  }

  /** What a failed page adds to the page tables: nothing without a frame of its own, else what could be drawn. */
  lemma LostAt(frames: seq<nat>, next: nat, steps: seq<MapStep>, k: nat, tables: seq<nat>)
    requires k < |steps|
    ensures
      var at, end := Pos(next, steps, k), Pos(next, steps, k + 1);
      && (at >= |frames| ==> tables + Lost(frames, next, steps, k) == tables)
      && (at < |frames| ==> tables + Lost(frames, next, steps, k) == tables + frames[at + 1..Min(|frames|, end)])
  {
  }

  lemma PosNone(next: nat, steps: seq<MapStep>)
    ensures Pos(next, steps, 0) == next
  {
  }

  lemma PosNext(next: nat, steps: seq<MapStep>, k: nat)
    requires k < |steps|
    ensures Pos(next, steps, k + 1) == Pos(next, steps, k) + 1 + steps[k].tables
  {
  }

  class PageMapper {
    var pages: map<nat, nat>
    var tables: seq<nat>

    constructor ()
      ensures pages == map[] && tables == []
    {
      pages, tables := map[], [];
    }

    /** `map_to`: draws page-table frames one by one, then enters the page. */
    method MapTo(falloc: KernelFrameAlloc, page: nat, frame: nat, step: MapStep) returns (ok: bool)
      requires falloc.next <= |Usable(falloc.map_)|
      modifies this, falloc
      ensures
        var frames, end := Usable(falloc.map_), old(falloc.next) + step.tables;
        && tables == old(tables) + frames[old(falloc.next)..Min(|frames|, end)]
        && falloc.next == (if end <= |frames| then end else |frames| + 1)
        && ok == (step.accepts && end <= |frames|)
        && pages == if ok then old(pages)[page := frame] else old(pages)
    {
      ghost var frames, start := Usable(falloc.map_), falloc.next;
      assert tables == tables + frames[start..start];
      for j := 0 to step.tables
        invariant falloc.next == start + j <= |frames|
        invariant tables == old(tables) + frames[start..start + j] && pages == old(pages)
      {
        var f := falloc.AllocateFrame();
        if f.None? {
          return false;
        }
        assert frames[start..start + j] + [frames[start + j]] == frames[start..start + j + 1];
        tables := tables + [f.value];
      }
      if step.accepts {
        pages := pages[page := frame];
      }
      return step.accepts;
    }

    /** `heap_init_inner` for any number of pages: exactly the first `k` pages are mapped, and
        `k` is all of them or the first that does not fit. */
    method HeapInit(falloc: KernelFrameAlloc, steps: seq<MapStep>) returns (ok: bool, k: nat)
      modifies this, falloc
      ensures k <= |steps| && (ok <==> k == |steps|)
      ensures k < |steps| ==> !Fits(Usable(falloc.map_), old(falloc.next), steps, k)
      ensures forall i :: 0 <= i < k ==> Fits(Usable(falloc.map_), old(falloc.next), steps, i)
      ensures k > 0 ==> Pos(old(falloc.next), steps, k) <= |Usable(falloc.map_)|
      ensures pages == old(pages) + PagesFor(Usable(falloc.map_), old(falloc.next), steps, k)
      ensures tables == old(tables) + TableFrames(Usable(falloc.map_), old(falloc.next), steps, k)
                      + if ok then [] else Lost(Usable(falloc.map_), old(falloc.next), steps, k)
      ensures falloc.next == Cursor(Usable(falloc.map_), old(falloc.next), steps, k)
    {
      hide Usable, Pos, PagesFor, TableFrames, PageAt, Lost;
      ghost var frames, start := Usable(falloc.map_), falloc.next;
      k := 0;
      NoPage(frames, start, steps, pages, tables);
      while k < |steps|
        invariant k <= |steps| && falloc.next == Pos(start, steps, k)
        invariant forall i :: 0 <= i < k ==> Fits(frames, start, steps, i)
        invariant k > 0 ==> Pos(start, steps, k) <= |frames|
        invariant pages == old(pages) + PagesFor(frames, start, steps, k)
        invariant tables == old(tables) + TableFrames(frames, start, steps, k)
      {
        PosNext(start, steps, k);
        LostAt(frames, start, steps, k, old(tables) + TableFrames(frames, start, steps, k));
        var f := falloc.AllocateFrame();
        if f.None? {
          return false, k;
        }
        var mapped := MapTo(falloc, PageAt(k), f.value, steps[k]);
        if !mapped {
          return false, k;
        }
        NextPage(frames, start, steps, k, old(pages), old(tables));
        k := k + 1;
      }
      ok := true;
    }
  }
}
