/**
 The physical page allocator, on values.

 One descriptor stands for each physical frame, and the descriptor's position is the frame
 number.  `blockSize` counts down: on a free page it is the number of free pages left in its
 run, on a used page the number of pages left in its block.
 */
module Allocator {
  import opened Basics

  const PAGE_SIZE := 4096
  const DESCRIPTOR_BYTES := 24

  datatype Page = Page(used: int, blockSize: int, refCount: int)

  /** The number of pages that `kmalloc` computes for a request of `size` bytes. */
  function PagesFor(size: nat): (k: nat)
    ensures size <= k * PAGE_SIZE < size + PAGE_SIZE
  {
    if size % PAGE_SIZE > 0 then size / PAGE_SIZE + 1 else size / PAGE_SIZE
  }

  predicate IsFree(p: Page) {
    p.used == 0
  }

  predicate Fits(p: Page, k: nat) {
    p.used == 0 && p.blockSize >= k
  }

  /** The lowest frame at or after `from` whose descriptor says that `k` pages fit. */
  function FirstFit(ps: seq<Page>, k: nat, from: nat): (r: Option<nat>)
    requires from <= |ps|
    ensures r.Some? ==> from <= r.value < |ps| && Fits(ps[r.value], k)
    ensures r.Some? ==> forall j :: from <= j < r.value ==> !Fits(ps[j], k)
    ensures r.None? ==> forall j :: from <= j < |ps| ==> !Fits(ps[j], k)
    decreases |ps| - from
  {
    if from == |ps| then None
    else if Fits(ps[from], k) then Some(from)
    else FirstFit(ps, k, from + 1)
  }

  /** Descriptors `i .. i + k` rewritten as one block: flag, count and reference count. */
  function Stamp(ps: seq<Page>, i: nat, k: nat, flag: int): (r: seq<Page>)
    requires i + k <= |ps|
    ensures |r| == |ps|
  {
    seq(|ps|, j requires 0 <= j < |ps| => if i <= j < i + k then Page(flag, i + k - j, flag) else ps[j])
  }

  /** First-fit allocation of `k` pages.  `None` stands for the search leaving the table. */
  function Kmalloc(ps: seq<Page>, k: nat): (r: Option<(seq<Page>, nat)>)
  {
    var at := FirstFit(ps, k, 0);
    if k > 0 && at.Some? && at.value + k <= |ps| then Some((Stamp(ps, at.value, k, 1), at.value)) else None
  }

  /** `free` started at descriptor `i`: it trusts the count stored there. */
  function Release(ps: seq<Page>, i: nat): (r: Option<seq<Page>>)
  {
    if i < |ps| && ps[i].blockSize >= 0 && i + ps[i].blockSize <= |ps|
    then Some(Stamp(ps, i, ps[i].blockSize, 0)) else None
  }

  /** The number of pages that hold the descriptor table; the division rounds down. */
  function TablePages(numPages: nat): nat {
    numPages * DESCRIPTOR_BYTES / PAGE_SIZE
  }

  /**
   The table that `calculate_free_list` leaves behind.  The reference count of the pages that
   hold the table itself stays 0: the loop that reserves them writes it to the end marker.
   */
  function BootTable(numPages: nat, usedPages: nat, tablePages: nat): (r: seq<Page>)
    requires usedPages + tablePages <= numPages
    ensures |r| == numPages
  {
    var reserved := usedPages + tablePages;
    seq(numPages, j requires 0 <= j < numPages =>
      if j < usedPages then Page(1, usedPages - j, 1)
      else if j < reserved then Page(1, reserved - j, 0)
      else Page(0, numPages - j, 0))
  }

  // ---------------------------------------------------------------- the countdown invariant

  /** The count at `i` is positive and agrees with the page after it. */
  ghost predicate Counts(ps: seq<Page>, i: int)
    requires 0 <= i < |ps|
  {
    && ps[i].blockSize >= 1 && (ps[i].used == 0 || ps[i].used == 1)
    && (ps[i].blockSize > 1 ==>
          i + 1 < |ps| && ps[i + 1].used == ps[i].used && ps[i + 1].blockSize == ps[i].blockSize - 1)
  }

  /** Every count is honest: it counts down inside its run or block. */
  ghost predicate Countdown(ps: seq<Page>) {
    forall i :: 0 <= i < |ps| ==> Counts(ps, i)
  }

  /** What a count means: the next `blockSize` pages are in the same state, counting down to 1. */
  lemma {:induction false} CountIsHonest(ps: seq<Page>, i: nat, j: nat)
    requires Countdown(ps) && i < |ps| && j < ps[i].blockSize
    ensures i + j < |ps| && ps[i + j].used == ps[i].used && ps[i + j].blockSize == ps[i].blockSize - j
    decreases j
  {
    assert Counts(ps, i);
    if j > 0 {
      CountIsHonest(ps, i, j - 1);
      assert Counts(ps, i + j - 1) && (i + j < |ps| ==> Counts(ps, i + j));
    }
  }

  lemma CountSpan(ps: seq<Page>, i: nat)
    requires Countdown(ps) && i < |ps|
    ensures i + ps[i].blockSize <= |ps|
    ensures forall j :: i <= j < i + ps[i].blockSize ==>
                          ps[j].used == ps[i].used && ps[j].blockSize == i + ps[i].blockSize - j
  {
    assert Counts(ps, i);
    CountIsHonest(ps, i, ps[i].blockSize - 1);
    forall j | i <= j < i + ps[i].blockSize
      ensures ps[j].used == ps[i].used && ps[j].blockSize == i + ps[i].blockSize - j
    {
      CountIsHonest(ps, i, j - i);
    }
  }

  /** With honest counts the search result is a real run, so allocation fails only for want of one. */
  lemma KmallocTakesAFreeRun(ps: seq<Page>, k: nat)
    requires Countdown(ps) && k > 0
    ensures Kmalloc(ps, k).Some? <==> exists i :: 0 <= i < |ps| && Fits(ps[i], k)
    ensures Kmalloc(ps, k).Some? ==>
              var (ps', i) := Kmalloc(ps, k).value;
              && i + k <= |ps| == |ps'|
              && (forall j :: i <= j < i + k ==> IsFree(ps[j]) && ps'[j] == Page(1, i + k - j, 1))
              && (forall j :: 0 <= j < |ps| && !(i <= j < i + k) ==> ps'[j] == ps[j])
  {
    var at := FirstFit(ps, k, 0);
    if at.Some? {
      CountSpan(ps, at.value);
    }
  }

  /** First fit never splits a run behind the back of an earlier count. */
  lemma KmallocKeepsCountdown(ps: seq<Page>, k: nat)
    requires Countdown(ps) && Kmalloc(ps, k).Some?
    ensures Countdown(Kmalloc(ps, k).value.0)
  {
    var (ps', i) := Kmalloc(ps, k).value;
    CountSpan(ps, i);
    // A longer run just before the chosen page would have been chosen instead.
    assert i > 0 ==> !Fits(ps[i - 1], k) && Counts(ps, i - 1);
    forall j | 0 <= j < |ps'| ensures Counts(ps', j) {
      assert Counts(ps, j);
    }
  }

  /**
   Why first fit: claiming `k` free pages at any page `i` where they fit keeps the counts honest
   exactly when the page before `i` is not a free page of the same run.
   */
  lemma ClaimKeepsCountdownIff(ps: seq<Page>, i: nat, k: nat)
    requires Countdown(ps) && i < |ps| && k > 0 && Fits(ps[i], k) && i + k <= |ps|
    ensures Countdown(Stamp(ps, i, k, 1)) <==> (i == 0 || !IsFree(ps[i - 1]) || ps[i - 1].blockSize == 1)
  {
    CountSpan(ps, i);
    var ps' := Stamp(ps, i, k, 1);
    if i == 0 || !IsFree(ps[i - 1]) || ps[i - 1].blockSize == 1 {
      forall j | 0 <= j < |ps'| ensures Counts(ps', j) {
        assert Counts(ps, j);
      }
    } else {
      assert Counts(ps, i - 1) && !Counts(ps', i - 1);
    }
  }

  lemma ReleaseKeepsCountdown(ps: seq<Page>, i: nat)
    requires Countdown(ps) && i < |ps|
    requires ps[i].used == 1
    requires i > 0 && ps[i - 1].used == 1 ==> ps[i - 1].blockSize == 1
    ensures Release(ps, i).Some? && Countdown(Release(ps, i).value)
  {
    CountSpan(ps, i);
    assert Counts(ps, i);
    var ps' := Release(ps, i).value;
    forall j | 0 <= j < |ps'| ensures Counts(ps', j) {
      assert Counts(ps, j);
    }
  }
}
