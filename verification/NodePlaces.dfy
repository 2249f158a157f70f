/**
 Where the nodes of a program land.  The first node has a frame of its own and each further node the
 frame after it, whatever that frame is used for: a page of the program, or one of its page tables.
 */
module NodePlaces {
  import opened Basics
  import opened Allocator
  import opened AllocatorRuns
  import opened Addresses
  import opened Bytes
  import opened Paging
  import opened PageTree
  import opened UserMemory
  import opened Loader
  import opened AreaList
  import opened ProgramImage
  import opened Suffix
  import opened Footprint

  // ---------------------------------------------------------------- the pages of a program

  /** The pages of all segments in the order in which they are mapped. */
  function PagePaths(ss: seq<Segment>): (ps: seq<seq<nat>>)
    ensures forall k :: 0 <= k < |ps| ==> |ps[k]| == 4
    decreases |ss|
  {
    if ss == [] then [] else PagePaths(ss[..|ss| - 1]) + SegmentPaths(ss[|ss| - 1])
  }

  function FirstPages(ss: seq<Segment>): nat {
    if ss == [] then 0 else PageCount(ss[0])
  }

  /** The pages of the first `i` segments come first. */
  lemma {:induction false} PagesPrefix(ss: seq<Segment>, i: nat)
    requires i <= |ss|
    ensures |PagePaths(ss[..i])| <= |PagePaths(ss)| && PagePaths(ss[..i]) == PagePaths(ss)[..|PagePaths(ss[..i])|]
    decreases |ss|
  {
    hide SegmentPaths;
    if i < |ss| {
      assert ss[..|ss| - 1][..i] == ss[..i];
      PagesPrefix(ss[..|ss| - 1], i);
    } else {
      assert ss[..i] == ss;
    }
  }

  lemma FirstPagesFirst(ss: seq<Segment>)
    requires ss != []
    ensures FirstPages(ss) <= |PagePaths(ss)| && PagePaths(ss)[..FirstPages(ss)] == SegmentPaths(ss[0])
  {
    PagesPrefix(ss, 1);
    assert ss[..1][..0] == [] && PagePaths(ss[..1][..0]) == [];
    assert PagePaths(ss[..1]) == SegmentPaths(ss[0]);
  }

  lemma PathsStep(ss: seq<Segment>, i: nat)
    requires i < |ss|
    ensures PagePaths(ss[..i + 1]) == PagePaths(ss[..i]) + SegmentPaths(ss[i])
  {
    hide SegmentPaths;
    assert ss[..i + 1][..i] == ss[..i];
  }

  /** Page `j` of segment `i`. */
  lemma PathOfPage(ss: seq<Segment>, i: nat, j: nat)
    requires i < |ss| && j < PageCount(ss[i])
    ensures |PagePaths(ss[..i])| + j < |PagePaths(ss)|
    ensures PagePaths(ss)[|PagePaths(ss[..i])| + j] == SegmentPaths(ss[i])[j]
  {
    hide PagePaths, SegmentPaths, PageCount;
    PagesPrefix(ss, i + 1);
    PathsStep(ss, i);
    var m := |PagePaths(ss[..i])| + j;
    assert PagePaths(ss[..i + 1])[m] == SegmentPaths(ss[i])[j];
  }

  /** Every page belongs to a segment. */
  lemma {:induction false} SegmentOfPage(ss: seq<Segment>, m: nat) returns (i: nat, j: nat)
    requires m < |PagePaths(ss)|
    ensures i < |ss| && j < PageCount(ss[i]) && SegmentPaths(ss[i])[j] == PagePaths(ss)[m]
    decreases |ss|
  {
    hide SegmentPaths;
    var n := |ss| - 1;
    if m < |PagePaths(ss[..n])| {
      i, j := SegmentOfPage(ss[..n], m);
    } else {
      i, j := n, m - |PagePaths(ss[..n])|;
    }
  }

  // ---------------------------------------------------------------- frames, computed

  /** The frame of page `m`: the first node comes between the first segment and the others. */
  function PageFrame(have: set<seq<nat>>, top: nat, ss: seq<Segment>, m: nat): nat
    requires m <= |PagePaths(ss)|
  {
    top + FramesFor(have, PagePaths(ss)[..m]) + if m < FirstPages(ss) then 0 else 1
  }

  function FirstNodeFrame(have: set<seq<nat>>, top: nat, ss: seq<Segment>): nat
    requires ss != []
  {
    top + FramesFor(have, SegmentPaths(ss[0]))
  }

  /** All frames that the segments and the first node take. */
  function ImageFrames(have: set<seq<nat>>, ss: seq<Segment>): nat {
    FramesFor(have, PagePaths(ss)) + if ss == [] then 0 else 1
  }

  lemma {:induction false} FramesAppend(have: set<seq<nat>>, a: seq<seq<nat>>, b: seq<seq<nat>>)
    requires (forall k :: 0 <= k < |a| ==> |a[k]| == 4) && forall k :: 0 <= k < |b| ==> |b[k]| == 4
    ensures TablesAfter(have, a + b) == TablesAfter(TablesAfter(have, a), b)
    ensures FramesFor(have, a + b) == FramesFor(have, a) + FramesFor(TablesAfter(have, a), b)
    decreases |b|
  {
    hide Missing, WithTables;
    if b == [] {
      assert a + b == a;
    } else {
      assert (a + b)[..|a + b| - 1] == a + b[..|b| - 1];
      FramesAppend(have, a, b[..|b| - 1]);
    }
  }

  /** With every table comes the one above it. */
  ghost predicate Closed(have: set<seq<nat>>) {
    forall p :: p in have && |p| > 1 ==> p[..|p| - 1] in have
  }

  lemma {:induction false} WithTablesClosed(have: set<seq<nat>>, p: seq<nat>)
    requires Closed(have)
    ensures Closed(WithTables(have, p)) && (p != [] ==> p in WithTables(have, p))
    decreases |p|
  {
    if p != [] {
      WithTablesClosed(have, p[..|p| - 1]);
    }
  }

  lemma {:induction false} TablesAfterClosed(have: set<seq<nat>>, paths: seq<seq<nat>>)
    requires Closed(have) && forall k :: 0 <= k < |paths| ==> |paths[k]| == 4
    ensures Closed(TablesAfter(have, paths))
    decreases |paths|
  {
    hide Closed;
    if paths != [] {
      var n := |paths| - 1;
      TablesAfterClosed(have, paths[..n]);
      WithTablesClosed(TablesAfter(have, paths[..n]), paths[n][..3]);
    }
  }

  lemma {:induction false} NoneMissing(have: set<seq<nat>>, p: seq<nat>)
    requires Closed(have) && (p in have || p == [])
    ensures Missing(have, p) == 0 && WithTables(have, p) == have
    decreases |p|
  {
    if |p| == 1 {
      assert p[..0] == [];
    } else if p != [] {
      NoneMissing(have, p[..|p| - 1]);
    }
  }

  /** Pages whose leaf tables are there already take one frame each. */
  lemma {:induction false} NearPages(have: set<seq<nat>>, paths: seq<seq<nat>>)
    requires Closed(have) && forall k :: 0 <= k < |paths| ==> |paths[k]| == 4 && paths[k][..3] in have
    ensures FramesFor(have, paths) == |paths| && TablesAfter(have, paths) == have
    decreases |paths|
  {
    if paths != [] {
      var n := |paths| - 1;
      NearPages(have, paths[..n]);
      NoneMissing(have, paths[n][..3]);
    }
  }

  /** More pages take more frames. */
  lemma {:induction false} FramesGrow(have: set<seq<nat>>, paths: seq<seq<nat>>, m: nat)
    requires m <= |paths| && forall k :: 0 <= k < |paths| ==> |paths[k]| == 4
    ensures FramesFor(have, paths[..m]) + |paths| - m <= FramesFor(have, paths)
    decreases |paths|
  {
    hide Missing, TablesAfter;
    if m == |paths| {
      assert paths[..m] == paths;
    } else {
      var n := |paths| - 1;
      assert paths[..n][..m] == paths[..m];
      FramesGrow(have, paths[..n], m);
    }
  }

  // ---------------------------------------------------------------- the condition

  /**
   Node `j` fits: with segment `j` there are at least `j` pages behind the first segment, and the
   last page before the `j`-th of them needs no leaf table that the first segment did not need.
   */
  predicate NodeFits(have: set<seq<nat>>, ss: seq<Segment>, j: nat)
    requires j < |ss|
  {
    var p, paths := FirstPages(ss), PagePaths(ss[..j + 1]);
    p + j <= |paths| && (j > 1 ==> paths[p + j - 2][..3] in TablesAfter(have, SegmentPaths(ss[0])))
  }

  predicate NodesFit(have: set<seq<nat>>, ss: seq<Segment>) {
    forall j :: 1 <= j < |ss| ==> NodeFits(have, ss, j)
  }

  lemma FitStep(have: set<seq<nat>>, ss: seq<Segment>)
    requires |ss| > 1
    ensures NodesFit(have, ss) <==> NodesFit(have, ss[..|ss| - 1]) && NodeFits(have, ss, |ss| - 1)
  {
    var n := |ss| - 1;
    forall j | 1 <= j < n ensures NodeFits(have, ss[..n], j) == NodeFits(have, ss, j) {
      assert ss[..n][..j + 1] == ss[..j + 1] && ss[..n][0] == ss[0];
    }
    hide NodeFits;
    if NodesFit(have, ss) {
      assert NodesFit(have, ss[..n]);
    }
  }

  /** Page `m` needs no leaf table that the first segment did not need. */
  predicate NearPage(have: set<seq<nat>>, ss: seq<Segment>, m: nat)
    requires ss != []
  {
    m < |PagePaths(ss)| && PagePaths(ss)[m][..3] in TablesAfter(have, SegmentPaths(ss[0]))
  }

  /** When all nodes up to `j` fit, the first `j - 1` pages behind the first segment are near. */
  lemma FitIsNear(have: set<seq<nat>>, ss: seq<Segment>, m: nat)
    requires NodesFit(have, ss) && m + 2 < |ss|
    ensures NearPage(have, ss, FirstPages(ss) + m)
  {
    assert NodeFits(have, ss, m + 2);
    hide PagePaths, TablesAfter, SegmentPaths;
    PagesPrefix(ss, m + 3);
    assert PagePaths(ss[..m + 3])[FirstPages(ss) + m] == PagePaths(ss)[FirstPages(ss) + m];
  }

  /** When the nodes fit, page `p + m` behind the first segment lies in frame `m + 1` behind the first node. */
  lemma NearFrames(have: set<seq<nat>>, top: nat, ss: seq<Segment>, x: nat)
    requires Closed(have) && ss != [] && FirstPages(ss) + x <= |PagePaths(ss)|
    requires forall m :: FirstPages(ss) <= m < FirstPages(ss) + x ==> NearPage(have, ss, m)
    ensures PageFrame(have, top, ss, FirstPages(ss) + x) == FirstNodeFrame(have, top, ss) + 1 + x
    ensures TablesAfter(have, PagePaths(ss)[..FirstPages(ss) + x]) == TablesAfter(have, SegmentPaths(ss[0]))
  {
    hide FramesFor, TablesAfter, PagePaths, SegmentPaths, Closed;
    var p, a := FirstPages(ss), PagePaths(ss);
    FirstPagesFirst(ss);
    assert a[..p + x] == a[..p] + a[p..p + x];
    FramesAppend(have, a[..p], a[p..p + x]);
    TablesAfterClosed(have, SegmentPaths(ss[0]));
    var near := a[p..p + x];
    forall k | 0 <= k < |near| ensures near[k][..3] in TablesAfter(have, SegmentPaths(ss[0])) {
      assert NearPage(have, ss, p + k);
    }
    NearPages(TablesAfter(have, SegmentPaths(ss[0])), near);
  }

  /** All pages that an earlier node lies over are near. */
  lemma NearBefore(have: set<seq<nat>>, ss: seq<Segment>)
    requires |ss| > 1 && NodesFit(have, ss[..|ss| - 1])
    ensures forall m :: FirstPages(ss) <= m < FirstPages(ss) + |ss| - 3 ==> NearPage(have, ss, m)
  {
    hide PagePaths, TablesAfter, SegmentPaths, NodesFit;
    var n := |ss| - 1;
    assert ss[..n][0] == ss[0];
    PagesPrefix(ss, n);
    forall m | FirstPages(ss) <= m < FirstPages(ss) + n - 2 ensures NearPage(have, ss, m) {
      FitIsNear(have, ss[..n], m - FirstPages(ss));
      assert PagePaths(ss[..n])[m] == PagePaths(ss)[m];
    }
  }

  /** A page that is not near takes at least two frames. */
  lemma FarPage(have: set<seq<nat>>, paths: seq<seq<nat>>, m: nat)
    requires m < |paths| && (forall k :: 0 <= k < |paths| ==> |paths[k]| == 4)
    requires paths[m][..3] !in TablesAfter(have, paths[..m])
    ensures FramesFor(have, paths[..m + 1]) >= FramesFor(have, paths[..m]) + 2
  {
    assert paths[..m + 1][..m] == paths[..m] && paths[..m + 1][m] == paths[m];
    assert paths[m][..3] != [];
    hide TablesAfter;
  }

  /** The next node lies over a page exactly when it fits. */
  lemma NodeOnPageIff(have: set<seq<nat>>, top: nat, ss: seq<Segment>)
    requires Closed(have) && |ss| > 1 && NodesFit(have, ss[..|ss| - 1])
    ensures var n := |ss| - 1;
            NodeFits(have, ss, n) <==>
            exists m :: 0 <= m < |PagePaths(ss)| && PageFrame(have, top, ss, m) == FirstNodeFrame(have, top, ss) + n
  {
    hide PagePaths, TablesAfter, SegmentPaths, NodesFit, Closed, FramesFor;
    var n, p, a := |ss| - 1, FirstPages(ss), PagePaths(ss);
    assert ss[..n + 1] == ss;
    NearBefore(have, ss);
    if NodeFits(have, ss, n) {
      assert n > 1 ==> NearPage(have, ss, p + n - 2);
      NearFrames(have, top, ss, n - 1);
    } else if m :| 0 <= m < |a| && PageFrame(have, top, ss, m) == FirstNodeFrame(have, top, ss) + n {
      NoPageThere(have, top, ss, m);
    }
  }

  lemma NoPageThere(have: set<seq<nat>>, top: nat, ss: seq<Segment>, m: nat)
    requires Closed(have) && |ss| > 1 && NodesFit(have, ss[..|ss| - 1]) && !NodeFits(have, ss, |ss| - 1)
    requires m < |PagePaths(ss)|
    ensures PageFrame(have, top, ss, m) != FirstNodeFrame(have, top, ss) + |ss| - 1
  {
    hide PagePaths, TablesAfter, SegmentPaths, NodesFit, Closed, FramesFor;
    var n, p, a := |ss| - 1, FirstPages(ss), PagePaths(ss);
    assert ss[..n + 1] == ss;
    FirstPagesFirst(ss);
    NearBefore(have, ss);
    if m < p {
      assert a[..p][..m] == a[..m];
      FramesGrow(have, a[..p], m);
    } else {
      assert a[..m][..p] == a[..p];
      FramesGrow(have, a[..m], p);
      if m + 2 <= p + n {
        NearFrames(have, top, ss, m - p);
      } else if m + 1 == p + n && n > 1 {
        NearFrames(have, top, ss, n - 2);
        FarPage(have, a, p + n - 2);
      }
    }
  }

  // ---------------------------------------------------------------- the pages in memory

  /** The tables before page `m` was mapped. */
  function TablesAt(have: set<seq<nat>>, ss: seq<Segment>, m: nat): set<seq<nat>>
    requires m <= |PagePaths(ss)|
  {
    TablesAfter(have, PagePaths(ss)[..m])
  }

  /** Every page of the program lies where it was computed to lie, and so does every table made for it. */
  ghost predicate PagesLaid(mem: Memory, root: nat, have: set<seq<nat>>, top: nat, ss: seq<Segment>) {
    forall m :: 0 <= m < |PagePaths(ss)| ==>
                  PagePlaced(mem, root, TablesAt(have, ss, m), PagePaths(ss)[m], PageFrame(have, top, ss, m))
  }

  /** ... and the first free frame and the tables are as computed. */
  ghost predicate Laid(vm: Vm, root: nat, have: set<seq<nat>>, top: nat, ss: seq<Segment>) {
    && PagesLaid(vm.mem, root, have, top, ss)
    && StandsAt(vm, root, top + ImageFrames(have, ss), TablesAfter(have, PagePaths(ss)))
  }

  lemma {:induction false} EarlierPaths(ss: seq<Segment>, s: Segment, m: nat)
    requires m < |PagePaths(ss)| && forall i :: 0 <= i < |ss| ==> PageDisjoint(ss[i], s)
    ensures PagePaths(ss)[m] !in SegmentPaths(s)
  {
    hide PagePaths, SegmentPaths, PageDisjoint, PageCount;
    var i, j := SegmentOfPage(ss, m);
    DisjointPagePath(ss[i], s, j);
  }

  lemma {:induction false} PathsAreIndices(image: seq<byte>, ss: seq<Segment>, m: nat)
    requires m < |PagePaths(ss)| && forall i :: 0 <= i < |ss| ==> SegmentOk(image, ss[i])
    ensures UserPage(PagePaths(ss)[m])
  {
    hide PagePaths, SegmentPaths, PageCount, SegmentOk;
    var i, j := SegmentOfPage(ss, m);
    SegmentUserPages(image, ss[i]);
  }

  /** Frames of pages, before and behind the end of the earlier segments. */
  lemma FrameStep(have: set<seq<nat>>, top: nat, ss: seq<Segment>, m: nat)
    requires ss != [] && m < |PagePaths(ss)|
    ensures var n := |ss| - 1;
            var a, b := PagePaths(ss[..n]), SegmentPaths(ss[n]);
            && PagePaths(ss) == a + b
            && (m < |a| ==> PageFrame(have, top, ss, m) == PageFrame(have, top, ss[..n], m)
                            && TablesAt(have, ss, m) == TablesAt(have, ss[..n], m))
            && (m >= |a| ==> m - |a| < |b| && TablesAt(have, ss, m) == TablesAfter(TablesAfter(have, a), b[..m - |a|])
                             && PageFrame(have, top, ss, m) == top + FramesFor(have, a) + (if n == 0 then 0 else 1)
                                                               + FramesFor(TablesAfter(have, a), b[..m - |a|]))
  {
    var n := |ss| - 1;
    var a, b := PagePaths(ss[..n]), SegmentPaths(ss[n]);
    assert PagePaths(ss) == a + b;
    hide FramesFor, TablesAfter, SegmentPaths, PagePaths;
    if m < |a| {
      assert (a + b)[..m] == a[..m];
      EmptyPaths(ss[..n]);
    } else {
      assert (a + b)[..m] == a + b[..m - |a|];
      FramesAppend(have, a, b[..m - |a|]);
      if n > 0 {
        FirstPagesFirst(ss[..n]);
      } else {
        EmptyPaths(ss[..n]);
      }
    }
  }

  lemma EmptyPaths(ss: seq<Segment>)
    ensures ss == [] ==> PagePaths(ss) == []
  {
  }

  /** The segment of one turn, placed behind the earlier ones. */
  lemma SegmentLaid(vm: Vm, own: map<nat, Owner>, kroot: nat, root: nat, image: seq<byte>, ss: seq<Segment>, top: nat,
                    have: set<seq<nat>>)
    requires TreeInv(vm, own, kroot) && IsRoot(own, root) && ss != [] && ListOk(image, ss)
    requires Laid(vm, root, have, top, ss[..|ss| - 1])
    ensures var n := |ss| - 1;
            var r := LoadSegment(vm, root, image, ss[n]);
            var next := top + FramesFor(have, PagePaths(ss)) + if n == 0 then 0 else 1;
            && !r.PageFault? && (r.Loaded? <==> next <= |vm.pages|)
            && (r.Loaded? ==> |r.vm.pages| == |vm.pages| && PagesLaid(r.vm.mem, root, have, top, ss)
                              && StandsAt(r.vm, root, next, TablesAfter(have, PagePaths(ss))))
  {
    hide TreeInv, StandsAt, LoadSegment, SegmentPaths, FramesFor, TablesAfter, SegmentOk, PageDisjoint, PagesLaid,
         RegionAlloc, Placed, SegmentLoaded, PagesFresh, Grows, Walk, KeepsReach;
    var n := |ss| - 1;
    var a, b := PagePaths(ss[..n]), SegmentPaths(ss[n]);
    FramesAppend(have, a, b);
    SegmentExact(vm, own, kroot, root, image, ss[n], top + ImageFrames(have, ss[..n]), TablesAfter(have, a));
    if LoadSegment(vm, root, image, ss[n]).Loaded? {
      LoadedRegion(vm, root, image, ss[n]);
      var own' := SegmentTheorem(vm, own, kroot, root, image, ss[n]);
      AllLaid(vm.mem, LoadSegment(vm, root, image, ss[n]).vm.mem, root, image, ss, top, have);
    }
  }

  lemma LoadedRegion(vm: Vm, root: nat, image: seq<byte>, s: Segment)
    requires LoadSegment(vm, root, image, s).Loaded?
    ensures RegionAlloc(vm, root, SegmentPaths(s)).Some?
  {
    hide SegmentPaths, RegionAlloc, CopyAt, Locate;
  }

  lemma AllLaid(mem: Memory, mem': Memory, root: nat, image: seq<byte>, ss: seq<Segment>, top: nat, have: set<seq<nat>>)
    requires ss != [] && ListOk(image, ss) && PagesLaid(mem, root, have, top, ss[..|ss| - 1])
    requires KeepsReach(mem, mem', root)
    requires var n := |ss| - 1;
             && UserPages(SegmentPaths(ss[n]))
             && Placed(mem', root, TablesAfter(have, PagePaths(ss[..n])), SegmentPaths(ss[n]),
                  top + ImageFrames(have, ss[..n]))
             && forall q: seq<nat> :: |q| == 4 && Indices(q) && q !in SegmentPaths(ss[n]) ==>
                  Walk(mem', root, q) == Walk(mem, root, q)
    ensures PagesLaid(mem', root, have, top, ss)
  {
    hide Walk, SegmentPaths, FramesFor, TablesAfter, PageFrame, PagePaths, UserPages, PagePlaced, TablesAt, KeepsReach;
    var n := |ss| - 1;
    var a, b := PagePaths(ss[..n]), SegmentPaths(ss[n]);
    forall m | 0 <= m < |PagePaths(ss)|
      ensures PagePlaced(mem', root, TablesAt(have, ss, m), PagePaths(ss)[m], PageFrame(have, top, ss, m))
    {
      FrameStep(have, top, ss, m);
      if m < |a| {
        PathsAreIndices(image, ss[..n], m);
        EarlierPaths(ss[..n], ss[n], m);
        PagePlacedStays(mem, mem', root, TablesAt(have, ss, m), a[m], PageFrame(have, top, ss, m));
      } else {
        assert PagePaths(ss)[m] == b[m - |a|];
      }
    }
  }

  // ---------------------------------------------------------------- nodes and the whole list

  lemma LaidOnWalks(own: map<nat, Owner>, mem: Memory, mem': Memory, root: nat, image: seq<byte>, ss: seq<Segment>,
                    top: nat, have: set<seq<nat>>)
    requires IsRoot(own, root) && SameWalks(own, mem, mem') && KeepsReach(mem, mem', root)
    requires ListOk(image, ss) && PagesLaid(mem, root, have, top, ss)
    ensures PagesLaid(mem', root, have, top, ss)
  {
    hide Walk, PagePaths, PageFrame, SegmentOk, PageDisjoint, PagePlaced, TablesAt, KeepsReach;
    forall m | 0 <= m < |PagePaths(ss)|
      ensures PagePlaced(mem', root, TablesAt(have, ss, m), PagePaths(ss)[m], PageFrame(have, top, ss, m))
    {
      PathsAreIndices(image, ss, m);
      assert Walk(mem', root, PagePaths(ss)[m]) == Walk(mem, root, PagePaths(ss)[m]);
      PagePlacedStays(mem, mem', root, TablesAt(have, ss, m), PagePaths(ss)[m], PageFrame(have, top, ss, m));
    }
  }

  /** Nodes in frames that hold no table leave all tables alone. */
  lemma NodesKeepAt(vm: Vm, vm1: Vm, own: map<nat, Owner>, kroot: nat, root: nat, mem': Memory, areas: Areas, top: nat,
                    have: set<seq<nat>>)
    requires TreeInv(vm1, own, kroot) && IsRoot(own, root) && NodesHeld(vm, vm1, own, areas)
    requires StandsAt(vm1, root, top, have)
    requires OnlyNodesDiffer(vm1.mem, mem', areas)
    ensures StandsAt(vm1.(mem := mem'), root, top, have) && KeepsReach(vm1.mem, mem', root)
  {
    assert forall t, i :: IsTable(own, t) && 0 <= i < ENTRIES ==> Word(mem', t, i) == Word(vm1.mem, t, i) by {
      forall t: nat, i | IsTable(own, t) && 0 <= i < ENTRIES ensures Word(mem', t, i) == Word(vm1.mem, t, i) {
        assert !IsNode(areas, t) && t < |vm1.mem|;
      }
    }
    hide TreeInv, HasTables, FreeSuffix, KeepsReach;
    TablesOnTables(vm1, own, kroot, mem', root, have);
  }

  lemma FurtherLaid(vm: Vm, own: map<nat, Owner>, vm1: Vm, own1: map<nat, Owner>, kroot: nat, root: nat,
                    image: seq<byte>, ss: seq<Segment>, areas: Areas, s: Segment, file: u64, top: nat,
                    have: set<seq<nat>>, t: nat, h: set<seq<nat>>)
    requires TreeInv(vm, own, kroot) && IsRoot(own, root) && ListOk(image, ss)
    requires ImageLoaded(vm, own, vm1, own1, kroot, root, image, ss, areas, file)
    requires areas.list != [] && InSomePage(vm1.mem, root, ss, areas.first + |areas.list|)
    requires PagesLaid(vm1.mem, root, have, top, ss) && StandsAt(vm1, root, t, h)
    ensures var vm' := AddArea(vm1, areas, s, file).value.0;
            PagesLaid(vm'.mem, root, have, top, ss) && StandsAt(vm', root, t, h)
  {
    hide TreeInv, ListOk, NodesHeld, AppendNode, OnlyNodesDiffer, Listed, Grows, AllSeen, AllPagesFresh, WalksOutside,
         InSomePage, StandsAt, PagesLaid, SameWalks, KeepsReach;
    FurtherNode(vm, own, vm1, own1, kroot, root, image, ss, areas, s, file);
    RoomForNode(vm, own, vm1, own1, kroot, root, ss, areas, s);
    NodeAppended(vm1.mem, areas, s, file);
    GrowsKeepsRoots(vm, own, vm1, own1);
    var mem' := AppendNode(vm1.mem, areas.first + |areas.list| - 1, s, file);
    NodesKeepAt(vm, vm1, own1, kroot, root, mem', areas.(list := areas.list + [s]), t, h);
    LaidOnWalks(own1, vm1.mem, mem', root, image, ss, top, have);
  }

  lemma FirstLaid(vm: Vm, own: map<nat, Owner>, vm1: Vm, own1: map<nat, Owner>, kroot: nat, root: nat, image: seq<byte>,
                  ss: seq<Segment>, s: Segment, file: u64, top: nat, have: set<seq<nat>>, t: nat, h: set<seq<nat>>)
    requires TreeInv(vm, own, kroot) && IsRoot(own, root) && ListOk(image, ss)
    requires TreeInv(vm1, own1, kroot) && Grows(vm, own, vm1, own1)
    requires PagesLaid(vm1.mem, root, have, top, ss) && StandsAt(vm1, root, t, h)
    ensures var r := AddArea(vm1, NO_AREAS, s, file);
            && (r.Some? <==> t + 1 <= |vm1.pages|)
            && (r.Some? ==> r.value.1 == Areas(t, [s]) && |r.value.0.pages| == |vm1.pages|
                            && PagesLaid(r.value.0.mem, root, have, top, ss) && StandsAt(r.value.0, root, t + 1, h))
  {
    hide TreeInv, ListOk, AllocFrames, NodesHeld, StoreNode, Grows, SameWalks, PagesLaid, FreeSuffix, HasTables,
         OnlyNodesDiffer, Listed, KeepsReach;
    AllocTakes(vm1, t, 1);
    if AllocFrames(vm1, 1).Some? {
      PageForNode(vm, own, vm1, own1, kroot, s);
      var (vm2, f) := AllocFrames(vm1, 1).value;
      GrowsKeepsRoots(vm, own, vm1, own1);
      AllocKeepsTables(vm1, own1, kroot, root, 1, h);
      FirstNodeStored(vm2.mem, f, s, file);
      NodesKeepAt(vm, vm2, own1, kroot, root, StoreNode(vm2.mem, f, s, file), Areas(f, [s]), t + 1, h);
      LaidOnWalks(own1, vm1.mem, vm2.mem, root, image, ss, top, have);
      NodeWalks(vm, vm2, own1, kroot, StoreNode(vm2.mem, f, s, file), Areas(f, [s]));
      LaidOnWalks(own1, vm2.mem, StoreNode(vm2.mem, f, s, file), root, image, ss, top, have);
    }
  }

  lemma NodeWalks(vm: Vm, vm1: Vm, own: map<nat, Owner>, kroot: nat, mem': Memory, areas: Areas)
    requires TreeInv(vm1, own, kroot) && NodesHeld(vm, vm1, own, areas) && OnlyNodesDiffer(vm1.mem, mem', areas)
    ensures SameWalks(own, vm1.mem, mem')
  {
    forall t: nat, i | IsTable(own, t) && 0 <= i < ENTRIES ensures Word(mem', t, i) == Word(vm1.mem, t, i) {
      assert !IsNode(areas, t) && t < |vm1.mem|;
    }
    hide TreeInv;
    WalksOnTables(vm1, own, kroot, mem');
  }

  /** Loading the list: it succeeds exactly when memory suffices, and then everything lies as computed. */
  ghost predicate LaidOut(vm: Vm, root: nat, image: seq<byte>, ss: seq<Segment>, file: u64, top: nat,
                          have: set<seq<nat>>) {
    var r := LoadList(vm, root, image, ss, file);
    && r != Fault && (r.Image? <==> top + ImageFrames(have, ss) <= |vm.pages|)
    && (r.Image? ==> |r.vm.pages| == |vm.pages| && Laid(r.vm, root, have, top, ss)
                     && (ss != [] ==> r.areas == Areas(FirstNodeFrame(have, top, ss), ss)))
  }

  lemma NothingLaid(vm: Vm, root: nat, image: seq<byte>, file: u64, top: nat, have: set<seq<nat>>)
    requires StandsAt(vm, root, top, have)
    ensures LaidOut(vm, root, image, [], file, top, have)
  {
    hide HasTables;
  }

  /** The frames after the segment of the last turn, before its node. */
  function FreeAfter(have: set<seq<nat>>, top: nat, ss: seq<Segment>): nat
    requires ss != []
  {
    top + FramesFor(have, PagePaths(ss)) + if |ss| == 1 then 0 else 1
  }

  /** The last turn, up to its node. */
  lemma BeforeNode(vm: Vm, own: map<nat, Owner>, kroot: nat, root: nat, image: seq<byte>, ss: seq<Segment>, file: u64,
                   top: nat, have: set<seq<nat>>)
    returns (own': map<nat, Owner>)
    requires TreeInv(vm, own, kroot) && IsRoot(own, root) && ss != [] && ListOk(image, ss)
    requires NodesInPages(vm, root, image, ss[..|ss| - 1], file)
    requires LaidOut(vm, root, image, ss[..|ss| - 1], file, top, have)
    requires LoadList(vm, root, image, ss[..|ss| - 1], file).Image?
    ensures var n := |ss| - 1;
            var b := LoadList(vm, root, image, ss[..n], file);
            var r := LoadSegment(b.vm, root, image, ss[n]);
            && !r.PageFault? && (r.Loaded? <==> FreeAfter(have, top, ss) <= |vm.pages|)
            && b.areas.list == ss[..n] && (n == 0 ==> b.areas == NO_AREAS)
            && (n > 0 ==> b.areas.first == FirstNodeFrame(have, top, ss))
            && (r.Loaded? ==>
                  && |r.vm.pages| == |vm.pages| && PagesLaid(r.vm.mem, root, have, top, ss)
                  && StandsAt(r.vm, root, FreeAfter(have, top, ss), TablesAfter(have, PagePaths(ss)))
                  && ImageLoaded(vm, own, r.vm, own', kroot, root, image, ss, b.areas, file))
  {
    hide TreeInv, LoadList, LoadSegment, ListOk, NodesInPages, ImageLoaded, Laid, PagesLaid, StandsAt, Grows, FramesFor,
         PagePaths, TablesAfter, SegmentPaths, RegionAlloc;
    var n := |ss| - 1;
    var b := LoadList(vm, root, image, ss[..n], file);
    ListPrefix(image, ss);
    own' := LoadTheorem(vm, own, kroot, root, image, ss[..n], file);
    LoadedTree(vm, own, b.vm, own', kroot, root, image, ss[..n], b.areas, file);
    GrowsKeepsRoots(vm, own, b.vm, own');
    SegmentLaid(b.vm, own', kroot, root, image, ss, top, have);
    assert n > 0 ==> ss[..n][0] == ss[0];
    if LoadSegment(b.vm, root, image, ss[n]).Loaded? {
      LoadedRegion(b.vm, root, image, ss[n]);
      own' := OneMoreSegment(vm, own, b.vm, own', kroot, root, image, ss[..n], ss[n], b.areas, file);
    }
  }

  lemma FramesOfPrefix(have: set<seq<nat>>, ss: seq<Segment>)
    requires ss != []
    ensures ImageFrames(have, ss[..|ss| - 1]) <= ImageFrames(have, ss)
    ensures |ss| == 1 ==> PagePaths(ss) == SegmentPaths(ss[0])
  {
    hide FramesFor, SegmentPaths;
    var n := |ss| - 1;
    PagesPrefix(ss, n);
    FramesGrow(have, PagePaths(ss), |PagePaths(ss[..n])|);
    if n == 0 {
      FirstPagesFirst(ss);
      assert PagePaths(ss[..0]) == [];
    }
  }

  lemma TurnParts(vm: Vm, areas: Areas, root: nat, image: seq<byte>, s: Segment, file: u64)
    ensures var l := LoadSegment(vm, root, image, s);
            var r := LoadWithNode(vm, areas, root, image, s, file);
            && (l.OutOfMemory? ==> r == NoMemory) && (l.PageFault? ==> r == Fault)
            && (l.Loaded? ==> var x := AddArea(l.vm, areas, s, file);
                              r == if x.None? then NoMemory else Image(x.value.0, x.value.1))
            && (l.Loaded? && areas.list != [] ==>
                  r.Image? && r.areas == areas.(list := areas.list + [s]) && r.vm.pages == l.vm.pages)
  {
    hide LoadSegment, AppendNode, AllocFrames, StoreNode;
  }

  /**
   Whether loading succeeds depends on the number of frames alone, as long as all nodes before the
   last one lie over pages.
   */
  lemma ListFits(vm: Vm, own: map<nat, Owner>, kroot: nat, root: nat, image: seq<byte>, ss: seq<Segment>, file: u64,
                 top: nat, have: set<seq<nat>>)
    requires TreeInv(vm, own, kroot) && IsRoot(own, root) && ss != [] && ListOk(image, ss)
    requires NodesInPages(vm, root, image, ss[..|ss| - 1], file)
    requires LaidOut(vm, root, image, ss[..|ss| - 1], file, top, have)
    ensures var r := LoadList(vm, root, image, ss, file);
            && r != Fault && (r.Image? <==> top + ImageFrames(have, ss) <= |vm.pages|)
            && (r.Image? ==> r.areas == Areas(FirstNodeFrame(have, top, ss), ss))
  {
    hide TreeInv, LoadList, LoadSegment, LoadWithNode, ListOk, NodesInPages, ImageLoaded, Laid, PagesLaid, StandsAt,
         FramesFor, PagePaths, TablesAfter, SegmentPaths, AddArea, Grows;
    var n := |ss| - 1;
    var b := LoadList(vm, root, image, ss[..n], file);
    LoadStep(vm, root, image, ss, file);
    FramesOfPrefix(have, ss);
    if b.Image? {
      var own' := BeforeNode(vm, own, kroot, root, image, ss, file, top, have);
      TurnParts(b.vm, b.areas, root, image, ss[n], file);
      var l := LoadSegment(b.vm, root, image, ss[n]);
      assert ss[..n] + [ss[n]] == ss;
      if n == 0 && l.Loaded? {
        LoadedTree(vm, own, l.vm, own', kroot, root, image, ss, b.areas, file);
        FirstLaid(vm, own, l.vm, own', kroot, root, image, ss, ss[0], file, top, have, FreeAfter(have, top, ss),
                  TablesAfter(have, PagePaths(ss)));
      }
    }
  }

  /** When all nodes lie over pages, everything lies as computed. */
  lemma {:induction false} LaidOutTheorem(vm: Vm, own: map<nat, Owner>, kroot: nat, root: nat, image: seq<byte>,
                                          ss: seq<Segment>, file: u64, top: nat, have: set<seq<nat>>)
    requires TreeInv(vm, own, kroot) && IsRoot(own, root) && ListOk(image, ss)
    requires NodesInPages(vm, root, image, ss, file) && StandsAt(vm, root, top, have)
    ensures LaidOut(vm, root, image, ss, file, top, have)
    decreases |ss|
  {
    hide TreeInv, LoadList, LoadSegment, LoadWithNode, ListOk, NodesInPages, ImageLoaded, Laid, PagesLaid, StandsAt,
         FramesFor, PagePaths, TablesAfter, SegmentPaths, AddArea, Grows, LaidOut;
    if ss == [] {
      NothingLaid(vm, root, image, file, top, have);
    } else {
      var n := |ss| - 1;
      ListPrefix(image, ss);
      ClearUnfold(vm, root, image, ss, file);
      LaidOutTheorem(vm, own, kroot, root, image, ss[..n], file, top, have);
      TurnLaid(vm, own, kroot, root, image, ss, file, top, have);
    }
  }

  lemma TurnLaid(vm: Vm, own: map<nat, Owner>, kroot: nat, root: nat, image: seq<byte>, ss: seq<Segment>, file: u64,
                 top: nat, have: set<seq<nat>>)
    requires TreeInv(vm, own, kroot) && IsRoot(own, root) && ss != [] && ListOk(image, ss)
    requires NodesInPages(vm, root, image, ss, file) && NodesInPages(vm, root, image, ss[..|ss| - 1], file)
    requires LaidOut(vm, root, image, ss[..|ss| - 1], file, top, have)
    ensures LaidOut(vm, root, image, ss, file, top, have)
  {
    hide TreeInv, LoadList, LoadSegment, LoadWithNode, ListOk, NodesInPages, ImageLoaded, PagesLaid, StandsAt,
         FramesFor, PagePaths, TablesAfter, SegmentPaths, AddArea, Grows, InSomePage;
    var n := |ss| - 1;
    var b := LoadList(vm, root, image, ss[..n], file);
    ListFits(vm, own, kroot, root, image, ss, file, top, have);
    LoadStep(vm, root, image, ss, file);
    if LoadList(vm, root, image, ss, file).Image? {
      var own' := BeforeNode(vm, own, kroot, root, image, ss, file, top, have);
      TurnParts(b.vm, b.areas, root, image, ss[n], file);
      var l := LoadSegment(b.vm, root, image, ss[n]);
      var t, h := FreeAfter(have, top, ss), TablesAfter(have, PagePaths(ss));
      if n == 0 {
        LoadedTree(vm, own, l.vm, own', kroot, root, image, ss, b.areas, file);
        FirstLaid(vm, own, l.vm, own', kroot, root, image, ss, ss[0], file, top, have, t, h);
      } else {
        ClearUnfold(vm, root, image, ss, file);
        FurtherLaid(vm, own, l.vm, own', kroot, root, image, ss, b.areas, ss[n], file, top, have, t, h);
      }
    }
  }

  // ---------------------------------------------------------------- where every node lands

  /** A frame holds a page of the program exactly when it was computed for one. */
  lemma SomePageIff(mem: Memory, root: nat, have: set<seq<nat>>, top: nat, ss: seq<Segment>, g: nat)
    requires PagesLaid(mem, root, have, top, ss)
    ensures InSomePage(mem, root, ss, g) <==> exists m :: 0 <= m < |PagePaths(ss)| && PageFrame(have, top, ss, m) == g
  {
    hide PagePaths, SegmentPaths, PageFrame, PageCount, Walk, NewTables, TablesAt;
    if InSomePage(mem, root, ss, g) {
      var i, j :| 0 <= i < |ss| && 0 <= j < PageCount(ss[i]) && InPage(mem, root, SegmentPaths(ss[i])[j], g);
      PathOfPage(ss, i, j);
      assert InPage(mem, root, SegmentPaths(ss[i])[j], PageFrame(have, top, ss, |PagePaths(ss[..i])| + j));
    }
    if m :| 0 <= m < |PagePaths(ss)| && PageFrame(have, top, ss, m) == g {
      var i, j := SegmentOfPage(ss, m);
      assert InPage(mem, root, SegmentPaths(ss[i])[j], g);
    }
  }

  lemma NodePlaceIff(vm: Vm, own: map<nat, Owner>, kroot: nat, root: nat, image: seq<byte>, ss: seq<Segment>, file: u64,
                     top: nat, have: set<seq<nat>>)
    requires TreeInv(vm, own, kroot) && IsRoot(own, root) && |ss| > 1 && ListOk(image, ss) && Closed(have)
    requires NodesInPages(vm, root, image, ss[..|ss| - 1], file)
    requires LaidOut(vm, root, image, ss[..|ss| - 1], file, top, have)
    requires NodesFit(have, ss[..|ss| - 1]) && top + ImageFrames(have, ss) <= |vm.pages|
    ensures NodesInPages(vm, root, image, ss, file) <==> NodeFits(have, ss, |ss| - 1)
  {
    hide TreeInv, LoadList, LoadSegment, ListOk, NodesInPages, ImageLoaded, Laid, PagesLaid, StandsAt, FramesFor,
         PagePaths, TablesAfter, SegmentPaths, InSomePage, NodesFit, NodeFits, Closed, PageFrame, FirstNodeFrame;
    var n := |ss| - 1;
    var b := LoadList(vm, root, image, ss[..n], file);
    FramesOfPrefix(have, ss);
    var own' := BeforeNode(vm, own, kroot, root, image, ss, file, top, have);
    var l := LoadSegment(b.vm, root, image, ss[n]);
    SomePageIff(l.vm.mem, root, have, top, ss, FirstNodeFrame(have, top, ss) + n);
    NodeOnPageIff(have, top, ss);
    if NodesInPages(vm, root, image, ss, file) {
      ClearUnfold(vm, root, image, ss, file);
    } else if InSomePage(l.vm.mem, root, ss, b.areas.first + n) {
      ClearStep(vm, root, image, ss, file);
    }
  }

  /**
   On memory from which no page was released: if the headers, and the tables that were there before,
   say that all nodes fit, then every node lies over a page of the program.  When memory suffices,
   every node lies over a page only then.
   */
  lemma {:induction false} NodesInPagesIff(vm: Vm, own: map<nat, Owner>, kroot: nat, root: nat, image: seq<byte>,
                                           ss: seq<Segment>, file: u64, top: nat, have: set<seq<nat>>)
    requires TreeInv(vm, own, kroot) && IsRoot(own, root) && ListOk(image, ss) && StandsAt(vm, root, top, have)
    requires Closed(have)
    ensures NodesFit(have, ss) ==> NodesInPages(vm, root, image, ss, file)
    ensures top + ImageFrames(have, ss) <= |vm.pages| ==>
              (NodesInPages(vm, root, image, ss, file) <==> NodesFit(have, ss))
    decreases |ss|
  {
    hide TreeInv, LoadList, LoadSegment, ListOk, NodesInPages, StandsAt, FramesFor, PagePaths, TablesAfter,
         SegmentPaths, InSomePage, NodeFits, Closed, LaidOut, ImageFrames;
    if |ss| <= 1 {
      OneIsClear(vm, root, image, ss, file);
    } else {
      var n := |ss| - 1;
      ListPrefix(image, ss);
      FramesOfPrefix(have, ss);
      FitStep(have, ss);
      NodesInPagesIff(vm, own, kroot, root, image, ss[..n], file, top, have);
      hide NodesFit;
      if NodesInPages(vm, root, image, ss[..n], file) {
        LaidOutTheorem(vm, own, kroot, root, image, ss[..n], file, top, have);
        if top + ImageFrames(have, ss) <= |vm.pages| {
          NodePlaceIff(vm, own, kroot, root, image, ss, file, top, have);
        } else {
          NoRoomForLast(vm, own, kroot, root, image, ss, file, top, have);
        }
      } else if NodesInPages(vm, root, image, ss, file) {
        ClearUnfold(vm, root, image, ss, file);
      }
    }
  }

  lemma NoRoomForLast(vm: Vm, own: map<nat, Owner>, kroot: nat, root: nat, image: seq<byte>, ss: seq<Segment>,
                      file: u64, top: nat, have: set<seq<nat>>)
    requires TreeInv(vm, own, kroot) && IsRoot(own, root) && |ss| > 1 && ListOk(image, ss)
    requires NodesInPages(vm, root, image, ss[..|ss| - 1], file)
    requires LaidOut(vm, root, image, ss[..|ss| - 1], file, top, have)
    requires top + ImageFrames(have, ss) > |vm.pages|
    ensures NodesInPages(vm, root, image, ss, file)
  {
    hide TreeInv, LoadList, LoadSegment, ListOk, NodesInPages, ImageLoaded, Laid, PagesLaid, StandsAt, FramesFor,
         PagePaths, TablesAfter, SegmentPaths, InSomePage;
    if LoadList(vm, root, image, ss[..|ss| - 1], file).Image? {
      var own' := BeforeNode(vm, own, kroot, root, image, ss, file, top, have);
    }
    ClearStep(vm, root, image, ss, file);
  }

  // ---------------------------------------------------------------- a node that does not fit

  /** The first table that page `q` still needs. */
  lemma FirstMissing(have: set<seq<nat>>, q: seq<nat>) returns (k: nat)
    requires |q| == 3 && q !in have
    ensures 1 <= k <= 3 && q[..k] !in have && Missing(have, q[..k]) == 1 && forall j :: 1 <= j < k ==> q[..j] in have
  {
    assert q[..3] == q && q[..3][..2] == q[..2] && q[..2][..1] == q[..1] && q[..1][..0] == [];
    k := if q[..1] !in have then 1 else if q[..2] !in have then 2 else 3;
    assert Missing(have, q[..1][..0]) == 0;
    assert k > 1 ==> Missing(have, q[..1]) == 0;
    assert k > 2 ==> Missing(have, q[..2]) == 0;
  }

  /** The page before the one that the last node would need. */
  function PageBefore(ss: seq<Segment>): nat
    requires |ss| > 2
  {
    FirstPages(ss) + |ss| - 3
  }

  /** If that page needs a table, the last node has the frame of the first table it needs. */
  lemma FrameOfTable(have: set<seq<nat>>, top: nat, ss: seq<Segment>)
    requires Closed(have) && |ss| > 2 && NodesFit(have, ss[..|ss| - 1])
    ensures PageBefore(ss) < |PagePaths(ss)|
    ensures TablesAt(have, ss, PageBefore(ss)) == TablesAfter(have, SegmentPaths(ss[0]))
    ensures PageFrame(have, top, ss, PageBefore(ss)) == FirstNodeFrame(have, top, ss) + |ss| - 2
  {
    hide PagePaths, TablesAfter, SegmentPaths, Closed, FramesFor, PageFrame;
    var n := |ss| - 1;
    assert ss[..n][..n] == ss[..n] && ss[..n][0] == ss[0];
    assert NodeFits(have, ss[..n], n - 1);
    PagesPrefix(ss, n);
    hide NodesFit, NodeFits;
    NearBefore(have, ss);
    NearFrames(have, top, ss, n - 2);
  }

  /** Replacing the words of the table at the end of a path does not change the path itself. */
  lemma {:induction false} ReachAbove(vm: Vm, own: map<nat, Owner>, kroot: nat, mem': Memory, root: nat, q: seq<nat>,
                                      j: nat, g: nat)
    requires TreeInv(vm, own, kroot) && IsRoot(own, root) && |q| <= 3 && Indices(q) && j <= |q|
    requires Reach(vm.mem, root, q) == Some(g)
    requires forall t, i :: IsTable(own, t) && t != g && 0 <= i < ENTRIES ==> Word(mem', t, i) == Word(vm.mem, t, i)
    ensures Reach(mem', root, q[..j]) == Reach(vm.mem, root, q[..j])
    decreases j
  {
    hide TreeInv;
    if j > 0 {
      assert q[..j][..j - 1] == q[..j - 1] && q[..j][j - 1] == q[j - 1];
      ReachAbove(vm, own, kroot, mem', root, q, j - 1, g);
      if Reach(vm.mem, root, q[..j - 1]).Some? {
        ReachOwned(vm, own, kroot, root, q[..j - 1]);
        if Reach(vm.mem, root, q[..j - 1]) == Some(g) {
          PathUnique(vm, own, kroot, root, q[..j - 1], root, q);
        }
      }
    }
  }

  /** What is known when the next node would be stored over the table at the end of `q`. */
  lemma RoomOverTable(vm: Vm, own: map<nat, Owner>, vm1: Vm, own1: map<nat, Owner>, kroot: nat, root: nat,
                      image: seq<byte>, ss: seq<Segment>, areas: Areas, file: u64, q: seq<nat>)
    requires IsRoot(own, root) && ImageLoaded(vm, own, vm1, own1, kroot, root, image, ss, areas, file)
    requires areas.list != []
    requires |q| <= 3 && Indices(q) && Reach(vm1.mem, root, q) == Some(areas.first + |areas.list|)
    ensures var g := areas.first + |areas.list|;
            && TreeInv(vm1, own1, kroot) && IsRoot(own1, root) && Listed(vm1.mem, areas, file)
            && g < |vm1.mem| <= MAX_FRAMES && !IsTable(own1, g - 1)
            && forall f :: 0 <= f < |vm1.mem| ==> |vm1.mem[f]| == ENTRIES
  {
    hide Listed, AllSeen, AllPagesFresh, WalksOutside, Reach, Countdown, EntryOk;
    var g := areas.first + |areas.list|;
    GrowsKeepsRoots(vm, own, vm1, own1);
    ReachOwned(vm1, own1, kroot, root, q);
    assert IsNode(areas, g - 1);
  }

  lemma OtherTablesStay(vm: Vm, own: map<nat, Owner>, kroot: nat, mem': Memory, g: nat)
    requires TreeInv(vm, own, kroot) && g > 0 && !IsTable(own, g - 1) && |mem'| == |vm.mem|
    requires forall f :: 0 <= f < |vm.mem| && f != g - 1 && f != g ==> mem'[f] == vm.mem[f]
    ensures forall t, i :: IsTable(own, t) && t != g && 0 <= i < ENTRIES ==> Word(mem', t, i) == Word(vm.mem, t, i)
  {
  }

  /** A node stored over a table: the table is still reached, and its words 1 to 7 are the node. */
  lemma NodeStoredOverTable(vm: Vm, own: map<nat, Owner>, vm1: Vm, own1: map<nat, Owner>, kroot: nat, root: nat,
                            image: seq<byte>, ss: seq<Segment>, areas: Areas, s: Segment, file: u64, q: seq<nat>)
    requires IsRoot(own, root) && ImageLoaded(vm, own, vm1, own1, kroot, root, image, ss, areas, file)
    requires areas.list != []
    requires |q| <= 3 && Indices(q) && Reach(vm1.mem, root, q) == Some(areas.first + |areas.list|)
    ensures var mem' := AddArea(vm1, areas, s, file).value.0.mem;
            var g := areas.first + |areas.list|;
            Reach(mem', root, q) == Some(g) && forall i :: 1 <= i < 8 ==> Word(mem', g, i) == NodeWord(s, file, i)
  {
    hide ImageLoaded, TreeInv, AppendNode, Listed, OnlyNodesDiffer, NodeWord, Reach, Word;
    var g := areas.first + |areas.list|;
    RoomOverTable(vm, own, vm1, own1, kroot, root, image, ss, areas, file, q);
    NodeAppended(vm1.mem, areas, s, file);
    AppendTouches(vm1.mem, g - 1, s, file);
    var mem' := AppendNode(vm1.mem, g - 1, s, file);
    OtherTablesStay(vm1, own1, kroot, mem', g);
    ReachAbove(vm1, own1, kroot, mem', root, q, |q|, g);
    assert q[..|q|] == q;
    var areas' := areas.(list := areas.list + [s]);
    LastNodeWords(mem', areas', file);
    assert |areas'.list| - 1 == |areas.list| && areas'.list[|areas.list|] == s;
  }

  lemma LastNodeWords(mem: Memory, areas: Areas, file: u64)
    requires areas.list != [] && Listed(mem, areas, file)
    ensures var n := |areas.list| - 1;
            forall i :: 1 <= i < 8 ==> Word(mem, areas.first + n, i) == NodeWord(areas.list[n], file, i)
  {
    hide NodeWord, Word;
    var n := |areas.list| - 1;
    forall i | 1 <= i < 8 ensures Word(mem, areas.first + n, i) == NodeWord(areas.list[n], file, i) {
      assert Word(mem, areas.first + n, i) == AreaWord(areas, file, n, i);
    }
  }

  /**
   When all nodes but the last fit, and the last one does not because the page before needs a table:
   it is stored over the first such table, which the new root still uses.
   */
  lemma LastNodeOverTable(vm: Vm, own: map<nat, Owner>, kroot: nat, root: nat, image: seq<byte>, ss: seq<Segment>,
                          file: u64, top: nat, have: set<seq<nat>>)
    returns (q: seq<nat>)
    requires TreeInv(vm, own, kroot) && IsRoot(own, root) && ListOk(image, ss) && StandsAt(vm, root, top, have)
    requires Closed(have)
    requires |ss| > 2 && NodesFit(have, ss[..|ss| - 1]) && !NearPage(have, ss, PageBefore(ss))
    requires top + ImageFrames(have, ss) <= |vm.pages|
    ensures PageBefore(ss) < |PagePaths(ss)|
    ensures 1 <= |q| <= 3 && q == PagePaths(ss)[PageBefore(ss)][..|q|] && q !in TablesAfter(have, SegmentPaths(ss[0]))
    ensures var r := LoadList(vm, root, image, ss, file);
            var g := FirstNodeFrame(have, top, ss) + |ss| - 1;
            && r.Image? && r.areas == Areas(FirstNodeFrame(have, top, ss), ss) && Reach(r.vm.mem, root, q) == Some(g)
            && forall i :: 1 <= i < 8 ==> Word(r.vm.mem, g, i) == NodeWord(ss[|ss| - 1], file, i)
  {
    hide TreeInv, LoadList, LoadSegment, LoadWithNode, ListOk, NodesInPages, ImageLoaded, PagesLaid, StandsAt,
         FramesFor, PagePaths, TablesAfter, SegmentPaths, AddArea, Grows, NodesFit, Closed, LaidOut, Missing, Reach,
         NodeWord, NewTables;
    var n, m := |ss| - 1, PageBefore(ss);
    var b := LoadList(vm, root, image, ss[..n], file);
    ListPrefix(image, ss);
    FramesOfPrefix(have, ss);
    NodesInPagesIff(vm, own, kroot, root, image, ss[..n], file, top, have);
    LaidOutTheorem(vm, own, kroot, root, image, ss[..n], file, top, have);
    ListFits(vm, own, kroot, root, image, ss, file, top, have);
    LoadStep(vm, root, image, ss, file);
    TurnParts(b.vm, b.areas, root, image, ss[n], file);
    OutOfImage(vm, root, image, ss[..n], file, top, have);
    var own' := BeforeNode(vm, own, kroot, root, image, ss, file, top, have);
    FrameOfTable(have, top, ss);
    q := TableOfPage(LoadSegment(b.vm, root, image, ss[n]).vm.mem, root, image, ss, top, have);
    NodeStoredOverTable(vm, own, LoadSegment(b.vm, root, image, ss[n]).vm, own', kroot, root, image, ss, b.areas, ss[n],
                        file, q);
  }

  lemma OutOfImage(vm: Vm, root: nat, image: seq<byte>, ss: seq<Segment>, file: u64, top: nat, have: set<seq<nat>>)
    requires LaidOut(vm, root, image, ss, file, top, have) && top + ImageFrames(have, ss) <= |vm.pages|
    ensures LoadList(vm, root, image, ss, file).Image?
  {
    hide LoadList, Laid, ImageFrames;
  }

  lemma TableOfPage(mem: Memory, root: nat, image: seq<byte>, ss: seq<Segment>, top: nat,
                    have: set<seq<nat>>) returns (q: seq<nat>)
    requires |ss| > 2 && ListOk(image, ss) && PagesLaid(mem, root, have, top, ss)
    requires var m := PageBefore(ss);
             && m < |PagePaths(ss)| && TablesAt(have, ss, m) == TablesAfter(have, SegmentPaths(ss[0]))
             && !NearPage(have, ss, m)
    ensures 1 <= |q| <= 3 && Indices(q) && q == PagePaths(ss)[PageBefore(ss)][..|q|]
    ensures q !in TablesAfter(have, SegmentPaths(ss[0]))
    ensures Reach(mem, root, q) == Some(PageFrame(have, top, ss, PageBefore(ss)) + 1)
  {
    hide PagePaths, TablesAfter, SegmentPaths, TablesAt, PageFrame, Missing, Reach, InPage, SegmentOk, PageDisjoint;
    var m := PageBefore(ss);
    var h, path := TablesAt(have, ss, m), PagePaths(ss)[m];
    PathsAreIndices(image, ss, m);
    var k := FirstMissing(h, path[..3]);
    assert path[..3][..k] == path[..k];
    q := path[..k];
    assert PagePlaced(mem, root, h, path, PageFrame(have, top, ss, m));
  }
}
