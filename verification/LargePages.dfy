/** What vmm_map_page and vmm_unmap_page do on a page that lies in a 2 MB page of the tree
    (kernel/memory/vmm.c:59-107), exactly, for every page of the machine. */
module LargePages {
  import opened PageSet
  import opened PageTables
  import opened VmLaws

  /** The translation of vp that goes on from entry e at depth d. */
  ghost function Through(m: Mem, e: Pte, vp: Path, d: nat): Option<nat>
    requires IsPage(vp) && d < 4
  {
    if e.Absent? then None
    else if d == 3 then Some(e.frame)
    else if IsHuge(e, d) then Some(HugeFrame(e, vp, d))
    else Walk(m, e.frame, vp, d + 1)
  }

  /** Above the entry that changed, the walk of a page is as before. */
  lemma {:induction false} WalkDownTo(s: Sys, n: Mem, q: Path, i: nat, vp: Path, d: nat)
    requires Inv(s) && q in s.at && SameBut(s.m, n, s.at, q, i)
    requires IsPage(vp) && q <= vp && d <= |q| < 4
    ensures vp[..d] in s.at && Walk(n, s.at[vp[..d]], vp, d) == Walk(n, s.at[q], vp, |q|)
    decreases |q| - d
  {
    assert q == vp[..|q|] && q[..d] == vp[..d];
    PrefixClosed(s, q, d);
    if d < |q| {
      var c := vp[..d + 1];
      PrefixClosed(s, q, d + 1);
      assert q[..d + 1] == c && c[..|c| - 1] == vp[..d];
      assert ParentOk(s.m, s.at, c);
      WalkDownTo(s, n, q, i, vp, d + 1);
    }
  }

  /** Any entry e stored into slot i of any table q, by whoever: the pages below that slot translate by
      e, and no other page changes. */
  lemma StoreIntoTable(s: Sys, q: Path, i: nat, e: Pte, w: Path)
    requires Inv(s) && q in s.at && i < 512 && IsPage(w)
    ensures |q| <= 3
    ensures var n := Write(s.m, s.at[q], i, e);
            Walk(n, Root(s), w, 0) ==
            if q + [i] <= w then Through(n, e, w, |q|) else Walk(s.m, Root(s), w, 0)
  {
    var n := Write(s.m, s.at[q], i, e);
    TableStore(s, q, i, e);
    assert w[..0] == [];
    if q + [i] <= w {
      assert q == w[..|q|] && w[|q|] == i;
      WalkDownTo(s, n, q, i, w, 0);
    } else {
      WalkElsewhere(s.m, n, s.at, q, i, w, 0);
    }
  }

  lemma TableStore(s: Sys, q: Path, i: nat, e: Pte)
    requires Inv(s) && q in s.at && i < 512
    ensures var n := Write(s.m, s.at[q], i, e);
            SameBut(s.m, n, s.at, q, i) && Entry(n, s.at[q], i) == e && |q| <= 3
  {
    var n := Write(s.m, s.at[q], i, e);
    assert TableOk(s.m, s.at, q);
    forall p, j | p in s.at && j < 512 && (p != q || j != i)
      ensures Entry(n, s.at[p], j) == Entry(s.m, s.at[p], j)
    {
      assert Apart(s.at, p, q);
    }
  }

  /** The processor's translation of every page after e was stored into slot i of frame f: nothing
      changes when f is no table, and when it is table q the pages below the slot translate by e. */
  ghost predicate StoreSeen(s: Sys, f: nat, i: nat, e: Pte)
    requires [] in s.at
  {
    var n := Write(s.m, f, i, e);
    && (f !in Frames(s.at) ==> forall w :: IsPage(w) ==> Walk(n, Root(s), w, 0) == Walk(s.m, Root(s), w, 0))
    && (forall q :: q in s.at && s.at[q] == f && |q| <= 3 ==>
          forall w :: IsPage(w) ==>
            Walk(n, Root(s), w, 0) ==
            if q + [i] <= w then Through(n, e, w, |q|) else Walk(s.m, Root(s), w, 0))
  }

  lemma EveryStoreIsSeen(s: Sys, f: nat, i: nat, e: Pte)
    requires Inv(s) && i < 512
    ensures StoreSeen(s, f, i, e)
  {
    if f !in Frames(s.at) {
      StoreKeepsTree(s, f, i, e);
    }
    forall q, w | q in s.at && s.at[q] == f && |q| <= 3 && IsPage(w)
      ensures Walk(Write(s.m, f, i, e), Root(s), w, 0) ==
              if q + [i] <= w then Through(Write(s.m, f, i, e), e, w, |q|) else Walk(s.m, Root(s), w, 0)
    {
      StoreIntoTable(s, q, i, e, w);
    }
  }

  /** vmm_map_page: it fails without a store when the large page is at frame 0, and otherwise reports
      success having stored the entry into the large page's first frame, taken for a page table. */
  lemma MapThroughLargePage(s: Sys, vp: Path, leaf: Pte)
    requires Inv(s) && InLargePage(s, vp)
    ensures var f := LargeFrame(s, vp);
            && RawMap(Raw(s.m, s.pmm), Root(s), vp, 0, leaf) ==
               (Raw(if f != 0 then Write(s.m, f, vp[3], leaf) else s.m, s.pmm), f != 0)
            && StoreSeen(s, f, vp[3], leaf)
  {
    assert vp[..0] == [];
    RawMapThroughLargePage(s, vp, 0, leaf);
    EveryStoreIsSeen(s, LargeFrame(s, vp), vp[3], leaf);
  }

  /** vmm_unmap_page: it clears that entry, frame 0 included. So when the frame is a table, every page
      below the slot loses its translation, and no other page does. */
  lemma UnmapThroughLargePage(s: Sys, vp: Path)
    requires Inv(s) && InLargePage(s, vp)
    ensures var f := LargeFrame(s, vp);
            && RawUnmap(s.m, Root(s), vp, 0) == Write(s.m, f, vp[3], Absent)
            && StoreSeen(s, f, vp[3], Absent)
  {
    assert vp[..0] == [];
    RawUnmapThroughLargePage(s, vp, 0);
    EveryStoreIsSeen(s, LargeFrame(s, vp), vp[3], Absent);
  }

  /** Whether it does harm can be told beforehand: no translation changes exactly when no page below the
      slot has one, as when the frame is no table. */
  lemma UnmapHarmlessIff(s: Sys, vp: Path)
    requires Inv(s) && InLargePage(s, vp)
    ensures var n, f := RawUnmap(s.m, Root(s), vp, 0), LargeFrame(s, vp);
            (forall w :: IsPage(w) ==> Walk(n, Root(s), w, 0) == Walk(s.m, Root(s), w, 0)) <==>
            (forall q, w :: q in s.at && s.at[q] == f && IsPage(w) && q + [vp[3]] <= w ==>
                              Walk(s.m, Root(s), w, 0) == None)
  {
    var n, f := RawUnmap(s.m, Root(s), vp, 0), LargeFrame(s, vp);
    UnmapThroughLargePage(s, vp);
    forall q | q in s.at
      ensures |q| <= 3
    {
      assert TableOk(s.m, s.at, q);
    }
    if f in Frames(s.at) {
      var q :| q in s.at && s.at[q] == f;
      forall p | p in s.at && s.at[p] == f
        ensures p == q
      {
        assert Apart(s.at, p, q);
      }
    }
  }

  /** When the frame is a last-level table the call maps or unmaps the wrong page, and the tree stays
      what it was otherwise. */
  lemma LastLevelStore(s: Sys, q: Path, i: nat, e: Pte)
    requires Inv(s) && q in s.at && |q| == 3 && i < 512
    ensures IsPage(q + [i])
    ensures var t := s.(m := Write(s.m, s.at[q], i, e));
            && Inv(t)
            && forall w :: IsPage(w) ==>
                 Walk(t.m, Root(t), w, 0) ==
                 if w == q + [i] then (if e.Present? then Some(e.frame) else None) else Walk(s.m, Root(s), w, 0)
  {
    var w := q + [i];
    NameInRange(s, q);
    assert w[..3] == q;
    LeafWrite(s, w, e);
  }

  lemma {:induction false} NameInRange(s: Sys, q: Path)
    requires Inv(s) && q in s.at
    ensures forall k :: 0 <= k < |q| ==> q[k] < 512
    decreases |q|
  {
    if q != [] {
      var p := q[..|q| - 1];
      assert ParentOk(s.m, s.at, q);
      NameInRange(s, p);
      assert forall k :: 0 <= k < |p| ==> q[k] == p[k];
    }
  }
}
