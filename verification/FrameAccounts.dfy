/** Who owns which frame, over runs of alloc_frame and free_frame. */
module FrameAccounts {
  import opened Memory
  import opened Frames
  import opened Paging

  /** The frames that page entries name. Frame 0 is the mark of a page without a frame. */
  function Owned(flat: map<nat, Page>): set<nat> {
    set p | p in flat && flat[p].frame != 0 :: flat[p].frame
  }

  /** The frames in use are exactly those of the pages and frame 0, and no two pages share one. */
  ghost predicate Accounts(flat: map<nat, Page>, used: set<nat>) {
    && used == Owned(flat) + {0}
    && forall p, q :: p in flat && q in flat && p != q && flat[p].frame != 0 ==> flat[p].frame != flat[q].frame
  }

  lemma OwnedAfterStore(flat: map<nat, Page>, p: nat, page: Page)
    requires p in flat
    requires forall q :: q in flat && q != p && flat[p].frame != 0 ==> flat[q].frame != flat[p].frame
    ensures Owned(flat[p := page]) ==
            Owned(flat) - {flat[p].frame} + (if page.frame != 0 then {page.frame} else {})
  {
    var flat' := flat[p := page];
    forall f | f in Owned(flat) && f != flat[p].frame
      ensures f in Owned(flat')
    {
      var q :| q in flat && flat[q].frame != 0 && flat[q].frame == f;
      assert q in flat' && flat'[q] == flat[q];
    }
    if page.frame != 0 {
      assert p in flat' && flat'[p].frame == page.frame;
    }
  }

  /** alloc_frame keeps the accounts, and never hands out frame 0 once it is in use. */
  lemma AllocKeepsAccounts(flat: map<nat, Page>, used: set<nat>, p: nat, isKernel: bool, isWriteable: bool, index: nat,
                           flat': map<nat, Page>, used': set<nat>)
    requires Accounts(flat, used) && GotFrame(flat, used, p, isKernel, isWriteable, index, flat', used')
    ensures Accounts(flat', used')
    ensures flat[p].frame == 0 ==> index != 0 && index !in used && flat'[p].frame == index
  {
    if flat[p].frame == 0 {
      assert index != 0;
      OwnedAfterStore(flat, p, Page(true, isWriteable, !isKernel, index));
      forall q | q in flat && q != p
        ensures flat[q].frame != index
      {
        assert flat[q].frame != 0 ==> flat[q].frame in Owned(flat);
      }
    }
  }

  /** The first page mapped gets the least frame, which is frame 0, and opens the accounts. */
  lemma FirstFrameOpensAccounts(flat: map<nat, Page>, used: set<nat>, p: nat, isKernel: bool, isWriteable: bool, index: nat,
                                flat': map<nat, Page>, used': set<nat>)
    requires (forall q :: q in flat ==> flat[q].frame == 0) && GotFrame(flat, used, p, isKernel, isWriteable, index, flat', used')
    requires used == {} && forall f: nat :: f < index ==> f in used
    ensures index == 0 && Accounts(flat', used')
  {
    assert index == 0 || 0 in used;
  }

  /** A new page table owns nothing. */
  lemma TableKeepsAccounts(flat: map<nat, Page>, used: set<nat>, t: nat)
    requires Accounts(flat, used) && forall p :: InTable(p, t) ==> p !in flat
    ensures Accounts(flat + ZeroTable(t), used)
  {
    var flat' := flat + ZeroTable(t);
    forall f | f in Owned(flat)
      ensures f in Owned(flat')
    {
      var q :| q in flat && flat[q].frame != 0 && flat[q].frame == f;
      assert q in flat' && flat'[q] == flat[q];
    }
    assert Owned(flat') == Owned(flat);
  }

  /** Freeing a frame by its address, as intended, keeps the accounts. */
  lemma IntendedFreeKeepsAccounts(flat: map<nat, Page>, used: set<nat>, p: nat, flat': map<nat, Page>, used': set<nat>)
    requires Accounts(flat, used) && FreedAsIntended(flat, used, p, flat', used')
    ensures Accounts(flat', used') && flat'[p].frame == 0
  {
    if flat[p].frame != 0 {
      OwnedAfterStore(flat, p, flat[p].(frame := 0));
    }
  }

  /** free_frame as written keeps the accounts exactly when the page has no frame to free. */
  lemma FreeAsWrittenExact(flat: map<nat, Page>, used: set<nat>, p: nat, flat': map<nat, Page>, used': set<nat>)
    requires Accounts(flat, used) && FreedAsWritten(flat, used, p, flat', used')
    ensures Accounts(flat', used') <==> flat[p].frame == 0
  {
    if flat[p].frame != 0 {
      var n := flat[p].frame;
      OwnedAfterStore(flat, p, flat[p].(frame := 0));
      assert n in Owned(flat) && n in used';
      assert n !in Owned(flat');
    }
  }

  /** What free_frame as written does instead: the frame stays in use though no page owns it, and below 16 MiB
      frame 0 becomes free, so that the next alloc_frame marks its page as mapped to the frame of unmapped pages. */
  lemma FreeAsWrittenLeaks(flat: map<nat, Page>, used: set<nat>, p: nat, flat': map<nat, Page>, used': set<nat>)
    requires Accounts(flat, used) && FreedAsWritten(flat, used, p, flat', used') && flat[p].frame != 0
    ensures flat[p].frame in used' && flat[p].frame !in Owned(flat')
    ensures flat[p].frame < 4096 <==> 0 !in used'
    ensures forall f: nat :: f in used' <==> f in used && f != flat[p].frame / 4096
    ensures flat'.Keys == flat.Keys && flat'[p].frame == 0 && flat'[p].present == flat[p].present
    ensures forall q :: q in flat && q != p ==> flat'[q] == flat[q]
  {
    OwnedAfterStore(flat, p, flat[p].(frame := 0));
    assert flat[p].frame in Owned(flat);
  }

  /** From 16 MiB on it takes another page's frame out of use, and the next alloc_frame that comes to this frame gives
      it to a second page. */
  lemma FreeAsWrittenDoubles(flat: map<nat, Page>, used: set<nat>, p: nat, flat': map<nat, Page>, used': set<nat>,
                             q: nat, r: nat, isKernel: bool, isWriteable: bool, index: nat,
                             flat'': map<nat, Page>, used'': set<nat>)
    requires Accounts(flat, used) && FreedAsWritten(flat, used, p, flat', used') && 4096 <= flat[p].frame
    requires q in flat && flat[q].frame == flat[p].frame / 4096
    requires GotFrame(flat', used', r, isKernel, isWriteable, index, flat'', used'') && flat'[r].frame == 0
    requires forall f: nat :: f < index ==> f in used'
    requires forall f: nat :: f < flat[q].frame ==> f in used
    ensures q != r && q in flat'' && flat''[q].frame == flat''[r].frame == index == flat[p].frame / 4096 != 0
  {
    assert q != p;
    assert flat[q].frame !in used';
  }

  /** Two rounds of free_frame as written and alloc_frame, with frames below 4096: both pages end up mapped to frame 0,
      and so to the same memory. */
  lemma FreeAsWrittenShares(flat0: map<nat, Page>, used0: set<nat>, p1: nat, flat1: map<nat, Page>, used1: set<nat>,
                            q1: nat, index1: nat, flat2: map<nat, Page>, used2: set<nat>,
                            p2: nat, flat3: map<nat, Page>, used3: set<nat>,
                            q2: nat, index2: nat, flat4: map<nat, Page>, used4: set<nat>)
    requires FreedAsWritten(flat0, used0, p1, flat1, used1) && 0 < flat0[p1].frame < PAGE_SIZE
    requires GotFrame(flat1, used1, q1, false, false, index1, flat2, used2) && flat1[q1].frame == 0
    requires forall f: nat :: f < index1 ==> f in used1
    requires FreedAsWritten(flat2, used2, p2, flat3, used3) && 0 < flat2[p2].frame < PAGE_SIZE
    requires GotFrame(flat3, used3, q2, false, false, index2, flat4, used4) && flat3[q2].frame == 0 && q1 != q2
    requires forall f: nat :: f < index2 ==> f in used3
    ensures q1 in flat4 && flat4[q1].present && q2 in flat4 && flat4[q2].present && flat4[q1].frame == flat4[q2].frame == 0
  {
    assert 0 !in used1 && index1 == 0;
    assert 0 !in used3 && index2 == 0;
  }

  function UserPage(frame: nat): Page {
    Page(true, false, true, frame)
  }

  /** One such run: the first three pages of a table are mapped to the frames of their numbers; page 1 is freed and page
      3 mapped, page 2 is freed and page 4 mapped. */
  lemma SharedFrame() returns (flats: seq<map<nat, Page>>, useds: seq<set<nat>>)
    ensures |flats| == |useds| == 5 && Accounts(flats[0], useds[0]) && useds[0] == {0, 1, 2}
    ensures flats[0] == ZeroTable(0)[0 := UserPage(0)][1 := UserPage(1)][2 := UserPage(2)]
    ensures FreedAsWritten(flats[0], useds[0], 1, flats[1], useds[1])
    ensures GotFrame(flats[1], useds[1], 3, false, false, 0, flats[2], useds[2]) && flats[1][3].frame == 0
    ensures FreedAsWritten(flats[2], useds[2], 2, flats[3], useds[3])
    ensures GotFrame(flats[3], useds[3], 4, false, false, 0, flats[4], useds[4]) && flats[3][4].frame == 0
    ensures 3 in flats[4] && 4 in flats[4] && flats[4][3] == flats[4][4] == UserPage(0)
  {
    var flat := ZeroTable(0)[0 := UserPage(0)][1 := UserPage(1)][2 := UserPage(2)];
    assert forall p :: p in flat ==> flat[p].frame == if p == 1 then 1 else if p == 2 then 2 else 0;
    assert Owned(flat) == {1, 2} by {
      assert flat[1].frame == 1 && flat[2].frame == 2;
    }
    var flat1 := flat[1 := flat[1].(frame := 0)];
    var flat2 := flat1[3 := UserPage(0)];
    var flat3 := flat2[2 := flat2[2].(frame := 0)];
    flats := [flat, flat1, flat2, flat3, flat3[4 := UserPage(0)]];
    useds := [{0, 1, 2}, {1, 2}, {0, 1, 2}, {1, 2}, {0, 1, 2}];
  }

  datatype Change =
    | Got(p: nat, isKernel: bool, isWriteable: bool, index: nat)
    | Freed(p: nat)
    | NewTable(t: nat)

  ghost predicate Changes(flat: map<nat, Page>, used: set<nat>, c: Change, flat': map<nat, Page>, used': set<nat>) {
    match c
    case Got(p, k, w, index) => GotFrame(flat, used, p, k, w, index, flat', used')
    case Freed(p) => FreedAsIntended(flat, used, p, flat', used')
    case NewTable(t) => (forall p :: InTable(p, t) ==> p !in flat) && flat' == flat + ZeroTable(t) && used' == used
  }

  /** Over every run of allocations, intended frees and new tables the accounts stay right, so frame 0 is never
      handed out and no frame is handed out twice while a page owns it. */
  lemma {:induction false} RunKeepsAccounts(flats: seq<map<nat, Page>>, useds: seq<set<nat>>, changes: seq<Change>, n: nat)
    requires |flats| == |useds| == |changes| + 1 && n <= |changes|
    requires Accounts(flats[0], useds[0])
    requires forall i :: 0 <= i < |changes| ==> Changes(flats[i], useds[i], changes[i], flats[i + 1], useds[i + 1])
    ensures Accounts(flats[n], useds[n])
    ensures n < |changes| && changes[n].Got? && changes[n].p in flats[n] && flats[n][changes[n].p].frame == 0 ==>
      changes[n].index != 0 && changes[n].index !in Owned(flats[n])
    decreases n
  {
    if n > 0 {
      var m := n - 1;
      RunKeepsAccounts(flats, useds, changes, m);
      assert Changes(flats[m], useds[m], changes[m], flats[m + 1], useds[m + 1]);
      match changes[m]
      case Got(p, k, w, index) => AllocKeepsAccounts(flats[m], useds[m], p, k, w, index, flats[n], useds[n]);
      case Freed(p) => IntendedFreeKeepsAccounts(flats[m], useds[m], p, flats[n], useds[n]);
      case NewTable(t) => TableKeepsAccounts(flats[m], useds[m], t);
    }
    if n < |changes| {
      assert Changes(flats[n], useds[n], changes[n], flats[n + 1], useds[n + 1]);
    }
  }

  // ---- Runs of free_frame as written ----

  /** The steps with free_frame as written, and frame numbers that exist. */
  ghost predicate ChangesAsWritten(flat: map<nat, Page>, used: set<nat>, c: Change, flat': map<nat, Page>, used': set<nat>) {
    match c
    case Got(p, k, w, index) => GotFrame(flat, used, p, k, w, index, flat', used') && index < FRAME_LIMIT
    case Freed(p) => FreedAsWritten(flat, used, p, flat', used')
    case NewTable(t) => (forall p :: InTable(p, t) ==> p !in flat) && flat' == flat + ZeroTable(t) && used' == used
  }

  /** The step frees a frame. */
  predicate TakesFrame(flat: map<nat, Page>, c: Change) {
    c.Freed? && c.p in flat && flat[c.p].frame != 0
  }

  /** A frame in use that no page has. */
  ghost predicate Leaks(flat: map<nat, Page>, used: set<nat>, n: nat) {
    n != 0 && n in used && forall p :: p in flat ==> flat[p].frame != n
  }

  /** Frame numbers exist, and those that clear_frame never gets as an address have one owner at most and are in use. */
  ghost predicate HighFramesSafe(flat: map<nat, Page>, used: set<nat>) {
    && (forall p :: p in flat ==> flat[p].frame < FRAME_LIMIT)
    && (forall p :: p in flat && PAGE_SIZE <= flat[p].frame ==> flat[p].frame in used)
    && forall p, q :: p in flat && q in flat && p != q && PAGE_SIZE <= flat[p].frame ==> flat[p].frame != flat[q].frame
  }

  lemma HighStep(flat: map<nat, Page>, used: set<nat>, c: Change, flat': map<nat, Page>, used': set<nat>)
    requires HighFramesSafe(flat, used) && ChangesAsWritten(flat, used, c, flat', used')
    ensures HighFramesSafe(flat', used')
  {
    if c.NewTable? {
      forall p | p in flat'
        ensures (p in flat && flat'[p] == flat[p]) || flat'[p].frame == 0
      {
      }
    }
  }

  /** Once a frame is leaked, some frame is: freeing another one may take the first out of use, but leaks itself. */
  lemma LeakStep(flat: map<nat, Page>, used: set<nat>, c: Change, flat': map<nat, Page>, used': set<nat>, n: nat)
    returns (n': nat)
    requires HighFramesSafe(flat, used) && ChangesAsWritten(flat, used, c, flat', used') && Leaks(flat, used, n)
    ensures Leaks(flat', used', n')
  {
    n' := n;
    if TakesFrame(flat, c) && flat[c.p].frame / PAGE_SIZE == n {
      n' := flat[c.p].frame;
    }
  }

  lemma LeakIsNoAccount(flat: map<nat, Page>, used: set<nat>, n: nat)
    requires Leaks(flat, used, n)
    ensures !Accounts(flat, used)
  {
    assert n !in Owned(flat);
  }

  lemma AccountsAreSafe(flat: map<nat, Page>, used: set<nat>)
    requires Accounts(flat, used) && forall p :: p in flat ==> flat[p].frame < FRAME_LIMIT
    ensures HighFramesSafe(flat, used)
  {
    forall p | p in flat && flat[p].frame != 0
      ensures flat[p].frame in used
    {
      assert flat[p].frame in Owned(flat);
    }
  }

  lemma LeakNotZero(flat: map<nat, Page>, used: set<nat>, n: nat)
    requires Leaks(flat, used, n)
    ensures n != 0
  {
  }

  lemma NotOwned(flat: map<nat, Page>, n: nat)
    requires n !in Owned(flat) && n != 0
    ensures forall p :: p in flat ==> flat[p].frame != n
  {
    forall p | p in flat
      ensures flat[p].frame != n
    {
      assert flat[p].frame != 0 ==> flat[p].frame in Owned(flat);
    }
  }

  /** From right accounts a step leaks a frame exactly if it frees one. */
  lemma FirstLeak(flat: map<nat, Page>, used: set<nat>, c: Change, flat': map<nat, Page>, used': set<nat>)
    returns (leaked: nat)
    requires Accounts(flat, used) && ChangesAsWritten(flat, used, c, flat', used')
    ensures leaked == 0 <==> !TakesFrame(flat, c)
    ensures if leaked == 0 then Accounts(flat', used') else Leaks(flat', used', leaked)
  {
    leaked := 0;
    match c
    case Got(p, k, w, index) => AllocKeepsAccounts(flat, used, p, k, w, index, flat', used');
    case NewTable(t) => TableKeepsAccounts(flat, used, t);
    case Freed(p) =>
      if flat[p].frame != 0 {
        FreeAsWrittenLeaks(flat, used, p, flat', used');
        leaked := flat[p].frame;
        NotOwned(flat', leaked);
      }
  }

  lemma {:induction false} RunLeaks(flats: seq<map<nat, Page>>, useds: seq<set<nat>>, changes: seq<Change>, n: nat)
    returns (leaked: nat)
    requires |flats| == |useds| == |changes| + 1 && n <= |changes|
    requires Accounts(flats[0], useds[0]) && forall p :: p in flats[0] ==> flats[0][p].frame < FRAME_LIMIT
    requires forall i :: 0 <= i < |changes| ==>
      ChangesAsWritten(flats[i], useds[i], changes[i], flats[i + 1], useds[i + 1])
    ensures HighFramesSafe(flats[n], useds[n])
    ensures leaked == 0 <==> forall i :: 0 <= i < n ==> !TakesFrame(flats[i], changes[i])
    ensures if leaked == 0 then Accounts(flats[n], useds[n]) else Leaks(flats[n], useds[n], leaked)
    decreases n
  {
    hide Accounts, HighFramesSafe, Leaks, ChangesAsWritten, TakesFrame;
    if n == 0 {
      AccountsAreSafe(flats[0], useds[0]);
      leaked := 0;
    } else {
      var m := n - 1;
      leaked := RunLeaks(flats, useds, changes, m);
      assert ChangesAsWritten(flats[m], useds[m], changes[m], flats[m + 1], useds[m + 1]);
      HighStep(flats[m], useds[m], changes[m], flats[n], useds[n]);
      if leaked != 0 {
        leaked := LeakStep(flats[m], useds[m], changes[m], flats[n], useds[n], leaked);
        LeakNotZero(flats[n], useds[n], leaked);
      } else {
        leaked := FirstLeak(flats[m], useds[m], changes[m], flats[n], useds[n]);
      }
    }
  }

  /** Over every run with free_frame as written, the accounts are right at the end exactly when no frame was freed. */
  lemma {:induction false} RunAsWrittenExact(flats: seq<map<nat, Page>>, useds: seq<set<nat>>, changes: seq<Change>, n: nat)
    requires |flats| == |useds| == |changes| + 1 && n <= |changes|
    requires Accounts(flats[0], useds[0]) && forall p :: p in flats[0] ==> flats[0][p].frame < FRAME_LIMIT
    requires forall i :: 0 <= i < |changes| ==>
      ChangesAsWritten(flats[i], useds[i], changes[i], flats[i + 1], useds[i + 1])
    ensures Accounts(flats[n], useds[n]) <==> forall i :: 0 <= i < n ==> !TakesFrame(flats[i], changes[i])
  {
    var leaked := RunLeaks(flats, useds, changes, n);
    if leaked != 0 {
      LeakIsNoAccount(flats[n], useds[n], leaked);
    }
  }
}
