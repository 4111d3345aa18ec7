// How many frames the operations on address spaces need, and so exactly when they run out of frames.
module Budget {
  import opened Counting
  import opened Mmu
  import opened Paging
  import opened Spaces

  // ---- Free frames ----

  function Free(w: World): int {
    w.hi - w.lo - |w.owner.Keys|
  }

  lemma FreeFacts(w: World)
    requires Inv(w)
    ensures Free(w) >= 0
    ensures PoolFull(w) <==> Free(w) == 0
  {
    SubsetSize(w.owner.Keys, Range(w.lo, w.hi));
    if PoolFull(w) {
      assert w.owner.Keys == Range(w.lo, w.hi);
    }
  }

  lemma FreeTake(w: World, f: nat, o: Owner)
    requires f !in w.owner
    ensures Free(Take(w, f, o)) == Free(w) - 1
  {
    assert Take(w, f, o).owner.Keys == w.owner.Keys + {f};
  }

  // ---- Mapping a span of pages ----

  // One of the n pages from page v on lies in slot i.
  predicate Touches(v: nat, n: nat, i: nat) {
    n > 0 && v / 1024 <= i <= (v + n - 1) / 1024
  }

  // The slots for which a table is needed to map those pages
  function NewSlots(m: Mem, r: nat, v: nat, n: nat): set<nat> {
    set i: nat | v / 1024 <= i <= (v + n) / 1024 && Touches(v, n, i) && !HasTable(m, r, i)
  }

  // From w to w' exactly the tables for the n pages from v on were created in directory r; apart from them,
  // extra frames were taken.
  ghost predicate TablesMade(w: World, w': World, r: nat, v: nat, n: nat, extra: nat) {
    && w'.lo == w.lo && w'.hi == w.hi
    && (forall i: nat :: HasTable(w'.mem, r, i) <==> HasTable(w.mem, r, i) || Touches(v, n, i))
    && |w'.owner.Keys| == |w.owner.Keys| + |NewSlots(w.mem, r, v, n)| + extra
  }

  lemma TouchesNext(v: nat, n: nat, n': nat)
    requires n' == n + 1
    ensures forall i: nat :: Touches(v, n', i) <==> Touches(v, n, i) || i == (v + n) / 1024
  {
    forall i: nat
      ensures Touches(v, n', i) <==> Touches(v, n, i) || i == (v + n) / 1024
    {
      TouchesNextAt(v, n, i);
    }
  }

  lemma TouchesNextAt(v: nat, n: nat, i: nat)
    ensures Touches(v, n + 1, i) <==> Touches(v, n, i) || i == (v + n) / 1024
  {
    var first, next := v / 1024, (v + n) / 1024;
    assert v + (n + 1) - 1 == v + n;
    assert Touches(v, n + 1, i) <==> first <= i <= next;
    if n > 0 {
      var last := (v + n - 1) / 1024;
      PageAfter(v + n - 1);
      assert first <= last <= next <= last + 1;
    }
  }

  lemma PageAfter(x: nat)
    ensures x / 1024 <= (x + 1) / 1024 <= x / 1024 + 1
  {
  }

  lemma TouchesBound(v: nat, n: nat)
    ensures forall i: nat :: Touches(v, n, i) ==> v / 1024 <= i <= (v + n) / 1024
  {
  }

  lemma NewSlotsNext(m: Mem, r: nat, v: nat, n: nat)
    ensures var s := (v + n) / 1024;
            NewSlots(m, r, v, n + 1) == NewSlots(m, r, v, n) + if Touches(v, n, s) || HasTable(m, r, s) then {} else {s}
  {
    TouchesNext(v, n, n + 1);
    TouchesBound(v, n);
    TouchesBound(v, n + 1);
    hide Touches, HasTable;
  }

  lemma NewSlotsSize(m: Mem, r: nat, v: nat, n: nat)
    ensures var s := (v + n) / 1024;
            |NewSlots(m, r, v, n + 1)| == |NewSlots(m, r, v, n)| + if Touches(v, n, s) || HasTable(m, r, s) then 0 else 1
  {
    NewSlotsNext(m, r, v, n);
    hide Touches;
  }

  lemma {:induction false} NewSlotsGrow(m: Mem, r: nat, v: nat, n: nat, n': nat)
    requires n <= n'
    ensures |NewSlots(m, r, v, n)| <= |NewSlots(m, r, v, n')|
    decreases n'
  {
    if n < n' {
      NewSlotsGrow(m, r, v, n, n' - 1);
      NewSlotsSize(m, r, v, n' - 1);
    }
  }

  lemma MadeNothing(w: World, r: nat, v: nat)
    ensures TablesMade(w, w, r, v, 0, 0)
  {
    assert NewSlots(w.mem, r, v, 0) == {};
  }

  // One page more
  lemma MadeNext(w: World, w1: World, w2: World, r: nat, v: nat, n: nat, extra: nat, more: nat)
    requires TablesMade(w, w1, r, v, n, extra) && TablesMade(w1, w2, r, v + n, 1, more)
    ensures TablesMade(w, w2, r, v, n + 1, extra + more)
  {
    TouchesNext(v, n, n + 1);
    NewSlotsSize(w.mem, r, v, n);
    NewSlotsOne(w1.mem, r, v + n);
    hide Touches, NewSlots, HasTable;
  }

  lemma NewSlotsOne(m: Mem, r: nat, v: nat)
    ensures forall i: nat :: Touches(v, 1, i) <==> i == v / 1024
    ensures |NewSlots(m, r, v, 1)| == if HasTable(m, r, v / 1024) then 0 else 1
  {
    assert NewSlots(m, r, v, 1) == if HasTable(m, r, v / 1024) then {} else {v / 1024};
  }

  // One page was mapped in slot i, for which there was a table (w1 == w) or a new one was made.
  lemma MadeOne(w: World, w1: World, r: nat, v: nat, i: nat, j: nat, t: nat, p: nat, perm: nat)
    requires Inv(w) && i == v / 1024
    requires if HasTable(w.mem, r, i) then w1 == w
             else t !in w.owner && CanInstallTable(Take(w, t, InHand), r, i, t) && w1 == NewTable(w, r, i, t)
    requires CanInstallPage(w1, r, i, j, p, perm)
    ensures TableOf(w1.mem, r, i) < |w1.mem|
    ensures TablesMade(w, InstallPage(w1, r, i, j, p, perm), r, v, 1, 0)
  {
    NewSlotsOne(w.mem, r, v);
    var w2 := InstalledPage(w1, r, i, j, p, perm);
    hide InstallPage, NewSlots, Inv, Touches;
    if w1 == w {
    } else {
      InstalledTable(w, r, i, t);
    }
  }

  lemma InstalledPage(w: World, r: nat, i: nat, j: nat, p: nat, perm: nat) returns (w': World)
    requires CanInstallPage(w, r, i, j, p, perm)
    ensures TableOf(w.mem, r, i) < |w.mem| && w' == InstallPage(w, r, i, j, p, perm)
    ensures forall i' :: HasTable(w'.mem, r, i') <==> HasTable(w.mem, r, i')
    ensures w'.owner.Keys == w.owner.Keys && w'.lo == w.lo && w'.hi == w.hi
  {
    InstallPagePtes(w, r, i, j, p, perm, r, i, j);
    w' := InstallPage(w, r, i, j, p, perm);
    forall i'
      ensures At(w'.mem, r, i') == At(w.mem, r, i')
    {
      InstallPagePtes(w, r, i, j, p, perm, r, i', j);
    }
  }

  lemma InstalledTable(w: World, r: nat, i: nat, t: nat)
    requires t !in w.owner && CanInstallTable(Take(w, t, InHand), r, i, t)
    ensures var w' := NewTable(w, r, i, t);
            && (forall i' :: HasTable(w'.mem, r, i') <==> HasTable(w.mem, r, i') || i' == i)
            && |w'.owner.Keys| == |w.owner.Keys| + 1 && w'.lo == w.lo && w'.hi == w.hi
  {
    var w1 := Take(w, t, InHand);
    var w' := NewTable(w, r, i, t);
    EntryFields(t, 7);
    assert r != t;
    forall i': nat
      ensures At(w'.mem, r, i') == if i' == i then Entry(t, 7) else At(w.mem, r, i')
    {
      InstallTableAt(w1, r, i, t, r, i');
    }
    assert w'.owner.Keys == w.owner.Keys + {t};
  }

  // A frame was taken first, for the page itself.
  lemma MadeWithPage(w: World, w': World, r: nat, v: nat, p: nat)
    requires p !in w.owner && TablesMade(Take(w, p, InHand), w', r, v, 1, 0)
    ensures TablesMade(w, w', r, v, 1, 1)
  {
    assert Take(w, p, InHand).owner.Keys == w.owner.Keys + {p};
  }

  // The frames for n pages of a span and their tables; without unbacked, the pages have their frames already.
  function SpanCost(m: Mem, r: nat, v: nat, n: nat, unbacked: bool): nat {
    |NewSlots(m, r, v, n)| + if unbacked then n else 0
  }

  lemma SpanCostOne(m: Mem, r: nat, v: nat)
    ensures SpanCost(m, r, v, 0, true) == 0
    ensures SpanCost(m, r, v, 1, true) == if HasTable(m, r, v / 1024) then 1 else 2
  {
    assert NewSlots(m, r, v, 0) == {};
    NewSlotsOne(m, r, v);
  }

  // The pages from v on are mapped one by one until count are or a frame is missing: all are exactly if there
  // are frames for all.
  lemma SpanBudget(w: World, w1: World, r: nat, v: nat, n: nat, count: nat, unbacked: bool)
    requires Inv(w1) && n <= count && TablesMade(w, w1, r, v, n, if unbacked then n else 0)
    requires n < count ==> Free(w1) < (if unbacked then 1 else 0) + if HasTable(w1.mem, r, (v + n) / 1024) then 0 else 1
    ensures n == count <==> Free(w) >= SpanCost(w.mem, r, v, count, unbacked)
    ensures Free(w1) == Free(w) - SpanCost(w.mem, r, v, n, unbacked)
  {
    FreeFacts(w1);
    hide Inv, NewSlots, Touches, HasTable;
    if n < count {
      NewSlotsSize(w.mem, r, v, n);
      NewSlotsGrow(w.mem, r, v, n + 1, count);
    }
  }

  // The first frame that is missing to map count pages is one for a table: that of page k.
  predicate SpanLacks(w: World, r: nat, v: nat, count: nat, k: nat) {
    && k < count
    && SpanCost(w.mem, r, v, k + 1, true) == SpanCost(w.mem, r, v, k, true) + 2
    && Free(w) == SpanCost(w.mem, r, v, k, true) + 1
  }

  ghost predicate SpanLacksTable(w: World, r: nat, v: nat, count: nat) {
    exists k: nat :: SpanLacks(w, r, v, count, k)
  }

  lemma SpanCostGrows(m: Mem, r: nat, v: nat, n: nat, n': nat)
    requires n <= n'
    ensures SpanCost(m, r, v, n, true) + (n' - n) <= SpanCost(m, r, v, n', true)
  {
    NewSlotsGrow(m, r, v, n, n');
    hide NewSlots;
  }

  // Mapping fresh pages stopped at page n of count, with one frame left or none.
  lemma SpanStops(w: World, w1: World, r: nat, v: nat, n: nat, count: nat)
    requires TablesMade(w, w1, r, v, n, n) && n < count && 0 <= Free(w1) <= 1
    requires Free(w1) == 1 ==> !HasTable(w1.mem, r, (v + n) / 1024)
    ensures Free(w1) == 1 <==> SpanLacksTable(w, r, v, count)
  {
    NewSlotsSize(w.mem, r, v, n);
    hide NewSlots, Touches, HasTable;
    assert Free(w1) == Free(w) - SpanCost(w.mem, r, v, n, true);
    if Free(w1) == 1 {
      assert SpanLacks(w, r, v, count, n);
    }
    if k: nat :| SpanLacks(w, r, v, count, k) {
      if k < n {
        SpanCostGrows(w.mem, r, v, k + 1, n);
      } else if n < k {
        SpanCostGrows(w.mem, r, v, n + 1, k);
      }
    }
  }

  lemma SpanEnough(w: World, r: nat, v: nat, count: nat)
    requires Free(w) >= SpanCost(w.mem, r, v, count, true)
    ensures !SpanLacksTable(w, r, v, count)
  {
    hide SpanCost;
    if k: nat :| SpanLacks(w, r, v, count, k) {
      SpanCostGrows(w.mem, r, v, k + 1, count);
    }
  }

  // ---- Copying a user half ----

  // Page v, counted through all slots, is mapped.
  predicate PageAt(m: Mem, r: nat, v: nat) {
    Mapped(m, r, v / 1024, v % 1024)
  }

  function Slot(v: nat): nat {
    v / 1024
  }

  // The user pages below page x, and the slots that they lie in
  function PagesBelow(m: Mem, r: nat, x: nat): set<nat> {
    set v: nat | 0x8_0000 <= v < x && PageAt(m, r, v)
  }

  function SlotsBelow(m: Mem, r: nat, x: nat): set<nat> {
    set v: nat | v in PagesBelow(m, r, x) :: Slot(v)
  }

  // What it takes to copy the user pages below x: a frame for each page, and one for the table of each slot
  function Cost(m: Mem, r: nat, x: nat): nat {
    |PagesBelow(m, r, x)| + |SlotsBelow(m, r, x)|
  }

  // What it takes to go on with page x
  function PageCost(m: Mem, r: nat, x: nat): nat {
    if !PageAt(m, r, x) then 0 else if Slot(x) in SlotsBelow(m, r, x) then 1 else 2
  }

  const END := 0x10_0000

  // The mapped pages of the user half of r, and the slots with at least one of them
  function UserPages(m: Mem, r: nat): set<nat> {
    PagesBelow(m, r, END)
  }

  function UserSlots(m: Mem, r: nat): set<nat> {
    SlotsBelow(m, r, END)
  }

  lemma WholeCost(m: Mem, r: nat)
    ensures Cost(m, r, END) == |UserPages(m, r)| + |UserSlots(m, r)|
  {
  }

  lemma BelowNext(m: Mem, r: nat, x: nat)
    requires 0x8_0000 <= x
    ensures PagesBelow(m, r, x + 1) == PagesBelow(m, r, x) + if PageAt(m, r, x) then {x} else {}
    ensures SlotsBelow(m, r, x + 1) == SlotsBelow(m, r, x) + if PageAt(m, r, x) then {Slot(x)} else {}
  {
    var a, b := PagesBelow(m, r, x), PagesBelow(m, r, x + 1);
    assert b == a + if PageAt(m, r, x) then {x} else {};
    SlotsOfUnion(a, b, x, PageAt(m, r, x));
  }

  lemma SlotsOfUnion(a: set<nat>, b: set<nat>, x: nat, more: bool)
    requires b == a + if more then {x} else {}
    ensures (set v: nat | v in b :: Slot(v)) == (set v: nat | v in a :: Slot(v)) + if more then {Slot(x)} else {}
  {
    hide Slot;
    var c, d := set v: nat | v in a :: Slot(v), set v: nat | v in b :: Slot(v);
    forall i: nat | i in d
      ensures i in c + if more then {Slot(x)} else {}
    {
      var v: nat :| v in b && Slot(v) == i;
      assert v in a || (more && v == x);
    }
    forall i: nat | i in c
      ensures i in d
    {
      var v: nat :| v in a && Slot(v) == i;
      assert v in b;
    }
    assert more ==> x in b;
  }

  lemma CostNext(m: Mem, r: nat, x: nat)
    requires 0x8_0000 <= x
    ensures Cost(m, r, x + 1) == Cost(m, r, x) + PageCost(m, r, x)
  {
    BelowNext(m, r, x);
    assert x !in PagesBelow(m, r, x);
    OneMore(PagesBelow(m, r, x), x);
    OneMore(SlotsBelow(m, r, x), Slot(x));
    hide SlotsBelow, PagesBelow, PageAt, Slot;
  }

  lemma {:induction false} CostGrows(m: Mem, r: nat, x: nat, y: nat)
    requires 0x8_0000 <= x <= y
    ensures Cost(m, r, x) <= Cost(m, r, y)
    decreases y
  {
    hide Cost, PageCost;
    if x < y {
      CostGrows(m, r, x, y - 1);
      CostNext(m, r, y - 1);
    }
  }

  // The walk in world w stops at page x for want of a frame: for the page itself, or, with leak, for the table
  // that page needs after a frame was taken for the page.
  predicate StopsAt(w: World, from: nat, x: nat, leak: bool) {
    && 0x8_0000 <= x < END
    && PageCost(w.mem, from, x) >= (if leak then 2 else 1)
    && Free(w) == Cost(w.mem, from, x) + if leak then 1 else 0
  }

  // The first frame that is missing is one for a table.
  ghost predicate LacksTable(w: World, from: nat) {
    exists x: nat :: StopsAt(w, from, x, true)
  }

  ghost predicate Stops(w: World, from: nat, leak: bool) {
    exists x: nat :: StopsAt(w, from, x, leak)
  }

  lemma StopsBefore(w: World, from: nat, x: nat, leak: bool, y: nat)
    requires StopsAt(w, from, x, leak) && x < y
    ensures Free(w) < Cost(w.mem, from, y) && (leak ==> Free(w) + 1 <= Cost(w.mem, from, y))
  {
    CostNext(w.mem, from, x);
    CostGrows(w.mem, from, x + 1, y);
    hide Cost, PageCost, Free;
  }

  // A copy stops exactly if there are fewer frames than user pages and slots.
  lemma StopsShort(w: World, from: nat, leak: bool)
    requires Stops(w, from, leak)
    ensures Free(w) < |UserPages(w.mem, from)| + |UserSlots(w.mem, from)|
    ensures leak <==> LacksTable(w, from)
  {
    var x: nat :| StopsAt(w, from, x, leak);
    WholeCost(w.mem, from);
    hide Cost, PageCost, UserPages, UserSlots, Free;
    StopsBefore(w, from, x, leak, END);
    if y: nat :| StopsAt(w, from, y, true) {
      if x < y {
        StopsBefore(w, from, x, leak, y);
      } else if y < x {
        StopsBefore(w, from, y, true, x);
      }
    }
  }

  lemma EnoughNeverLacks(w: World, from: nat)
    requires Free(w) >= |UserPages(w.mem, from)| + |UserSlots(w.mem, from)|
    ensures !LacksTable(w, from)
  {
    WholeCost(w.mem, from);
    hide Cost, PageCost, UserPages, UserSlots, Free;
    if x: nat :| StopsAt(w, from, x, true) {
      CostNext(w.mem, from, x);
      CostGrows(w.mem, from, x + 1, END);
    }
  }

  // The copy of from's pages below x to directory to, which had no tables, has taken that much: to has a table
  // for each slot with one of these pages.
  ghost predicate CopyPaid(w: World, w': World, from: nat, to: nat, x: nat) {
    && w'.lo == w.lo && w'.hi == w.hi
    && (forall i: nat :: 512 <= i < 1024 ==> (HasTable(w'.mem, to, i) <==> i in SlotsBelow(w.mem, from, x)))
    && |w'.owner.Keys| == |w.owner.Keys| + Cost(w.mem, from, x)
  }

  lemma PaidNothing(w: World, from: nat, to: nat)
    requires forall i :: 512 <= i < 1024 ==> !HasTable(w.mem, to, i)
    ensures CopyPaid(w, w, from, to, 0x8_0000)
  {
    assert PagesBelow(w.mem, from, 0x8_0000) == {};
    assert SlotsBelow(w.mem, from, 0x8_0000) == {};
  }

  lemma PaidSkip(w: World, w': World, from: nat, to: nat, x: nat)
    requires 0x8_0000 <= x && !PageAt(w.mem, from, x) && CopyPaid(w, w', from, to, x)
    ensures CopyPaid(w, w', from, to, x + 1)
  {
    BelowNext(w.mem, from, x);
    hide SlotsBelow, PagesBelow, PageAt;
  }

  lemma {:induction false} PaidSkipRow(w: World, w': World, from: nat, to: nat, x: nat, n: nat)
    requires 0x8_0000 <= x && CopyPaid(w, w', from, to, x)
    requires forall v :: x <= v < x + n ==> !PageAt(w.mem, from, v)
    ensures CopyPaid(w, w', from, to, x + n)
  {
    if n > 0 {
      PaidSkipRow(w, w', from, to, x, n - 1);
      PaidSkip(w, w', from, to, x + n - 1);
    }
  }

  lemma PaidNext(w: World, w1: World, w2: World, from: nat, to: nat, x: nat)
    requires 0x8_0000 <= x < END && PageAt(w.mem, from, x) && CopyPaid(w, w1, from, to, x)
    requires TablesMade(w1, w2, to, x, 1, 1)
    ensures CopyPaid(w, w2, from, to, x + 1)
  {
    CostNext(w.mem, from, x);
    NewSlotsOne(w1.mem, to, x);
    SlotsNext(w.mem, from, x);
    assert 512 <= Slot(x) < 1024 && Slot(x) == x / 1024;
    hide SlotsBelow, PagesBelow, PageAt, NewSlots, Touches, Cost, HasTable, Slot;
  }

  // The copy has got to page x, which is mapped, and finds no frame for it, or for its table.
  lemma PaidStops(w: World, w1: World, from: nat, to: nat, x: nat, leak: bool)
    requires 0x8_0000 <= x < END && PageAt(w.mem, from, x) && CopyPaid(w, w1, from, to, x)
    requires if leak then Free(w1) == 1 && !HasTable(w1.mem, to, x / 1024) else Free(w1) == 0
    ensures Stops(w, from, leak)
  {
    assert 512 <= Slot(x) < 1024 && Slot(x) == x / 1024;
    hide Cost, PageAt, SlotsBelow, Slot, HasTable;
    assert StopsAt(w, from, x, leak);
  }

  lemma SlotsNext(m: Mem, r: nat, x: nat)
    requires 0x8_0000 <= x && PageAt(m, r, x)
    ensures forall i: nat :: i in SlotsBelow(m, r, x + 1) <==> i in SlotsBelow(m, r, x) || i == Slot(x)
  {
    BelowNext(m, r, x);
    hide SlotsBelow, PagesBelow, Slot;
  }
}
