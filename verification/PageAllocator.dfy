/**
 * The page allocator: blocks are cut from the end of the last page, pages count what was cut and what was
 * given back, and a page is released when nothing is left on it.
 */
module PageAllocator {
  import opened Sequences

  type PageId = nat

  const PageSize: nat := 32768
  const LargeThreshold: nat := PageSize / 4

  /** prev and next link the pages; 0 is the end of the list. */
  datatype Page = Page(prev: PageId, next: PageId, size: nat, busy: nat, freed: nat)

  datatype Block = Block(off: nat, size: nat)

  function Sum(s: seq<Block>): nat {
    if s == [] then 0 else s[0].size + Sum(s[1..])
  }

  lemma {:induction false} SumRemove(s: seq<Block>, k: nat)
    requires k < |s|
    ensures Sum(s) == s[k].size + Sum(RemoveAt(s, k))
  {
    var r := RemoveAt(s, k);
    if k == 0 {
      assert r == s[1..];
    } else {
      SumRemove(s[1..], k - 1);
      assert r[0] == s[0] && r[1..] == RemoveAt(s[1..], k - 1);
    }
  }

  lemma {:induction false} SumAppend(s: seq<Block>, b: Block)
    ensures Sum(s + [b]) == Sum(s) + b.size
  {
    if s == [] {
      assert ([] + [b])[1..] == [];
    } else {
      assert (s + [b])[1..] == s[1..] + [b];
      SumAppend(s[1..], b);
    }
  }

  lemma SumEmpty(s: seq<Block>)
    requires forall i | 0 <= i < |s| :: s[i].size > 0
    ensures Sum(s) == 0 <==> s == []
  {
  }

  predicate Apart(a: Block, b: Block) {
    a.off + a.size <= b.off || b.off + b.size <= a.off
  }

  /** Live blocks are not empty, lie inside the used part of the page, and do not overlap. */
  ghost predicate BlocksOk(s: seq<Block>, busy: nat) {
    && (forall i {:trigger s[i]} | 0 <= i < |s| :: s[i].size > 0 && s[i].off + s[i].size <= busy)
    && (forall i, j {:trigger s[i], s[j]} | 0 <= i < j < |s| :: Apart(s[i], s[j]))
  }

  /** The counters tell how much is live. */
  ghost predicate Counted(p: Page, busy: nat, s: seq<Block>) {
    BlocksOk(s, busy) && p.freed <= busy <= p.size && Sum(s) == busy - p.freed
  }

  // The list of pages.

  function PrevIn(order: seq<PageId>, i: nat): PageId
    requires i < |order|
  {
    if i == 0 then 0 else order[i - 1]
  }

  function NextIn(order: seq<PageId>, i: nat): PageId {
    if i + 1 < |order| then order[i + 1] else 0
  }

  ghost predicate LinkedAt(pages: map<PageId, Page>, order: seq<PageId>, i: nat)
    requires i < |order|
  {
    order[i] != 0 && order[i] in pages && pages[order[i]].prev == PrevIn(order, i) && pages[order[i]].next == NextIn(order, i)
  }

  ghost predicate Linked(pages: map<PageId, Page>, order: seq<PageId>) {
    && order != [] && Distinct(order)
    && (forall p | p in pages :: p in order)
    && (forall i {:trigger LinkedAt(pages, order, i)} | 0 <= i < |order| :: LinkedAt(pages, order, i))
  }

  /** Position of a page in the list. */
  lemma Where(pages: map<PageId, Page>, order: seq<PageId>, p: PageId) returns (k: nat)
    requires Linked(pages, order) && p in pages
    ensures k < |order| && order[k] == p && LinkedAt(pages, order, k)
    ensures k > 0 ==> LinkedAt(pages, order, k - 1) && order[k - 1] != p
    ensures k + 1 < |order| ==> LinkedAt(pages, order, k + 1) && order[k + 1] != p
    ensures 0 < k < |order| - 1 ==> order[k - 1] != order[k + 1]
  {
    k := IndexOf(order, p);
  }

  lemma Listed(pages: map<PageId, Page>, order: seq<PageId>)
    requires Linked(pages, order)
    ensures forall p {:trigger p in order} :: p in order <==> p in pages
  {
    forall p | p in order ensures p in pages {
      assert LinkedAt(pages, order, IndexOf(order, p));
    }
  }

  // The whole state.

  /** Pages with their counters; the last page's use is counted in busy. live holds the blocks of each page. */
  datatype Heap = Heap(pages: map<PageId, Page>, order: seq<PageId>, busy: nat, live: map<PageId, seq<Block>>)

  function BusyOf(h: Heap, p: PageId): nat
    requires p in h.pages && h.order != []
  {
    if p == h.order[|h.order| - 1] then h.busy else h.pages[p].busy
  }

  /** The first page is the document's own and looks full; all others hold blocks, the last one perhaps none. */
  ghost predicate PageOk(h: Heap, p: PageId)
    requires h.order != [] && p in h.pages
  {
    && p in h.live
    && (p == h.order[0] ==> h.live[p] == [] && BusyOf(h, p) == PageSize && h.pages[p].freed == 0)
    && (p != h.order[0] ==> Counted(h.pages[p], BusyOf(h, p), h.live[p]))
    && (p != h.order[0] && p != h.order[|h.order| - 1] ==> h.live[p] != [])
    && (p != h.order[0] && p == h.order[|h.order| - 1] ==> h.pages[p].size == PageSize && (h.live[p] == [] ==> h.busy == 0))
  }

  ghost predicate Ok(h: Heap) {
    && Linked(h.pages, h.order)
    && (forall p {:trigger PageOk(h, p)} | p in h.pages :: PageOk(h, p))
  }

  function PageAt(h: Heap, p: PageId): Page {
    if p in h.pages then h.pages[p] else Page(0, 0, 0, 0, 0)
  }

  function LiveAt(h: Heap, p: PageId): seq<Block> {
    if p in h.live then h.live[p] else []
  }

  // Cutting a block from the last page.

  function Cut(h: Heap, size: nat): Heap
    requires h.order != []
  {
    var last := h.order[|h.order| - 1];
    h.(busy := h.busy + size, live := h.live[last := LiveAt(h, last) + [Block(h.busy, size)]])
  }

  lemma CutOk(h: Heap, size: nat)
    requires Ok(h) && size > 0 && h.busy + size <= PageSize
    ensures Ok(Cut(h, size))
  {
    var n := |h.order| - 1;
    var last := h.order[n];
    assert LinkedAt(h.pages, h.order, n) && PageOk(h, last);
    SumAppend(h.live[last], Block(h.busy, size));
    var c := Cut(h, size);
    forall p {:trigger PageOk(c, p)} | p in c.pages ensures PageOk(c, p) {
      assert PageOk(h, p);
    }
  }

  // A new last page.

  /** The old last page's use is written down, the new page is linked behind it and gets the block. */
  function Grown(h: Heap, id: PageId, size: nat): Heap
    requires h.order != []
  {
    var last := h.order[|h.order| - 1];
    Heap(h.pages[last := PageAt(h, last).(busy := h.busy, next := id)][id := Page(last, 0, PageSize, size, 0)],
         h.order + [id], size, h.live[id := [Block(0, size)]])
  }

  lemma OneBlock(size: nat, p: Page)
    requires 0 < size <= p.size && p.freed == 0
    ensures Counted(p, size, [Block(0, size)])
  {
    assert Sum([Block(0, size)][1..]) == 0;
  }

  lemma GrownOk(h: Heap, id: PageId, size: nat)
    requires Ok(h) && id != 0 && id !in h.pages && 0 < size <= LargeThreshold && h.busy + size > PageSize
    ensures Ok(Grown(h, id, size))
  {
    var n := |h.order| - 1;
    var last := h.order[n];
    Listed(h.pages, h.order);
    assert h.order[0] in h.order && h.order[n] in h.order && id !in h.order;
    assert LinkedAt(h.pages, h.order, n) && PageOk(h, last);
    var g := Grown(h, id, size);
    forall i {:trigger LinkedAt(g.pages, g.order, i)} | 0 <= i < |g.order| ensures LinkedAt(g.pages, g.order, i) {
      if i <= n {
        assert LinkedAt(h.pages, h.order, i);
      }
    }
    forall p {:trigger PageOk(g, p)} | p in g.pages ensures PageOk(g, p) {
      if p == id {
        OneBlock(size, g.pages[id]);
      } else {
        assert PageOk(h, p);
      }
    }
  }

  // A page of its own for a large block, before the last page.

  function Widened(h: Heap, id: PageId, size: nat): Heap
    requires |h.order| > 1
  {
    var last, before := h.order[|h.order| - 1], h.order[|h.order| - 2];
    Heap(h.pages[before := PageAt(h, before).(next := id)][last := PageAt(h, last).(prev := id)][id := Page(before, last, size, size, 0)],
         h.order[..|h.order| - 1] + [id, last], h.busy, h.live[id := [Block(0, size)]])
  }

  lemma WidenedOk(h: Heap, id: PageId, size: nat)
    requires Ok(h) && id != 0 && id !in h.pages && size > 0 && |h.order| > 1
    ensures LinkedAt(h.pages, h.order, |h.order| - 1) && LinkedAt(h.pages, h.order, |h.order| - 2)
    ensures Ok(Widened(h, id, size))
  {
    var n := |h.order| - 1;
    assert LinkedAt(h.pages, h.order, n) && LinkedAt(h.pages, h.order, n - 1);
    var g := Widened(h, id, size);
    WidenedLinked(h, id, size);
    assert h.order[0] in h.order && h.order[n] in h.order;
    Listed(h.pages, h.order);
    assert g.order[0] == h.order[0];
    forall p {:trigger PageOk(g, p)} | p in g.pages ensures PageOk(g, p) {
      if p == id {
        OneBlock(size, g.pages[id]);
      } else {
        assert PageOk(h, p);
      }
    }
  }

  lemma WidenedLinked(h: Heap, id: PageId, size: nat)
    requires Linked(h.pages, h.order) && id != 0 && id !in h.pages && |h.order| > 1
    ensures Linked(Widened(h, id, size).pages, Widened(h, id, size).order)
  {
    var n := |h.order| - 1;
    assert LinkedAt(h.pages, h.order, n) && LinkedAt(h.pages, h.order, n - 1);
    var g := Widened(h, id, size);
    WidenedOrder(h, id, size);
    forall i {:trigger LinkedAt(g.pages, g.order, i)} | 0 <= i < |g.order| ensures LinkedAt(g.pages, g.order, i) {
      if i != n {
        assert LinkedAt(h.pages, h.order, if i < n then i else n);
      }
    }
  }

  lemma WidenedOrder(h: Heap, id: PageId, size: nat)
    requires Linked(h.pages, h.order) && id != 0 && id !in h.pages && |h.order| > 1
    ensures Distinct(Widened(h, id, size).order) && forall p | p in Widened(h, id, size).pages :: p in Widened(h, id, size).order
  {
    var n, s := |h.order| - 1, h.order;
    var r := s[..n] + [id, s[n]];
    Listed(h.pages, s);
    assert s[n] in s && s[n - 1] in s && id !in s;
    forall i, j | 0 <= i < j < |r| ensures r[i] != r[j] {
      assert r[i] == if i < n then s[i] else id;
      assert r[j] == if j < n then s[j] else if j == n then id else s[n];
    }
    forall p | p in s ensures p in r {
      var k := IndexOf(s, p);
      assert r[if k < n then k else n + 1] == p;
    }
    assert r[n] == id;
  }

  // Giving a block back.

  lemma RemoveBlock(s: seq<Block>, busy: nat, k: nat)
    requires BlocksOk(s, busy) && k < |s|
    ensures BlocksOk(RemoveAt(s, k), busy) && Sum(RemoveAt(s, k)) == Sum(s) - s[k].size && (Sum(RemoveAt(s, k)) == 0 <==> |s| == 1)
  {
    SumRemove(s, k);
    RemoveBlockOk(s, busy, k);
    SumEmpty(RemoveAt(s, k));
  }

  lemma RemoveBlockOk(s: seq<Block>, busy: nat, k: nat)
    requires BlocksOk(s, busy) && k < |s|
    ensures BlocksOk(RemoveAt(s, k), busy)
  {
    var r := RemoveAt(s, k);
    forall i {:trigger r[i]} | 0 <= i < |r| ensures r[i].size > 0 && r[i].off + r[i].size <= busy {
      var a := if i < k then i else i + 1;
      assert r[i] == s[a];
    }
    forall i, j {:trigger r[i], r[j]} | 0 <= i < j < |r| ensures Apart(r[i], r[j]) {
      var a, b := if i < k then i else i + 1, if j < k then j else j + 1;
      assert r[i] == s[a] && r[j] == s[b];
    }
  }

  /** The block is taken off; if it was the last one, the last page is reset and any other page is unlinked. */
  function Freed(h: Heap, p: PageId, k: nat): Heap
    requires h.order != [] && p in h.pages && p in h.live && k < |h.live[p]|
  {
    var pg := h.pages[p].(freed := h.pages[p].freed + h.live[p][k].size);
    var rest := RemoveAt(h.live[p], k);
    var isLast := p == h.order[|h.order| - 1];
    if rest != [] then h.(pages := h.pages[p := pg.(busy := BusyOf(h, p))], live := h.live[p := rest])
    else if isLast then h.(pages := h.pages[p := pg.(busy := 0, freed := 0)], busy := 0, live := h.live[p := []])
    else Unlinked(h, p)
  }

  function Unlinked(h: Heap, p: PageId): Heap
    requires h.order != [] && p in h.pages
  {
    var a, b := h.pages[p].prev, h.pages[p].next;
    if a in h.pages && b in h.pages && p in h.order then
      Heap((h.pages[a := h.pages[a].(next := b)][b := h.pages[b].(prev := a)]) - {p}, RemoveAt(h.order, IndexOf(h.order, p)), h.busy, h.live - {p})
    else h
  }

  lemma FreedOk(h: Heap, p: PageId, k: nat)
    requires Ok(h) && p in h.pages && p in h.live && k < |h.live[p]|
    ensures Ok(Freed(h, p, k))
    ensures p in Freed(h, p, k).pages <==> |h.live[p]| > 1 || p == h.order[|h.order| - 1]
  {
    assert PageOk(h, p);
    RemoveBlock(h.live[p], BusyOf(h, p), k);
    if RemoveAt(h.live[p], k) != [] || p == h.order[|h.order| - 1] {
      FreedInPlace(h, p, k);
    } else {
      UnlinkedOk(h, p);
    }
  }

  /** The counters meet exactly when the last block of the page goes. */
  lemma Empties(h: Heap, p: PageId, k: nat)
    requires Ok(h) && p in h.pages && p in h.live && k < |h.live[p]|
    ensures p != h.order[0]
    ensures h.pages[p].freed + h.live[p][k].size == BusyOf(h, p) <==> RemoveAt(h.live[p], k) == []
  {
    assert PageOk(h, p);
    RemoveBlock(h.live[p], BusyOf(h, p), k);
  }

  lemma FreedInPlace(h: Heap, p: PageId, k: nat)
    requires Ok(h) && p in h.pages && p in h.live && k < |h.live[p]|
    requires RemoveAt(h.live[p], k) != [] || p == h.order[|h.order| - 1]
    ensures Ok(Freed(h, p, k)) && p in Freed(h, p, k).pages
  {
    var f := Freed(h, p, k);
    SameLinks(h.pages, f.pages, h.order);
    FreedPage(h, p, k);
    forall q {:trigger PageOk(f, q)} | q in f.pages ensures PageOk(f, q) {
      assert q != p ==> PageOk(h, q);
    }
  }

  /** Changing counters leaves the list as it is. */
  lemma SameLinks(pages: map<PageId, Page>, w: map<PageId, Page>, order: seq<PageId>)
    requires Linked(pages, order) && w.Keys == pages.Keys
    requires forall p {:trigger w[p]} | p in pages :: w[p].prev == pages[p].prev && w[p].next == pages[p].next
    ensures Linked(w, order)
  {
    forall i {:trigger LinkedAt(w, order, i)} | 0 <= i < |order| ensures LinkedAt(w, order, i) {
      assert LinkedAt(pages, order, i);
    }
  }

  lemma FreedPage(h: Heap, p: PageId, k: nat)
    requires h.order != [] && p in h.pages && PageOk(h, p) && k < |h.live[p]|
    requires RemoveAt(h.live[p], k) != [] || p == h.order[|h.order| - 1]
    ensures PageOk(Freed(h, p, k), p)
  {
    RemoveBlock(h.live[p], BusyOf(h, p), k);
  }

  lemma UnlinkedOk(h: Heap, p: PageId)
    requires Ok(h) && p in h.pages && p != h.order[|h.order| - 1] && p != h.order[0]
    ensures Ok(Unlinked(h, p)) && p !in Unlinked(h, p).pages
  {
    var k := Where(h.pages, h.order, p);
    IndexOfDistinct(h.order, k);
    UnlinkedLinked(h.pages, h.order, k);
    var u := Unlinked(h, p);
    assert u.order[0] == h.order[0] && u.order[|u.order| - 1] == h.order[|h.order| - 1];
    forall q {:trigger PageOk(u, q)} | q in u.pages ensures PageOk(u, q) {
      assert PageOk(h, q);
    }
  }

  /** Taking a page out of the middle of the list. */
  lemma UnlinkedLinked(pages: map<PageId, Page>, order: seq<PageId>, k: nat)
    requires Linked(pages, order) && 0 < k < |order| - 1
    ensures LinkedAt(pages, order, k) && LinkedAt(pages, order, k - 1) && LinkedAt(pages, order, k + 1)
    ensures var a, b := order[k - 1], order[k + 1];
      Linked((pages[a := pages[a].(next := b)][b := pages[b].(prev := a)]) - {order[k]}, RemoveAt(order, k))
  {
    var a, b, p := order[k - 1], order[k + 1], order[k];
    assert LinkedAt(pages, order, k) && LinkedAt(pages, order, k - 1) && LinkedAt(pages, order, k + 1);
    var w, r := (pages[a := pages[a].(next := b)][b := pages[b].(prev := a)]) - {p}, RemoveAt(order, k);
    forall q | q in w ensures q in r {
      var j := IndexOf(order, q);
      assert r[if j < k then j else j - 1] == q;
    }
    assert Distinct(r) by {
      assert forall i | 0 <= i < |r| :: r[i] == order[if i < k then i else i + 1];
    }
    forall i {:trigger LinkedAt(w, r, i)} | 0 <= i < |r| ensures LinkedAt(w, r, i) {
      UnlinkedAt(pages, order, k, i);
    }
  }

  lemma UnlinkedAt(pages: map<PageId, Page>, order: seq<PageId>, k: nat, i: nat)
    requires Linked(pages, order) && 0 < k < |order| - 1 && i < |order| - 1
    requires order[k - 1] in pages && order[k + 1] in pages
    ensures var a, b := order[k - 1], order[k + 1];
      LinkedAt((pages[a := pages[a].(next := b)][b := pages[b].(prev := a)]) - {order[k]}, RemoveAt(order, k), i)
  {
    var r, j := RemoveAt(order, k), if i < k then i else i + 1;
    assert LinkedAt(pages, order, j);
    assert r[i] == order[j];
    assert i > 0 ==> r[i - 1] == order[if i - 1 < k then i - 1 else i];
    assert i + 1 < |r| ==> r[i + 1] == order[if i + 1 < k then i + 1 else i + 2];
  }

  // Strings carry a header with 16-bit fields, from which the page and the size are found again.

  datatype StringHeader = StringHeader(pageOffset: nat, fullSize: nat)

  function Truncate16(n: nat): nat {
    n % 65536
  }

  /** Header and text, rounded up to whole words. */
  function FullSize(length: nat): (n: nat)
    ensures n % 8 == 0 && 4 + length <= n < 12 + length
  {
    (4 + length + 7) / 8 * 8
  }

  function HeaderFor(off: nat, full: nat): StringHeader {
    StringHeader(Truncate16(off), if full < 65536 then full else 0)
  }

  /** A live string: its header tells its offset and, with the page's counter, its size. */
  ghost predicate StringOk(h: Heap, headers: map<(PageId, nat), StringHeader>, p: PageId, off: nat, full: nat) {
    && h.order != [] && p in h.pages && p in h.live && Block(off, full) in h.live[p]
    && (p, off) in headers && headers[(p, off)] == HeaderFor(off, full) && off < 65536 && full > 0
    && (full >= 65536 ==> off == 0 && p != h.order[|h.order| - 1] && h.pages[p].busy == full)
  }

  class Allocator {
    var pages: map<PageId, Page>
    var root: PageId
    var busySize: nat
    var unused: PageId
    var headers: map<(PageId, nat), StringHeader>
    ghost var order: seq<PageId>
    ghost var live: map<PageId, seq<Block>>
    ghost var strings: map<(PageId, nat), nat>

    ghost function State(): (h: Heap)
      reads this
    {
      Heap(pages, order, busySize, live)
    }

    ghost predicate Valid()
      reads this
    {
      && Ok(State()) && root == order[|order| - 1] && 0 < unused && (forall p | p in pages :: p < unused)
      && StringsOk(State(), headers, strings)
    }

    /** The document's own page comes first and looks full. */
    constructor ()
      ensures Valid() && |order| == 1 && strings == map[] && live == map[root := []]
    {
      pages := map[1 := Page(0, 0, PageSize, PageSize, 0)];
      root := 1;
      busySize := PageSize;
      unused := 2;
      headers := map[];
      order := [1];
      live := map[1 := []];
      strings := map[];
      new;
      assert LinkedAt(pages, order, 0) && PageOk(State(), 1);
    }

    method AllocatePage(size: nat) returns (page: PageId)
      requires forall p | p in pages :: p < unused
      requires 0 < unused
      modifies this`pages, this`unused
      ensures page == old(unused) && unused == page + 1 && pages == old(pages)[page := Page(0, 0, size, 0, 0)]
    {
      page := unused;
      unused := unused + 1;
      pages := pages[page := Page(0, 0, size, 0, 0)];
    }

    /** A block that fits is cut from the last page; a small one gets a new last page; a large one a page of its own before the last. */
    method AllocateMemory(size: nat) returns (page: PageId, off: nat)
      requires Valid() && size > 0 && (size <= LargeThreshold || |order| > 1)
      modifies this
      ensures Valid() && headers == old(headers) && strings == old(strings)
      ensures old(busySize) + size <= PageSize ==> State() == old(Cut(State(), size)) && page == old(root) && off == old(busySize)
      ensures old(busySize) + size > PageSize ==> page !in old(pages) && off == 0
      ensures old(busySize) + size > PageSize && size <= LargeThreshold ==> State() == Grown(old(State()), page, size)
      ensures old(busySize) + size > PageSize && size > LargeThreshold ==> old(|order| > 1) && State() == Widened(old(State()), page, size)
      ensures page in pages && page in live && Block(off, size) in live[page] && off <= PageSize && (page, off) !in strings
      ensures size > PageSize ==> page in pages && pages[page].busy == size && page != root && off == 0
    {
      ghost var h := State();
      assert LinkedAt(h.pages, h.order, |h.order| - 1) && PageOk(h, root);
      if busySize + size > PageSize {
        page, off := AllocateOob(size);
        assert live[page][0] == Block(0, size);
        return;
      }
      page, off := root, busySize;
      busySize := busySize + size;
      live := live[root := live[root] + [Block(off, size)]];
      CutOk(h, size);
      StringsCut(h, size, headers, strings);
      assert live[page][|live[page]| - 1] == Block(off, size);
    }

    method AllocateOob(size: nat) returns (page: PageId, off: nat)
      requires Valid() && size > 0 && busySize + size > PageSize && (size <= LargeThreshold || |order| > 1)
      modifies this
      ensures Valid() && headers == old(headers) && strings == old(strings) && off == 0 && page !in old(pages) && (page, off) !in strings
      ensures size <= LargeThreshold ==> State() == Grown(old(State()), page, size)
      ensures size > LargeThreshold ==> old(|order| > 1) && State() == Widened(old(State()), page, size)
    {
      ghost var h := State();
      assert LinkedAt(h.pages, h.order, |h.order| - 1);
      page := AllocatePage(if size <= LargeThreshold then PageSize else size);
      off := 0;
      if size <= LargeThreshold {
        AppendPage(page, size, h);
        GrownOk(h, page, size);
        StringsGrown(h, page, size, headers, strings);
      } else {
        InsertPage(page, size, h);
        WidenedOk(h, page, size);
        StringsWidened(h, page, size, headers, strings);
      }
    }

    /** Link a new page behind the last one; h is the state before. */
    method AppendPage(page: PageId, size: nat, ghost h: Heap)
      requires Ok(h) && root == h.order[|h.order| - 1] && order == h.order && live == h.live && busySize == h.busy && page !in h.pages && page != 0
      requires pages == h.pages[page := Page(0, 0, PageSize, 0, 0)]
      modifies this`pages, this`root, this`busySize, this`order, this`live
      ensures State() == Grown(h, page, size) && root == page
    {
      assert LinkedAt(h.pages, h.order, |h.order| - 1);
      pages := pages[root := pages[root].(busy := busySize)];
      pages := pages[page := pages[page].(prev := root)];
      pages := pages[root := pages[root].(next := page)];
      order, live := order + [page], live[page := [Block(0, size)]];
      root := page;
      busySize := size;
      pages := pages[page := pages[page].(busy := size)];
      assert pages == Grown(h, page, size).pages;
    }

    /** Link a new page before the last one. */
    method InsertPage(page: PageId, size: nat, ghost h: Heap)
      requires Ok(h) && root == h.order[|h.order| - 1] && order == h.order && live == h.live && busySize == h.busy && page !in h.pages && page != 0
      requires pages == h.pages[page := Page(0, 0, size, 0, 0)] && |order| > 1
      modifies this`pages, this`order, this`live
      ensures State() == Widened(h, page, size)
    {
      assert LinkedAt(h.pages, h.order, |h.order| - 1) && LinkedAt(h.pages, h.order, |h.order| - 2);
      var before := pages[root].prev;
      pages := pages[page := pages[page].(prev := before, next := root)];
      pages := pages[before := pages[before].(next := page)];
      pages := pages[root := pages[root].(prev := page)];
      pages := pages[page := pages[page].(busy := size)];
      order, live := order[..|order| - 1] + [page, root], live[page := [Block(0, size)]];
      assert pages == Widened(h, page, size).pages;
    }

    /** Give a live block back. Its page is released exactly when this was its last block and it is not the last page. */
    method DeallocateMemory(page: PageId, off: nat, size: nat, ghost k: nat)
      requires Valid() && page in pages && page in live && k < |live[page]| && live[page][k] == Block(off, size) && (page, off) !in strings
      modifies this`pages, this`busySize, this`order, this`live
      ensures Valid() && State() == Freed(old(State()), page, k)
      ensures page in pages <==> old(|live[page]| > 1 || page == order[|order| - 1])
    {
      DeallocationFacts(State(), page, k, headers, strings);
      GiveBack(page, size, k);
    }

    /** The counters of the page tell whether it is still needed. */
    method GiveBack(page: PageId, size: nat, ghost k: nat)
      requires Ok(State()) && page in pages && page in live && k < |live[page]| && live[page][k].size == size && root == order[|order| - 1]
      modifies this`pages, this`busySize, this`order, this`live
      ensures State() == Freed(old(State()), page, k)
    {
      ghost var h := State();
      Empties(h, page, k);
      Count(page, size);
      if pages[page].freed == pages[page].busy {
        if pages[page].next == 0 {
          pages := pages[page := pages[page].(busy := 0, freed := 0)];
          busySize := 0;
          live := live[page := []];
          assert pages == Freed(h, page, k).pages;
        } else {
          ReleasePage(page, h);
        }
      } else {
        live := live[page := RemoveAt(live[page], k)];
        assert pages == Freed(h, page, k).pages;
      }
    }

    /** Note that size more is free on the page. */
    method Count(page: PageId, size: nat)
      requires Ok(State()) && page in pages && root == order[|order| - 1]
      modifies this`pages
      ensures pages == old(pages)[page := old(pages)[page].(busy := old(BusyOf(State(), page)), freed := old(pages)[page].freed + size)]
      ensures pages[page].next == 0 <==> page == root
    {
      ghost var at := Where(pages, order, page);
      if page == root {
        pages := pages[page := pages[page].(busy := busySize)];
      }
      pages := pages[page := pages[page].(freed := pages[page].freed + size)];
    }

    /** Unlink an empty page; h is the state before its counter was changed. */
    method ReleasePage(page: PageId, ghost h: Heap)
      requires Ok(h) && page in h.pages && page != h.order[0] && page != h.order[|h.order| - 1]
      requires order == h.order && live == h.live && busySize == h.busy
      requires page in pages && pages[page].prev == h.pages[page].prev && pages[page].next == h.pages[page].next
      requires pages.Keys == h.pages.Keys && forall p {:trigger pages[p]} | p in pages && p != page :: pages[p] == h.pages[p]
      modifies this`pages, this`order, this`live
      ensures State() == Unlinked(h, page)
    {
      ghost var at := Where(h.pages, h.order, page);
      var w := pages;
      var prev, next := w[page].prev, w[page].next;
      w := w[prev := w[prev].(next := next)];
      w := w[next := w[next].(prev := prev)];
      pages := w - {page};
      order, live := RemoveAt(order, IndexOf(order, page)), live - {page};
      assert pages == Unlinked(h, page).pages;
    }

    method AllocateString(length: nat) returns (page: PageId, off: nat)
      requires Valid() && (FullSize(length) <= LargeThreshold || |order| > 1)
      modifies this
      ensures Valid() && page in live && Block(off, FullSize(length)) in live[page]
      ensures (page, off) !in old(strings) && strings == old(strings)[(page, off) := FullSize(length)]
    {
      var full := FullSize(length);
      ghost var h := State();
      page, off := AllocateMemory(full);
      StringsAdded(State(), headers, strings, page, off, full);
      headers := headers[(page, off) := HeaderFor(off, full)];
      strings := strings[(page, off) := full];
    }

    /** The header leads back to the page and the size that were allocated. */
    method DeallocateString(page: PageId, off: nat)
      requires Valid() && (page, off) in strings
      modifies this
      ensures Valid() && strings == old(strings) - {(page, off)}
      ensures exists k :: (page in old(pages) && page in old(live) && 0 <= k < |old(live)[page]|
        && old(live)[page][k] == Block(off, old(strings)[(page, off)]) && State() == Freed(old(State()), page, k))
    {
      ghost var size := strings[(page, off)];
      assert StringOk(State(), headers, page, off, size);
      var header := headers[(page, off)];
      assert header.pageOffset == off;
      var full := if header.fullSize == 0 then pages[page].busy else header.fullSize;
      assert full == size;
      ghost var k :| 0 <= k < |live[page]| && live[page][k] == Block(off, size);
      strings := strings - {(page, off)};
      DeallocateMemory(page, off, full, k);
    }
  }

  // Live strings stay findable while other blocks come and go.

  ghost predicate StringsOk(h: Heap, headers: map<(PageId, nat), StringHeader>, strings: map<(PageId, nat), nat>) {
    forall p, off {:trigger StringOk(h, headers, p, off, strings[(p, off)])} | (p, off) in strings :: StringOk(h, headers, p, off, strings[(p, off)])
  }

  lemma StringsAdded(h: Heap, headers: map<(PageId, nat), StringHeader>, strings: map<(PageId, nat), nat>, p: PageId, off: nat, full: nat)
    requires StringsOk(h, headers, strings) && (p, off) !in strings
    requires StringOk(h, headers[(p, off) := HeaderFor(off, full)], p, off, full)
    ensures StringsOk(h, headers[(p, off) := HeaderFor(off, full)], strings[(p, off) := full])
  {
    var w, t := headers[(p, off) := HeaderFor(off, full)], strings[(p, off) := full];
    forall q, o {:trigger StringOk(h, w, q, o, t[(q, o)])} | (q, o) in t ensures StringOk(h, w, q, o, t[(q, o)]) {
      assert (q, o) != (p, off) ==> StringOk(h, headers, q, o, strings[(q, o)]);
    }
  }

  lemma StringsCut(h: Heap, size: nat, headers: map<(PageId, nat), StringHeader>, strings: map<(PageId, nat), nat>)
    requires Ok(h) && StringsOk(h, headers, strings)
    ensures StringsOk(Cut(h, size), headers, strings) && (h.order[|h.order| - 1], h.busy) !in strings
  {
    var last := h.order[|h.order| - 1];
    assert LinkedAt(h.pages, h.order, |h.order| - 1) && PageOk(h, last);
    assert (last, h.busy) in strings ==> StringOk(h, headers, last, h.busy, strings[(last, h.busy)]);
    forall p, off {:trigger StringOk(Cut(h, size), headers, p, off, strings[(p, off)])} | (p, off) in strings
      ensures StringOk(Cut(h, size), headers, p, off, strings[(p, off)])
    {
      assert StringOk(h, headers, p, off, strings[(p, off)]);
    }
  }

  lemma StringsGrown(h: Heap, id: PageId, size: nat, headers: map<(PageId, nat), StringHeader>, strings: map<(PageId, nat), nat>)
    requires Ok(h) && StringsOk(h, headers, strings) && id !in h.pages
    ensures StringsOk(Grown(h, id, size), headers, strings) && (id, 0) !in strings
  {
    Listed(h.pages, h.order);
    assert (id, 0) in strings ==> StringOk(h, headers, id, 0, strings[(id, 0)]);
    forall p, off {:trigger StringOk(Grown(h, id, size), headers, p, off, strings[(p, off)])} | (p, off) in strings
      ensures StringOk(Grown(h, id, size), headers, p, off, strings[(p, off)])
    {
      assert StringOk(h, headers, p, off, strings[(p, off)]);
    }
  }

  lemma StringsWidened(h: Heap, id: PageId, size: nat, headers: map<(PageId, nat), StringHeader>, strings: map<(PageId, nat), nat>)
    requires Ok(h) && StringsOk(h, headers, strings) && id !in h.pages && |h.order| > 1
    ensures StringsOk(Widened(h, id, size), headers, strings) && (id, 0) !in strings
  {
    Listed(h.pages, h.order);
    assert h.order[|h.order| - 1] in h.order && h.order[|h.order| - 2] in h.order;
    assert (id, 0) in strings ==> StringOk(h, headers, id, 0, strings[(id, 0)]);
    forall p, off {:trigger StringOk(Widened(h, id, size), headers, p, off, strings[(p, off)])} | (p, off) in strings
      ensures StringOk(Widened(h, id, size), headers, p, off, strings[(p, off)])
    {
      assert StringOk(h, headers, p, off, strings[(p, off)]);
    }
  }

  lemma StringsFreed(h: Heap, p: PageId, k: nat, headers: map<(PageId, nat), StringHeader>, strings: map<(PageId, nat), nat>)
    requires Ok(h) && StringsOk(h, headers, strings) && p in h.pages && p in h.live && k < |h.live[p]| && (p, h.live[p][k].off) !in strings
    ensures StringsOk(Freed(h, p, k), headers, strings)
  {
    var f := Freed(h, p, k);
    forall q, off {:trigger StringOk(f, headers, q, off, strings[(q, off)])} | (q, off) in strings ensures StringOk(f, headers, q, off, strings[(q, off)]) {
      assert StringOk(h, headers, q, off, strings[(q, off)]);
      if q == p {
        StaysLive(h.live[p], k, Block(off, strings[(q, off)]));
      }
    }
  }

  lemma DeallocationFacts(h: Heap, p: PageId, k: nat, headers: map<(PageId, nat), StringHeader>, strings: map<(PageId, nat), nat>)
    requires Ok(h) && StringsOk(h, headers, strings) && p in h.pages && p in h.live && k < |h.live[p]| && (p, h.live[p][k].off) !in strings
    ensures Ok(Freed(h, p, k)) && StringsOk(Freed(h, p, k), headers, strings)
    ensures p != h.order[0] && (p in Freed(h, p, k).pages <==> |h.live[p]| > 1 || p == h.order[|h.order| - 1])
    ensures h.pages[p].freed + h.live[p][k].size == BusyOf(h, p) <==> RemoveAt(h.live[p], k) == []
    ensures Freed(h, p, k).pages.Keys <= h.pages.Keys && Freed(h, p, k).order[|Freed(h, p, k).order| - 1] == h.order[|h.order| - 1]
  {
    Empties(h, p, k);
    FreedOk(h, p, k);
    StringsFreed(h, p, k, headers, strings);
    var at := Where(h.pages, h.order, p);
    IndexOfDistinct(h.order, at);
  }

  lemma StaysLive(s: seq<Block>, k: nat, b: Block)
    requires k < |s| && b in s && s[k].off != b.off
    ensures b in RemoveAt(s, k)
  {
    assert s == s[..k] + [s[k]] + s[k + 1..];
  }
}
