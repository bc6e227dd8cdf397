/** The paged bump allocator of `kvstore_mpv2.c`: requests are cut from the free end of the newest page
that has room, and a new page is fetched when none has.

Pages are kept in the order they were fetched, so the list that starts at `current` is this
sequence read backwards. Where a new page lies is the allocator's choice, a parameter here. */
module PagePool {

  /** The size of the node at the start of every page: three pointers. */
  const HEADER: nat := 24

  datatype Page = Page(base: nat, free: int, end: nat)

  /** A range handed out, and the page it was cut from. */
  datatype Grant = Grant(page: nat, start: int, size: int)

  function Fits(p: Page, size: int): bool {
    size <= p.end - p.free
  }

  /** The newest page among the oldest `i` that has room for `size`, or -1. */
  function Search(pages: seq<Page>, size: int, i: nat): int
    requires i <= |pages|
  {
    if i == 0 then -1 else if Fits(pages[i - 1], size) then i - 1 else Search(pages, size, i - 1)
  }

  /** The page found has room, and no newer page has. */
  lemma {:induction false} SearchFindsNewest(pages: seq<Page>, size: int, i: nat)
    requires i <= |pages|
    ensures -1 <= Search(pages, size, i) < i
    ensures Search(pages, size, i) >= 0 ==> Fits(pages[Search(pages, size, i)], size)
    ensures forall j :: 0 <= j < i && Search(pages, size, i) < j ==> !Fits(pages[j], size)
  {
    if i > 0 {
      SearchFindsNewest(pages, size, i - 1);
    }
  }

  function NewPage(base: nat, max: nat, size: int): Page {
    Page(base, base + HEADER + size, base + max)
  }

  // ---------------------------------------------------------------- soundness

  ghost predicate Apart(p: Page, q: Page) {
    p.end <= q.base || q.end <= p.base
  }

  ghost predicate Separate(pages: seq<Page>) {
    forall i, j :: 0 <= i < j < |pages| ==> Apart(pages[i], pages[j])
  }

  /** The fill pointer of a page lies between its header and its end. */
  ghost predicate Bounded(p: Page) {
    p.base + HEADER <= p.free <= p.end
  }

  /** A grant lies in the used part of its page. */
  ghost predicate Placed(pages: seq<Page>, g: Grant) {
    g.page < |pages| && g.size >= 0 && pages[g.page].base + HEADER <= g.start && g.start + g.size <= pages[g.page].free
  }

  ghost predicate NoOverlap(g: Grant, h: Grant) {
    g.start + g.size <= h.start || h.start + h.size <= g.start
  }

  ghost predicate Sound(pages: seq<Page>, grants: seq<Grant>) {
    && Separate(pages)
    && (forall i :: 0 <= i < |pages| ==> Bounded(pages[i]))
    && (forall k :: 0 <= k < |grants| ==> Placed(pages, grants[k]))
    && (forall k, l :: 0 <= k < l < |grants| ==> NoOverlap(grants[k], grants[l]))
  }

  /** A fresh page lies apart from all pages there are. */
  ghost predicate FreshPage(pages: seq<Page>, base: nat, max: nat) {
    forall i :: 0 <= i < |pages| ==> Apart(pages[i], Page(base, base, base + max))
  }

  /** Cutting from a page with room keeps everything sound. */
  lemma BumpKeepsSound(pages: seq<Page>, grants: seq<Grant>, k: nat, size: int)
    requires Sound(pages, grants) && k < |pages| && 0 <= size && Fits(pages[k], size)
    ensures Sound(pages[k := pages[k].(free := pages[k].free + size)], grants + [Grant(k, pages[k].free, size)])
  {
    var p, g := pages[k], Grant(k, pages[k].free, size);
    var pages' := pages[k := p.(free := p.free + size)];
    forall i, j | 0 <= i < j < |pages'|
      ensures Apart(pages'[i], pages'[j])
    {
      assert Apart(pages[i], pages[j]);
    }
    forall l | 0 <= l < |grants|
      ensures Placed(pages', grants[l]) && NoOverlap(grants[l], g)
    {
      assert Placed(pages, grants[l]);
      var i := grants[l].page;
      if i != k {
        assert Apart(pages[if i < k then i else k], pages[if i < k then k else i]);
        assert Bounded(pages[i]) && Bounded(pages[k]);
      }
    }
  }

  /** A new page keeps everything sound exactly if the request fits behind its header. */
  lemma FetchKeepsSoundIff(pages: seq<Page>, grants: seq<Grant>, base: nat, max: nat, size: int)
    requires Sound(pages, grants) && FreshPage(pages, base, max) && 0 <= size
    ensures Sound(pages + [NewPage(base, max, size)], grants + [Grant(|pages|, base + HEADER, size)]) <==> size <= max - HEADER
  {
    var p, g := NewPage(base, max, size), Grant(|pages|, base + HEADER, size);
    var pages', grants' := pages + [p], grants + [g];
    if size > max - HEADER {
      assert !Bounded(pages'[|pages|]);
      return;
    }
    forall i, j | 0 <= i < j < |pages'|
      ensures Apart(pages'[i], pages'[j])
    {
      if j < |pages| {
        assert Apart(pages[i], pages[j]);
      } else {
        assert Apart(pages[i], Page(base, base, base + max));
      }
    }
    forall l | 0 <= l < |grants|
      ensures Placed(pages', grants[l]) && NoOverlap(grants[l], g)
    {
      assert Placed(pages, grants[l]) && Bounded(pages[grants[l].page]);
      assert Apart(pages[grants[l].page], Page(base, base, base + max));
    }
    assert Placed(pages', g);
    forall k, l | 0 <= k < l < |grants'|
      ensures NoOverlap(grants'[k], grants'[l])
    {
      if l < |grants| {
        assert NoOverlap(grants[k], grants[l]);
      }
    }
  }

  /** The pages after a request, and the range granted. */
  datatype Outcome = Outcome(pages: seq<Page>, grant: Grant)

  function Bumped(pages: seq<Page>, k: nat, size: int): Outcome
    requires k < |pages|
  {
    Outcome(pages[k := pages[k].(free := pages[k].free + size)], Grant(k, pages[k].free, size))
  }

  function Fetched(pages: seq<Page>, size: int, base: nat, max: nat): Outcome {
    Outcome(pages + [NewPage(base, max, size)], Grant(|pages|, base + HEADER, size))
  }

  /** Every page has the pool's size. */
  ghost predicate Uniform(pages: seq<Page>, max: nat) {
    forall i :: 0 <= i < |pages| ==> pages[i].end == pages[i].base + max
  }

  /** The range is cut from the newest page with room, or from a new page if none has room. */
  function Serve(pages: seq<Page>, size: int, base: nat, max: nat): Outcome {
    var k := Search(pages, size, |pages|);
    if 0 <= k < |pages| then Bumped(pages, k, size) else Fetched(pages, size, base, max)
  }

  /** With all earlier ranges sound, a new range is sound too exactly if its size is not negative and
      fits a page. Any other is handed out just the same: a larger one past the end of a new page, a
      negative one by moving the free end of a page back. */
  lemma ServeSoundIff(pages: seq<Page>, grants: seq<Grant>, size: int, base: nat, max: nat)
    requires Sound(pages, grants) && Uniform(pages, max) && FreshPage(pages, base, max)
    ensures Uniform(Serve(pages, size, base, max).pages, max)
    ensures Sound(Serve(pages, size, base, max).pages, grants + [Serve(pages, size, base, max).grant]) <==> 0 <= size <= max - HEADER
  {
    SearchFindsNewest(pages, size, |pages|);
    var k, o := Search(pages, size, |pages|), Serve(pages, size, base, max);
    if size < 0 {
      assert !Placed(o.pages, (grants + [o.grant])[|grants|]);
    } else if k >= 0 {
      assert Bounded(pages[k]);
      BumpKeepsSound(pages, grants, k, size);
    } else {
      FetchKeepsSoundIff(pages, grants, base, max, size);
    }
  }

  /** A page is fetched exactly if no page has that much left, and then the range starts right after the
      24 bytes of its header; otherwise the range starts at the free end of a page that has. */
  lemma FetchedIff(pages: seq<Page>, size: int, base: nat, max: nat)
    ensures var o := Serve(pages, size, base, max);
      && (|o.pages| == |pages| + 1 <==> forall i :: 0 <= i < |pages| ==> pages[i].end - pages[i].free < size)
      && (|o.pages| == |pages| + 1 ==> o.pages[..|pages|] == pages && o.grant == Grant(|pages|, base + 24, size))
      && (|o.pages| != |pages| + 1 ==> |o.pages| == |pages| && o.grant.page < |pages| && o.grant.size == size)
      && (|o.pages| != |pages| + 1 ==>
          o.grant.start == pages[o.grant.page].free && o.pages[o.grant.page].free == o.grant.start + size)
  {
    SearchFindsNewest(pages, size, |pages|);
    var k := Search(pages, size, |pages|);
    if k >= 0 {
      assert Fits(pages[k], size);
    } else {
      assert forall i :: 0 <= i < |pages| ==> !Fits(pages[i], size);
    }
  }

  // ---------------------------------------------------------------- runs of requests

  /** A request, and where the next page will lie if one is needed. */
  datatype Request = Request(size: int, base: nat)

  /** Each page fetched lies apart from the pages there are by then. */
  ghost predicate FreshPages(pages: seq<Page>, rs: seq<Request>, max: nat)
    decreases |rs|
  {
    rs == [] || (FreshPage(pages, rs[0].base, max) && FreshPages(Serve(pages, rs[0].size, rs[0].base, max).pages, rs[1..], max))
  }

  /** The pages and all ranges granted after a run of requests. */
  function PagesAfter(pages: seq<Page>, rs: seq<Request>, max: nat): seq<Page>
    decreases |rs|
  {
    if rs == [] then pages else PagesAfter(Serve(pages, rs[0].size, rs[0].base, max).pages, rs[1..], max)
  }

  function GrantsAfter(pages: seq<Page>, grants: seq<Grant>, rs: seq<Request>, max: nat): seq<Grant>
    decreases |rs|
  {
    if rs == [] then grants
    else
      var o := Serve(pages, rs[0].size, rs[0].base, max);
      GrantsAfter(o.pages, grants + [o.grant], rs[1..], max)
  }

  /** A grant of negative size, or one that exceeds its page. */
  ghost predicate Bad(pages: seq<Page>, g: Grant) {
    g.size < 0 || (g.page < |pages| && g.start + g.size > pages[g.page].end)
  }

  lemma BadIsUnsound(pages: seq<Page>, grants: seq<Grant>, k: nat)
    requires k < |grants| && Bad(pages, grants[k])
    ensures !Sound(pages, grants)
  {
    assert !Placed(pages, grants[k]) || !Bounded(pages[grants[k].page]);
  }

  /** Later requests move no page and take no grant back. */
  lemma {:induction false} StaysBad(pages: seq<Page>, grants: seq<Grant>, rs: seq<Request>, max: nat, k: nat)
    requires k < |grants| && Bad(pages, grants[k])
    ensures k < |GrantsAfter(pages, grants, rs, max)| && Bad(PagesAfter(pages, rs, max), GrantsAfter(pages, grants, rs, max)[k])
    decreases |rs|
  {
    if rs != [] {
      var o := Serve(pages, rs[0].size, rs[0].base, max);
      StaysBad(o.pages, grants + [o.grant], rs[1..], max, k);
    }
  }

  lemma MisfitIsBad(pages: seq<Page>, grants: seq<Grant>, size: int, base: nat, max: nat)
    requires Sound(pages, grants) && Uniform(pages, max) && !(0 <= size <= max - HEADER)
    ensures Bad(Serve(pages, size, base, max).pages, Serve(pages, size, base, max).grant)
  {
    SearchFindsNewest(pages, size, |pages|);
    var o := Serve(pages, size, base, max);
    if size > max - HEADER {
      assert forall i :: 0 <= i < |pages| ==> Bounded(pages[i]) && !Fits(pages[i], size);
      assert o.pages[|pages|] == NewPage(base, max, size);
    }
  }

  /** Over every run: all ranges ever granted lie inside their pages without overlap, exactly if every
      request has a size that is not negative and fits a page. */
  lemma {:induction false} RunSoundIff(pages: seq<Page>, grants: seq<Grant>, rs: seq<Request>, max: nat)
    requires Sound(pages, grants) && Uniform(pages, max) && FreshPages(pages, rs, max)
    ensures Sound(PagesAfter(pages, rs, max), GrantsAfter(pages, grants, rs, max)) <==>
            forall i :: 0 <= i < |rs| ==> 0 <= rs[i].size <= max - HEADER
    decreases |rs|
  {
    if rs != [] {
      var r, o := rs[0], Serve(pages, rs[0].size, rs[0].base, max);
      ServeSoundIff(pages, grants, r.size, r.base, max);
      if 0 <= r.size <= max - HEADER {
        RunSoundIff(o.pages, grants + [o.grant], rs[1..], max);
        assert forall i :: 0 < i < |rs| ==> rs[i] == rs[1..][i - 1];
      } else {
        MisfitIsBad(pages, grants, r.size, r.base, max);
        StaysBad(o.pages, grants + [o.grant], rs[1..], max, |grants|);
        BadIsUnsound(PagesAfter(pages, rs, max), GrantsAfter(pages, grants, rs, max), |grants|);
      }
    }
  }

  class Pool {
    var pages: seq<Page>
    const max: nat
    ghost var grants: seq<Grant>

    /** mp_init */
    constructor (base: nat, size: nat)
      ensures pages == [NewPage(base, size, 0)] && max == size && grants == [] && Uniform(pages, max)
      ensures Sound(pages, grants) <==> HEADER <= size
    {
      max := size;
      pages := [Page(base, base + HEADER, base + size)];
      grants := [];
      new;
      assert pages[0] == NewPage(base, size, 0);
      assert Sound(pages, grants) ==> Bounded(pages[0]);
    }

    /** mp_allock */
    method Alloc(size: int, base: nat) returns (ptr: int)
      modifies this`pages, this`grants
      ensures var o := Serve(old(pages), size, base, max);
        pages == o.pages && grants == old(grants) + [o.grant] && ptr == o.grant.start && size == o.grant.size
    {
      var i := |pages|;
      while i > 0
        invariant 0 <= i <= |pages| && pages == old(pages) && grants == old(grants)
        invariant Search(pages, size, i) == Search(pages, size, |pages|)
        decreases i
      {
        var node := pages[i - 1];
        if Fits(node, size) {
          ptr := node.free;
          ghost var o := Bumped(pages, i - 1, size);
          pages := pages[i - 1 := node.(free := node.free + size)];
          grants := grants + [o.grant];
          return;
        }
        i := i - 1;
      }
      ghost var o := Fetched(pages, size, base, max);
      var node := Page(base, base + HEADER, base + max);
      pages := pages + [node.(free := node.free + size)];
      ptr := node.free;
      grants := grants + [o.grant];
    }
  }
}
