/**
 The page cache of the db library: pages on an LRU queue and on hash chains, pinned while in use and
 written back when dirty.  Whatever is evicted, the pages seen through the cache stay the same.
 */
module Mpool {

  const HASHSIZE := 128

  type Page = seq<nat>

  function HashKey(pgno: nat): (h: nat)
    ensures h < HASHSIZE
  {
    (pgno + HASHSIZE - 1) % HASHSIZE
  }

  function Zeros(n: nat): (p: Page)
    ensures |p| == n
  {
    seq(n, i => 0)
  }

  /** A file of whole pages, and perhaps the beginning of one more. */
  datatype File = File(pages: seq<Page>, ragged: Page)

  predicate FileOk(f: File, pagesize: nat) {
    (forall i :: 0 <= i < |f.pages| ==> |f.pages[i]| == pagesize) && |f.ragged| < pagesize
  }

  /** The beginning of the page is in the file and the rest is not. */
  predicate PartlyIn(f: File, pgno: nat) {
    pgno == |f.pages| && f.ragged != []
  }

  /** What a page holds; past the end, and after a partial page, there are zeros. */
  function FilePage(f: File, pgno: nat, pagesize: nat): (p: Page)
    requires FileOk(f, pagesize)
    ensures |p| == pagesize
  {
    if pgno < |f.pages| then f.pages[pgno]
    else if pgno == |f.pages| then f.ragged + Zeros(pagesize - |f.ragged|)
    else Zeros(pagesize)
  }

  /** `pwrite` of one page; a hole before it reads as zeros. */
  function WriteAt(f: File, pgno: nat, page: Page, pagesize: nat): (r: File)
    requires FileOk(f, pagesize) && |page| == pagesize > 0
    ensures FileOk(r, pagesize)
    ensures forall p: nat :: FilePage(r, p, pagesize) == if p == pgno then page else FilePage(f, p, pagesize)
  {
    if pgno < |f.pages| then File(f.pages[pgno := page], f.ragged)
    else
      var r := File(seq(pgno, i requires 0 <= i => FilePage(f, i, pagesize)) + [page], []);
      assert [] + Zeros(pagesize) == Zeros(pagesize);
      r
  }

  /** A buffer: a page of the file with its state. */
  class Bkt {
    var pgno: nat
    var page: Page
    var pinned: bool
    var dirty: bool
    var inuse: bool

    constructor (pagesize: nat)
      ensures page == Zeros(pagesize) && !pinned && !dirty && !inuse
    {
      pgno, page, pinned, dirty, inuse := 0, Zeros(pagesize), false, false, false;
    }
  }

  ghost predicate NoDup(s: seq<Bkt>) {
    forall i, j :: 0 <= i < j < |s| ==> s[i] != s[j]
  }

  /** TAILQ_REMOVE. */
  function Remove(s: seq<Bkt>, b: Bkt): (r: seq<Bkt>)
    ensures forall x :: x in r ==> x in s && x != b
    ensures forall x :: x in s && x != b ==> x in r
    ensures |r| <= |s|
  {
    if s == [] then [] else if s[0] == b then Remove(s[1..], b) else [s[0]] + Remove(s[1..], b)
  }

  /** The others stay in their order. */
  lemma {:induction false} RemoveAt(u: seq<Bkt>, b: Bkt, v: seq<Bkt>)
    requires b !in u && b !in v
    ensures Remove(u + [b] + v, b) == u + v
  {
    if u == [] {
      assert ([b] + v)[1..] == v && [] + [b] + v == [b] + v && [] + v == v;
      RemoveNone(v, b);
    } else {
      assert u == [u[0]] + u[1..];
      assert (u + [b] + v)[0] == u[0] && (u + [b] + v)[1..] == u[1..] + [b] + v;
      RemoveAt(u[1..], b, v);
    }
  }

  lemma {:induction false} RemoveNone(s: seq<Bkt>, b: Bkt)
    requires b !in s
    ensures Remove(s, b) == s
  {
    if s != [] {
      RemoveNone(s[1..], b);
    }
  }

  lemma {:induction false} RemoveNoDup(s: seq<Bkt>, b: Bkt)
    requires NoDup(s)
    ensures NoDup(Remove(s, b)) && |Remove(s, b)| == |s| - if b in s then 1 else 0
  {
    if s != [] {
      RemoveNoDup(s[1..], b);
      var r := Remove(s[1..], b);
      forall j | 0 <= j < |r| ensures r[j] != s[0] {
        assert r[j] in s[1..];
      }
    }
  }

  /** Each buffer is once on the LRU queue and once on its hash chain, and on no other. */
  ghost predicate OnQueues(lqh: seq<Bkt>, hqh: seq<seq<Bkt>>)
    reads lqh`pgno
  {
    && NoDup(lqh) && |hqh| == HASHSIZE
    && (forall h :: 0 <= h < HASHSIZE ==> NoDup(hqh[h]))
    && (forall h, b :: 0 <= h < HASHSIZE && b in hqh[h] ==> b in lqh && HashKey(b.pgno) == h)
    && (forall b :: b in lqh ==> b in hqh[HashKey(b.pgno)])
  }

  ghost predicate OnePerPage(lqh: seq<Bkt>)
    reads lqh`pgno
  {
    forall a, b :: a in lqh && b in lqh && a.pgno == b.pgno ==> a == b
  }

  lemma OffQueues(lqh: seq<Bkt>, hqh: seq<seq<Bkt>>, bp: Bkt)
    requires OnQueues(lqh, hqh) && bp in lqh
    ensures OnQueues(Remove(lqh, bp), hqh[HashKey(bp.pgno) := Remove(hqh[HashKey(bp.pgno)], bp)])
    ensures |Remove(lqh, bp)| == |lqh| - 1
  {
    hide NoDup, Remove, HashKey;
    var h := HashKey(bp.pgno);
    RemoveNoDup(lqh, bp);
    RemoveNoDup(hqh[h], bp);
    var lqh', hqh' := Remove(lqh, bp), hqh[h := Remove(hqh[h], bp)];
    forall b | b in lqh' ensures b in hqh'[HashKey(b.pgno)] {
      assert b in lqh && b != bp;
    }
    forall k, b | 0 <= k < HASHSIZE && b in hqh'[k] ensures b in lqh' && HashKey(b.pgno) == k {
      assert b in hqh[k];
    }
  }

  lemma AddNoDup(s: seq<Bkt>, b: Bkt)
    requires NoDup(s) && b !in s
    ensures NoDup([b] + s) && NoDup(s + [b])
  {
  }

  lemma ToQueues(lqh: seq<Bkt>, hqh: seq<seq<Bkt>>, bp: Bkt)
    requires OnQueues(lqh, hqh) && bp !in lqh
    ensures OnQueues(lqh + [bp], hqh[HashKey(bp.pgno) := [bp] + hqh[HashKey(bp.pgno)]])
  {
    hide NoDup, HashKey;
    var h := HashKey(bp.pgno);
    AddNoDup(lqh, bp);
    AddNoDup(hqh[h], bp);
    var lqh', hqh' := lqh + [bp], hqh[h := [bp] + hqh[h]];
    forall b | b in lqh' ensures b in hqh'[HashKey(b.pgno)] {
      if b != bp {
        assert b in hqh[HashKey(b.pgno)];
      }
    }
    forall k, b | 0 <= k < HASHSIZE && b in hqh'[k] ensures b in lqh' && HashKey(b.pgno) == k {
      if b != bp {
        assert b in hqh[k];
      }
    }
  }

  class Pool {
    const pagesize: nat
    const maxcache: nat
    const pgin: (nat, Page) -> Page
    const pgout: (nat, Page) -> Page
    var curcache: nat
    var npages: nat
    var lqh: seq<Bkt>
    var hqh: seq<seq<Bkt>>
    var file: File

    /** The filters undo each other. */
    ghost predicate Filters() {
      && (forall n, x :: |x| == pagesize ==> |pgin(n, x)| == pagesize && |pgout(n, x)| == pagesize)
      && (forall n, x :: |x| == pagesize ==> pgin(n, pgout(n, x)) == x)
    }

    /** What reading the page from the file would give. */
    ghost function Image(pgno: nat): Page
      requires FileOk(file, pagesize)
      reads `file
    {
      pgin(pgno, FilePage(file, pgno, pagesize))
    }

    ghost predicate Queues()
      reads `lqh, `hqh, lqh`pgno
    {
      OnQueues(lqh, hqh)
    }

    ghost predicate Unique()
      reads `lqh, lqh`pgno
    {
      OnePerPage(lqh)
    }

    /** A page that is neither pinned nor dirty is as it is in the file. */
    ghost predicate Buffers()
      reads this, lqh
    {
      && FileOk(file, pagesize)
      && forall b :: b in lqh ==> b.inuse && |b.page| == pagesize && (!b.dirty && !b.pinned ==> b.page == Image(b.pgno))
    }

    ghost predicate Sound()
      reads this, lqh
    {
      pagesize > 0 && Filters() && Queues() && Unique() && Buffers()
    }

    ghost predicate Valid()
      reads this, lqh
    {
      Sound() && curcache == |lqh|
    }

    ghost predicate Cached(pgno: nat)
      reads `lqh, lqh`pgno
    {
      exists b :: b in lqh && b.pgno == pgno
    }

    /** The next buffer to be taken over, if the cache is full: the oldest that is not pinned. */
    ghost predicate Oldest(i: nat)
      reads this, lqh
    {
      i < |lqh| && curcache >= maxcache && !lqh[i].pinned && forall k :: 0 <= k < i ==> lqh[k].pinned
    }

    ghost predicate Partly(pgno: nat)
      reads `file
    {
      PartlyIn(file, pgno)
    }

    /** Taking a buffer over writes a page at or past this one, which makes the file that long. */
    ghost predicate WritesPast(pgno: nat)
      reads this, lqh
    {
      exists i: nat :: Oldest(i) && lqh[i].dirty && lqh[i].pgno >= pgno
    }

    /** The page as a user of the cache sees it. */
    ghost function Store(pgno: nat): Page
      requires FileOk(file, pagesize)
      reads `lqh, `file, lqh`pgno, lqh`page
    {
      if b :| b in lqh && b.pgno == pgno then b.page else Image(pgno)
    }

    lemma StoreOf(b: Bkt)
      requires Unique() && FileOk(file, pagesize) && b in lqh
      ensures Store(b.pgno) == b.page
    {
    }

    constructor (pagesize: nat, maxcache: nat, file: File, pgin: (nat, Page) -> Page, pgout: (nat, Page) -> Page)
      requires pagesize > 0 && FileOk(file, pagesize)
      requires forall n, x :: |x| == pagesize ==> |pgin(n, x)| == pagesize && |pgout(n, x)| == pagesize
      requires forall n, x :: |x| == pagesize ==> pgin(n, pgout(n, x)) == x
      ensures Valid() && lqh == [] && this.file == file && this.pagesize == pagesize && this.maxcache == maxcache
      ensures this.pgin == pgin && this.pgout == pgout && curcache == 0 && npages == |file.pages|
    {
      this.pagesize, this.maxcache, this.file, this.pgin, this.pgout := pagesize, maxcache, file, pgin, pgout;
      curcache, npages, lqh, hqh := 0, |file.pages|, [], seq(HASHSIZE, i => []);
    }

    /** `mpool_look`. */
    method Look(pgno: nat) returns (bp: Bkt?)
      requires Sound()
      ensures bp != null ==> bp in lqh && bp.pgno == pgno
      ensures bp == null ==> !Cached(pgno)
    {
      var head := hqh[HashKey(pgno)];
      for i := 0 to |head|
        invariant forall k :: 0 <= k < i ==> head[k].pgno != pgno
      {
        if head[i].pgno == pgno && head[i].inuse {
          return head[i];
        }
      }
      bp := null;
    }

    /** `mpool_write`: the file gets the page, and the copy in core comes through the filters unchanged. */
    method Write(bp: Bkt)
      requires Sound() && bp in lqh
      modifies `file, bp`page, bp`dirty
      ensures Sound() && !bp.dirty && bp.page == old(bp.page) && Image(bp.pgno) == bp.page
      ensures forall p: nat :: p != bp.pgno ==> Image(p) == old(Image(p))
      ensures forall p: nat :: Store(p) == old(Store(p))
      ensures forall p: nat :: Partly(p) <==> old(Partly(p)) && bp.pgno < p
    {
      WriteEnds(file, bp.pgno, pgout(bp.pgno, bp.page));
      hide FilePage, WriteAt, FileOk, Store, OnQueues, OnePerPage, Filters;
      Filtered(bp.pgno, bp.page);
      OtherPages(bp);
      var page := pgout(bp.pgno, bp.page);
      bp.page := page;
      file := WriteAt(file, bp.pgno, bp.page, pagesize);
      bp.page := pgin(bp.pgno, bp.page);
      bp.dirty := false;
      StoreKept(bp);
    }

    lemma WriteEnds(f: File, n: nat, x: Page)
      requires FileOk(f, pagesize) && pagesize > 0 && Filters()
      ensures |x| == pagesize ==>
                forall p: nat :: PartlyIn(WriteAt(f, n, x, pagesize), p) <==> PartlyIn(f, p) && n < p
    {
    }

    lemma OtherPages(bp: Bkt)
      requires Unique() && bp in lqh
      ensures forall b :: b in lqh && b != bp ==> b.pgno != bp.pgno
    {
    }

    lemma Filtered(n: nat, x: Page)
      requires Filters() && |x| == pagesize
      ensures |pgout(n, x)| == pagesize && pgin(n, pgout(n, x)) == x
    {
    }

    /** With the cached pages as they were, only the file's copy of a cached page may have changed. */
    twostate lemma StoreKept(bp: Bkt)
      requires old(Unique()) && old(FileOk(file, pagesize)) && FileOk(file, pagesize) && lqh == old(lqh) && bp in lqh
      requires forall b :: b in lqh ==> b.pgno == old(b.pgno) && b.page == old(b.page)
      requires forall p: nat :: p != bp.pgno ==> Image(p) == old(Image(p))
      ensures forall p: nat :: Store(p) == old(Store(p))
    {
      hide FileOk, Image;
      forall p: nat ensures Store(p) == old(Store(p)) {
        if b :| b in lqh && b.pgno == p {
          StoreOf(b);
          assert old(Store(p)) == old(b.page);
        } else {
          assert p != bp.pgno;
        }
      }
    }

    /** TAILQ_REMOVE from both queues. */
    method Detach(bp: Bkt)
      requires Sound() && bp in lqh
      modifies `lqh, `hqh
      ensures Sound() && lqh == Remove(old(lqh), bp) && |lqh| == |old(lqh)| - 1 && !Cached(bp.pgno)
      ensures forall p: nat :: p != bp.pgno ==> Store(p) == old(Store(p))
      ensures Store(bp.pgno) == Image(bp.pgno)
    {
      hide OnQueues, Store, Filters, FileOk, Image, HashKey, Remove;
      OffQueues(lqh, hqh, bp);
      HashesInside(lqh, hqh);
      var head := HashKey(bp.pgno);
      hqh := hqh[head := Remove(hqh[head], bp)];
      lqh := Remove(lqh, bp);
      StoresSame(bp);
      StoreNone(bp.pgno);
    }

    lemma StoreNone(p: nat)
      requires FileOk(file, pagesize) && !Cached(p)
      ensures Store(p) == Image(p)
    {
    }

    /** Another buffer on or off the queue does not change a page. */
    twostate lemma StoresSame(bp: Bkt)
      requires old(Unique()) && Unique() && FileOk(file, pagesize) && file == old(file)
      requires forall b :: b in lqh && b != bp ==> b in old(lqh) && b.pgno == old(b.pgno) && b.page == old(b.page)
      requires forall b :: b in old(lqh) && b != bp ==> b in lqh && b.pgno == old(b.pgno) && b.page == old(b.page)
      requires bp in old(lqh) ==> old(bp.pgno) == bp.pgno
      ensures forall p: nat :: p != bp.pgno ==> Store(p) == old(Store(p))
    {
      hide FileOk, Image;
      forall p: nat | p != bp.pgno ensures Store(p) == old(Store(p)) {
        if b :| b in lqh && b.pgno == p {
          StoreOf(b);
        }
      }
    }

    /** To the head of the hash chain and the tail of the LRU queue; nothing else may have the page's number. */
    method Attach(bp: Bkt)
      requires Sound() && bp !in lqh
      requires bp.inuse && |bp.page| == pagesize && (!bp.dirty && !bp.pinned ==> bp.page == Image(bp.pgno))
      modifies `lqh, `hqh
      ensures Filters() && Queues() && Buffers() && lqh == old(lqh) + [bp]
      ensures Unique() <==> !old(Cached(bp.pgno))
      ensures Unique() ==> Store(bp.pgno) == bp.page && forall p: nat :: p != bp.pgno ==> Store(p) == old(Store(p))
    {
      hide OnQueues, Store, Filters, FileOk, Image, HashKey;
      ToQueues(lqh, hqh, bp);
      HashesInside(lqh, hqh);
      var head := HashKey(bp.pgno);
      hqh := hqh[head := [bp] + hqh[head]];
      lqh := lqh + [bp];
      assert bp in lqh;
      if b :| b in old(lqh) && b.pgno == bp.pgno {
        assert b in lqh;
      }
      if Unique() {
        StoreOf(bp);
        StoresSame(bp);
      }
    }

    /** Write a buffer back if it is dirty, and take it off the queues. */
    method Evict(bp: Bkt)
      requires Sound() && bp in lqh && !bp.pinned
      modifies `file, `lqh, `hqh, bp
      ensures Sound() && lqh == Remove(old(lqh), bp) && |lqh| == |old(lqh)| - 1
      ensures |bp.page| == pagesize && !bp.pinned && !bp.dirty && !bp.inuse
      ensures forall p: nat :: Store(p) == old(Store(p))
      ensures forall p: nat :: Partly(p) <==> old(Partly(p) && !(bp.dirty && bp.pgno >= p))
    {
      hide Store, Filters, FileOk, Image, OnQueues, OnePerPage;
      if bp.dirty {
        Write(bp);
      }
      StoreIs(bp);
      Detach(bp);
      ghost var same := lqh;
      bp.pinned, bp.dirty, bp.inuse := false, false, false;
    }

    lemma StoreIs(bp: Bkt)
      requires Sound() && bp in lqh
      ensures Store(bp.pgno) == bp.page && (!bp.dirty && !bp.pinned ==> bp.page == Image(bp.pgno))
    {
      StoreOf(bp);
    }

    /**
     `mpool_bkt`: a buffer on no queue, new while there are fewer than `maxcache` or when all are pinned,
     and otherwise the one that has gone unused longest.
     */
    method TakeBkt() returns (bp: Bkt, ghost at: nat)
      requires Valid()
      modifies this, lqh
      ensures Sound() && curcache == |lqh| + 1 && npages == old(npages)
      ensures bp !in lqh && |bp.page| == pagesize && !bp.pinned && !bp.dirty && !bp.inuse
      ensures if old(curcache) < maxcache || (forall b :: b in old(lqh) ==> old(b.pinned))
              then fresh(bp) && lqh == old(lqh) && file == old(file) && bp.page == Zeros(pagesize)
              else at < |old(lqh)| && bp == old(lqh)[at] && !old(lqh[at].pinned) && lqh == Remove(old(lqh), bp) &&
                   forall k :: 0 <= k < at ==> old(lqh[k].pinned)
      ensures forall b :: b in lqh ==> b in old(lqh) && b.pgno == old(b.pgno) && b.page == old(b.page) && b.pinned == old(b.pinned)
      ensures forall p: nat :: Partly(p) <==> old(Partly(p) && !WritesPast(p))
      ensures forall p: nat :: Store(p) == old(Store(p))
    {
      hide Store, Filters, FileOk, Image, OnQueues, OnePerPage;
      if curcache >= maxcache {
        var i := 0;
        while i < |lqh|
          invariant forall k :: 0 <= k < i && k < |lqh| ==> lqh[k].pinned
        {
          if !lqh[i].pinned {
            bp, at := lqh[i], i;
            Evict(bp);
            return;
          }
          i := i + 1;
        }
      }
      at := 0;
      bp := new Bkt(pagesize);
      curcache := curcache + 1;
    }

    /** Read a page of the file; a page that is only partly there is an error. */
    method Pread(pgno: nat) returns (nr: nat, page: Page)
      requires FileOk(file, pagesize) && pagesize > 0
      ensures nr == 0 || nr == pagesize ==> page == FilePage(file, pgno, pagesize)
      ensures nr != 0 && nr != pagesize <==> Partly(pgno)
    {
      if pgno < |file.pages| {
        nr, page := pagesize, file.pages[pgno];
      } else if pgno == |file.pages| && file.ragged != [] {
        nr, page := |file.ragged|, file.ragged;
      } else {
        nr, page := 0, Zeros(pagesize);
        assert pgno == |file.pages| ==> file.ragged + Zeros(pagesize) == Zeros(pagesize);
      }
    }

    /**
     `mpool_get`: the page, pinned and last on the LRU queue, with what the cache shows for it.  Only a page
     that is not cached and only partly in the file is refused, unless the buffer taken over for it is
     written back and makes the file longer.
     */
    method Get(pgno: nat) returns (bp: Bkt?, ghost at: nat)
      requires Valid()
      modifies this, lqh
      ensures Valid() && npages == old(npages)
      ensures bp == null <==> old(!Cached(pgno) && Partly(pgno) && !WritesPast(pgno))
      ensures bp != null ==> bp.pgno == pgno && bp.pinned && bp.page == old(Store(pgno)) && lqh != [] && lqh[|lqh| - 1] == bp
      ensures forall b :: b in old(lqh) && old(b.pinned) ==> b in lqh && b.pinned && b.page == old(b.page) && b.pgno == old(b.pgno)
      ensures forall p: nat :: Store(p) == old(Store(p))
      ensures old(Cached(pgno)) ==> bp in old(lqh) && lqh == Remove(old(lqh), bp) + [bp] && file == old(file)
      ensures bp != null && !old(Cached(pgno)) ==>
                if old(curcache) < maxcache || (forall b :: b in old(lqh) ==> old(b.pinned))
                then lqh == old(lqh) + [bp] && fresh(bp) && file == old(file)
                else at < |old(lqh)| && bp == old(lqh)[at] && lqh == Remove(old(lqh), bp) + [bp] && !old(lqh[at].pinned) &&
                     forall k :: 0 <= k < at ==> old(lqh[k].pinned)
    {
      hide Store, Filters, FileOk, Image, OnQueues, OnePerPage;
      at := 0;
      bp := Look(pgno);
      if bp != null {
        Touch(bp);
        return;
      }
      bp, at := Fill(pgno);
    }

    /** A cached page moves to the head of its chain and the tail of the LRU queue, and is pinned. */
    method Touch(bp: Bkt)
      requires Valid() && bp in lqh
      modifies `lqh, `hqh, bp`pinned
      ensures Valid() && bp.pinned && lqh == Remove(old(lqh), bp) + [bp] && bp.page == old(Store(bp.pgno))
      ensures forall p: nat :: Store(p) == old(Store(p))
    {
      hide Store, Filters, FileOk, Image, OnQueues, OnePerPage;
      StoreIs(bp);
      bp.pinned := true;
      Detach(bp);
      Attach(bp);
    }

    /** A page read in for the first time, or again after it was evicted. */
    method Fill(pgno: nat) returns (bp: Bkt?, ghost at: nat)
      requires Valid() && !Cached(pgno)
      modifies this, lqh
      ensures Valid() && npages == old(npages)
      ensures bp == null <==> old(Partly(pgno) && !WritesPast(pgno))
      ensures bp != null ==> bp.pgno == pgno && bp.pinned && bp.page == old(Store(pgno)) && lqh != [] && lqh[|lqh| - 1] == bp
      ensures forall b :: b in old(lqh) && old(b.pinned) ==> b in lqh && b.pinned && b.page == old(b.page) && b.pgno == old(b.pgno)
      ensures forall p: nat :: Store(p) == old(Store(p))
      ensures bp != null ==>
                if old(curcache) < maxcache || (forall b :: b in old(lqh) ==> old(b.pinned))
                then lqh == old(lqh) + [bp] && fresh(bp) && file == old(file)
                else at < |old(lqh)| && bp == old(lqh)[at] && lqh == Remove(old(lqh), bp) + [bp] && !old(lqh[at].pinned) &&
                     forall k :: 0 <= k < at ==> old(lqh[k].pinned)
    {
      hide Store, Filters, FileOk, Image, OnQueues, OnePerPage, Remove, FilePage, WritesPast, PartlyIn, HashKey, Zeros;
      bp, at := TakeBkt();
      StoreNone(pgno);
      var nr, page := Pread(pgno);
      if nr != pagesize && nr != 0 {
        curcache := curcache - 1;
        return null, at;
      }
      PginOk(pgno, page);
      Occupy(bp, pgno, pgin(pgno, page));
    }

    /** A buffer on no queue is given a page number and contents, pinned and queued. */
    method Occupy(bp: Bkt, pgno: nat, page: Page)
      requires Sound() && bp !in lqh && |page| == pagesize && !bp.dirty
      modifies `lqh, `hqh, bp
      ensures bp.pgno == pgno && bp.page == page && bp.pinned && bp.inuse && !bp.dirty
      ensures Filters() && Queues() && Buffers() && lqh == old(lqh) + [bp]
      ensures Unique() <==> !old(Cached(pgno))
      ensures Unique() ==> Store(pgno) == page && forall p: nat :: p != pgno ==> Store(p) == old(Store(p))
    {
      hide Store, Filters, FileOk, Image, OnQueues, OnePerPage, HashKey;
      bp.page := page;
      bp.pgno := pgno;
      bp.pinned := true;
      bp.inuse := true;
      Attach(bp);
    }

    lemma PginOk(n: nat, x: Page)
      requires Filters() && FileOk(file, pagesize) && x == FilePage(file, n, pagesize)
      ensures pagesize > 0 && |pgin(n, x)| == pagesize && pgin(n, x) == Image(n)
    {
    }

    /**
     `mpool_new`: a page numbered by the caller or after the last.  Its contents are whatever the buffer held.
     The pool stays in order exactly when no buffer has that number already, or the one that has it is the
     one to be evicted: the cache is full, and it is the oldest that is not pinned.
     */
    method New(request: bool, wanted: nat) returns (bp: Bkt, pgno: nat)
      requires Valid()
      modifies this, lqh
      ensures pgno == (if request then wanted else old(npages)) && npages == old(npages) + 1
      ensures bp.pgno == pgno && bp.pinned && lqh != [] && lqh[|lqh| - 1] == bp
      ensures Valid() <==>
              old(!Cached(pgno) ||
                  (curcache >= maxcache && exists i :: 0 <= i < |lqh| && lqh[i].pgno == pgno && !lqh[i].pinned &&
                                                       forall k :: 0 <= k < i ==> lqh[k].pinned))
      ensures Queues()
      ensures old(curcache) < maxcache || old(forall b :: b in lqh ==> b.pinned) ==> fresh(bp) && lqh == old(lqh) + [bp]
      ensures Valid() ==> forall p: nat :: p != pgno ==> Store(p) == old(Store(p))
      ensures forall b :: b in old(lqh) && old(b.pinned) ==> b in lqh && b.pinned && b.page == old(b.page) && b.pgno == old(b.pgno)
    {
      hide Store, Filters, FileOk, Image, OnQueues, Remove, Zeros, WritesPast, PartlyIn, HashKey;
      ghost var at;
      bp, at := TakeBkt();
      pgno := if request then wanted else npages;
      npages := npages + 1;
      Occupy(bp, pgno, bp.page);
    }

    /** `mpool_put`: a page that was modified must be given back dirty. */
    method Put(bp: Bkt, dirty: bool)
      requires Valid() && bp in lqh && (dirty || bp.dirty || bp.page == Image(bp.pgno))
      modifies bp`pinned, bp`dirty
      ensures Valid() && !bp.pinned && (bp.dirty <==> old(bp.dirty) || dirty)
      ensures forall p: nat :: Store(p) == old(Store(p))
    {
      hide Store, Filters, FileOk, Image, OnQueues, OnePerPage;
      bp.pinned := false;
      if dirty {
        bp.dirty := true;
      }
    }

    /** `mpool_delete`: the buffer goes, and with it whatever the file does not have. */
    method Delete(bp: Bkt)
      requires Valid() && bp in lqh
      modifies this
      ensures Valid() && lqh == Remove(old(lqh), bp) && !Cached(bp.pgno) && file == old(file)
      ensures forall p: nat :: Store(p) == if p == bp.pgno then Image(p) else old(Store(p))
    {
      hide Store, Filters, FileOk, Image, OnQueues, OnePerPage;
      Detach(bp);
      curcache := curcache - 1;
    }

    /**
     `mpool_sync`: every dirty page is written.  After it the file has what the cache shows, but for pages
     somebody holds and has changed without saying so.
     */
    method Sync()
      requires Valid()
      modifies `file, lqh`page, lqh`dirty
      ensures Valid() && forall b :: b in lqh ==> !b.dirty && b.page == old(b.page)
      ensures forall p: nat :: Store(p) == old(Store(p))
      ensures forall b :: b in lqh && (old(b.dirty) || !b.pinned) ==> Image(b.pgno) == Store(b.pgno)
      ensures (forall b :: b in lqh ==> old(b.dirty) || !b.pinned) ==> forall p: nat :: Image(p) == Store(p)
    {
      hide Filters, FileOk, Image, OnQueues, OnePerPage, Store;
      var i := 0;
      while i < |lqh|
        invariant i <= |lqh| && Valid()
        invariant forall b :: b in lqh ==> b.page == old(b.page) && (b.dirty ==> old(b.dirty))
        invariant forall k :: 0 <= k < i ==> !lqh[k].dirty && (old(lqh[k].dirty) ==> lqh[k].page == Image(lqh[k].pgno))
        invariant forall k :: i <= k < |lqh| ==> lqh[k].dirty == old(lqh[k].dirty)
        invariant forall p: nat :: Store(p) == old(Store(p))
      {
        var bp := lqh[i];
        OnceEach(lqh, hqh);
        OtherPages(bp);
        if bp.dirty {
          Write(bp);
        }
        i := i + 1;
      }
      forall b | b in lqh ensures Store(b.pgno) == b.page {
        StoreOf(b);
      }
      forall p: nat | forall b :: b in lqh ==> b.page == Image(b.pgno) ensures Image(p) == Store(p) {
        if !Cached(p) {
          StoreNone(p);
        }
      }
    }
  }

  /** Asked twice for the same page number with room to spare, `mpool_new` leaves two buffers for it. */
  method NewTwice(pagesize: nat, file: File, n: nat) returns (p: Pool, first: Bkt, second: Bkt)
    requires pagesize > 0 && FileOk(file, pagesize)
    ensures p.lqh == [first, second] && first != second && first.pgno == second.pgno == n && !p.Valid()
  {
    hide FileOk;
    p := new Pool(pagesize, 2, file, (i, x) => x, (i, x) => x);
    var m;
    first, m := p.New(true, n);
    second, m := p.New(true, n);
  }

  lemma OnceEach(lqh: seq<Bkt>, hqh: seq<seq<Bkt>>)
    requires OnQueues(lqh, hqh)
    ensures NoDup(lqh)
  {
  }

  lemma HashesInside(lqh: seq<Bkt>, hqh: seq<seq<Bkt>>)
    requires OnQueues(lqh, hqh)
    ensures |hqh| == HASHSIZE
  {
  }
}
