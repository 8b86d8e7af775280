/** runtime/malloc.c: the address-ordered, first-fit, splitting and coalescing free list.
    Chunk headers are a map from addresses; payload bytes are a separate map, and the invariant
    says why the two never meet: chunks tile exactly the bytes obtained from the system. */
module Allocator {
  import opened FreeLists

  class Heap {
    var head: nat                 // freelist_head
    var hdr: Headers
    var mem: Memory
    ghost var mapped: iset<nat>   // every byte the system ever granted

    ghost predicate Valid()
      reads this
    {
      Tiled(hdr, mapped) && Listed(hdr, head)
    }

    constructor ()
      ensures Valid() && mapped == iset{} && Live(hdr, mem) == map[] && Coalesced(hdr)
    {
      head, hdr, mem, mapped := 0, map[], (a: nat) => 0, iset{};
      new;
      assert Pointers(hdr) == {};
    }

    // The walk to c's place in the address order; prev 0 is &freelist_head.
    method FindPlace(c: nat) returns (prev: nat, n: nat)
      requires Valid() && 0 < c && !Idle(hdr, c)
      ensures Prev(hdr, head, prev, n) && prev < c && (n == 0 || c < n)
    {
      prev, n := 0, head;
      assert NextFree(hdr, 0, head);
      while n != 0 && n < c
        invariant Prev(hdr, head, prev, n) && prev < c && (n != 0 ==> Idle(hdr, n))
        decreases if n == 0 then 0 else TOP - n
      {
        assert ChunkOk(hdr, n) && NextFree(hdr, n, hdr[n].next);
        assert hdr[n].next != 0 ==> ChunkOk(hdr, hdr[n].next);
        prev, n := n, hdr[n].next;
      }
    }

    // The first-fit search: the lowest free chunk of at least n bytes, or null.
    method FirstFit(n: nat) returns (prev: nat, c: nat)
      requires Valid()
      ensures Prev(hdr, head, prev, c)
      ensures c != 0 ==> Idle(hdr, c) && hdr[c].size >= n
      ensures forall d: nat | Idle(hdr, d) && (c == 0 || d < c) :: hdr[d].size < n
    {
      prev, c := 0, head;
      assert NextFree(hdr, 0, head);
      assert forall d: nat | d in hdr :: ChunkOk(hdr, d);
      while c != 0 && hdr[c].size < n
        invariant Prev(hdr, head, prev, c) && (c != 0 ==> Idle(hdr, c))
        invariant forall d: nat | Idle(hdr, d) && (c == 0 || d < c) :: hdr[d].size < n
        decreases if c == 0 then 0 else TOP - c
      {
        assert NextFree(hdr, c, hdr[c].next);
        prev, c := c, hdr[c].next;
      }
    }

    // Linking chunk c behind prev.
    method LinkIn(prev: nat, n: nat, c: nat)
      requires Valid() && InUse(hdr, c) && Prev(hdr, head, prev, n) && prev < c && (n == 0 || c < n)
      modifies this`head, this`hdr
      ensures Valid() && hdr == LinkedIn(old(hdr), prev, n, c)
    {
      LinkInTiles(hdr, mapped, prev, n, c);
      InsertLists(hdr, head, prev, n, c);
      hdr := hdr[c := hdr[c].(state := 1, next := n)];
      if prev == 0 {
        head := c;
      } else {
        hdr := hdr[prev := hdr[prev].(next := c)];
      }
    }

    // Merging the listed chunk a with its successor when the two touch.
    method MergeNext(a: nat, b: nat)
      requires Valid() && Idle(hdr, a) && hdr[a].next == b
      modifies this`hdr
      ensures Valid() && hdr == if Touch(old(hdr), a, b) then Merged(old(hdr), a, b) else old(hdr)
    {
      assert ChunkOk(hdr, a) && NextFree(hdr, a, b);
      if b != 0 && a + HEADER + hdr[a].size == b {
        MergeTiles(hdr, mapped, a, b);
        MergeLists(hdr, head, a, b);
        hdr := Merged(hdr, a, b);
      }
    }

    // The insertion by address that heap_grow and free share; prev is the left neighbour.
    method Insert(c: nat) returns (prev: nat, ghost n: nat)
      requires Valid() && InUse(hdr, c) && 0 !in hdr && 0 < c
      modifies this`head, this`hdr
      ensures Valid() && Prev(old(hdr), old(head), prev, n) && prev < c && (n == 0 || c < n)
      ensures hdr == Absorbed(old(hdr), prev, n, c)
    {
      var next;
      prev, next := FindPlace(c);
      n := next;
      LinkIn(prev, next, c);
      assert Idle(hdr, c) && hdr[c].next == next;
      MergeNext(c, next);
    }

    // heap_grow, with p the system's answer to the request.
    method HeapGrow(need: nat, p: nat)
      requires Valid() && need < WORD && Grant(mapped, p, Region(need))
      modifies this`head, this`hdr, this`mapped
      ensures Valid() && Live(hdr, mem) == old(Live(hdr, mem))
      ensures mapped == old(mapped) + GrantedBytes(p, need)
      ensures if p == 0 || need > WORD - 1 - EXTRA then hdr == old(hdr) && head == old(head)
              else GrownBy(old(hdr), hdr, p, Region(need))
      ensures old(Coalesced(hdr)) ==> (Coalesced(hdr) <==> p == 0 || need > WORD - 1 - EXTRA || !BehindFree(old(hdr), p))
      ensures old(Coalesced(hdr)) ==> CoalescedBut(hdr, p)
      ensures forall x: nat :: BehindFree(hdr, x) ==> BehindFree(old(hdr), x) || (p != 0 && x == p + Region(need))
    {
      if need <= WORD - 1 - EXTRA && p != 0 {
        AddRegion(p, Region(need));
      }
    }

    method AddRegion(p: nat, region: nat)
      requires Valid() && Grant(mapped, p, region) && p != 0 && region % 16 == 0 && region > HEADER
      modifies this`head, this`hdr, this`mapped
      ensures Valid() && Live(hdr, mem) == old(Live(hdr, mem)) && mapped == old(mapped) + Range(p, region)
      ensures GrownBy(old(hdr), hdr, p, region)
      ensures old(Coalesced(hdr)) ==> (Coalesced(hdr) <==> !BehindFree(old(hdr), p)) && CoalescedBut(hdr, p)
      ensures forall x: nat :: BehindFree(hdr, x) ==> BehindFree(old(hdr), x) || x == p + region
    {
      hide GrownBy, Live, Coalesced, CoalescedBut, BehindFree, Tiled, Listed, Absorbed, Prev, Grant;
      RegionTiles(hdr, mapped, p, region);
      RegionLists(hdr, head, p, region);
      NullIsNoChunk(hdr, mapped);
      hdr := WithRegion(hdr, p, region);
      mapped := mapped + Range(p, region);
      var prev, n := Insert(p);
      ghost var h := Absorbed(WithRegion(old(hdr), p, region), prev, n, p);
      assert hdr == h && mem == old(mem);
      RegionIsGrown(old(hdr), old(mapped), old(head), p, region, prev, n);
      GrowSummary(old(hdr), old(mapped), old(head), p, region, prev, n, mem);
      assert Live(h, mem) == Live(old(hdr), mem);
    }

    // Serving a request of n bytes from the listed chunk c.
    method Take(prev: nat, c: nat, n: nat, user: nat)
      requires Valid() && Prev(hdr, head, prev, c) && Idle(hdr, c) && n <= hdr[c].size
      requires n % 16 == 0 && 0 < n && user <= n
      modifies this`head, this`hdr
      ensures Valid() && hdr == Taken(old(hdr), prev, c, n, user)
    {
      TakenValid(hdr, mapped, head, prev, c, n, user);
      TakenByFields(hdr, mapped, head, prev, c, n, user);
      NullIsNoChunk(hdr, mapped);
      WriteFields(prev, c, n, user);
    }

    method WriteFields(prev: nat, c: nat, n: nat, user: nat)
      requires c in hdr && 0 !in hdr && (prev == 0 || prev in hdr)
      modifies this`head, this`hdr
      ensures hdr == Fields(old(hdr), prev, c, n, user)
      ensures head == Headed(old(head), prev, if Splits(old(hdr), c, n) then c + HEADER + n else old(hdr)[c].next)
    {
      var next := hdr[c].next;
      if hdr[c].size >= n + HEADER + 16 {
        var rest := c + HEADER + n;
        hdr := hdr[rest := Header(hdr[c].size - n - HEADER, 0, next, 1)];
        SetLink(prev, rest);
        hdr := hdr[c := Header(n, user, 0, 0)];
      } else {
        SetLink(prev, next);
        hdr := hdr[c := Header(hdr[c].size, user, 0, 0)];
      }
    }

    // *prev = v
    method SetLink(prev: nat, v: nat)
      requires prev == 0 || prev in hdr
      requires 0 !in hdr
      modifies this`head, this`hdr
      ensures hdr == Relink(old(hdr), prev, v) && head == Headed(old(head), prev, v)
    {
      if prev == 0 {
        head := v;
      } else {
        hdr := hdr[prev := hdr[prev].(next := v)];
      }
    }

    // The first two statements of malloc: an empty list grows.
    method Stock(n: nat, r1: nat)
      requires Valid() && n < WORD && Grant(mapped, r1, Region(n))
      modifies this`head, this`hdr, this`mapped
      ensures Valid() && Live(hdr, mem) == old(Live(hdr, mem))
      ensures mapped == if old(head) == 0 then old(mapped) + GrantedBytes(r1, n) else old(mapped)
      ensures old(head) != 0 ==> hdr == old(hdr) && head == old(head)
      ensures old(head) == 0 ==> !old(Fits(hdr, n))
      ensures if old(head) == 0 && r1 != 0 && Roomy(n) then
                Idle(hdr, r1) && hdr[r1].size >= n && forall d: nat | Idle(hdr, d) && hdr[d].size >= n :: d == r1
              else Fits(hdr, n) ==> old(Fits(hdr, n))
      ensures old(Coalesced(hdr)) ==> Coalesced(hdr)
      ensures forall x: nat :: BehindFree(hdr, x) <==>
                BehindFree(old(hdr), x) || (old(head) == 0 && r1 != 0 && n <= WORD - 1 - EXTRA && x == r1 + Region(n))
    {
      hide Region, Tiled, Listed, Coalesced, BehindFree, GrownBy;
      if head == 0 {
        NullIsNoChunk(hdr, mapped);
        EmptyListIsCoalesced(hdr);
        EmptyListFitsNothing(hdr, head, n);
        HeapGrow(n, r1);
        if r1 != 0 && Roomy(n) {
          GrownServes(old(hdr), hdr, r1, n);
        }
        if r1 != 0 && n <= WORD - 1 - EXTRA {
          GrownFromEmpty(old(hdr), hdr, r1, Region(n));
        }
      }
      if Fits(hdr, n) {
        OnlyRoomyFit(hdr, mapped, n);
      }
    }

    // malloc.  r1 and r2 are the system's answers, used only when the list cannot serve the request.
    method Malloc(size: nat, r1: nat, r2: nat) returns (p: nat)
      requires Valid() && size < WORD && Grants(mapped, r1, r2, Region(Rounded(size)))
      modifies this
      ensures Valid() && Answer(old(hdr), old(head), r1, r2, Rounded(size), p)
      ensures mapped == MappedAfter(old(hdr), old(head), old(mapped), r1, r2, Rounded(size))
      ensures if p == 0 then Live(hdr, mem) == old(Live(hdr, mem)) else Allocated(old(Live(hdr, mem)), Live(hdr, mem), p, size)
      ensures p == 0 ==> !Fits(hdr, Rounded(size))
      ensures p != 0 ==> InUse(hdr, p - HEADER) && hdr[p - HEADER].size < Rounded(size) + HEADER + 16
      ensures old(Coalesced(hdr)) ==> (Coalesced(hdr) <==> !LeavesTouching(old(hdr), old(head), r1, r2, Rounded(size)))
    {
      hide Live, Allocated, Region, Rounded, Tiled, Listed, Coalesced, CoalescedBut, BehindFree, Prev, GrownBy;
      var n := Rounded(size);
      if Fits(hdr, n) {
        OnlyRoomyFit(hdr, mapped, n);
      }
      Stock(n, r1);
      ghost var h1 := hdr;
      var prev, c := FirstFit(n);
      CoalescedAnywhere(h1, c);
      if c == 0 {
        HeapGrow(n, r2);
        if r2 != 0 && Roomy(n) {
          GrownServes(h1, hdr, r2, n);
        }
        prev, c := FirstFit(n);
        if c == 0 {
          return 0;
        }
      }
      assert Fits(hdr, n);
      OnlyRoomyFit(hdr, mapped, n);
      p := Serve(prev, c, n, size);
    }

    method Serve(prev: nat, c: nat, n: nat, size: nat) returns (p: nat)
      requires Valid() && Prev(hdr, head, prev, c) && Idle(hdr, c) && n <= hdr[c].size && size < WORD && n == Rounded(size)
      modifies this`head, this`hdr, this`mem
      ensures Valid() && p == c + HEADER && Allocated(old(Live(hdr, mem)), Live(hdr, mem), p, size)
      ensures InUse(hdr, c) && hdr[c].size < n + HEADER + 16
      ensures old(CoalescedBut(hdr, c)) ==> Coalesced(hdr)
    {
      hide Tiled, Listed, Live, Allocated;
      TakenInUse(hdr, mapped, head, prev, c, n, size);
      RoundedFits(size, hdr, mapped, c);
      TakenIsAllocated(hdr, mapped, head, prev, c, n, size, mem);
      if CoalescedBut(hdr, c) {
        TakenCoalesced(hdr, mapped, head, prev, c, n, size);
      }
      ghost var h' := Taken(hdr, prev, c, n, size);
      Take(prev, c, n, size);
      p := c + HEADER;
      mem := Filled(mem, p, n, 0);
      assert hdr == h' && Allocated(old(Live(hdr, mem)), Live(h', mem), p, size);
    }

    // free: null and chunks that are on the list already are left alone.
    method Free(p: nat)
      requires Valid() && (p == 0 || (p >= HEADER && p - HEADER in hdr))
      modifies this`head, this`hdr
      ensures Valid()
      ensures p == 0 || Idle(old(hdr), p - HEADER) ==> hdr == old(hdr) && head == old(head)
      ensures p != 0 && InUse(old(hdr), p - HEADER) ==> Freed(old(Live(hdr, mem)), Live(hdr, mem), p)
      ensures old(Coalesced(hdr)) ==> Coalesced(hdr)
    {
      hide Tiled, Listed, Freed, Live, Coalesced;
      if p != 0 && hdr[p - HEADER].state != 1 {
        UnlistedIsInUse(hdr, mapped, p - HEADER);
        Release(p - HEADER);
      }
    }

    method Release(c: nat)
      requires Valid() && InUse(hdr, c)
      modifies this`head, this`hdr
      ensures Valid() && Freed(old(Live(hdr, mem)), Live(hdr, mem), c + HEADER)
      ensures old(Coalesced(hdr)) ==> Coalesced(hdr)
    {
      hide Tiled, Listed, Live, Freed, Absorbed, Coalesced;
      ghost var h, head0 := hdr, head;
      NullIsNoChunk(hdr, mapped);
      var left, n := Insert(c);
      AbsorbedPrev(h, head0, left, n, c);
      if left != 0 {
        MergeNext(left, c);
      }
      ghost var h' := Returned(h, left, n, c);
      assert hdr == h' && mem == old(mem);
      ReturnedIsFreed(h, left, n, c, mem);
      assert Freed(Live(h, mem), Live(h', mem), c + HEADER);
      if Coalesced(h) {
        ReturnedCoalesced(h, mapped, head0, left, n, c);
      }
    }

    // calloc: a product that does not fit size_t fails.
    method Calloc(n: nat, m: nat, r1: nat, r2: nat) returns (p: nat)
      requires Valid() && n < WORD && m < WORD
      requires Total(n, m) < WORD ==> Grants(mapped, r1, r2, Region(Rounded(Total(n, m))))
      modifies this
      ensures Valid()
      ensures Total(n, m) >= WORD ==> p == 0 && hdr == old(hdr) && head == old(head) && mapped == old(mapped)
      ensures Total(n, m) < WORD ==> Answer(old(hdr), old(head), r1, r2, Rounded(Total(n, m)), p)
      ensures Total(n, m) < WORD ==> mapped == MappedAfter(old(hdr), old(head), old(mapped), r1, r2, Rounded(Total(n, m)))
      ensures Total(n, m) < WORD && old(Coalesced(hdr)) ==>
                (Coalesced(hdr) <==> !LeavesTouching(old(hdr), old(head), r1, r2, Rounded(Total(n, m))))
      ensures if p == 0 then Live(hdr, mem) == old(Live(hdr, mem))
              else Total(n, m) < WORD && Allocated(old(Live(hdr, mem)), Live(hdr, mem), p, Total(n, m))
    {
      hide Tiled, Listed, Live, Total, Region, Rounded, Coalesced, Grants, Answer, MappedAfter, LeavesTouching;
      TotalOfNone(n);
      if m != 0 && n > (WORD - 1) / m {
        DivisionDetectsOverflow(n, m);
        return 0;
      }
      if m != 0 {
        DivisionDetectsOverflow(n, m);
      }
      var total := Total(n, m);
      p := Malloc(total, r1, r2);
      if p == 0 {
        return;
      }
      ghost var mem0 := mem;
      mem := Filled(mem, p, total, 0);
      ZeroAgain(hdr, mem0, p, total);
    }

    // realloc: a block that holds n bytes already stays where it is with all its bytes.
    method Realloc(p: nat, n: nat, r1: nat, r2: nat) returns (q: nat)
      requires Valid() && n < WORD && Grants(mapped, r1, r2, Region(Rounded(n)))
      requires p == 0 || (p >= HEADER && InUse(hdr, p - HEADER))
      modifies this
      ensures Valid()
      ensures p == 0 ==>
                if q == 0 then Live(hdr, mem) == old(Live(hdr, mem)) else Allocated(old(Live(hdr, mem)), Live(hdr, mem), q, n)
      ensures p != 0 && n == 0 ==> q == 0 && Freed(old(Live(hdr, mem)), Live(hdr, mem), p)
      ensures p != 0 && n != 0 ==>
                if q == 0 then Live(hdr, mem) == old(Live(hdr, mem)) else Moved(old(Live(hdr, mem)), Live(hdr, mem), p, q, n)
      ensures p != 0 && 0 < n <= old(hdr)[p - HEADER].size ==>
                q == p && p in old(Live(hdr, mem)) && Live(hdr, mem) == Reused(old(Live(hdr, mem)), p, n)
      ensures if AsksMalloc(old(hdr), p, n) then
                Answer(old(hdr), old(head), r1, r2, Rounded(n), q)
                && mapped == MappedAfter(old(hdr), old(head), old(mapped), r1, r2, Rounded(n))
              else mapped == old(mapped)
      ensures old(Coalesced(hdr)) ==>
                (Coalesced(hdr) <==>
                  !(AsksMalloc(old(hdr), p, n) && LeavesTouching(old(hdr), old(head), r1, r2, Rounded(n))))
    {
      hide Tiled, Listed, Live, Moved, Allocated, Freed, Answer, MappedAfter, Reused, LeavesTouching, Coalesced;
      if p == 0 {
        q := Malloc(n, r1, r2);
        return;
      }
      if n == 0 {
        Free(p);
        return 0;
      }
      var c := p - HEADER;
      if hdr[c].size >= n {
        Resize(c, n);
        return p;
      }
      q := MoveTo(c, n, r1, r2);
    }

    method Resize(c: nat, n: nat)
      requires Valid() && InUse(hdr, c) && n <= hdr[c].size
      modifies this`hdr
      ensures Valid() && Moved(old(Live(hdr, mem)), Live(hdr, mem), c + HEADER, c + HEADER, n)
      ensures c + HEADER in old(Live(hdr, mem)) && Live(hdr, mem) == Reused(old(Live(hdr, mem)), c + HEADER, n)
      ensures old(Coalesced(hdr)) ==> Coalesced(hdr)
    {
      hide Tiled, Listed, Live, Moved, Coalesced, Reused;
      ResizedValid(hdr, mapped, head, c, n);
      ResizedIsMoved(hdr, mapped, mem, c, n);
      if Coalesced(hdr) {
        ResizedCoalesced(hdr, c, n);
      }
      hdr := hdr[c := hdr[c].(user := n)];
      assert hdr == Resized(old(hdr), c, n);
    }

    // memcpy of the first k bytes of chunk c's payload to chunk d's.
    method CopyPayload(c: nat, d: nat, k: nat)
      requires Valid() && InUse(hdr, c) && InUse(hdr, d) && c != d && k <= hdr[c].size && k <= hdr[d].size
      modifies this`mem
      ensures Valid() && c + HEADER in old(Live(hdr, mem)) && d + HEADER in old(Live(hdr, mem))
      ensures Overwritten(old(Live(hdr, mem)), Live(hdr, mem), c + HEADER, d + HEADER, k)
    {
      CopiedBytes(hdr, mem, c, d, k);
      CopiedElsewhere(hdr, mapped, mem, c, d, k);
      mem := Copied(mem, d + HEADER, c + HEADER, k);
    }

    method MoveTo(c: nat, n: nat, r1: nat, r2: nat) returns (q: nat)
      requires Valid() && 0 < n < WORD && Grants(mapped, r1, r2, Region(Rounded(n))) && InUse(hdr, c) && hdr[c].size < n
      modifies this
      ensures Valid() && Answer(old(hdr), old(head), r1, r2, Rounded(n), q)
      ensures mapped == MappedAfter(old(hdr), old(head), old(mapped), r1, r2, Rounded(n))
      ensures if q == 0 then Live(hdr, mem) == old(Live(hdr, mem))
              else Moved(old(Live(hdr, mem)), Live(hdr, mem), c + HEADER, q, n)
      ensures old(Coalesced(hdr)) ==> (Coalesced(hdr) <==> !LeavesTouching(old(hdr), old(head), r1, r2, Rounded(n)))
    {
      hide Tiled, Listed, Live, Moved, Allocated, Freed, Overwritten, Grants, Coalesced, Region, Rounded;
      hide MappedAfter, Answer, LeavesTouching;
      ghost var p, h0, m0 := c + HEADER, hdr, mem;
      LivePayload(hdr, mem, c);
      q := Malloc(n, r1, r2);
      if q == 0 {
        return;
      }
      ServedIsRoomy(h0, old(mapped), old(head), r1, r2, Rounded(n), q);
      ghost var h1, m1 := hdr, mem;
      StillInUse(h0, m0, h1, m1, c, q, n);
      var copy := hdr[c].user;
      if copy == 0 || copy > hdr[c].size {
        copy := hdr[c].size;
      }
      if copy > n {
        copy := n;
      }
      CopyPayload(c, q - HEADER, copy);
      ghost var m2 := mem;
      Release(c);
      CopyThenFree(Live(h0, m0), Live(h1, m1), Live(h1, m2), Live(hdr, mem), p, q, n);
    }
  }
}
