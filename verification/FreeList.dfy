/** The free list of runtime/malloc.c as a value: chunk headers by address, the steps that rewrite
    them, and why each step keeps the tiling and the list order. */
module FreeLists {

  const HEADER: nat := 32                           // sizeof(struct chunk)
  const WORD: nat := 0x1_0000_0000_0000_0000        // size_t arithmetic is modulo this
  const TOP: nat := 0x8000_0000_0000_0000           // map_anon answers a nonnegative long

  datatype Header = Header(size: nat, user: nat, next: nat, state: nat)

  type Headers = map<nat, Header>

  function End(h: Headers, c: nat): nat
    requires c in h
  {
    c + HEADER + h[c].size
  }

  ghost predicate Owns(h: Headers, c: nat, x: nat) {
    c in h && c <= x < End(h, c)
  }

  ghost predicate ChunkOk(h: Headers, c: nat)
    requires c in h
  {
    && 0 < c && c % 16 == 0 && h[c].size % 16 == 0 && 0 < h[c].size && End(h, c) <= TOP
    && h[c].state <= 1 && (h[c].state == 0 ==> h[c].user <= h[c].size)
  }

  ghost predicate Apart(h: Headers) {
    forall c: nat, d: nat | c in h && d in h && c < d :: End(h, c) <= d
  }

  // Chunks are pairwise apart and own exactly the bytes obtained from the system: none lost, none shared.
  ghost predicate Tiled(h: Headers, mapped: iset<nat>) {
    ChunksOk(h) && Apart(h) && Covers(h, mapped)
  }

  ghost predicate ChunksOk(h: Headers) {
    forall c: nat | c in h :: ChunkOk(h, c)
  }

  ghost predicate Covers(h: Headers, mapped: iset<nat>) {
    && (forall c: nat, x: nat | Owns(h, c, x) :: x in mapped)
    && (forall x: nat | x in mapped :: exists c: nat :: Owns(h, c, x))
  }

  ghost predicate Idle(h: Headers, c: nat) {
    c in h && h[c].state == 1
  }

  // n is the first free chunk above address c, or null when there is none.
  ghost predicate NextFree(h: Headers, c: nat, n: nat) {
    && (n != 0 ==> Idle(h, n) && c < n)
    && forall d: nat | Idle(h, d) && c < d :: n != 0 && n <= d
  }

  // The chunks in state 1, and no others, are linked from head in increasing address order.
  ghost predicate Listed(h: Headers, head: nat) {
    && NextFree(h, 0, head)
    && forall c: nat | Idle(h, c) :: NextFree(h, c, h[c].next)
  }

  ghost predicate Touch(h: Headers, c: nat, d: nat) {
    Idle(h, c) && Idle(h, d) && End(h, c) == d
  }

  // No free chunk begins where another one ends.
  ghost predicate Coalesced(h: Headers) {
    forall c: nat, d: nat :: !Touch(h, c, d)
  }

  // Free chunks touch only at the beginning of c.
  ghost predicate CoalescedBut(h: Headers, c: nat) {
    forall d: nat, e: nat :: Touch(h, d, e) ==> e == c
  }

  // ---------- The elementary steps on headers ----------

  // *prev = v, where prev 0 stands for &freelist_head.
  function Relink(h: Headers, prev: nat, v: nat): Headers {
    if prev in h then h[prev := h[prev].(next := v)] else h
  }

  // a swallows the chunk b that begins at its end.
  function Merged(h: Headers, a: nat, b: nat): Headers
    requires a in h && b in h && a != b
  {
    (h - {b})[a := h[a].(size := h[a].size + HEADER + h[b].size, next := h[b].next)]
  }

  lemma MergeApart(h: Headers, mapped: iset<nat>, a: nat, b: nat)
    requires Tiled(h, mapped) && a in h && b in h && End(h, a) == b
    ensures Apart(Merged(h, a, b))
  {
    var h' := Merged(h, a, b);
    forall c: nat, d: nat | c in h' && d in h' && c < d
      ensures End(h', c) <= d
    {
      assert End(h, c) <= d;
      if c == a {
        assert d > b;
      }
    }
  }

  lemma MergeCovers(h: Headers, mapped: iset<nat>, a: nat, b: nat)
    requires Covers(h, mapped) && a in h && b in h && End(h, a) == b
    ensures Covers(Merged(h, a, b), mapped)
  {
    var h' := Merged(h, a, b);
    forall x: nat | x in mapped
      ensures exists c: nat :: Owns(h', c, x)
    {
      var c: nat :| Owns(h, c, x);
      assert Owns(h', if c == b then a else c, x);
    }
    forall c: nat, x: nat | Owns(h', c, x)
      ensures x in mapped
    {
      assert Owns(h, c, x) || (c == a && Owns(h, b, x));
    }
  }

  lemma MergeChunksOk(h: Headers, a: nat, b: nat)
    requires ChunksOk(h) && a in h && b in h && End(h, a) == b && h[a].state == 1
    ensures ChunksOk(Merged(h, a, b))
  {
    forall c: nat | c in Merged(h, a, b)
      ensures ChunkOk(Merged(h, a, b), c)
    {
      assert ChunkOk(h, c) && ChunkOk(h, b);
    }
  }

  lemma MergeTiles(h: Headers, mapped: iset<nat>, a: nat, b: nat)
    requires Tiled(h, mapped) && a in h && b in h && End(h, a) == b && h[a].state == 1
    ensures Tiled(Merged(h, a, b), mapped)
  {
    hide ChunksOk, Apart, Covers;
    MergeApart(h, mapped, a, b);
    MergeChunksOk(h, a, b);
    MergeCovers(h, mapped, a, b);
  }

  lemma MergeNextFree(h: Headers, a: nat, b: nat, c: nat, n: nat)
    requires Idle(h, a) && Idle(h, b) && 0 < a < b && NextFree(h, a, b) && NextFree(h, b, h[b].next)
    requires NextFree(h, c, n) && c != a && c != b && (c == 0 || Idle(h, c))
    ensures NextFree(Merged(h, a, b), c, n)
  {
    assert forall d: nat :: Idle(Merged(h, a, b), d) <==> Idle(h, d) && d != b;
  }

  // Merging a listed chunk with the next one on the list.
  lemma MergeLists(h: Headers, head: nat, a: nat, b: nat)
    requires Listed(h, head) && Idle(h, a) && Idle(h, b) && 0 < a < b && h[a].next == b
    ensures Listed(Merged(h, a, b), head)
  {
    var h' := Merged(h, a, b);
    assert NextFree(h, a, b) && NextFree(h, 0, head) && NextFree(h, b, h[b].next);
    assert forall d: nat :: Idle(h', d) <==> Idle(h, d) && d != b;
    assert NextFree(h', a, h[b].next);
    hide NextFree;
    MergeNextFree(h, a, b, 0, head);
    forall c: nat | Idle(h', c) && c != a
      ensures NextFree(h', c, h'[c].next)
    {
      assert NextFree(h, c, h[c].next);
      MergeNextFree(h, a, b, c, h[c].next);
    }
  }

  ghost predicate Prev(h: Headers, head: nat, prev: nat, n: nat) {
    if prev == 0 then n == head else Idle(h, prev) && h[prev].next == n
  }

  function Headed(head: nat, prev: nat, v: nat): nat {
    if prev == 0 then v else head
  }

  // Putting an unlisted chunk c between prev and n.
  function LinkedIn(h: Headers, prev: nat, n: nat, c: nat): Headers
    requires c in h
  {
    Relink(h[c := h[c].(state := 1, next := n)], prev, c)
  }

  lemma InsertLists(h: Headers, head: nat, prev: nat, n: nat, c: nat)
    requires Listed(h, head) && Prev(h, head, prev, n) && c in h && h[c].state == 0 && 0 !in h
    requires prev < c && (n == 0 || c < n)
    ensures Listed(LinkedIn(h, prev, n, c), Headed(head, prev, c))
  {
    var h' := LinkedIn(h, prev, n, c);
    assert NextFree(h, prev, n) && NextFree(h, 0, head);
    LinkedShape(h, prev, n, c);
    hide LinkedIn;
    forall d: nat | Idle(h', d)
      ensures NextFree(h', d, h'[d].next)
    {
      if d != c {
        assert NextFree(h, d, h[d].next);
      }
    }
  }

  // The free chunks after c was linked in, and what they link to.
  lemma LinkedShape(h: Headers, prev: nat, n: nat, c: nat)
    requires c in h && (prev == 0 || Idle(h, prev)) && prev != c && 0 !in h
    ensures var h' := LinkedIn(h, prev, n, c);
            && (forall d: nat :: Idle(h', d) <==> Idle(h, d) || d == c)
            && h'[c].next == n && (prev != 0 ==> h'[prev].next == c)
            && forall d: nat | Idle(h, d) && d != c && d != prev :: h'[d].next == h[d].next
  {
  }

  // Taking c, which follows prev, off the list.
  function Unlinked(h: Headers, prev: nat, c: nat, user: nat): Headers
    requires c in h
  {
    Relink(h, prev, h[c].next)[c := Header(h[c].size, user, 0, 0)]
  }

  lemma UnlinkNext(h: Headers, head: nat, prev: nat, c: nat, user: nat, d: nat)
    requires Idle(h, c) && NextFree(h, prev, c) && NextFree(h, c, h[c].next) && 0 !in h && (prev == 0 || Idle(h, prev))
    requires d == 0 || Idle(h, d)
    requires d != prev && d != c && NextFree(h, d, if d == 0 then head else h[d].next)
    requires prev < c
    ensures NextFree(Unlinked(h, prev, c, user), d, if d == 0 then head else h[d].next)
  {
    assert forall e: nat :: Idle(Unlinked(h, prev, c, user), e) <==> Idle(h, e) && e != c;
  }

  lemma UnlinkPrev(h: Headers, head: nat, prev: nat, c: nat, user: nat)
    requires Idle(h, c) && NextFree(h, prev, c) && NextFree(h, c, h[c].next) && 0 !in h && (prev == 0 || Idle(h, prev))
    requires prev < c
    ensures NextFree(Unlinked(h, prev, c, user), prev, h[c].next)
  {
    assert forall e: nat :: Idle(Unlinked(h, prev, c, user), e) <==> Idle(h, e) && e != c;
  }

  lemma UnlinkLists(h: Headers, head: nat, prev: nat, c: nat, user: nat)
    requires Listed(h, head) && Prev(h, head, prev, c) && Idle(h, c) && 0 !in h
    ensures Listed(Unlinked(h, prev, c, user), Headed(head, prev, h[c].next))
  {
    var n, h' := h[c].next, Unlinked(h, prev, c, user);
    assert NextFree(h, prev, c) && NextFree(h, c, n);
    assert prev < c && (prev == 0 || Idle(h, prev));
    assert forall d: nat | Idle(h', d) :: Idle(h, d) && d != c && h'[d].next == if d == prev then n else h[d].next;
    hide NextFree, Idle, Unlinked;
    UnlinkPrev(h, head, prev, c, user);
    if prev != 0 {
      UnlinkNext(h, head, prev, c, user, 0);
    }
    forall d: nat | Idle(h', d) && d != prev
      ensures NextFree(h', d, h'[d].next)
    {
      assert NextFree(h, d, h[d].next);
      if d == 0 {
        assert false by { ZeroIsNotIdle(h); }
      }
      UnlinkNext(h, head, prev, c, user, d);
    }
  }

  lemma ZeroIsNotIdle(h: Headers)
    requires 0 !in h
    ensures !Idle(h, 0)
  {
  }

  // Cutting chunk c after n bytes; the rest is not on the list yet.
  function Carved(h: Headers, c: nat, n: nat): Headers
    requires c in h && n + HEADER <= h[c].size
  {
    h[c := h[c].(size := n)][c + HEADER + n := Header(h[c].size - n - HEADER, 0, 0, 0)]
  }

  lemma RestIsNew(h: Headers, mapped: iset<nat>, c: nat, rest: nat)
    requires Tiled(h, mapped) && c in h && c < rest < End(h, c)
    ensures rest !in h && forall d: nat | d in h && c < d :: rest < d
  {
    assert forall d: nat | d in h && c < d :: End(h, c) <= d;
  }

  lemma CarveApart(h: Headers, mapped: iset<nat>, c: nat, n: nat)
    requires Tiled(h, mapped) && c in h && n + HEADER < h[c].size
    ensures Apart(Carved(h, c, n))
  {
    var h', rest := Carved(h, c, n), c + HEADER + n;
    RestIsNew(h, mapped, c, rest);
    forall d: nat, e: nat | d in h' && e in h' && d < e
      ensures End(h', d) <= e
    {
      var d0, e0 := if d == rest then c else d, if e == rest then c else e;
      if d0 < e0 {
        assert End(h, d0) <= e0;
      }
    }
  }

  lemma CarveCovers(h: Headers, mapped: iset<nat>, c: nat, n: nat)
    requires Covers(h, mapped) && c in h && n + HEADER < h[c].size && c + HEADER + n !in h
    ensures Covers(Carved(h, c, n), mapped)
  {
    var h', rest := Carved(h, c, n), c + HEADER + n;
    forall x: nat | x in mapped
      ensures exists d: nat :: Owns(h', d, x)
    {
      var d: nat :| Owns(h, d, x);
      assert Owns(h', if d == c && rest <= x then rest else d, x);
    }
    forall d: nat, x: nat | Owns(h', d, x)
      ensures x in mapped
    {
      assert Owns(h, if d == rest then c else d, x);
    }
  }

  lemma CarveChunksOk(h: Headers, c: nat, n: nat)
    requires ChunksOk(h) && c in h && n + HEADER < h[c].size && n % 16 == 0 && 0 < n && h[c].state == 1
    ensures ChunksOk(Carved(h, c, n))
  {
    var h', rest := Carved(h, c, n), c + HEADER + n;
    assert ChunkOk(h, c);
    forall d: nat | d in h'
      ensures ChunkOk(h', d)
    {
      assert d != rest ==> ChunkOk(h, d);
    }
  }

  lemma CarveTiles(h: Headers, mapped: iset<nat>, c: nat, n: nat)
    requires Tiled(h, mapped) && c in h && n + HEADER < h[c].size && n % 16 == 0 && 0 < n && h[c].state == 1
    ensures Tiled(Carved(h, c, n), mapped)
  {
    hide ChunksOk, Apart, Covers;
    RestIsNew(h, mapped, c, c + HEADER + n);
    CarveApart(h, mapped, c, n);
    CarveChunksOk(h, c, n);
    CarveCovers(h, mapped, c, n);
  }

  // Tiling looks at addresses and sizes only.
  lemma SameSizesTile(h: Headers, h': Headers, mapped: iset<nat>)
    requires Tiled(h, mapped) && h.Keys == h'.Keys
    requires forall c: nat | c in h :: h'[c].size == h[c].size && ChunkOk(h', c)
    ensures Tiled(h', mapped)
  {
    forall c: nat, d: nat | c in h' && d in h' && c < d
      ensures End(h', c) <= d
    {
      assert End(h, c) <= d;
    }
    forall c: nat, x: nat
      ensures Owns(h', c, x) <==> Owns(h, c, x)
    {
    }
  }

  // Before the rest is linked the list is untouched.
  lemma CarveLists(h: Headers, mapped: iset<nat>, head: nat, c: nat, n: nat)
    requires Tiled(h, mapped) && Listed(h, head) && Idle(h, c) && n + HEADER < h[c].size
    ensures Listed(Carved(h, c, n), head)
  {
    var h', rest := Carved(h, c, n), c + HEADER + n;
    RestIsNew(h, mapped, c, rest);
    hide Tiled;
    CarvedIdle(h, c, n);
    hide Carved;
    forall d: nat | Idle(h', d)
      ensures NextFree(h', d, h'[d].next)
    {
      assert NextFree(h, d, h[d].next);
    }
  }

  lemma CarvedIdle(h: Headers, c: nat, n: nat)
    requires Idle(h, c) && n + HEADER < h[c].size && c + HEADER + n !in h
    ensures forall d: nat ::
              (Idle(Carved(h, c, n), d) <==> Idle(h, d)) && (Idle(h, d) ==> Carved(h, c, n)[d].next == h[d].next)
  {
  }

  // ---------- Payloads ----------

  newtype byte = b: int | 0 <= b < 256

  // What a live pointer stands for: the size asked for and every byte of its chunk.
  datatype Payload = Payload(user: nat, bytes: seq<byte>)

  predicate Within(p: nat, n: nat, x: nat) {
    p <= x < p + n
  }

  type Memory = nat -> byte

  // memset(p, v, n)
  function Filled(mem: Memory, p: nat, n: nat, v: byte): Memory {
    (a: nat) => if Within(p, n, a) then v else mem(a)
  }

  // memcpy(q, p, n) for blocks that do not overlap
  function Copied(mem: Memory, q: nat, p: nat, n: nat): Memory {
    (a: nat) => if Within(q, n, a) then mem(p + (a - q)) else mem(a)
  }

  function Bytes(mem: Memory, p: nat, n: nat): (s: seq<byte>)
    ensures |s| == n && forall i | 0 <= i < n :: s[i] == mem(p + i)
  {
    seq(n, i requires 0 <= i < n => mem(p + i))
  }

  ghost predicate InUse(h: Headers, c: nat) {
    c in h && h[c].state == 0
  }

  ghost function Pointers(h: Headers): (r: set<nat>)
    ensures forall p: nat :: p in r <==> p >= HEADER && InUse(h, p - HEADER)
  {
    set c | c in h && h[c].state == 0 :: c + HEADER
  }

  // The live pointers and their payloads: what the four entry points are specified against.
  ghost function Live(h: Headers, mem: Memory): map<nat, Payload> {
    map p | p in Pointers(h) :: Payload(h[p - HEADER].user, Bytes(mem, p, h[p - HEADER].size))
  }

  // h' has the same chunks in use as h, apart from those in `except`.
  ghost predicate SameInUse(h: Headers, h': Headers, except: iset<nat>) {
    forall c: nat | c !in except ::
      (InUse(h, c) <==> InUse(h', c)) && (InUse(h, c) ==> h[c].size == h'[c].size && h[c].user == h'[c].user)
  }

  // Memory agrees on the payloads of the chunks in use in h, apart from those in `except`.
  ghost predicate SameBytes(h: Headers, mem: Memory, mem': Memory, except: iset<nat>) {
    forall c: nat, x: nat | InUse(h, c) && c !in except && c + HEADER <= x < End(h, c) :: mem(x) == mem'(x)
  }

  // Two live maps agree at every pointer but p.
  ghost predicate AgreeExcept(l: map<nat, Payload>, l': map<nat, Payload>, p: nat) {
    forall q: nat | q != p :: (q in l <==> q in l') && (q in l ==> l[q] == l'[q])
  }

  lemma LiveAt(h: Headers, h': Headers, mem: Memory, mem': Memory, q: nat)
    requires q >= HEADER ==> (InUse(h, q - HEADER) <==> InUse(h', q - HEADER))
    requires q >= HEADER && InUse(h, q - HEADER) ==>
               var c := q - HEADER;
               && h[c].size == h'[c].size && h[c].user == h'[c].user
               && forall x: nat | c + HEADER <= x < End(h, c) :: mem(x) == mem'(x)
    ensures q in Live(h, mem) <==> q in Live(h', mem')
    ensures q in Live(h, mem) ==> Live(h, mem)[q] == Live(h', mem')[q]
  {
    if q in Live(h, mem) {
      assert InUse(h, q - HEADER);
      assert Bytes(mem, q, h[q - HEADER].size) == Bytes(mem', q, h[q - HEADER].size);
    }
  }

  // When only chunk c changes, the live map changes only at c's pointer.
  lemma LiveExcept(h: Headers, h': Headers, mem: Memory, mem': Memory, c: nat)
    requires SameInUse(h, h', iset{c}) && SameBytes(h, mem, mem', iset{c})
    ensures AgreeExcept(Live(h, mem), Live(h', mem'), c + HEADER)
  {
    hide Live;
    forall q: nat | q != c + HEADER
      ensures q in Live(h, mem) <==> q in Live(h', mem')
      ensures q in Live(h, mem) ==> Live(h, mem)[q] == Live(h', mem')[q]
    {
      if q >= HEADER {
        assert q - HEADER !in iset{c};
      }
      LiveAt(h, h', mem, mem', q);
    }
  }

  lemma LiveSame(h: Headers, h': Headers, mem: Memory)
    requires SameInUse(h, h', iset{})
    ensures Live(h', mem) == Live(h, mem)
  {
    hide Live;
    forall q: nat
      ensures q in Live(h, mem) <==> q in Live(h', mem)
      ensures q in Live(h, mem) ==> Live(h, mem)[q] == Live(h', mem)[q]
    {
      if q >= HEADER {
        assert q - HEADER !in iset{};
      }
      LiveAt(h, h', mem, mem, q);
    }
  }

  // f is what following next from c visits, each address above the one before.
  ghost predicate IsList(h: Headers, c: nat, f: seq<nat>)
    decreases |f|
  {
    if c == 0 then f == []
    else f != [] && f[0] == c && c in h && (forall x | x in f[1..] :: c < x) && IsList(h, h[c].next, f[1..])
  }

  // Following next visits exactly the free chunks above c0, in increasing order, and ends at null.
  lemma {:induction false} ListFrom(h: Headers, mapped: iset<nat>, head: nat, c0: nat, c: nat) returns (f: seq<nat>)
    requires Tiled(h, mapped) && Listed(h, head) && NextFree(h, c0, c)
    ensures IsList(h, c, f) && forall x: nat :: x in f <==> Idle(h, x) && c0 < x
    decreases TOP - c0
  {
    if c == 0 {
      f := [];
    } else {
      assert ChunkOk(h, c) && NextFree(h, c, h[c].next);
      var rest := ListFrom(h, mapped, head, c, h[c].next);
      hide Tiled, Listed, ChunkOk;
      f := [c] + rest;
      ListStep(h, c0, c, rest);
    }
  }

  lemma ListStep(h: Headers, c0: nat, c: nat, rest: seq<nat>)
    requires c != 0 && NextFree(h, c0, c) && IsList(h, h[c].next, rest)
    requires forall x: nat :: x in rest <==> Idle(h, x) && c < x
    ensures IsList(h, c, [c] + rest) && forall x: nat :: x in [c] + rest <==> Idle(h, x) && c0 < x
  {
    assert ([c] + rest)[1..] == rest;
  }

  // ---------- Touching free chunks ----------

  lemma LinkInTiles(h: Headers, mapped: iset<nat>, prev: nat, n: nat, c: nat)
    requires Tiled(h, mapped) && InUse(h, c) && (prev == 0 || Idle(h, prev))
    ensures Tiled(LinkedIn(h, prev, n, c), mapped) && 0 !in h
  {
    assert forall d: nat | d in h :: ChunkOk(h, d);
    SameSizesTile(h, LinkedIn(h, prev, n, c), mapped);
  }

  // A newly listed chunk c can only touch its list neighbours.
  lemma InsertTouchesAt(h: Headers, prev: nat, n: nat, c: nat, d: nat, e: nat)
    requires Apart(h) && NextFree(h, prev, n) && (prev == 0 || Idle(h, prev)) && InUse(h, c) && 0 !in h
    requires prev < c && (n == 0 || c < n) && Touch(LinkedIn(h, prev, n, c), d, e)
    ensures Touch(h, d, e) || (d == prev && e == c) || (d == c && e == n)
  {
    assert (d == c || Idle(h, d)) && (e == c || Idle(h, e));
    if d != c && d != prev {
      assert d < prev || n <= d;
    }
  }

  lemma InsertTouches(h: Headers, mapped: iset<nat>, head: nat, prev: nat, n: nat, c: nat)
    requires Tiled(h, mapped) && Listed(h, head) && Prev(h, head, prev, n) && InUse(h, c) && 0 !in h
    requires prev < c && (n == 0 || c < n)
    ensures forall d: nat, e: nat | Touch(LinkedIn(h, prev, n, c), d, e) ::
              Touch(h, d, e) || (d == prev && e == c) || (d == c && e == n)
  {
    assert NextFree(h, prev, n) && (prev == 0 || Idle(h, prev));
    hide Touch, Listed, Apart, ChunksOk, Covers, NextFree;
    forall d: nat, e: nat | Touch(LinkedIn(h, prev, n, c), d, e)
      ensures Touch(h, d, e) || (d == prev && e == c) || (d == c && e == n)
    {
      InsertTouchesAt(h, prev, n, c, d, e);
    }
  }

  // Whatever touches after a merge touched before it.
  lemma MergeTouches(h: Headers, a: nat, b: nat)
    requires Touch(h, a, b) && a != b
    ensures forall d: nat, e: nat | Touch(Merged(h, a, b), d, e) :: e != b && Touch(h, if d == a then b else d, e)
  {
    var h' := Merged(h, a, b);
    assert forall d: nat :: Idle(h', d) <==> Idle(h, d) && d != b;
  }

  // ---------- The allocator ----------

  function Align16(n: nat): (r: nat)
    requires n < WORD
    ensures r % 16 == 0 && r < WORD && (n <= WORD - 16 ==> n <= r < n + 16)
  {
    if n > WORD - 16 then WORD - 16 else n + 15 - (n + 15) % 16
  }

  const EXTRA: nat := HEADER + 64

  // The size heap_grow maps for a need; the page rounding may wrap around.
  function Region(need: nat): (r: nat)
    ensures r % 4096 == 0 && r % 16 == 0 && r >= 1048576
    ensures need + EXTRA + 4095 < WORD ==> need + EXTRA <= r && (r == 1048576 || r < need + EXTRA + 4096)
  {
    var x := (need + EXTRA + 4095) % WORD;
    var r := x / 4096 * 4096;
    PagesAreAligned(x / 4096);
    if r < 1048576 then 1048576 else r
  }

  lemma PagesAreAligned(q: nat)
    ensures q * 4096 % 16 == 0 && q * 4096 % 4096 == 0
  {
    assert q * 4096 == 16 * (256 * q);
  }

  ghost function Range(p: nat, n: nat): iset<nat> {
    iset x: nat | Within(p, n, x)
  }

  // What the system may answer to a request: failure, or page-aligned bytes it has not handed out.
  ghost predicate Grant(mapped: iset<nat>, p: nat, n: nat) {
    p == 0 || (p % 4096 == 0 && p + n <= TOP && forall x: nat | p <= x < p + n :: x !in mapped)
  }

  ghost predicate BehindFree(h: Headers, p: nat) {
    exists c: nat :: Idle(h, c) && End(h, c) == p
  }

  function WithRegion(h: Headers, p: nat, n: nat): Headers
    requires n >= HEADER
  {
    h[p := Header(n - HEADER, 0, 0, 0)]
  }

  lemma RegionIsApart(h: Headers, mapped: iset<nat>, p: nat, n: nat, c: nat)
    requires Tiled(h, mapped) && Grant(mapped, p, n) && p != 0 && n > HEADER && c in h
    ensures c != p && if c < p then End(h, c) <= p else p + n <= c
  {
    assert ChunkOk(h, c) && Owns(h, c, c);
    assert c < p < End(h, c) ==> Owns(h, c, p);
  }

  lemma RegionTiles(h: Headers, mapped: iset<nat>, p: nat, n: nat)
    requires Tiled(h, mapped) && Grant(mapped, p, n) && p != 0 && n % 16 == 0 && n > HEADER
    ensures p !in h && Tiled(WithRegion(h, p, n), mapped + Range(p, n))
  {
    var h' := WithRegion(h, p, n);
    forall c: nat | c in h
      ensures c != p && if c < p then End(h, c) <= p else p + n <= c
    {
      RegionIsApart(h, mapped, p, n, c);
    }
    RegionApart(h, mapped, p, n);
    forall c: nat | c in h'
      ensures ChunkOk(h', c)
    {
      assert c in h ==> ChunkOk(h, c);
    }
    forall x: nat | x in mapped + Range(p, n)
      ensures exists c: nat :: Owns(h', c, x)
    {
      if x in mapped {
        var c: nat :| Owns(h, c, x);
        assert Owns(h', c, x);
      } else {
        assert Owns(h', p, x);
      }
    }
    forall c: nat, x: nat | Owns(h', c, x)
      ensures x in mapped + Range(p, n)
    {
      assert c != p ==> Owns(h, c, x);
    }
  }

  lemma RegionApart(h: Headers, mapped: iset<nat>, p: nat, n: nat)
    requires Tiled(h, mapped) && Grant(mapped, p, n) && p != 0 && n > HEADER
    ensures Apart(WithRegion(h, p, n))
  {
    var h' := WithRegion(h, p, n);
    forall c: nat, d: nat | c in h' && d in h' && c < d
      ensures End(h', c) <= d
    {
      if c != p {
        RegionIsApart(h, mapped, p, n, c);
      }
      if d != p {
        RegionIsApart(h, mapped, p, n, d);
      }
      assert c in h && d in h ==> End(h, c) <= d;
    }
  }

  // A region not yet on the list changes nothing about free chunks and chunks in use elsewhere.
  lemma RegionLists(h: Headers, head: nat, p: nat, n: nat)
    requires Listed(h, head) && p !in h && n >= HEADER
    ensures Listed(WithRegion(h, p, n), head) && forall d: nat :: Idle(WithRegion(h, p, n), d) <==> Idle(h, d)
  {
    var h' := WithRegion(h, p, n);
    assert forall d: nat :: Idle(h', d) <==> Idle(h, d);
    forall d: nat | Idle(h', d)
      ensures NextFree(h', d, h'[d].next)
    {
      assert NextFree(h, d, h[d].next);
    }
  }

  // The headers after c was linked in and merged with its successor.
  ghost function Absorbed(h: Headers, prev: nat, n: nat, c: nat): Headers
    requires c in h
  {
    var h1 := LinkedIn(h, prev, n, c);
    if Touch(h1, c, n) && c != n then Merged(h1, c, n) else h1
  }

  // After that step only the left neighbour can still touch c.
  lemma AbsorbTouches(h: Headers, mapped: iset<nat>, head: nat, prev: nat, n: nat, c: nat)
    requires Tiled(h, mapped) && Listed(h, head) && Prev(h, head, prev, n) && InUse(h, c) && 0 !in h
    requires prev < c && (n == 0 || c < n) && Coalesced(h)
    ensures forall d: nat, e: nat | Touch(Absorbed(h, prev, n, c), d, e) :: d == prev && e == c
    ensures Touch(Absorbed(h, prev, n, c), prev, c) <==> Idle(h, prev) && End(h, prev) == c
  {
    var h1 := LinkedIn(h, prev, n, c);
    AbsorbTouchPrev(h, head, prev, n, c);
    InsertTouches(h, mapped, head, prev, n, c);
    if Touch(h1, c, n) {
      MergeTouches(h1, c, n);
    }
    hide Tiled, Listed, Touch;
  }

  lemma AbsorbTouchPrev(h: Headers, head: nat, prev: nat, n: nat, c: nat)
    requires Prev(h, head, prev, n) && InUse(h, c) && prev < c && (n == 0 || c < n) && 0 !in h
    ensures Touch(Absorbed(h, prev, n, c), prev, c) <==> Idle(h, prev) && End(h, prev) == c
  {
  }

  lemma AbsorbInUse(h: Headers, prev: nat, n: nat, c: nat)
    requires InUse(h, c) && (prev == 0 || Idle(h, prev)) && 0 !in h
    ensures SameInUse(h, Absorbed(h, prev, n, c), iset{c}) && Idle(Absorbed(h, prev, n, c), c)
  {
    var h1 := LinkedIn(h, prev, n, c);
    assert forall d: nat :: Idle(h1, d) <==> Idle(h, d) || d == c;
    forall d: nat | d != c
      ensures InUse(h, d) <==> InUse(Absorbed(h, prev, n, c), d)
      ensures InUse(h, d) ==> Absorbed(h, prev, n, c)[d].size == h[d].size && Absorbed(h, prev, n, c)[d].user == h[d].user
    {
    }
  }

  lemma GrowKeepsLive(h: Headers, h': Headers, p: nat, region: nat, mem: Memory)
    requires p !in h && region >= HEADER && SameInUse(WithRegion(h, p, region), h', iset{p}) && Idle(h', p)
    ensures Live(h', mem) == Live(h, mem)
  {
    forall c: nat
      ensures (InUse(h, c) <==> InUse(h', c)) && (InUse(h, c) ==> h[c].size == h'[c].size && h[c].user == h'[c].user)
    {
      assert c != p ==> c !in iset{p} && (InUse(WithRegion(h, p, region), c) <==> InUse(h, c));
    }
    LiveSame(h, h', mem);
  }

  lemma NullIsNoChunk(h: Headers, mapped: iset<nat>)
    requires Tiled(h, mapped)
    ensures 0 !in h
  {
    forall c: nat | c in h
      ensures c != 0
    {
      assert ChunkOk(h, c);
    }
  }

  lemma GrowSummary(h: Headers, m0: iset<nat>, head: nat, p: nat, region: nat, prev: nat, n: nat, mem: Memory)
    requires Tiled(h, m0) && Listed(h, head) && Grant(m0, p, region) && p != 0 && region % 16 == 0 && region > HEADER
    requires Prev(WithRegion(h, p, region), head, prev, n) && prev < p && (n == 0 || p < n)
    ensures var h' := Absorbed(WithRegion(h, p, region), prev, n, p);
            && Live(h', mem) == Live(h, mem)
            && (Coalesced(h) ==> (Coalesced(h') <==> !BehindFree(h, p)) && CoalescedBut(h', p))
            && forall x: nat :: BehindFree(h', x) ==> BehindFree(h, x) || x == p + region
  {
    GrowEnds(h, p, region, prev, n);
    var h0, m1 := WithRegion(h, p, region), m0 + Range(p, region);
    RegionTiles(h, m0, p, region);
    RegionLists(h, head, p, region);
    NullIsNoChunk(h, m0);
    AbsorbInUse(h0, prev, n, p);
    GrowKeepsLive(h, Absorbed(h0, prev, n, p), p, region, mem);
    if Coalesced(h) {
      RegionCoalesced(h, p, region);
      AbsorbTouches(h0, m1, head, prev, n, p);
      BehindIsPrev(h, h0, m1, head, p, prev, n);
    }
  }

  // The free chunks after a region at p was linked in: p with all its bytes and those of a free chunk
  // right behind it, and the other free chunks as they were.
  ghost predicate GrownBy(h: Headers, h': Headers, p: nat, region: nat)
    requires region >= HEADER
  {
    && Idle(h', p)
    && h'[p].size == region - HEADER + (if Idle(h, p + region) then HEADER + h[p + region].size else 0)
    && forall d: nat | d != p :: (Idle(h', d) <==> Idle(h, d) && d != p + region) && (Idle(h', d) ==> h'[d].size == h[d].size)
  }

  lemma RegionIsGrown(h: Headers, mapped: iset<nat>, head: nat, p: nat, region: nat, prev: nat, n: nat)
    requires Tiled(h, mapped) && Listed(h, head) && Grant(mapped, p, region) && p != 0 && region % 16 == 0 && region > HEADER
    requires Prev(WithRegion(h, p, region), head, prev, n) && prev < p && (n == 0 || p < n)
    ensures GrownBy(h, Absorbed(WithRegion(h, p, region), prev, n, p), p, region)
  {
    var h0 := WithRegion(h, p, region);
    RegionTiles(h, mapped, p, region);
    RegionLists(h, head, p, region);
    NullIsNoChunk(h, mapped);
    NextBehindRegion(h, mapped, head, p, region, prev, n);
    hide Tiled, Listed, NextFree, Grant;
    AbsorbedShape(h, p, region, prev, n);
  }

  // The next free chunk begins behind the region, and is the one right behind it if there is one.
  lemma NextBehindRegion(h: Headers, mapped: iset<nat>, head: nat, p: nat, region: nat, prev: nat, n: nat)
    requires Tiled(h, mapped) && Listed(h, head) && Grant(mapped, p, region) && p != 0 && region > HEADER
    requires Prev(WithRegion(h, p, region), head, prev, n) && prev < p && (n == 0 || p < n) && p !in h && 0 !in h
    ensures (prev == 0 || Idle(h, prev)) && (n != 0 ==> Idle(h, n) && p + region <= n)
    ensures Idle(h, p + region) ==> n == p + region
  {
    assert NextFree(h, prev, n);
    if n != 0 {
      RegionIsApart(h, mapped, p, region, n);
    }
  }

  lemma AbsorbedShape(h: Headers, p: nat, region: nat, prev: nat, n: nat)
    requires p !in h && 0 !in h && p != 0 && region >= HEADER && prev < p && (prev == 0 || Idle(h, prev))
    requires n != 0 ==> Idle(h, n) && p + region <= n
    requires Idle(h, p + region) ==> n == p + region
    ensures GrownBy(h, Absorbed(WithRegion(h, p, region), prev, n, p), p, region)
  {
    var h1 := LinkedIn(WithRegion(h, p, region), prev, n, p);
    assert forall d: nat :: Idle(h1, d) <==> Idle(h, d) || d == p;
  }

  // Free chunks end where they did, or at the end of the new region.
  lemma GrowEnds(h: Headers, p: nat, region: nat, prev: nat, n: nat)
    requires region >= HEADER
    ensures forall x: nat ::
              BehindFree(Absorbed(WithRegion(h, p, region), prev, n, p), x) ==> BehindFree(h, x) || x == p + region
  {
    var h0 := WithRegion(h, p, region);
    var h1, h' := LinkedIn(h0, prev, n, p), Absorbed(h0, prev, n, p);
    forall x: nat | BehindFree(h', x)
      ensures BehindFree(h, x) || x == p + region
    {
      var c: nat :| Idle(h', c) && End(h', c) == x;
      if c != p {
        assert Idle(h, c) && End(h, c) == x;
      } else if Touch(h1, p, n) && p != n {
        assert Idle(h, n) && End(h, n) == x;
      }
    }
  }

  lemma RegionCoalesced(h: Headers, p: nat, region: nat)
    requires Coalesced(h) && p !in h && region >= HEADER
    ensures Coalesced(WithRegion(h, p, region))
  {
    forall d: nat, e: nat
      ensures !Touch(WithRegion(h, p, region), d, e)
    {
      assert !Touch(h, d, e);
    }
  }

  lemma EndsAtPrev(h: Headers, head: nat, p: nat, prev: nat, n: nat, c: nat)
    requires Apart(h) && Listed(h, head) && Prev(h, head, prev, n) && prev < p && (n == 0 || p < n)
    requires Idle(h, c) && End(h, c) == p
    ensures c == prev
  {
    assert NextFree(h, prev, n);
  }

  lemma BehindIsPrev(h: Headers, h0: Headers, mapped: iset<nat>, head: nat, p: nat, prev: nat, n: nat)
    requires Tiled(h0, mapped) && Listed(h0, head) && Prev(h0, head, prev, n) && prev < p && (n == 0 || p < n)
    requires forall d: nat :: (Idle(h0, d) <==> Idle(h, d)) && (Idle(h, d) ==> End(h0, d) == End(h, d))
    ensures BehindFree(h, p) <==> Idle(h0, prev) && End(h0, prev) == p
  {
    hide ChunksOk, Apart, Covers, Listed;
    if BehindFree(h, p) {
      var c: nat :| Idle(h, c) && End(h, c) == p;
      EndsAtPrev(h0, head, p, prev, n, c);
    }
  }

  // ---------- Handing out a chunk ----------

  predicate Splits(h: Headers, c: nat, n: nat)
    requires c in h
  {
    h[c].size >= n + HEADER + 16
  }

  // The headers after the free chunk c, which follows prev, served a request of n bytes.
  ghost function Taken(h: Headers, prev: nat, c: nat, n: nat, user: nat): Headers
    requires c in h
  {
    if Splits(h, c, n) then
      LinkedIn(Unlinked(Carved(h, c, n), prev, c, user), prev, h[c].next, c + HEADER + n)
    else
      Unlinked(h, prev, c, user)
  }

  lemma UnlinkInUse(h: Headers, head: nat, prev: nat, c: nat, user: nat)
    requires Prev(h, head, prev, c) && Idle(h, c) && prev < c && 0 !in h
    ensures forall d: nat :: Idle(Unlinked(h, prev, c, user), d) <==> Idle(h, d) && d != c
    ensures SameInUse(h, Unlinked(h, prev, c, user), iset{c}) && InUse(Unlinked(h, prev, c, user), c)
  {
  }

  lemma UnlinkTiles(h: Headers, mapped: iset<nat>, head: nat, prev: nat, c: nat, user: nat)
    requires Tiled(h, mapped) && Prev(h, head, prev, c) && Idle(h, c) && prev < c && user <= h[c].size
    ensures Tiled(Unlinked(h, prev, c, user), mapped)
  {
    var h' := Unlinked(h, prev, c, user);
    NullIsNoChunk(h, mapped);
    forall d: nat | d in h
      ensures ChunkOk(h', d)
    {
      assert ChunkOk(h, d);
    }
    SameSizesTile(h, h', mapped);
  }

  // The split case up to the point where the rest of c is carved but not listed.
  ghost function Detached(h: Headers, prev: nat, c: nat, n: nat, user: nat): Headers
    requires c in h && n + HEADER <= h[c].size
  {
    Unlinked(Carved(h, c, n), prev, c, user)
  }

  lemma RestBeforeNext(h: Headers, mapped: iset<nat>, head: nat, prev: nat, c: nat, n: nat)
    requires Tiled(h, mapped) && Listed(h, head) && Prev(h, head, prev, c) && Idle(h, c) && Splits(h, c, n)
    ensures prev < c && (h[c].next == 0 || c + HEADER + n < h[c].next) && Prev(Carved(h, c, n), head, prev, c)
  {
    RestIsNew(h, mapped, c, c + HEADER + n);
    assert NextFree(h, c, h[c].next) && NextFree(h, prev, c);
  }

  // Everything that linking rest in between prev and n asks for.
  ghost predicate Ready(h: Headers, mapped: iset<nat>, head: nat, prev: nat, n: nat, rest: nat) {
    && Tiled(h, mapped) && Listed(h, head) && Prev(h, head, prev, n) && InUse(h, rest)
    && prev < rest && (n == 0 || rest < n)
  }

  lemma LinkReady(h: Headers, mapped: iset<nat>, head: nat, prev: nat, n: nat, rest: nat)
    requires Ready(h, mapped, head, prev, n, rest)
    ensures Tiled(LinkedIn(h, prev, n, rest), mapped) && Listed(LinkedIn(h, prev, n, rest), Headed(head, prev, rest))
  {
    LinkInTiles(h, mapped, prev, n, rest);
    InsertLists(h, head, prev, n, rest);
  }

  lemma UnlinkReady(h: Headers, mapped: iset<nat>, head: nat, prev: nat, c: nat, user: nat, rest: nat)
    requires Tiled(h, mapped) && Listed(h, head) && Prev(h, head, prev, c) && Idle(h, c) && prev < c && user <= h[c].size
    requires InUse(h, rest) && prev < rest && (h[c].next == 0 || rest < h[c].next)
    ensures Ready(Unlinked(h, prev, c, user), mapped, Headed(head, prev, h[c].next), prev, h[c].next, rest)
  {
    NullIsNoChunk(h, mapped);
    UnlinkTiles(h, mapped, head, prev, c, user);
    UnlinkLists(h, head, prev, c, user);
  }

  lemma CarvedShape(h: Headers, c: nat, n: nat)
    requires Idle(h, c) && Splits(h, c, n)
    ensures Idle(Carved(h, c, n), c) && Carved(h, c, n)[c].size == n && Carved(h, c, n)[c].next == h[c].next
    ensures InUse(Carved(h, c, n), c + HEADER + n)
  {
  }

  lemma DetachedReady(h: Headers, mapped: iset<nat>, head: nat, prev: nat, c: nat, n: nat, user: nat)
    requires Tiled(h, mapped) && Listed(h, head) && Prev(h, head, prev, c) && Idle(h, c)
    requires n % 16 == 0 && 0 < n && user <= n && Splits(h, c, n)
    ensures Ready(Detached(h, prev, c, n, user), mapped, Headed(head, prev, h[c].next), prev, h[c].next, c + HEADER + n)
  {
    hide ChunksOk, Apart, Covers, Listed, Ready;
    RestBeforeNext(h, mapped, head, prev, c, n);
    CarveTiles(h, mapped, c, n);
    CarveLists(h, mapped, head, c, n);
    CarvedShape(h, c, n);
    UnlinkReady(Carved(h, c, n), mapped, head, prev, c, user, c + HEADER + n);
  }

  lemma TakenWhenSplit(h: Headers, prev: nat, c: nat, n: nat, user: nat)
    requires c in h && Splits(h, c, n)
    ensures c + HEADER + n in Detached(h, prev, c, n, user)
    ensures Taken(h, prev, c, n, user) == LinkedIn(Detached(h, prev, c, n, user), prev, h[c].next, c + HEADER + n)
  {
  }

  lemma SplitValid(h: Headers, mapped: iset<nat>, head: nat, prev: nat, c: nat, n: nat, user: nat)
    requires Tiled(h, mapped) && Listed(h, head) && Prev(h, head, prev, c) && Idle(h, c)
    requires n % 16 == 0 && 0 < n && user <= n && Splits(h, c, n)
    ensures Tiled(Taken(h, prev, c, n, user), mapped)
    ensures Listed(Taken(h, prev, c, n, user), Headed(head, prev, c + HEADER + n))
  {
    hide ChunksOk, Apart, Covers, Listed, Detached, LinkedIn, Taken;
    DetachedReady(h, mapped, head, prev, c, n, user);
    LinkReady(Detached(h, prev, c, n, user), mapped, Headed(head, prev, h[c].next), prev, h[c].next, c + HEADER + n);
    TakenWhenSplit(h, prev, c, n, user);
  }

  lemma DetachedCoalesced(h: Headers, mapped: iset<nat>, head: nat, prev: nat, c: nat, n: nat, user: nat)
    requires Tiled(h, mapped) && Idle(h, c) && Prev(h, head, prev, c) && prev < c && CoalescedBut(h, c) && Splits(h, c, n)
    ensures Coalesced(Detached(h, prev, c, n, user))
  {
    var h2 := Detached(h, prev, c, n, user);
    RestIsNew(h, mapped, c, c + HEADER + n);
    NullIsNoChunk(h, mapped);
    UnlinkInUse(Carved(h, c, n), head, prev, c, user);
    assert forall d: nat :: Idle(h2, d) ==> Idle(h, d) && d != c && End(h2, d) == End(h, d);
    forall d: nat, e: nat
      ensures !Touch(h2, d, e)
    {
      assert Touch(h, d, e) ==> e == c;
    }
  }

  lemma RestTouchesNothing(h: Headers, mapped: iset<nat>, head: nat, prev: nat, c: nat, n: nat, user: nat)
    requires Tiled(h, mapped) && Prev(h, head, prev, c) && prev < c && Idle(h, c) && CoalescedBut(h, c) && Splits(h, c, n)
    requires c + HEADER + n !in h
    ensures var h' := Taken(h, prev, c, n, user); !Touch(h', prev, c + HEADER + n) && !Touch(h', c + HEADER + n, h[c].next)
  {
    NullIsNoChunk(h, mapped);
    SameFields(h, prev, c, n, user);
    assert prev != 0 ==> End(h, prev) <= c;
    assert !Touch(h, c, h[c].next) by {
      assert End(h, c) > c;
    }
  }

  lemma SplitCoalesced(h: Headers, mapped: iset<nat>, head: nat, prev: nat, c: nat, n: nat, user: nat)
    requires Tiled(h, mapped) && Listed(h, head) && Prev(h, head, prev, c) && Idle(h, c) && CoalescedBut(h, c)
    requires n % 16 == 0 && 0 < n && user <= n && Splits(h, c, n)
    ensures Coalesced(Taken(h, prev, c, n, user))
  {
    hide Tiled, Listed, Detached, Touch, Taken, LinkedIn;
    var h2, rest, next := Detached(h, prev, c, n, user), c + HEADER + n, h[c].next;
    RestBeforeNext(h, mapped, head, prev, c, n);
    RestIsNew(h, mapped, c, rest);
    DetachedReady(h, mapped, head, prev, c, n, user);
    DetachedCoalesced(h, mapped, head, prev, c, n, user);
    NullIsNoChunk(h2, mapped);
    InsertTouches(h2, mapped, Headed(head, prev, next), prev, next, rest);
    TakenWhenSplit(h, prev, c, n, user);
    RestTouchesNothing(h, mapped, head, prev, c, n, user);
  }

  lemma TakenValid(h: Headers, mapped: iset<nat>, head: nat, prev: nat, c: nat, n: nat, user: nat)
    requires Tiled(h, mapped) && Listed(h, head) && Prev(h, head, prev, c) && Idle(h, c) && n <= h[c].size
    requires n % 16 == 0 && 0 < n && user <= n
    ensures Tiled(Taken(h, prev, c, n, user), mapped)
    ensures Listed(Taken(h, prev, c, n, user), Headed(head, prev, if Splits(h, c, n) then c + HEADER + n else h[c].next))
  {
    if Splits(h, c, n) {
      SplitValid(h, mapped, head, prev, c, n, user);
    } else {
      NullIsNoChunk(h, mapped);
      assert NextFree(h, prev, c);
      UnlinkTiles(h, mapped, head, prev, c, user);
      UnlinkLists(h, head, prev, c, user);
    }
  }

  lemma UnlinkCoalesced(h: Headers, head: nat, prev: nat, c: nat, user: nat)
    requires Prev(h, head, prev, c) && prev < c && Idle(h, c) && CoalescedBut(h, c) && 0 !in h
    ensures Coalesced(Unlinked(h, prev, c, user))
  {
    UnlinkInUse(h, head, prev, c, user);
    forall d: nat, e: nat
      ensures !Touch(Unlinked(h, prev, c, user), d, e)
    {
      assert Touch(h, d, e) ==> e == c;
    }
  }

  // Serving a request from c leaves no free chunks touching, not even where c touched the one before it.
  lemma TakenCoalesced(h: Headers, mapped: iset<nat>, head: nat, prev: nat, c: nat, n: nat, user: nat)
    requires Tiled(h, mapped) && Listed(h, head) && Prev(h, head, prev, c) && Idle(h, c) && CoalescedBut(h, c)
    requires n % 16 == 0 && 0 < n && user <= n
    ensures Coalesced(Taken(h, prev, c, n, user))
  {
    if Splits(h, c, n) {
      SplitCoalesced(h, mapped, head, prev, c, n, user);
    } else {
      NullIsNoChunk(h, mapped);
      assert NextFree(h, prev, c);
      UnlinkCoalesced(h, head, prev, c, user);
    }
    hide Tiled, Listed, Coalesced, Unlinked, LinkedIn, Carved;
  }

  // The header writes of malloc in their order give the same headers.
  function Fields(h: Headers, prev: nat, c: nat, n: nat, user: nat): Headers
    requires c in h && (prev == 0 || prev in h)
  {
    if Splits(h, c, n) then
      var rest := c + HEADER + n;
      Relink(h[rest := Header(h[c].size - n - HEADER, 0, h[c].next, 1)], prev, rest)[c := Header(n, user, 0, 0)]
    else
      var h1 := Relink(h, prev, h[c].next);
      h1[c := Header(h1[c].size, user, 0, 0)]
  }

  lemma SameFields(h: Headers, prev: nat, c: nat, n: nat, user: nat)
    requires c in h && 0 !in h && (prev == 0 || prev in h) && prev < c
    requires Splits(h, c, n) ==> c + HEADER + n !in h
    ensures Fields(h, prev, c, n, user) == Taken(h, prev, c, n, user)
  {
    if Splits(h, c, n) {
      TakenWhenSplit(h, prev, c, n, user);
    }
  }

  lemma TakenByFields(h: Headers, mapped: iset<nat>, head: nat, prev: nat, c: nat, n: nat, user: nat)
    requires Tiled(h, mapped) && Listed(h, head) && Prev(h, head, prev, c) && Idle(h, c)
    ensures c in h && (prev == 0 || prev in h) && 0 !in h
    ensures Fields(h, prev, c, n, user) == Taken(h, prev, c, n, user)
  {
    NullIsNoChunk(h, mapped);
    assert NextFree(h, prev, c);
    if Splits(h, c, n) {
      RestIsNew(h, mapped, c, c + HEADER + n);
    }
    SameFields(h, prev, c, n, user);
  }

  lemma FieldsInUse(h: Headers, prev: nat, c: nat, n: nat, user: nat)
    requires c in h && (prev == 0 || (prev in h && h[prev].state == 1)) && prev < c && n <= h[c].size && 0 !in h
    requires Splits(h, c, n) ==> c + HEADER + n !in h
    ensures var h' := Fields(h, prev, c, n, user);
            SameInUse(h, h', iset{c}) && InUse(h', c) && h'[c].user == user && n <= h'[c].size < n + HEADER + 16
  {
  }

  lemma TakenInUse(h: Headers, mapped: iset<nat>, head: nat, prev: nat, c: nat, n: nat, user: nat)
    requires Tiled(h, mapped) && Listed(h, head) && Prev(h, head, prev, c) && Idle(h, c) && n <= h[c].size
    ensures var h' := Taken(h, prev, c, n, user);
            SameInUse(h, h', iset{c}) && InUse(h', c) && h'[c].user == user && n <= h'[c].size < n + HEADER + 16
  {
    TakenByFields(h, mapped, head, prev, c, n, user);
    assert NextFree(h, prev, c);
    if Splits(h, c, n) {
      RestIsNew(h, mapped, c, c + HEADER + n);
    }
    FieldsInUse(h, prev, c, n, user);
  }

  // ---------- What the entry points promise about the live map ----------

  function Rounded(n: nat): (r: nat)
    requires n < WORD
    ensures r < WORD && r % 16 == 0 && (n <= WORD - 16 ==> 0 < r && n <= r <= n + 16 && (n > 0 ==> r < n + 16))
  {
    Align16(if n == 0 then 1 else n)
  }

  // p is a new, aligned, zeroed block for a request of n bytes, and nothing else changed.
  ghost predicate Allocated(l: map<nat, Payload>, l': map<nat, Payload>, p: nat, n: nat)
    requires n < WORD
  {
    && p % 16 == 0 && p !in l && p in l' && AgreeExcept(l, l', p)
    && l'[p].user == n && n <= Rounded(n) <= |l'[p].bytes|
    && forall i | 0 <= i < Rounded(n) :: l'[p].bytes[i] == 0
  }

  ghost predicate Freed(l: map<nat, Payload>, l': map<nat, Payload>, p: nat) {
    p in l && p !in l' && AgreeExcept(l, l', p)
  }

  // The system's answers to the at most two requests one call can make.
  ghost predicate Grants(mapped: iset<nat>, p: nat, q: nat, n: nat) {
    && Grant(mapped, p, n)
    && Grant(if p == 0 then mapped else mapped + Range(p, n), q, n)
  }

  ghost predicate Fits(h: Headers, n: nat) {
    exists c: nat :: Idle(h, c) && h[c].size >= n
  }

  // A request whose region does not wrap around.
  predicate Roomy(n: nat) {
    n + EXTRA + 4095 < WORD
  }

  // The pointer malloc answers, for a request rounded to n bytes: into the lowest free chunk that fits,
  // or else into the region that the system grants, or null.
  ghost predicate Answer(h: Headers, head: nat, r1: nat, r2: nat, n: nat, p: nat) {
    if Fits(h, n) then
      p > HEADER && Idle(h, p - HEADER) && h[p - HEADER].size >= n
      && forall d: nat | Idle(h, d) && h[d].size >= n :: p - HEADER <= d
    else
      var c := if !Roomy(n) then 0 else if head == 0 && r1 != 0 then r1 else r2;
      p == if c == 0 then 0 else c + HEADER
  }

  // The bytes heap_grow maps when the system answers p.
  ghost function GrantedBytes(p: nat, n: nat): iset<nat> {
    if p == 0 || n > WORD - 1 - EXTRA then iset{} else Range(p, Region(n))
  }

  // The bytes mapped after malloc, for a request rounded to n bytes: the first region is asked for when
  // the list is empty, the second when nothing fits then.
  ghost function MappedAfter(h: Headers, head: nat, mapped: iset<nat>, r1: nat, r2: nat, n: nat): iset<nat> {
    var first := if head == 0 then mapped + GrantedBytes(r1, n) else mapped;
    if Fits(h, n) || (head == 0 && r1 != 0 && Roomy(n)) then first else first + GrantedBytes(r2, n)
  }

  // Whether malloc leaves free chunks touching: it does only for a request that no chunk can serve, when
  // the region mapped for it in vain begins where a free chunk ends.
  ghost predicate LeavesTouching(h: Headers, head: nat, r1: nat, r2: nat, n: nat) {
    && !Roomy(n) && n <= WORD - 1 - EXTRA && r2 != 0
    && (BehindFree(h, r2) || (head == 0 && r1 != 0 && r2 == r1 + Region(n)))
  }

  // No chunk is large enough for a request that is not roomy.
  lemma OnlyRoomyFit(h: Headers, mapped: iset<nat>, n: nat)
    requires Tiled(h, mapped) && Fits(h, n)
    ensures Roomy(n)
  {
    var c: nat :| Idle(h, c) && h[c].size >= n;
    assert ChunkOk(h, c);
  }

  // A request that is served leaves no free chunks touching.
  lemma ServedIsRoomy(h: Headers, mapped: iset<nat>, head: nat, r1: nat, r2: nat, n: nat, p: nat)
    requires Tiled(h, mapped) && Answer(h, head, r1, r2, n, p) && p != 0
    ensures Roomy(n) && !LeavesTouching(h, head, r1, r2, n)
  {
    if Fits(h, n) {
      OnlyRoomyFit(h, mapped, n);
    }
  }

  // After the heap grew at p for a roomy request that did not fit, exactly the chunk at p serves it.
  lemma GrownServes(h: Headers, h': Headers, p: nat, n: nat)
    requires !Fits(h, n) && Roomy(n) && GrownBy(h, h', p, Region(n))
    ensures h'[p].size >= n && forall d: nat | Idle(h', d) && h'[d].size >= n :: d == p
  {
    assert forall d: nat | Idle(h, d) :: h[d].size < n;
  }

  lemma EmptyListFitsNothing(h: Headers, head: nat, n: nat)
    requires Listed(h, head)
    ensures head == 0 && 0 !in h ==> !Fits(h, n)
  {
  }

  lemma CoalescedAnywhere(h: Headers, c: nat)
    ensures Coalesced(h) ==> CoalescedBut(h, c)
  {
  }

  // The one free chunk after an empty list grew at p.
  lemma GrownFromEmpty(h: Headers, h': Headers, p: nat, region: nat)
    requires region >= HEADER && GrownBy(h, h', p, region) && forall c: nat :: !Idle(h, c)
    ensures forall x: nat :: BehindFree(h', x) <==> x == p + region
  {
    assert forall c: nat :: Idle(h', c) <==> c == p;
    assert End(h', p) == p + region;
  }

  lemma RoundedFits(size: nat, h: Headers, mapped: iset<nat>, c: nat)
    requires size < WORD && c in h && Tiled(h, mapped) && Rounded(size) <= h[c].size
    ensures Rounded(size) % 16 == 0 && 0 < Rounded(size) && size <= Rounded(size)
    ensures (c + HEADER) % 16 == 0
  {
    assert ChunkOk(h, c);
    HeaderAligned(c);
  }

  lemma HeaderAligned(c: nat)
    requires c % 16 == 0
    ensures (c + HEADER) % 16 == 0
  {
  }

  lemma UnlistedIsInUse(h: Headers, mapped: iset<nat>, c: nat)
    requires Tiled(h, mapped) && c in h && h[c].state != 1
    ensures InUse(h, c)
  {
    assert ChunkOk(h, c);
  }

  lemma EmptyListIsCoalesced(h: Headers)
    requires Listed(h, 0) && 0 !in h
    ensures Coalesced(h) && (forall x: nat :: !BehindFree(h, x)) && forall c: nat :: !Idle(h, c)
  {
  }

  lemma TakenPayload(h: Headers, h': Headers, mem: Memory, c: nat, n: nat)
    requires Idle(h, c) && InUse(h', c) && n <= h'[c].size
    ensures var p := c + HEADER; var l' := Live(h', Filled(mem, p, n, 0));
            && p !in Live(h, mem) && p in l' && l'[p].user == h'[c].user && n <= |l'[p].bytes|
            && forall i | 0 <= i < n :: l'[p].bytes[i] == 0
  {
    var p := c + HEADER;
    assert p in Pointers(h') && p !in Pointers(h);
    var l' := Live(h', Filled(mem, p, n, 0));
    assert p - HEADER == c && p in l';
    forall i | 0 <= i < n
      ensures l'[p].bytes[i] == 0
    {
      assert Within(p, n, p + i);
    }
  }

  lemma TakenIsAllocated(h: Headers, mapped: iset<nat>, head: nat, prev: nat, c: nat, n: nat, user: nat, mem: Memory)
    requires Tiled(h, mapped) && Listed(h, head) && Prev(h, head, prev, c) && Idle(h, c) && n <= h[c].size
    requires user < WORD && n == Rounded(user)
    ensures Allocated(Live(h, mem), Live(Taken(h, prev, c, n, user), Filled(mem, c + HEADER, n, 0)), c + HEADER, user)
  {
    var h', mem' := Taken(h, prev, c, n, user), Filled(mem, c + HEADER, n, 0);
    RoundedFits(user, h, mapped, c);
    TakenInUse(h, mapped, head, prev, c, n, user);
    WriteElsewhere(h, mapped, mem, mem', c);
    LiveExcept(h, h', mem, mem', c);
    TakenPayload(h, h', mem, c, n);
  }

  // A write inside chunk c's payload leaves the payloads of the other chunks alone.
  lemma WriteElsewhere(h: Headers, mapped: iset<nat>, mem: Memory, mem': Memory, c: nat)
    requires Tiled(h, mapped) && c in h
    requires forall x: nat | mem'(x) != mem(x) :: c + HEADER <= x < End(h, c)
    ensures SameBytes(h, mem, mem', iset{c})
  {
    forall d: nat, x: nat | InUse(h, d) && d !in iset{c} && d + HEADER <= x < End(h, d)
      ensures mem(x) == mem'(x)
    {
      assert Apart(h) && d != c;
    }
  }

  // The headers after free: c is absorbed into the list, then into its left neighbour.
  ghost function Returned(h: Headers, prev: nat, n: nat, c: nat): Headers
    requires c in h
  {
    var h1 := Absorbed(h, prev, n, c);
    if Touch(h1, prev, c) && prev != c then Merged(h1, prev, c) else h1
  }

  lemma AbsorbedPrev(h: Headers, head: nat, prev: nat, n: nat, c: nat)
    requires Prev(h, head, prev, n) && InUse(h, c) && prev < c && (n == 0 || c < n) && 0 !in h
    ensures Idle(Absorbed(h, prev, n, c), c)
    ensures prev != 0 ==> Idle(Absorbed(h, prev, n, c), prev) && Absorbed(h, prev, n, c)[prev].next == c
    ensures prev == 0 ==> !Touch(Absorbed(h, prev, n, c), prev, c)
  {
  }

  lemma ReturnedInUse(h: Headers, prev: nat, n: nat, c: nat)
    requires InUse(h, c) && (prev == 0 || Idle(h, prev)) && 0 !in h
    ensures SameInUse(h, Returned(h, prev, n, c), iset{c}) && !InUse(Returned(h, prev, n, c), c)
  {
    var h1, h2 := Absorbed(h, prev, n, c), Returned(h, prev, n, c);
    AbsorbInUse(h, prev, n, c);
    forall d: nat | d != c
      ensures (InUse(h, d) <==> InUse(h2, d)) && (InUse(h, d) ==> h[d].size == h2[d].size && h[d].user == h2[d].user)
    {
      assert d !in iset{c};
    }
  }

  lemma ReturnedCoalesced(h: Headers, mapped: iset<nat>, head: nat, prev: nat, n: nat, c: nat)
    requires Tiled(h, mapped) && Listed(h, head) && Prev(h, head, prev, n) && InUse(h, c) && 0 !in h
    requires prev < c && (n == 0 || c < n) && Coalesced(h)
    ensures Coalesced(Returned(h, prev, n, c))
  {
    AbsorbTouches(h, mapped, head, prev, n, c);
    var h1 := Absorbed(h, prev, n, c);
    if Touch(h1, prev, c) {
      MergeTouches(h1, prev, c);
    }
  }

  lemma ReturnedIsFreed(h: Headers, prev: nat, n: nat, c: nat, mem: Memory)
    requires InUse(h, c) && (prev == 0 || Idle(h, prev)) && 0 !in h
    ensures Freed(Live(h, mem), Live(Returned(h, prev, n, c), mem), c + HEADER)
  {
    var h' := Returned(h, prev, n, c);
    ReturnedInUse(h, prev, n, c);
    LiveExcept(h, h', mem, mem, c);
    assert c + HEADER in Pointers(h) && c + HEADER !in Pointers(h');
  }

  // How many bytes realloc carries over from a block to a request of n bytes.
  function Carried(x: Payload, n: nat): nat {
    var kept := if x.user == 0 || x.user > |x.bytes| then |x.bytes| else x.user;
    if kept > n then n else kept
  }

  // The block moved from p to q with its first bytes, those that were asked for or all when none were, and no
  // other block changed.
  ghost predicate Moved(l: map<nat, Payload>, l': map<nat, Payload>, p: nat, q: nat, n: nat) {
    && p in l && q in l' && q % 16 == 0 && (p != q ==> p !in l' && q !in l)
    && l'[q].user == n && n <= |l'[q].bytes|
    && (forall i | 0 <= i < n && i < |l[p].bytes| && (l[p].user == 0 || i < l[p].user) :: l'[q].bytes[i] == l[p].bytes[i])
    && forall x: nat | x != p && x != q :: (x in l <==> x in l') && (x in l ==> l[x] == l'[x])
  }

  // The block at p resized in place: the same bytes, for a request of n.
  ghost function Reused(l: map<nat, Payload>, p: nat, n: nat): map<nat, Payload>
    requires p in l
  {
    l[p := Payload(n, l[p].bytes)]
  }

  // Whether realloc asks malloc for a block.
  ghost predicate AsksMalloc(h: Headers, p: nat, n: nat)
    requires p == 0 || (p >= HEADER && p - HEADER in h)
  {
    p == 0 || (n != 0 && h[p - HEADER].size < n)
  }

  // What calloc is asked for, in bytes.
  function Total(n: nat, m: nat): nat { n * m }

  lemma TotalOfNone(n: nat)
    ensures Total(n, 0) == 0
  {
  }

  lemma TimesOrdered(a: nat, b: nat, m: nat)
    requires a <= b
    ensures a * m <= b * m
  {
  }

  lemma QuotientTimes(x: nat, m: nat)
    requires m > 0
    ensures x / m * m <= x < (x / m + 1) * m
  {
  }

  // calloc's overflow test by division is exact.
  lemma DivisionDetectsOverflow(n: nat, m: nat)
    requires 0 < m
    ensures n > (WORD - 1) / m <==> Total(n, m) >= WORD
  {
    var q := (WORD - 1) / m;
    QuotientTimes(WORD - 1, m);
    if n > q {
      TimesOrdered(q + 1, n, m);
    } else {
      TimesOrdered(n, q, m);
    }
  }

  lemma ZeroAgain(h: Headers, mem: Memory, p: nat, n: nat)
    requires p in Live(h, mem) && n <= |Live(h, mem)[p].bytes| && forall i | 0 <= i < n :: Live(h, mem)[p].bytes[i] == 0
    ensures Live(h, Filled(mem, p, n, 0)) == Live(h, mem)
  {
    var mem' := Filled(mem, p, n, 0);
    forall x: nat
      ensures mem'(x) == mem(x)
    {
      if Within(p, n, x) {
        assert Live(h, mem)[p].bytes[x - p] == 0;
      }
    }
    forall q: nat
      ensures q in Live(h, mem) <==> q in Live(h, mem')
      ensures q in Live(h, mem) ==> Live(h, mem)[q] == Live(h, mem')[q]
    {
      LiveAt(h, h, mem, mem', q);
    }
  }

  // Growing or shrinking inside the chunk.
  function Resized(h: Headers, c: nat, n: nat): Headers
    requires c in h
  {
    h[c := h[c].(user := n)]
  }

  lemma ResizedValid(h: Headers, mapped: iset<nat>, head: nat, c: nat, n: nat)
    requires Tiled(h, mapped) && Listed(h, head) && InUse(h, c) && n <= h[c].size
    ensures Tiled(Resized(h, c, n), mapped) && Listed(Resized(h, c, n), head)
  {
    var h' := Resized(h, c, n);
    forall d: nat | d in h
      ensures ChunkOk(h', d)
    {
      assert ChunkOk(h, d);
    }
    SameSizesTile(h, h', mapped);
    assert forall d: nat :: Idle(h', d) <==> Idle(h, d);
    forall d: nat | Idle(h', d)
      ensures NextFree(h', d, h'[d].next)
    {
      assert NextFree(h, d, h[d].next);
    }
  }

  lemma ResizedCoalesced(h: Headers, c: nat, n: nat)
    requires InUse(h, c) && Coalesced(h)
    ensures Coalesced(Resized(h, c, n))
  {
    forall d: nat, e: nat
      ensures !Touch(Resized(h, c, n), d, e)
    {
      assert !Touch(h, d, e);
    }
  }

  lemma ResizedIsMoved(h: Headers, mapped: iset<nat>, mem: Memory, c: nat, n: nat)
    requires Tiled(h, mapped) && InUse(h, c) && n <= h[c].size
    ensures Moved(Live(h, mem), Live(Resized(h, c, n), mem), c + HEADER, c + HEADER, n)
    ensures c + HEADER in Live(h, mem) && Live(Resized(h, c, n), mem) == Reused(Live(h, mem), c + HEADER, n)
  {
    hide Live;
    var h', p := Resized(h, c, n), c + HEADER;
    assert ChunkOk(h, c);
    HeaderAligned(c);
    LiveExcept(h, h', mem, mem, c);
    LivePayload(h, mem, c);
    LivePayload(h', mem, c);
    assert Bytes(mem, p, h[c].size) == Bytes(mem, p, h'[c].size);
    var l, l' := Live(h, mem), Live(h', mem);
    assert l'[p].user == n && n <= |l'[p].bytes| && l'[p].bytes == l[p].bytes;
    assert Carried(l[p], n) <= |l[p].bytes|;
  }

  // q now begins with the first k bytes of p, and nothing else changed.
  ghost predicate Overwritten(l: map<nat, Payload>, l': map<nat, Payload>, p: nat, q: nat, k: nat) {
    && p in l && q in l && q in l' && AgreeExcept(l, l', q)
    && l'[q].user == l[q].user && |l'[q].bytes| == |l[q].bytes| && k <= |l[p].bytes| && k <= |l'[q].bytes|
    && forall i | 0 <= i < k :: l'[q].bytes[i] == l[p].bytes[i]
  }

  lemma LivePayload(h: Headers, mem: Memory, c: nat)
    requires InUse(h, c)
    ensures c + HEADER in Live(h, mem)
    ensures Live(h, mem)[c + HEADER] == Payload(h[c].user, Bytes(mem, c + HEADER, h[c].size))
  {
    assert c + HEADER in Pointers(h);
  }

  // After an allocation chunk c is in use as before, next to the new block q.
  lemma StillInUse(h: Headers, mem: Memory, h': Headers, mem': Memory, c: nat, q: nat, n: nat)
    requires n < WORD && InUse(h, c) && Allocated(Live(h, mem), Live(h', mem'), q, n)
    ensures q >= HEADER && InUse(h', q - HEADER) && InUse(h', c) && q != c + HEADER
    ensures h'[c].user == h[c].user && h'[c].size == h[c].size && n <= h'[q - HEADER].size
    ensures Live(h', mem')[c + HEADER] == Live(h, mem)[c + HEADER]
  {
    LivePayload(h, mem, c);
    assert q in Pointers(h') && c + HEADER in Live(h', mem') && c + HEADER in Pointers(h');
    LivePayload(h', mem', c);
    LivePayload(h', mem', q - HEADER);
  }

  // The copy into the new block q, then the release of p.
  lemma CopyThenFree(l0: map<nat, Payload>, l1: map<nat, Payload>, l2: map<nat, Payload>, l3: map<nat, Payload>,
                     p: nat, q: nat, n: nat)
    requires n < WORD && p in l0 && Allocated(l0, l1, q, n) && p != q
    requires Overwritten(l1, l2, p, q, Carried(l0[p], n)) && Freed(l2, l3, p)
    ensures Moved(l0, l3, p, q, n)
  {
    assert l1[p] == l0[p] && l3[q] == l2[q];
    forall x: nat | x != p && x != q
      ensures (x in l0 <==> x in l3) && (x in l0 ==> l0[x] == l3[x])
    {
      assert (x in l0 <==> x in l1) && (x in l1 <==> x in l2) && (x in l2 <==> x in l3);
    }
  }

  lemma CopiedBytes(h: Headers, mem: Memory, c: nat, d: nat, k: nat)
    requires InUse(h, c) && InUse(h, d) && k <= h[c].size && k <= h[d].size
    ensures var p, q := c + HEADER, d + HEADER; var mem' := Copied(mem, q, p, k);
            && p in Live(h, mem) && q in Live(h, mem) && q in Live(h, mem')
            && Live(h, mem)[p] == Payload(h[c].user, Bytes(mem, p, h[c].size))
            && Live(h, mem')[q] == Payload(h[d].user, Bytes(mem', q, h[d].size))
            && Live(h, mem)[q] == Payload(h[d].user, Bytes(mem, q, h[d].size))
            && forall i | 0 <= i < k :: Bytes(mem', q, h[d].size)[i] == Bytes(mem, p, h[c].size)[i]
  {
    var p, q := c + HEADER, d + HEADER;
    assert p in Pointers(h) && q in Pointers(h) && p - HEADER == c && q - HEADER == d;
    forall i | 0 <= i < k
      ensures Bytes(Copied(mem, q, p, k), q, h[d].size)[i] == Bytes(mem, p, h[c].size)[i]
    {
      assert Within(q, k, q + i);
    }
  }

  lemma CopiedElsewhere(h: Headers, mapped: iset<nat>, mem: Memory, c: nat, d: nat, k: nat)
    requires Tiled(h, mapped) && d in h && k <= h[d].size
    ensures AgreeExcept(Live(h, mem), Live(h, Copied(mem, d + HEADER, c + HEADER, k)), d + HEADER)
  {
    var mem' := Copied(mem, d + HEADER, c + HEADER, k);
    WriteElsewhere(h, mapped, mem, mem', d);
    LiveExcept(h, h, mem, mem', d);
  }

  // ---------- Live payloads and the bytes between them ----------

  // Payloads that are live at once do not overlap, with room for a header between them.
  lemma LiveDisjoint(h: Headers, mapped: iset<nat>, mem: Memory, p: nat, q: nat)
    requires Tiled(h, mapped) && p in Live(h, mem) && q in Live(h, mem) && p < q
    ensures p + |Live(h, mem)[p].bytes| + HEADER <= q
  {
    assert InUse(h, p - HEADER) && InUse(h, q - HEADER);
    assert End(h, p - HEADER) <= q - HEADER;
  }

  // A heap of one free chunk, a request close to 2^64, and a region granted right behind the chunk: the
  // two free chunks are left touching.
  lemma RegionNotMerged()
    ensures var p, n, region := 0x1_0000, WORD - 112, 0x10_0000;
            var h := map[p := Header(region - HEADER, 0, 0, 1)];
            var h' := Absorbed(WithRegion(h, p + region, region), p, 0, p + region);
            && Tiled(h, Range(p, region)) && Listed(h, p) && Coalesced(h)
            && Rounded(n) == n && Region(n) == region && Grants(Range(p, region), 0, p + region, region)
            && LeavesTouching(h, p, 0, p + region, n)
            && Prev(WithRegion(h, p + region, region), p, p, 0) && Touch(h', p, p + region)
  {
    var p, region := 0x1_0000, 0x10_0000;
    var h := map[p := Header(region - HEADER, 0, 0, 1)];
    assert Idle(h, p) && End(h, p) == p + region;
    forall x: nat | x in Range(p, region)
      ensures exists c: nat :: Owns(h, c, x)
    {
      assert Owns(h, p, x);
    }
  }
}
