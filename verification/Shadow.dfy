/** runtime/sanitizer.c: one shadow byte for eight bytes of memory. */
module Shadow {
  const LOW: nat := 0x40_0000
  const SHADOW: nat := 0x1000_0000_0000
  const SHADOW_END: nat := 0x2000_0000_0000

  // A shadow byte: 0 when all eight bytes may be touched, k when the first k may, negative when none.
  predicate Allows(v: int, k: nat) {
    v == 0 || k < v
  }

  // The shadow starts as zeros.
  function At(shadow: map<nat, int>, chunk: nat): int {
    if chunk in shadow then shadow[chunk] else 0
  }

  class Sanitizer {
    // 0 before the map was tried, 1 with it, -1 without
    var inited: int
    var shadow: map<nat, int>

    // The shadow byte of a chunk.
    function Byte(chunk: nat): int
      reads this
    {
      At(shadow, chunk)
    }

    ghost predicate Valid()
      reads this
    {
      inited in {-1, 0, 1} && forall c :: c in shadow ==> -1 <= shadow[c] < 8
    }

    // Whether address a may be touched, byte by byte.
    ghost predicate Open(a: nat)
      reads this
    {
      Allows(Byte(a / 8), a % 8)
    }

    constructor ()
      ensures Valid() && inited == 0 && forall a :: Open(a)
    {
      inited, shadow := 0, map[];
    }

    // __asan_init; whether the system granted the map is its answer
    method Init(granted: bool)
      requires Valid()
      modifies this`inited
      ensures Valid() && inited != 0 && (old(inited) != 0 ==> inited == old(inited))
      ensures old(inited) == 0 ==> (inited == 1 <==> granted)
    {
      if inited != 0 {
        return;
      }
      inited := 1;
      if !granted {
        inited := -1;
      }
    }

    method Fill(start: nat, end: nat, v: int)
      requires Valid() && -1 <= v < 8
      modifies this`shadow
      ensures Valid() && forall c: nat :: At(shadow, c) == if start <= c < end then v else At(old(shadow), c)
    {
      var s := start;
      while s < end
        invariant start <= s && (s == start || s <= end) && Valid()
        invariant forall c: nat :: At(shadow, c) == if start <= c < s then v else At(old(shadow), c)
      {
        ghost var before := shadow;
        shadow := shadow[s := v];
        assert forall c: nat :: At(shadow, c) == if c == s then v else At(before, c);
        s := s + 1;
      }
    }

    // __asan_poison_memory_region: every chunk that the region meets is closed whole.
    method Poison(u: nat, size: nat, granted: bool)
      requires Valid()
      modifies this
      ensures Valid() && inited != 0
      ensures forall a: nat :: Open(a) == if inited == 1 && size > 0 && u > 0 && u / 8 * 8 <= a < (u + size + 7) / 8 * 8 then false
                                          else old(Open(a))
    {
      if inited == 0 {
        Init(granted);
      }
      if inited != 1 || size == 0 || u == 0 {
        return;
      }
      Fill(u / 8, (u + size + 7) / 8, -1);
    }

    // __asan_unpoison_memory_region: from the chunk of u on everything below u + size opens, and the
    // rest of the last chunk closes.
    method Unpoison(u: nat, size: nat, granted: bool)
      requires Valid()
      modifies this
      ensures Valid() && inited != 0
      ensures forall a: nat :: Open(a) == if inited == 1 && size > 0 && u > 0 && u / 8 * 8 <= a < (u + size + 7) / 8 * 8 then a < u + size
                                          else old(Open(a))
    {
      if inited == 0 {
        Init(granted);
      }
      if inited != 1 || size == 0 || u == 0 {
        return;
      }
      var end := (u + size) / 8;
      Fill(u / 8, end, 0);
      var rem := (u + size) % 8;
      if rem > 0 {
        ghost var before := shadow;
        shadow := shadow[end := rem];
        assert forall c: nat :: At(shadow, c) == if c == end then rem else At(before, c);
      }
    }

    // asan_check_range: with the map in place an access below the shadow reports exactly when one of its
    // bytes is closed. An access of no bytes inside a chunk is judged by the byte in front of it.
    method Check(u: nat, size: nat, granted: bool) returns (reported: bool)
      requires Valid()
      modifies this`inited
      ensures Valid() && inited != 0
      ensures inited != 1 ==> !reported
      ensures inited == 1 && u < LOW ==> reported
      ensures inited == 1 && SHADOW <= u < SHADOW_END ==> !reported
      ensures inited == 1 && u >= LOW && !(SHADOW <= u < SHADOW_END) ==>
                reported == if size > 0 then exists a :: u <= a < u + size && !Open(a) else u % 8 != 0 && !Open(u - 1)
    {
      if inited == 0 {
        Init(granted);
      }
      if inited != 1 {
        return false;
      }
      if u < LOW {
        return true;
      }
      if SHADOW <= u < SHADOW_END {
        return false;
      }
      var s, e := u / 8, (u + size - 1) / 8;
      while s <= e
        invariant u / 8 <= s <= e + 1 || s == u / 8
        invariant forall a :: u <= a < u + size && a / 8 < s ==> Open(a)
        invariant size == 0 && s > u / 8 ==> u % 8 == 0 || Open(u - 1)
        decreases e + 1 - s
      {
        var v := Byte(s);
        if v != 0 {
          var chunk := 8 * s;
          if v < 0 || (u + size > chunk + v && u < chunk + 8) {
            Closed(u, size, s, v);
            return true;
          }
        }
        forall a | u <= a < u + size && a / 8 == s ensures Open(a) {
          assert a % 8 == a - 8 * s;
        }
        s := s + 1;
      }
      return false;
    }

    // A chunk that fails the test has a closed byte inside the access, or right in front of an empty one.
    lemma Closed(u: nat, size: nat, s: nat, v: int)
      requires Valid() && u / 8 <= s <= (u + size - 1) / 8 && u > 0 && v == Byte(s) && v != 0
      requires v < 0 || u + size > 8 * s + v
      ensures if size > 0 then exists a :: u <= a < u + size && !Open(a) else u % 8 != 0 && !Open(u - 1)
    {
      if size > 0 {
        var a := if u + size < 8 * s + 8 then u + size - 1 else 8 * s + 7;
        assert a / 8 == s && u <= a < u + size;
        assert !Open(a);
      } else {
        assert (u - 1) / 8 == s;
      }
    }
  }
}
