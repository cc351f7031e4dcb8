/** The emitter's visited table: open addressing over 8192 slots, 0 meaning empty. */
module Visited {

  const SLOTS: nat := 8192

  /** The `i`-th slot probed for an address. */
  function Slot(addr: nat, i: nat): (r: nat)
    ensures r < SLOTS
  {
    (addr * 2654435761 % 0x1_0000_0000 % SLOTS + i) % SLOTS
  }

  /** The first slot is the low 13 bits of the hash: the wrap of the product does not show. */
  lemma FirstSlot(addr: nat)
    ensures Slot(addr, 0) == addr * 6577 % 8192
  {
    var v := addr * 2654435761;
    assert 2654435761 == 8192 * 324027 + 6577;
    assert v == 8192 * (addr * 324027) + addr * 6577;
    Wrapped(v / 0x1_0000_0000, v % 0x1_0000_0000);
    Wrapped2(addr * 324027, addr * 6577);
  }

  lemma Wrapped(q: nat, r: nat)
    ensures (0x1_0000_0000 * q + r) % 8192 == r % 8192
  {
    assert 0x1_0000_0000 * q == 8192 * (524288 * q);
    Wrapped2(524288 * q, r);
  }

  lemma Wrapped2(q: nat, r: nat)
    ensures (8192 * q + r) % 8192 == r % 8192
  {
    assert 8192 * q + r == 8192 * (q + r / 8192) + r % 8192;
  }

  /** Probing visits every slot. */
  lemma SlotCovers(addr: nat, s: nat) returns (i: nat)
    requires s < SLOTS
    ensures i < SLOTS && Slot(addr, i) == s
  {
    var h := addr * 2654435761 % 0x1_0000_0000 % SLOTS;
    i := if s >= h then s - h else s + SLOTS - h;
  }

  class Table {
    const k: array<nat>
    /** The addresses marked, each with the number of slots probed past to place it. */
    ghost var dist: map<nat, nat>

    ghost predicate Valid()
      reads this, k
    {
      && k.Length == SLOTS
      && 0 !in dist
      && (forall s :: 0 <= s < SLOTS && k[s] != 0 ==> k[s] in dist && Slot(k[s], dist[k[s]]) == s)
      && (forall a :: a in dist ==> dist[a] < SLOTS && k[Slot(a, dist[a])] == a)
      && (forall a, j: nat :: a in dist && j < dist[a] ==> k[Slot(a, j)] != 0)
    }

    ghost function Seen(): set<nat>
      reads this
    {
      dist.Keys
    }

    ghost predicate Full()
      reads k
    {
      forall s :: 0 <= s < k.Length ==> k[s] != 0
    }

    constructor ()
      ensures Valid() && Seen() == {} && !Full() && fresh(k)
    {
      k := new nat[SLOTS](i => 0);
      dist := map[];
      new;
      assert k[0] == 0;
    }

    /** `visit_mark`: adds an address unless it is there already, is the empty
        marker, or finds the table full. */
    method Mark(addr: nat) returns (added: bool)
      requires Valid()
      modifies this, k
      ensures Valid()
      ensures added ==> addr !in old(Seen()) && addr != 0 && Seen() == old(Seen()) + {addr}
      ensures !added ==> Seen() == old(Seen()) && (addr in Seen() || addr == 0 || (Full() && old(Full())))
    {
      hide Slot;
      for i := 0 to SLOTS
        invariant Valid() && Seen() == old(Seen())
        invariant forall j: nat :: j < i ==> k[Slot(addr, j)] != 0 && k[Slot(addr, j)] != addr
      {
        var s := Slot(addr, i);
        if k[s] == addr {
          return false;
        }
        if k[s] == 0 {
          k[s] := addr;
          dist := dist[addr := i];
          return true;
        }
      }
      forall s | 0 <= s < SLOTS ensures k[s] != 0 {
        var i := SlotCovers(addr, s);
      }
      added := false;
    }

    /** A full table holds 8192 different addresses. */
    lemma FullHolds()
      requires Valid() && Full()
      ensures |Seen()| == 8192
    {
      hide Slot;
      SeenBounded();
      DistinctBounds(Seen(), k[..], SLOTS);
    }

    /** Marked addresses occupy distinct slots, so there are at most 8192 of them. */
    lemma SeenBounded()
      requires Valid()
      ensures |Seen()| <= 8192
    {
      hide Slot;
      var image := map a | a in dist :: Slot(a, dist[a]);
      InjectionBounds(dist.Keys, image, SLOTS);
    }
  }

  lemma {:induction false} DistinctBounds(keys: set<nat>, f: seq<nat>, n: nat)
    requires n <= |f|
    requires forall i :: 0 <= i < n ==> f[i] in keys
    requires forall i, j :: 0 <= i < j < n ==> f[i] != f[j]
    ensures n <= |keys|
    decreases n
  {
    if n > 0 {
      DistinctBounds(keys - {f[n - 1]}, f, n - 1);
    }
  }

  lemma {:induction false} InjectionBounds(keys: set<nat>, f: map<nat, nat>, n: nat)
    requires keys <= f.Keys
    requires forall a :: a in keys ==> f[a] < n
    requires forall a, b :: a in keys && b in keys && f[a] == f[b] ==> a == b
    ensures |keys| <= n
    decreases n
  {
    if n > 0 {
      if a :| a in keys && f[a] == n - 1 {
        InjectionBounds(keys - {a}, f, n - 1);
      } else {
        InjectionBounds(keys, f, n - 1);
      }
    } else {
      assert keys == {};
    }
  }
}
