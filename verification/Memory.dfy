/** The flat guest memory of mem.c. */
module Memory {
  import opened Cpu
  import opened Bits

  function Bytes(v: word): (r: seq<byte>)
    ensures |r| == 4
  {
    [v % 0x100, v / 0x100 % 0x100, v / 0x10000 % 0x100, v / 0x1000000]
  }

  /** The little-endian word at offset `o`. */
  function WordAt(m: seq<byte>, o: nat): (r: word)
    requires o + 4 <= |m|
  {
    m[o] as int + 0x100 * (m[o + 1] as int) + 0x10000 * (m[o + 2] as int) + 0x1000000 * (m[o + 3] as int)
  }

  function Store(m: seq<byte>, o: nat, v: word): (r: seq<byte>)
    requires o + 4 <= |m|
    ensures |r| == |m|
  {
    m[..o] + Bytes(v) + m[o + 4..]
  }

  lemma StoreLoads(m: seq<byte>, o: nat, v: word)
    requires o + 4 <= |m|
    ensures WordAt(Store(m, o, v), o) == v
  {
    var s := Store(m, o, v);
    assert s[o] == v % 0x100 && s[o + 1] == v / 0x100 % 0x100;
    assert s[o + 2] == v / 0x10000 % 0x100 && s[o + 3] == v / 0x1000000;
    Recombines(v);
  }

  lemma Recombines(v: word)
    ensures v % 0x100 + 0x100 * (v / 0x100 % 0x100) + 0x10000 * (v / 0x10000 % 0x100) + 0x1000000 * (v / 0x1000000) == v
  {
    assert v / 0x10000 == v / 0x100 / 0x100 && v / 0x1000000 == v / 0x100 / 0x100 / 0x100;
  }

  lemma StoreElsewhere(m: seq<byte>, o: nat, v: word, p: nat)
    requires o + 4 <= |m| && p + 4 <= |m| && (p + 4 <= o || o + 4 <= p)
    ensures WordAt(Store(m, o, v), p) == WordAt(m, p)
  {
  }

  class Memory {
    const bytes: array<byte>
    const base: nat
    var bad: nat

    /** The range is wholly backed: what vita_mem_ptr accepts. */
    predicate Backed(addr: nat, len: nat) {
      base <= addr && addr - base + len <= bytes.Length
    }

    constructor (base: nat, size: nat)
      ensures this.base == base && bytes.Length == size && fresh(bytes) && bad == 0
      ensures forall i :: 0 <= i < size ==> bytes[i] == 0
    {
      this.base, bad := base, 0;
      bytes := new byte[size](_ => 0);
    }

    /** `vita_mem_ptr`: an offset, or a counted refusal. */
    method Ptr(addr: nat, len: nat) returns (ok: bool, off: nat)
      modifies `bad
      ensures ok <==> Backed(addr, len)
      ensures ok ==> off == addr - base
      ensures bad == if ok then old(bad) else old(bad) + 1
    {
      if addr < base || addr - base + len > bytes.Length {
        bad := bad + 1;
        return false, 0;
      }
      return true, addr - base;
    }

    /** `vita_mem_avail`: the most that is backed from an address, in 32 bits. */
    function Avail(addr: nat): (r: nat)
      ensures r > 0 ==> Backed(addr, r)
      ensures (forall n: nat :: Backed(addr, n) ==> n <= r) <==> addr < base || addr - base + WORD > bytes.Length
    {
      if addr < base || addr - base >= bytes.Length then 0 else
        var rest := bytes.Length - (addr - base);
        assert Backed(addr, rest) && rest % WORD <= rest && (rest < WORD <==> rest % WORD == rest);
        rest % WORD
    }

    /** `vita_read32`. */
    method Read32(addr: nat) returns (v: word)
      modifies `bad
      ensures v == if Backed(addr, 4) then WordAt(bytes[..], addr - base) else 0
      ensures bad == if Backed(addr, 4) then old(bad) else old(bad) + 1
    {
      var ok, off := Ptr(addr, 4);
      v := if ok then WordAt(bytes[off..off + 4], 0) else 0;
    }

    /** `vita_write32`. */
    method Write32(addr: nat, v: word)
      modifies `bad, bytes
      ensures bytes[..] == if Backed(addr, 4) then Store(old(bytes[..]), addr - base, v) else old(bytes[..])
      ensures bad == if Backed(addr, 4) then old(bad) else old(bad) + 1
    {
      var ok, off := Ptr(addr, 4);
      if ok {
        var b := Bytes(v);
        bytes[off], bytes[off + 1], bytes[off + 2], bytes[off + 3] := b[0], b[1], b[2], b[3];
      }
    }
  }
}
