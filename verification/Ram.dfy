/** DRAM behind one bus window (src/device/bus.cc, src/device/dram.cc). */
module Ram {
  import opened Words

  type Byte = b: int | 0 <= b < 256

  /** The device is mounted at base .. base + window and holds |bytes| bytes. */
  datatype Ram = Ram(base: Word, window: nat, bytes: seq<Byte>)

  function LittleEndian(bs: seq<Byte>): nat {
    if bs == [] then 0 else bs[0] + 256 * LittleEndian(bs[1..])
  }

  function ToBytes(data: nat, n: nat): (bs: seq<Byte>)
    ensures |bs| == n
    decreases n
  {
    if n == 0 then [] else [data % 256] + ToBytes(data / 256, n - 1)
  }

  predicate Reachable(ram: Ram, addr: Word, n: nat) {
    ram.base <= addr < ram.base + ram.window && addr - ram.base + n <= |ram.bytes|
  }

  /** The value of `n` bytes at `addr`; reads wider than a word are cut to one. */
  function LoadFrom(ram: Ram, addr: Word, n: nat): Option<Word> {
    if Reachable(ram, addr, n) then Some(Wrap64(LittleEndian(ram.bytes[addr - ram.base..addr - ram.base + n]))) else None
  }

  function StoreTo(ram: Ram, addr: Word, n: nat, data: Word): Option<Ram> {
    if Reachable(ram, addr, n) then
      var off := addr - ram.base;
      Some(ram.(bytes := ram.bytes[..off] + ToBytes(data, n) + ram.bytes[off + n..]))
    else None
  }

  lemma {:induction false} BytesRoundTrip(data: nat, n: nat)
    requires data < Pow2(8 * n)
    ensures LittleEndian(ToBytes(data, n)) == data
    decreases n
  {
    if n > 0 {
      assert Pow2(8 * n) == 256 * Pow2(8 * (n - 1)) by {
        assert 8 * n == 8 * (n - 1) + 8;
        PowEight(8 * (n - 1));
      }
      BytesRoundTrip(data / 256, n - 1);
      assert ToBytes(data, n)[1..] == ToBytes(data / 256, n - 1);
    }
  }

  lemma PowEight(k: nat)
    ensures Pow2(k + 8) == 256 * Pow2(k)
  {
    assert Pow2(k + 2) == 4 * Pow2(k);
    assert Pow2(k + 4) == 4 * Pow2(k + 2);
    assert Pow2(k + 6) == 4 * Pow2(k + 4);
  }

  /** A store is read back, and nothing else in DRAM moves. */
  lemma StoreThenLoad(ram: Ram, addr: Word, n: nat, data: Word)
    requires Reachable(ram, addr, n) && data < Pow2(8 * n)
    ensures var r := StoreTo(ram, addr, n, data).value;
            && LoadFrom(r, addr, n) == Some(data) && |r.bytes| == |ram.bytes|
            && forall i :: 0 <= i < |r.bytes| && !(addr - ram.base <= i < addr - ram.base + n) ==> r.bytes[i] == ram.bytes[i]
  {
    var off := addr - ram.base;
    var r := StoreTo(ram, addr, n, data).value;
    BytesRoundTrip(data, n);
    assert r.bytes[off..off + n] == ToBytes(data, n);
  }

  // ----- byte by byte -----

  /** Byte `k` of `x`, least significant first. */
  function ByteAt(x: nat, k: nat): Byte
    decreases k
  {
    if k == 0 then x % 256 else ByteAt(x / 256, k - 1)
  }

  lemma {:induction false} ByteOfBytes(bs: seq<Byte>, k: nat)
    requires k < |bs|
    ensures ByteAt(LittleEndian(bs), k) == bs[k]
    decreases k
  {
    assert LittleEndian(bs) / 256 == LittleEndian(bs[1..]) && LittleEndian(bs) % 256 == bs[0];
    if k > 0 { ByteOfBytes(bs[1..], k - 1); }
  }

  lemma {:induction false} BytesOf(data: nat, n: nat, k: nat)
    requires k < n
    ensures ToBytes(data, n)[k] == ByteAt(data, k)
    decreases k
  {
    if k > 0 { BytesOf(data / 256, n - 1, k - 1); }
  }

  lemma {:induction false} LittleEndianBound(bs: seq<Byte>)
    requires |bs| <= 8
    ensures LittleEndian(bs) < Pow2(8 * |bs|)
  {
    if bs != [] {
      LittleEndianBound(bs[1..]);
      PowEight(8 * |bs[1..]|);
      assert 8 * |bs| == 8 * |bs[1..]| + 8;
    }
  }

  /** A load answers exactly inside window and storage, and byte `k` of what it returns is the byte at addr + k. */
  lemma LoadBytes(ram: Ram, addr: Word, n: nat)
    requires n <= 8
    ensures LoadFrom(ram, addr, n).Some? <==> ram.base <= addr < ram.base + ram.window && addr + n <= ram.base + |ram.bytes|
    ensures LoadFrom(ram, addr, n).Some? ==> forall k :: 0 <= k < n ==> ByteAt(LoadFrom(ram, addr, n).value, k) == ram.bytes[addr - ram.base + k]
  {
    if Reachable(ram, addr, n) {
      var off := addr - ram.base;
      var bs := ram.bytes[off..off + n];
      LittleEndianBound(bs);
      Pow2Sixty4();
      PowUpTo(8 * n, 64);
      assert LoadFrom(ram, addr, n) == Some(LittleEndian(bs));
      forall k | 0 <= k < n ensures ByteAt(LittleEndian(bs), k) == ram.bytes[off + k] {
        ByteOfBytes(bs, k);
      }
    }
  }

  lemma {:induction false} PowUpTo(a: nat, b: nat)
    requires a <= b
    ensures Pow2(a) <= Pow2(b)
    decreases b - a
  {
    if a < b { PowUpTo(a + 1, b); }
  }

  /** A store answers in the same places, writes byte `k` of the data at addr + k, and changes nothing else. */
  lemma StoreBytes(ram: Ram, addr: Word, n: nat, data: Word)
    ensures StoreTo(ram, addr, n, data).Some? <==> ram.base <= addr < ram.base + ram.window && addr + n <= ram.base + |ram.bytes|
    ensures StoreTo(ram, addr, n, data).Some? ==>
              var r := StoreTo(ram, addr, n, data).value;
              && r == ram.(bytes := r.bytes) && |r.bytes| == |ram.bytes|
              && forall i :: 0 <= i < |ram.bytes| ==>
                   var k := i - (addr - ram.base);
                   r.bytes[i] == if 0 <= k < n then ByteAt(data, k) else ram.bytes[i]
  {
    if Reachable(ram, addr, n) {
      var off := addr - ram.base;
      forall k: nat | k < n ensures ToBytes(data, n)[k] == ByteAt(data, k) { BytesOf(data, n, k); }
    }
  }
}
