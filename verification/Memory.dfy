/**
  memory.c with the big-endian build: byte, half and word access over one byte buffer.
 */
module Memory {
  import opened Words

  // ---- Big-endian composition ---------------------------------------------

  /** The w low bytes of a value, most significant first. */
  function ToBytes(v: nat, w: nat): (bs: seq<byte>)
    ensures |bs| == w
    decreases w, v
  {
    if w == 0 then [] else ToBytes(v / 0x100, w - 1) + [v % 0x100]
  }

  function FromBytes(bs: seq<byte>): (v: nat)
    ensures v < Pow2(8 * |bs|)
    decreases |bs|
  {
    if bs == [] then 0
    else
      var last := |bs| - 1;
      BytePower(last);
      FromBytes(bs[..last]) * 0x100 + bs[last]
  }

  lemma BytePower(n: nat)
    ensures Pow2(8 * (n + 1)) == 0x100 * Pow2(8 * n)
  {
    var k := 8 * n;
    assert Pow2(k + 2) == 4 * Pow2(k);
    assert Pow2(k + 4) == 4 * Pow2(k + 2);
    assert Pow2(k + 6) == 4 * Pow2(k + 4);
    assert Pow2(k + 8) == 4 * Pow2(k + 6);
  }

  /** Splitting a value into bytes and composing them again loses nothing. */
  lemma {:induction false} BytesRoundTrip(v: nat, w: nat)
    requires v < Pow2(8 * w)
    ensures FromBytes(ToBytes(v, w)) == v
    decreases w
  {
    if w > 0 {
      BytePower(w - 1);
      BytesRoundTrip(v / 0x100, w - 1);
      var bs := ToBytes(v, w);
      assert bs[..w - 1] == ToBytes(v / 0x100, w - 1);
    }
  }

  lemma {:induction false} ValueRoundTrip(bs: seq<byte>)
    ensures ToBytes(FromBytes(bs), |bs|) == bs
    decreases |bs|
  {
    if bs != [] {
      var last := |bs| - 1;
      var v := FromBytes(bs);
      ValueRoundTrip(bs[..last]);
      assert v / 0x100 == FromBytes(bs[..last]) && v % 0x100 == bs[last];
      assert bs == bs[..last] + [bs[last]];
    }
  }

  /** Byte i of a w-byte value, counted from the most significant one. */
  lemma {:induction false} ByteAt(v: nat, w: nat, i: nat)
    requires i < w
    ensures ToBytes(v, w)[i] == Quot(v, 8 * (w - 1 - i)) % 0x100
    decreases w
  {
    if i < w - 1 {
      var k := 8 * (w - 2 - i);
      ByteAt(v / 0x100, w - 1, i);
      ShiftByte(v, k);
    }
  }

  lemma ShiftByte(v: nat, k: nat)
    ensures Quot(v / 0x100, k) == Quot(v, k + 8)
  {
    assert Quot(v, k + 8) == Quot(v / 2, k + 7);
    assert Quot(v / 2, k + 7) == Quot(v / 2 / 2, k + 6);
    assert Quot(v / 4, k + 6) == Quot(v / 4 / 2, k + 5);
    assert Quot(v / 8, k + 5) == Quot(v / 8 / 2, k + 4);
    assert Quot(v / 16, k + 4) == Quot(v / 16 / 2, k + 3);
    assert Quot(v / 32, k + 3) == Quot(v / 32 / 2, k + 2);
    assert Quot(v / 64, k + 2) == Quot(v / 64 / 2, k + 1);
    assert Quot(v / 128, k + 1) == Quot(v / 128 / 2, k);
  }

  // ---- The buffer ---------------------------------------------------------

  /** The w bytes from an address. */
  function Window(m: seq<byte>, a: nat, w: nat): seq<byte>
    requires a + w <= |m|
  {
    m[a..a + w]
  }

  /** The buffer with the bytes from an address replaced. */
  function Stored(m: seq<byte>, a: nat, bs: seq<byte>): (r: seq<byte>)
    requires a + |bs| <= |m|
    ensures |r| == |m|
  {
    m[..a] + bs + m[a + |bs|..]
  }

  /** The code tests the first byte of an access only, so callers must fit the rest. */
  predicate Fits(a: nat, w: nat, size: nat) {
    a < size ==> a + w <= size
  }

  /** C's *p = (uint8_t) x. */
  function Low8(x: nat): byte {
    x % 0x100
  }

  /** One step of the accumulate loops. */
  lemma Accumulates(acc: word, b: byte)
    requires acc < 0x100_0000
    ensures Shl(acc, 8) == acc * 0x100 && BOr(Shl(acc, 8), b) == acc * 0x100 + b
  {
    ByteScaled(acc);
    OrFields(b, acc, 8);
  }

  lemma ByteScaled(acc: word)
    ensures Scale(acc, 8) == acc * 0x100 && Pow2(8) == 0x100
  {
    assert Pow2(8) == 0x100;
    ScaleIsProduct(acc, 8);
  }

  /** memory.c:72 and memory.c:74, where both operands are uint16_t. */
  function HalfStep(acc: half, b: byte): half {
    BOr(Shl(acc, 8) % 0x1_0000, b) % 0x1_0000
  }

  lemma HalfAccumulates(acc: half, b: byte)
    requires acc < 0x100
    ensures HalfStep(acc, b) == acc * 0x100 + b
  {
    Accumulates(acc, b);
    DivUnique(acc * 0x100, 0x1_0000, 0, acc * 0x100);
    DivUnique(acc * 0x100 + b, 0x1_0000, 0, acc * 0x100 + b);
  }

  /** The composition of at most three bytes leaves room for one more in a word. */
  lemma RoomForByte(bs: seq<byte>)
    requires |bs| <= 3
    ensures FromBytes(bs) < 0x100_0000
    ensures |bs| <= 1 ==> FromBytes(bs) < 0x100
  {
    assert Pow2(8) == 0x100;
    assert Pow2(16) == 0x1_0000;
    assert Pow2(24) == 0x100_0000;
    Pow2Monotone(8 * |bs|, if |bs| <= 1 then 8 else 24);
  }

  /** Appending a byte to a window is one step of composition. */
  lemma NextByte(m: seq<byte>, a: nat, i: nat)
    requires a + i < |m|
    ensures FromBytes(Window(m, a, i + 1)) == FromBytes(Window(m, a, i)) * 0x100 + m[a + i]
  {
    var next := Window(m, a, i + 1);
    assert next[..i] == Window(m, a, i) && next[i] == m[a + i];
  }

  class MemoryData {
    const isBigEndian: bool
    const size: nat
    const memo: array<byte>

    ghost predicate Valid()
      reads this
    {
      memo.Length == size
    }

    ghost function Contents(): seq<byte>
      reads this, memo
    {
      memo[..]
    }

    /** memory.c:34-44, without allocation failure. */
    constructor (size: nat, isBigEndian: bool)
      ensures Valid() && fresh(memo) && this.size == size && this.isBigEndian == isBigEndian
    {
      this.size := size;
      this.isBigEndian := isBigEndian;
      memo := new byte[size];
    }

    /** memory.c:58-65.  A refused read leaves the caller's variable as it was. */
    method ReadByte(address: word, value0: byte) returns (value: byte, status: int)
      requires Valid()
      ensures address < size ==> status == 0 && [value] == Window(Contents(), address, 1)
      ensures address >= size ==> status == -1 && value == value0
    {
      if address < size {
        return memo[address], 0;
      }
      return value0, -1;
    }

    /** memory.c:67-84 */
    method ReadHalf(address: word, value0: half) returns (value: half, status: int)
      requires Valid() && isBigEndian && Fits(address, 2, size)
      ensures address < size ==> status == 0 && value == FromBytes(Window(Contents(), address, 2))
      ensures address >= size ==> status == -1 && value == value0
    {
      if address < size {
        var tmp2: half := 0;
        var tmp1 := memo[address];
        HalfAccumulates(tmp2, tmp1);
        NextByte(Contents(), address, 0);
        tmp2 := HalfStep(tmp2, tmp1);
        tmp1 := memo[address + 1];
        HalfAccumulates(tmp2, tmp1);
        NextByte(Contents(), address, 1);
        tmp2 := HalfStep(tmp2, tmp1);
        return tmp2, 0;
      }
      return value0, -1;
    }

    /** memory.c:86-105 */
    method ReadWord(address: word, value0: word) returns (value: word, status: int)
      requires Valid() && isBigEndian && Fits(address, 4, size)
      ensures address < size ==> status == 0 && value == FromBytes(Window(Contents(), address, 4))
      ensures address >= size ==> status == -1 && value == value0
    {
      if address < size {
        var tmp1: word, tmp2: word := 0, 0;
        var i := 0;
        while i < 4
          invariant 0 <= i <= 4
          invariant tmp2 == FromBytes(Window(Contents(), address, i))
        {
          tmp1 := memo[address + i];
          RoomForByte(Window(Contents(), address, i));
          Accumulates(tmp2, tmp1);
          NextByte(Contents(), address, i);
          tmp2 := BOr(Shl(tmp2, 8), tmp1);
          i := i + 1;
        }
        return tmp2, 0;
      }
      return value0, -1;
    }

    /** memory.c:107-114 */
    method WriteByte(address: word, value: byte) returns (status: int)
      requires Valid()
      modifies memo
      ensures address < size ==> status == 0 && Contents() == Stored(old(Contents()), address, [value])
      ensures address >= size ==> status == -1 && Contents() == old(Contents())
    {
      if address < size {
        memo[address] := value;
        return 0;
      }
      return -1;
    }

    /** memory.c:116-129 */
    method WriteHalf(address: word, value: half) returns (status: int)
      requires Valid() && isBigEndian && Fits(address, 2, size)
      modifies memo
      ensures address < size ==> status == 0 && Contents() == Stored(old(Contents()), address, ToBytes(value, 2))
      ensures address >= size ==> status == -1 && Contents() == old(Contents())
    {
      if address < size {
        ByteAt(value, 2, 0);
        ByteAt(value, 2, 1);
        memo[address] := Low8(Shr(value, 8));
        memo[address + 1] := Low8(value);
        return 0;
      }
      return -1;
    }

    /** memory.c:131-145 */
    method WriteWord(address: word, value: word) returns (status: int)
      requires Valid() && isBigEndian && Fits(address, 4, size)
      modifies memo
      ensures address < size ==> status == 0 && Contents() == Stored(old(Contents()), address, ToBytes(value, 4))
      ensures address >= size ==> status == -1 && Contents() == old(Contents())
    {
      if address < size {
        ghost var before, bs := memo[..], ToBytes(value, 4);
        var i := 0;
        while i < 4
          invariant 0 <= i <= 4
          invariant forall k :: 0 <= k < size ==>
                      memo[k] == if address <= k < address + i then bs[k - address] else before[k]
        {
          ByteAt(value, 4, i);
          memo[address + i] := Low8(Shr(value, 8 * (3 - i)));
          i := i + 1;
        }
        assert memo[..] == Stored(before, address, bs);
        return 0;
      }
      return -1;
    }
  }
}
