/** Whole runs of memory accesses against the last byte written at each address. */
module MemoryRuns {
  import opened Words
  import opened Memory

  datatype Width = Byte | Half | Word

  function Bytes(w: Width): nat {
    match w case Byte => 1 case Half => 2 case Word => 4
  }

  /** A write of the low bytes of v, at any alignment and at any address. */
  datatype Store = Store(a: word, w: Width, v: word)

  predicate Covers(op: Store, a: nat) {
    op.a <= a < op.a + Bytes(op.w)
  }

  predicate AllFit(ops: seq<Store>, size: nat) {
    forall k :: 0 <= k < |ops| ==> Fits(ops[k].a, Bytes(ops[k].w), size)
  }

  /** The buffer after the writes, each as the write methods leave it; some are refused. */
  function Run(m: seq<byte>, ops: seq<Store>): (r: seq<byte>)
    requires AllFit(ops, |m|)
    ensures |r| == |m|
    decreases |ops|
  {
    if ops == [] then m
    else
      var op, before := ops[|ops| - 1], Run(m, ops[..|ops| - 1]);
      if op.a < |m| then Stored(before, op.a, ToBytes(op.v, Bytes(op.w))) else before
  }

  /** The reference: search the log backwards for the last write that covers an address. */
  function LastByte(m: seq<byte>, ops: seq<Store>, a: nat): byte
    requires a < |m|
    decreases |ops|
  {
    if ops == [] then m[a]
    else
      var op := ops[|ops| - 1];
      QuotShrinks(op.v, 8 * (if Covers(op, a) then op.a + Bytes(op.w) - 1 - a else 0));
      if Covers(op, a) then Low8(Quot(op.v, 8 * (op.a + Bytes(op.w) - 1 - a)))
      else LastByte(m, ops[..|ops| - 1], a)
  }

  /** After every run each byte is the one last written there, or the initial one. */
  lemma {:induction false} RunBytes(m: seq<byte>, ops: seq<Store>, a: nat)
    requires AllFit(ops, |m|) && a < |m|
    ensures Run(m, ops)[a] == LastByte(m, ops, a)
    decreases |ops|
  {
    if ops != [] {
      var op, front := ops[|ops| - 1], ops[..|ops| - 1];
      RunBytes(m, front, a);
      if Covers(op, a) {
        ByteAt(op.v, Bytes(op.w), a - op.a);
      }
    }
  }

  /** The value an access of w bytes at a must deliver, byte by byte from the log. */
  function Expected(m: seq<byte>, ops: seq<Store>, a: nat, w: nat): nat
    requires a + w <= |m|
    decreases w
  {
    if w == 0 then 0 else Expected(m, ops, a, w - 1) * 0x100 + LastByte(m, ops, a + w - 1)
  }

  /**
    Every read after every run, unaligned and overlapping writes included, is the
    big-endian composition of the bytes last written.
   */
  lemma {:induction false} ReadAfterRun(m: seq<byte>, ops: seq<Store>, a: nat, w: nat)
    requires AllFit(ops, |m|) && a + w <= |m|
    ensures FromBytes(Window(Run(m, ops), a, w)) == Expected(m, ops, a, w)
    decreases w
  {
    if w > 0 {
      ReadAfterRun(m, ops, a, w - 1);
      RunBytes(m, ops, a + w - 1);
      var bs := Window(Run(m, ops), a, w);
      assert bs[..w - 1] == Window(Run(m, ops), a, w - 1);
    }
  }

  /** A value stored is read back, whatever was there. */
  lemma StoreThenLoad(m: seq<byte>, a: nat, v: nat, w: nat)
    requires a + w <= |m| && v < Pow2(8 * w)
    ensures FromBytes(Window(Stored(m, a, ToBytes(v, w)), a, w)) == v
  {
    assert Window(Stored(m, a, ToBytes(v, w)), a, w) == ToBytes(v, w);
    BytesRoundTrip(v, w);
  }

  /** Storing a value just loaded changes nothing. */
  lemma LoadThenStore(m: seq<byte>, a: nat, w: nat)
    requires a + w <= |m|
    ensures Stored(m, a, ToBytes(FromBytes(Window(m, a, w)), w)) == m
  {
    ValueRoundTrip(Window(m, a, w));
  }

  /** A word is its two halves. */
  lemma WordIsTwoHalves(m: seq<byte>, a: nat)
    requires a + 4 <= |m|
    ensures FromBytes(Window(m, a, 4)) ==
            FromBytes(Window(m, a, 2)) * 0x1_0000 + FromBytes(Window(m, a + 2, 2))
  {
    NextByte(m, a, 3);
    NextByte(m, a, 2);
    NextByte(m, a + 2, 1);
    NextByte(m, a + 2, 0);
  }
}
