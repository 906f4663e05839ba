/**
 * hash_ex, the custom hash function the switch registers with the
 * match-action engine (model/p4-model.cc): a 32-bit FNV-1a loop over the
 * buffer's chars followed by a shift-add/shift-xor avalanche. The chars are
 * signed, so a byte of 0x80 or above is sign-extended before the xor.
 */
module HashEx {

  const FNV_PRIME: bv32 := 16777619
  const FNV_OFFSET: bv32 := 2166136261

  /** A signed char widened to 32 bits, as the xor with the uint32_t state does. */
  function SignExtend(b: bv8): (w: bv32)
    ensures b < 0x80 ==> w as int == b as int
    ensures b >= 0x80 ==> w as int == b as int - 256 + 0x1_0000_0000
  {
    if b < 0x80 then b as bv32 else 0xFFFF_FF00 | b as bv32
  }

  /** One FNV-1a round: xor in a 32-bit value, multiply by the prime. */
  function Round(h: bv32, w: bv32): bv32 {
    (h ^ w) * FNV_PRIME
  }

  /** One iteration of the hashing loop: the char is sign-extended first. */
  function Step(h: bv32, b: bv8): bv32 {
    Round(h, SignExtend(b))
  }

  /** The state after the loop has consumed buf, starting from h. */
  function FoldFrom(h: bv32, buf: seq<bv8>): (r: bv32)
    ensures buf != [] ==> r == FoldFrom(Step(h, buf[0]), buf[1..])
    decreases |buf|
  {
    if buf == [] then h
    else
      var pre := buf[..|buf| - 1];
      assert pre != [] ==> pre[1..] == buf[1..][..|buf[1..]| - 1];
      Step(FoldFrom(h, pre), buf[|buf| - 1])
  }

  /** hash += hash << k */
  function AddShl(h: bv32, k: nat): bv32
    requires k < 32
  {
    h + (h << k)
  }

  /** hash ^= hash >> k */
  function XorShr(h: bv32, k: nat): bv32
    requires k < 32
  {
    h ^ (h >> k)
  }

  /** The five shift steps after the loop. */
  function Finalize(h: bv32): bv32 {
    AddShl(XorShr(AddShl(XorShr(AddShl(h, 13), 7), 3), 17), 5)
  }

  method Hash(buf: seq<bv8>) returns (hash: bv32)
    ensures hash == Finalize(FoldFrom(FNV_OFFSET, buf))
  {
    hash := FNV_OFFSET;
    var i := 0;
    while i < |buf|
      invariant i <= |buf| && hash == FoldFrom(FNV_OFFSET, buf[..i])
    {
      assert buf[..i + 1][..i] == buf[..i];
      hash := Round(hash, SignExtend(buf[i]));
      i := i + 1;
    }
    assert buf[..i] == buf;
    hash := AddShl(hash, 13);
    hash := XorShr(hash, 7);
    hash := AddShl(hash, 3);
    hash := XorShr(hash, 17);
    hash := AddShl(hash, 5);
  }

  /** The loop can be resumed: hashing a then b is hashing b from a's state. */
  lemma {:induction false} FoldFromConcat(h: bv32, a: seq<bv8>, b: seq<bv8>)
    ensures FoldFrom(h, a + b) == FoldFrom(FoldFrom(h, a), b)
  {
    if b == [] {
      assert a + b == a;
    } else {
      FoldFromConcat(h, a, b[..|b| - 1]);
      assert (a + b)[..|a + b| - 1] == a + b[..|b| - 1];
    }
  }

  // ---------------------------------------------------------------------------
  // Reference: textbook 32-bit FNV-1a over unsigned bytes
  // ---------------------------------------------------------------------------

  function Fnv1a(h: bv32, buf: seq<bv8>): bv32
  {
    if buf == [] then h else Round(Fnv1a(h, buf[..|buf| - 1]), buf[|buf| - 1] as bv32)
  }

  /** On 7-bit (ASCII) input the loop is exactly FNV-1a. */
  lemma {:induction false} FoldIsFnv1aOnAscii(h: bv32, buf: seq<bv8>)
    requires forall i :: 0 <= i < |buf| ==> buf[i] < 0x80
    ensures FoldFrom(h, buf) == Fnv1a(h, buf)
  {
    if buf != [] {
      FoldIsFnv1aOnAscii(h, buf[..|buf| - 1]);
    }
  }

  /** With a byte of 0x80 or above the two differ: the single byte 0x80 already shows it. */
  lemma SignedCharDiffers()
    ensures FoldFrom(FNV_OFFSET, [0x80]) != Fnv1a(FNV_OFFSET, [0x80])
  {
    assert [0x80 as bv8][..0] == [];
  }
}
