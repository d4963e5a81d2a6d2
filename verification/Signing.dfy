/** Packing and hashing of v3 invoke transactions (SNIP-8, extended with proof facts by SNIP-36). */
module Signing {
  import opened Felts

  type U32 = n: nat | n < 0x1_0000_0000
  type U64 = n: nat | n < 0x1_0000_0000_0000_0000
  type U128 = n: nat | n < 0x1_0000_0000_0000_0000_0000_0000_0000_0000

  const TWO64: nat := 0x1_0000_0000_0000_0000
  const TWO128: nat := 0x1_0000_0000_0000_0000_0000_0000_0000_0000
  const TWO192: nat := 0x1_0000_0000_0000_0000_0000_0000_0000_0000_0000_0000_0000_0000
  const TWO248: nat := 0x1_0000_0000_0000_00_0000_0000_0000_0000_0000_0000_0000_0000_0000_0000_0000_0000

  datatype ResourceBound = ResourceBound(maxAmount: U64, maxPricePerUnit: U128)

  datatype ResourceBounds = ResourceBounds(l1Gas: ResourceBound, l2Gas: ResourceBound, l1DataGas: ResourceBound)

  // ------------------------------------------------------------------------
  // Packing a resource bound
  // ------------------------------------------------------------------------

  function BytesValue(bytes: seq<Byte>): nat {
    if bytes == [] then 0 else 0x100 * BytesValue(bytes[..|bytes| - 1]) + bytes[|bytes| - 1]
  }

  /** At most the first seven bytes of the name, as a big-endian number. */
  function ResourceName(name: seq<Byte>): nat {
    BytesValue(if |name| <= 7 then name else name[..7])
  }

  /** Bitwise or of two unsigned numbers. */
  function BitOr(a: nat, b: nat): nat {
    if a == 0 && b == 0 then 0
    else 2 * BitOr(a / 2, b / 2) + if a % 2 == 1 || b % 2 == 1 then 1 else 0
  }

  /** `concat_resource`: the high 128 bits hold name and amount; the shift by 128 is a field multiplication. */
  function ConcatResource(maxAmount: U64, maxPrice: U128, name: seq<Byte>): Felt {
    var high := BitOr(ResourceName(name) * TWO64, maxAmount);
    var shift := Mul(TWO64, TWO64);
    Add(Mul(FromNat(high), shift), FromNat(maxPrice))
  }

  lemma {:induction false} OrOfDisjoint(a: nat, b: nat, k: nat)
    requires b < Pow(2, k)
    ensures BitOr(a * Pow(2, k), b) == a * Pow(2, k) + b
  {
    if k == 0 {
      OrZero(a);
    } else {
      var p := Pow(2, k - 1);
      assert a * Pow(2, k) == 2 * (a * p);
      OrOfDisjoint(a, b / 2, k - 1);
    }
  }

  lemma {:induction false} OrZero(a: nat)
    ensures BitOr(a, 0) == a
  {
    if a == 0 {
    } else {
      OrZero(a / 2);
    }
  }

  lemma PowersOfTwo()
    ensures Pow(2, 32) == 0x1_0000_0000 && Pow(2, 64) == TWO64
  {
    assert Pow(2, 8) == 0x100;
    PowSum(2, 8, 8);
    assert Pow(2, 16) == 0x1_0000;
    PowSum(2, 16, 16);
    assert Pow(2, 32) == 0x1_0000_0000;
    PowSum(2, 32, 32);
  }

  lemma {:induction false} BytesValueBound(bytes: seq<Byte>)
    ensures BytesValue(bytes) < Pow(0x100, |bytes|)
  {
    if bytes == [] {
    } else {
      BytesValueBound(bytes[..|bytes| - 1]);
    }
  }

  lemma NameFits(name: seq<Byte>)
    ensures ResourceName(name) < 0x1_0000_0000_0000_00
  {
    var kept := if |name| <= 7 then name else name[..7];
    BytesValueBound(kept);
    PowMonotone(|kept|, 7);
    assert Pow(0x100, 7) == 0x1_0000_0000_0000_00;
  }

  lemma {:induction false} PowMonotone(a: nat, b: nat)
    requires a <= b
    ensures Pow(0x100, a) <= Pow(0x100, b)
  {
    if a == b {
    } else {
      PowMonotone(a, b - 1);
    }
  }

  /** Byte i of a big-endian number, counted from the front, is digit i to the base 256. */
  lemma {:induction false} BytesReadBack(bytes: seq<Byte>, i: nat)
    requires i < |bytes|
    ensures Pow(0x100, |bytes| - 1 - i) > 0
    ensures (BytesValue(bytes) / Pow(0x100, |bytes| - 1 - i)) % 0x100 == bytes[i]
  {
    if i == |bytes| - 1 {
      assert Pow(0x100, 0) == 1;
    } else {
      var front := bytes[..|bytes| - 1];
      BytesReadBack(front, i);
      ShiftDown(BytesValue(front), bytes[|bytes| - 1], Pow(0x100, |front| - 1 - i));
    }
  }

  lemma ShiftDown(high: nat, low: Byte, d: nat)
    requires d > 0
    ensures (0x100 * high + low) / (0x100 * d) == high / d
  {
    var q, rest := high / d, high % d;
    MulAssociative(0x100, d, q);
    assert high == d * q + rest;
    DivModUnique(0x100 * high + low, 0x100 * d, q, 0x100 * rest + low);
  }

  /** The name's number has the first seven bytes of the name, or all if there are fewer, as its big-endian digits. */
  lemma NameReadsBack(name: seq<Byte>, i: nat)
    requires i < |name| && i < 7
    ensures var kept: nat := if |name| < 7 then |name| else 7;
            && Pow(0x100, kept - 1 - i) > 0
            && (ResourceName(name) / Pow(0x100, kept - 1 - i)) % 0x100 == name[i]
            && ResourceName(name) < Pow(0x100, kept)
  {
    var kept := if |name| <= 7 then name else name[..7];
    BytesReadBack(kept, i);
    BytesValueBound(kept);
  }

  /** The high 128 bits: or is plain addition here, and nothing overflows. */
  lemma HighHalf(maxAmount: U64, name: seq<Byte>)
    ensures BitOr(ResourceName(name) * TWO64, maxAmount) == ResourceName(name) * TWO64 + maxAmount
    ensures ResourceName(name) * TWO64 + maxAmount < 0x1_0000_0000_0000_00 * TWO64
  {
    NameFits(name);
    PowersOfTwo();
    OrOfDisjoint(ResourceName(name), maxAmount, 64);
  }

  /** A shift by 128 of a number below 2^120, plus a number below 2^128, stays inside the field. */
  lemma ShiftIsExact(high: nat, low: U128)
    requires high < 0x1_0000_0000_0000_00 * TWO64
    ensures high * TWO128 + low < TWO248 < PRIME
    ensures Add(Mul(FromNat(high), Mul(TWO64, TWO64)), FromNat(low)) == high * TWO128 + low
  {
    assert Mul(TWO64, TWO64) == TWO128;
    assert FromNat(high) == high && FromNat(low) == low;
    assert Mul(high, TWO128) == high * TWO128;
  }

  lemma ReadBack(n: nat, amount: U64, price: U128)
    ensures var v := n * TWO192 + amount * TWO128 + price;
            v % TWO128 == price && (v / TWO128) % TWO64 == amount && v / TWO192 == n
  {
    var v := n * TWO192 + amount * TWO128 + price;
    DivModUnique(v, TWO128, n * TWO64 + amount, price);
    DivModUnique(n * TWO64 + amount, TWO64, n, amount);
    DivModUnique(v, TWO192, n, amount * TWO128 + price);
  }

  /** Packing never wraps the field: it is the plain sum, below 2^248, and all three parts can be read back. */
  lemma PackingIsExact(maxAmount: U64, maxPrice: U128, name: seq<Byte>)
    ensures ConcatResource(maxAmount, maxPrice, name) == ResourceName(name) * TWO192 + maxAmount * TWO128 + maxPrice
    ensures ConcatResource(maxAmount, maxPrice, name) < TWO248 < PRIME
    ensures ConcatResource(maxAmount, maxPrice, name) % TWO128 == maxPrice
    ensures (ConcatResource(maxAmount, maxPrice, name) / TWO128) % TWO64 == maxAmount
    ensures ConcatResource(maxAmount, maxPrice, name) / TWO192 == ResourceName(name)
  {
    hide BitOr;
    hide ResourceName;
    hide Add;
    hide Mul;
    hide FromNat;
    var n := ResourceName(name);
    HighHalf(maxAmount, name);
    ShiftIsExact(n * TWO64 + maxAmount, maxPrice);
    assert (n * TWO64 + maxAmount) * TWO128 == n * TWO192 + maxAmount * TWO128;
    ReadBack(n, maxAmount, maxPrice);
  }

  /** Equal packings of one resource come from equal bounds. */
  lemma PackingInjective(a: ResourceBound, b: ResourceBound, name: seq<Byte>)
    requires ConcatResource(a.maxAmount, a.maxPricePerUnit, name) == ConcatResource(b.maxAmount, b.maxPricePerUnit, name)
    ensures a == b
  {
    PackingIsExact(a.maxAmount, a.maxPricePerUnit, name);
    PackingIsExact(b.maxAmount, b.maxPricePerUnit, name);
  }

  // ------------------------------------------------------------------------
  // The transaction hash
  // ------------------------------------------------------------------------

  /** The ASCII bytes of "L1_GAS", "L2_GAS", "L1_DATA" and "invoke". */
  const L1_GAS: seq<Byte> := [0x4c, 0x31, 0x5f, 0x47, 0x41, 0x53]
  const L2_GAS: seq<Byte> := [0x4c, 0x32, 0x5f, 0x47, 0x41, 0x53]
  const L1_DATA: seq<Byte> := [0x4c, 0x31, 0x5f, 0x44, 0x41, 0x54, 0x41]
  const INVOKE: seq<Byte> := [0x69, 0x6e, 0x76, 0x6f, 0x6b, 0x65]

  datatype InvokeTx = InvokeTx(
    senderAddress: Felt,
    calldata: seq<Felt>,
    chainId: Felt,
    nonce: Felt,
    tip: Felt,
    resourceBounds: ResourceBounds,
    paymasterData: seq<Felt>,
    accountDeploymentData: seq<Felt>,
    nonceDaMode: U32,
    feeDaMode: U32,
    proofFacts: seq<Felt>)

  type HashMany = seq<Felt> -> Felt

  function FeltFromBytes(bytes: seq<Byte>): Felt {
    FromNat(BytesValue(bytes))
  }

  function TipAndBounds(tip: Felt, bounds: ResourceBounds): seq<Felt> {
    [tip,
     ConcatResource(bounds.l1Gas.maxAmount, bounds.l1Gas.maxPricePerUnit, L1_GAS),
     ConcatResource(bounds.l2Gas.maxAmount, bounds.l2Gas.maxPricePerUnit, L2_GAS),
     ConcatResource(bounds.l1DataGas.maxAmount, bounds.l1DataGas.maxPricePerUnit, L1_DATA)]
  }

  /** Both modes in one number, the nonce mode in the high half. */
  function DaModes(nonceDaMode: U32, feeDaMode: U32): Felt {
    FromNat(BitOr(nonceDaMode * 0x1_0000_0000, feeDaMode))
  }

  function Preimage(poseidon: HashMany, tx: InvokeTx): seq<Felt> {
    [FeltFromBytes(INVOKE), 3, tx.senderAddress,
     poseidon(TipAndBounds(tx.tip, tx.resourceBounds)),
     poseidon(tx.paymasterData),
     tx.chainId, tx.nonce,
     DaModes(tx.nonceDaMode, tx.feeDaMode),
     poseidon(tx.accountDeploymentData),
     poseidon(tx.calldata)]
    + if tx.proofFacts == [] then [] else [poseidon(tx.proofFacts)]
  }

  function TxHash(poseidon: HashMany, tx: InvokeTx): Felt {
    poseidon(Preimage(poseidon, tx))
  }

  // ------------------------------------------------------------------------
  // The layout of what is hashed
  // ------------------------------------------------------------------------

  /** The four ASCII names as numbers. */
  lemma NamesAsNumbers()
    ensures ResourceName(L1_GAS) == 0x4c31_5f47_4153 && ResourceName(L2_GAS) == 0x4c32_5f47_4153
    ensures ResourceName(L1_DATA) == 0x4c31_5f44_4154_41 && FeltFromBytes(INVOKE) == 0x696e_766f_6b65
  {
    SixBytes(L1_GAS);
    SixBytes(L2_GAS);
    SixBytes(INVOKE);
    SixBytes(L1_DATA[..6]);
    assert BytesValue(L1_DATA) == 0x100 * BytesValue(L1_DATA[..6]) + L1_DATA[6];
  }

  lemma SixBytes(b: seq<Byte>)
    requires |b| == 6
    ensures BytesValue(b)
            == 0x100_0000_0000 * (b[0] as int) + 0x1_0000_0000 * (b[1] as int) + 0x100_0000 * (b[2] as int)
               + 0x1_0000 * (b[3] as int) + 0x100 * (b[4] as int) + b[5]
  {
    assert BytesValue(b) == 0x100 * BytesValue(b[..5]) + b[5];
    assert b[..5][..4] == b[..4] && b[..4][..3] == b[..3] && b[..3][..2] == b[..2] && b[..2][..1] == b[..1] && b[..1][..0] == [];
    assert BytesValue(b[..5]) == 0x100 * BytesValue(b[..4]) + b[4];
    assert BytesValue(b[..4]) == 0x100 * BytesValue(b[..3]) + b[3];
    assert BytesValue(b[..3]) == 0x100 * BytesValue(b[..2]) + b[2];
    assert BytesValue(b[..2]) == 0x100 * BytesValue(b[..1]) + b[1];
    assert BytesValue(b[..1]) == b[0];
  }

  /** A packed bound: the name, then the 64-bit amount, then the 128-bit price. */
  function Packed(name: nat, bound: ResourceBound): nat {
    name * 0x1_0000_0000_0000_0000_0000_0000_0000_0000_0000_0000_0000_0000
    + bound.maxAmount * 0x1_0000_0000_0000_0000_0000_0000_0000_0000 + bound.maxPricePerUnit
  }

  /** SNIP-8 with the SNIP-36 tail, position by position: "invoke", the version, the sender, the hash of tip and the L1, L2
      and L1-data bounds in this order, the hash of the paymaster data, the chain id, the nonce, both data availability
      modes in one number, the hashes of deployment data and calldata, and the hash of the proof facts if there are any. */
  lemma HashLayout(poseidon: HashMany, tx: InvokeTx)
    ensures var b := tx.resourceBounds;
            var l1, l2, data :=
              Packed(0x4c31_5f47_4153, b.l1Gas), Packed(0x4c32_5f47_4153, b.l2Gas), Packed(0x4c31_5f44_4154_41, b.l1DataGas);
            var modes := tx.nonceDaMode * 0x1_0000_0000 + tx.feeDaMode;
            && l1 < PRIME && l2 < PRIME && data < PRIME && modes < PRIME
            && TxHash(poseidon, tx)
               == poseidon(
                    [0x696e_766f_6b65, 3, tx.senderAddress, poseidon([tx.tip, l1, l2, data]), poseidon(tx.paymasterData),
                     tx.chainId, tx.nonce, modes, poseidon(tx.accountDeploymentData), poseidon(tx.calldata)]
                    + if |tx.proofFacts| > 0 then [poseidon(tx.proofFacts)] else [])
  {
    var b := tx.resourceBounds;
    PackingIsExact(b.l1Gas.maxAmount, b.l1Gas.maxPricePerUnit, L1_GAS);
    PackingIsExact(b.l2Gas.maxAmount, b.l2Gas.maxPricePerUnit, L2_GAS);
    PackingIsExact(b.l1DataGas.maxAmount, b.l1DataGas.maxPricePerUnit, L1_DATA);
    NamesAsNumbers();
    DaModesExact(tx.nonceDaMode, tx.feeDaMode);
    hide ConcatResource;
    hide ResourceName;
    hide FeltFromBytes;
    hide DaModes;
  }

  /** A chain id of at most 31 bytes is the big-endian number of its bytes. */
  lemma ChainIdReadsBack(bytes: seq<Byte>, i: nat)
    requires i < |bytes| <= 31
    ensures Pow(0x100, |bytes| - 1 - i) > 0
    ensures (FeltFromBytes(bytes) / Pow(0x100, |bytes| - 1 - i)) % 0x100 == bytes[i]
    ensures FeltFromBytes(bytes) < Pow(0x100, |bytes|)
  {
    ShortNumberFits(bytes);
    hide *;
    BytesReadBack(bytes, i);
    BytesValueBound(bytes);
  }

  lemma ShortNumberFits(bytes: seq<Byte>)
    requires |bytes| <= 31
    ensures FeltFromBytes(bytes) == BytesValue(bytes)
  {
    hide Pow;
    hide BytesValue;
    BytesValueBound(bytes);
    PowMonotone(|bytes|, 31);
    ThirtyOneBytes();
  }

  lemma ThirtyOneBytes()
    ensures Pow(0x100, 31) < PRIME
  {
    NumberOf8Bytes();
    assert Pow(0x100, 7) == 0x1_0000_0000_0000_00;
    hide Pow;
    PowSum(0x100, 8, 8);
    PowSum(0x100, 16, 8);
    PowSum(0x100, 24, 7);
  }

  lemma NumberOf8Bytes()
    ensures Pow(0x100, 8) == TWO64
  {
  }

  // ------------------------------------------------------------------------
  // The hash binds every field
  // ------------------------------------------------------------------------

  /** Every sequence that is fed to the hash while hashing this transaction. */
  function HashInputs(poseidon: HashMany, tx: InvokeTx): seq<seq<Felt>> {
    [Preimage(poseidon, tx), TipAndBounds(tx.tip, tx.resourceBounds), tx.paymasterData, tx.accountDeploymentData,
     tx.calldata]
    + if tx.proofFacts == [] then [] else [tx.proofFacts]
  }

  /** Two different inputs with one digest, one from each list. */
  ghost predicate Collision(poseidon: HashMany, a: seq<seq<Felt>>, b: seq<seq<Felt>>) {
    exists x, y :: x in a && y in b && x != y && poseidon(x) == poseidon(y)
  }

  lemma SameOrCollision(poseidon: HashMany, a: seq<seq<Felt>>, b: seq<seq<Felt>>, x: seq<Felt>, y: seq<Felt>)
    requires x in a && y in b && poseidon(x) == poseidon(y)
    ensures x == y || Collision(poseidon, a, b)
  {
  }

  lemma DaModesExact(a: U32, b: U32)
    ensures DaModes(a, b) == a * 0x1_0000_0000 + b
  {
    hide BitOr;
    PowersOfTwo();
    OrOfDisjoint(a, b, 32);
  }

  lemma DaModesInjective(a: U32, b: U32, c: U32, d: U32)
    requires DaModes(a, b) == DaModes(c, d)
    ensures a == c && b == d
  {
    hide DaModes;
    DaModesExact(a, b);
    DaModesExact(c, d);
    DivModUnique(DaModes(a, b), 0x1_0000_0000, a, b);
    DivModUnique(DaModes(a, b), 0x1_0000_0000, c, d);
  }

  lemma TipAndBoundsInjective(s: Felt, a: ResourceBounds, t: Felt, b: ResourceBounds)
    requires TipAndBounds(s, a) == TipAndBounds(t, b)
    ensures s == t && a == b
  {
    var x, y := TipAndBounds(s, a), TipAndBounds(t, b);
    assert x[0] == y[0] && x[1] == y[1] && x[2] == y[2] && x[3] == y[3];
    PackingInjective(a.l1Gas, b.l1Gas, L1_GAS);
    PackingInjective(a.l2Gas, b.l2Gas, L2_GAS);
    PackingInjective(a.l1DataGas, b.l1DataGas, L1_DATA);
  }

  /** Equal hashes come from equal transactions, down to every field and to proof facts being empty or not, or the
      inputs hashed for the two transactions hold a collision. */
  lemma HashBindsEveryField(poseidon: HashMany, tx: InvokeTx, other: InvokeTx)
    requires TxHash(poseidon, tx) == TxHash(poseidon, other)
    ensures tx == other || Collision(poseidon, HashInputs(poseidon, tx), HashInputs(poseidon, other))
  {
    var a, b := HashInputs(poseidon, tx), HashInputs(poseidon, other);
    if !Collision(poseidon, a, b) {
      var p, q := Preimage(poseidon, tx), Preimage(poseidon, other);
      assert a[0] == p && b[0] == q;
      SameOrCollision(poseidon, a, b, p, q);
      PreimageParts(poseidon, tx, other);
      assert a[1] in a && b[1] in b && a[2] in a && b[2] in b && a[3] in a && b[3] in b && a[4] in a && b[4] in b;
      TipAndBoundsInjective(tx.tip, tx.resourceBounds, other.tip, other.resourceBounds);
      DaModesInjective(tx.nonceDaMode, tx.feeDaMode, other.nonceDaMode, other.feeDaMode);
      if tx.proofFacts != [] {
        assert a[5] in a && b[5] in b;
      }
    }
  }

  lemma PreimageParts(poseidon: HashMany, tx: InvokeTx, other: InvokeTx)
    requires Preimage(poseidon, tx) == Preimage(poseidon, other)
    ensures tx.senderAddress == other.senderAddress && tx.chainId == other.chainId && tx.nonce == other.nonce
    ensures poseidon(TipAndBounds(tx.tip, tx.resourceBounds)) == poseidon(TipAndBounds(other.tip, other.resourceBounds))
    ensures poseidon(tx.paymasterData) == poseidon(other.paymasterData)
    ensures DaModes(tx.nonceDaMode, tx.feeDaMode) == DaModes(other.nonceDaMode, other.feeDaMode)
    ensures poseidon(tx.accountDeploymentData) == poseidon(other.accountDeploymentData)
    ensures poseidon(tx.calldata) == poseidon(other.calldata)
    ensures tx.proofFacts == [] <==> other.proofFacts == []
    ensures tx.proofFacts != [] ==> poseidon(tx.proofFacts) == poseidon(other.proofFacts)
  {
    var p, q := Preimage(poseidon, tx), Preimage(poseidon, other);
    assert |p| == |q|;
    assert p[2] == q[2] && p[3] == q[3] && p[4] == q[4] && p[5] == q[5] && p[6] == q[6];
    assert p[7] == q[7] && p[8] == q[8] && p[9] == q[9];
    if tx.proofFacts != [] {
      assert p[10] == q[10];
    }
  }
}
