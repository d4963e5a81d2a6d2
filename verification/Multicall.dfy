/** Account calldata with several calls, and the counter contract those calls run on. */
module Multicall {
  import opened Felts
  import opened Signing
  import opened Payloads

  datatype Call = Call(to: Felt, selector: Felt, args: seq<Felt>)

  /** The texts of the two selectors are these numbers in lower-case hex. */
  const INCREMENT_SELECTOR: Felt := 0x7a44dde9fea32737a5cf3f9683b3235138654aa2d189f6fe44af37a61dc60d
  const PLAY_SELECTOR: Felt := 0x21c4a0db2b08b026c4e31bf76d5dd9b92aa54c0978df57474355786073775e8

  // ------------------------------------------------------------------------
  // Decoding account calldata
  // ------------------------------------------------------------------------

  /** Exactly n calls, each an address, a selector, an argument count and the arguments, and nothing after them. */
  function DecodeCalls(n: nat, felts: seq<Felt>): Option<seq<Call>> {
    if n == 0 then (if felts == [] then Some([]) else None)
    else if |felts| < 3 || |felts| - 3 < felts[2] then None
    else
      match DecodeCalls(n - 1, felts[3 + felts[2]..])
      case None => None
      case Some(rest) => Some([Call(felts[0], felts[1], felts[3..3 + felts[2]])] + rest)
  }

  function DecodeCalldata(felts: seq<Felt>): Option<seq<Call>> {
    if felts == [] then None else DecodeCalls(felts[0], felts[1..])
  }

  // ------------------------------------------------------------------------
  // Building the increment multicall
  // ------------------------------------------------------------------------

  function CallTexts(contract: string, amount: U64): seq<string> {
    [contract, ToHex(INCREMENT_SELECTOR), ToHex(1), ToHex(amount)]
  }

  function Repeated<T>(part: seq<T>, n: nat): seq<T> {
    if n == 0 then [] else Repeated(part, n - 1) + part
  }

  method BuildIncrementCalls(contract: string, amount: U64, count: U32) returns (texts: seq<string>)
    ensures texts == [ToHex(count)] + Repeated(CallTexts(contract, amount), count)
  {
    hide ToHex;
    texts := [ToHex(count)];
    for i := 0 to count
      invariant texts == [ToHex(count)] + Repeated(CallTexts(contract, amount), i)
    {
      ghost var before := texts;
      texts := texts + [contract];
      texts := texts + [ToHex(INCREMENT_SELECTOR)];
      texts := texts + [ToHex(1)];
      texts := texts + [ToHex(amount)];
      assert texts == before + CallTexts(contract, amount);
    }
  }

  /** The calldata the handler hashes, or none when the contract address does not parse. */
  function IncrementCalldata(contract: string, amount: U64, count: U32): Option<seq<Felt>> {
    ParseAll([ToHex(count)] + Repeated(CallTexts(contract, amount), count))
  }

  function CallFelts(contract: Felt, amount: U64): seq<Felt> {
    [contract, INCREMENT_SELECTOR, 1, amount]
  }

  function CallOf(contract: Felt, amount: U64): Call {
    Call(contract, INCREMENT_SELECTOR, [amount])
  }

  function JoinParsed(a: Option<seq<Felt>>, b: Option<seq<Felt>>): Option<seq<Felt>> {
    if a.Some? && b.Some? then Some(a.value + b.value) else None
  }

  lemma {:induction false} ParseAllConcat(a: seq<string>, b: seq<string>)
    ensures ParseAll(a + b) == JoinParsed(ParseAll(a), ParseAll(b))
  {
    hide FeltFromHex;
    if b == [] {
      assert a + b == a;
      assert ParseAll(b) == Some([]);
      assert ParseAll(a).Some? ==> ParseAll(a).value + [] == ParseAll(a).value;
    } else {
      var ab, front, last := a + b, b[..|b| - 1], b[|b| - 1];
      ParseAllConcat(a, front);
      assert ab[..|ab| - 1] == a + front && ab[|ab| - 1] == last;
      ParseAllSnoc(a + front, last);
      ParseAllSnoc(front, last);
      assert ab == (a + front) + [last] && b == front + [last];
      if ParseAll(a).Some? && ParseAll(front).Some? && FeltFromHex(last).Some? {
        JoinAssociative(ParseAll(a), ParseAll(front), FeltFromHex(last));
      }
    }
  }

  lemma JoinAssociative(a: Option<seq<Felt>>, b: Option<seq<Felt>>, c: Option<Felt>)
    requires a.Some? && b.Some? && c.Some?
    ensures (a.value + b.value) + [c.value] == a.value + (b.value + [c.value])
  {
  }

  lemma ParseAllSnoc(front: seq<string>, last: string)
    ensures ParseAll(front + [last])
            == if ParseAll(front).Some? && FeltFromHex(last).Some?
               then Some(ParseAll(front).value + [FeltFromHex(last).value]) else None
  {
    hide FeltFromHex;
    assert (front + [last])[..|front|] == front;
  }

  lemma ParseOne(text: string)
    ensures ParseAll([text]) == if FeltFromHex(text).Some? then Some([FeltFromHex(text).value]) else None
  {
    hide FeltFromHex;
    ParseAllSnoc([], text);
    assert [] + [text] == [text];
    assert FeltFromHex(text).Some? ==> [] + [FeltFromHex(text).value] == [FeltFromHex(text).value];
  }

  lemma ParseCallTexts(contract: string, amount: U64)
    ensures ParseAll(CallTexts(contract, amount))
            == if FeltFromHex(contract).Some? then Some(CallFelts(FeltFromHex(contract).value, amount)) else None
  {
    hide FeltFromHex;
    hide ToHex;
    FeltRoundTrip(INCREMENT_SELECTOR);
    FeltRoundTrip(1);
    FeltRoundTrip(amount);
    var a, b, c, d := [contract], [ToHex(INCREMENT_SELECTOR)], [ToHex(1)], [ToHex(amount)];
    ParseOne(contract);
    ParseOne(ToHex(INCREMENT_SELECTOR));
    ParseOne(ToHex(1));
    ParseOne(ToHex(amount));
    hide ParseAll;
    ParseAllConcat(a, b);
    ParseAllConcat(a + b, c);
    ParseAllConcat(a + b + c, d);
    assert CallTexts(contract, amount) == a + b + c + d;
    if FeltFromHex(contract).Some? {
      var to := FeltFromHex(contract).value;
      assert CallFelts(to, amount) == [to] + [INCREMENT_SELECTOR] + [1] + [amount];
    }
  }

  lemma {:induction false} ParseRepeated(contract: string, amount: U64, n: nat)
    ensures ParseAll(Repeated(CallTexts(contract, amount), n))
            == if n == 0 then Some([])
               else if FeltFromHex(contract).Some? then Some(Repeated(CallFelts(FeltFromHex(contract).value, amount), n))
               else None
  {
    hide FeltFromHex;
    hide CallTexts;
    hide CallFelts;
    if n == 0 {
    } else {
      ParseRepeated(contract, amount, n - 1);
      ParseCallTexts(contract, amount);
      ParseAllConcat(Repeated(CallTexts(contract, amount), n - 1), CallTexts(contract, amount));
    }
  }

  lemma {:induction false} RepeatedFront<T>(part: seq<T>, n: nat)
    ensures Repeated(part, n + 1) == part + Repeated(part, n)
  {
    if n == 0 {
    } else {
      RepeatedFront(part, n - 1);
    }
  }

  lemma {:induction false} DecodeRepeated(contract: Felt, amount: U64, n: nat)
    ensures DecodeCalls(n, Repeated(CallFelts(contract, amount), n)) == Some(Repeated([CallOf(contract, amount)], n))
  {
    if n == 0 {
    } else {
      var felts := Repeated(CallFelts(contract, amount), n);
      RepeatedFront(CallFelts(contract, amount), n - 1);
      RepeatedFront([CallOf(contract, amount)], n - 1);
      DecodeRepeated(contract, amount, n - 1);
      assert felts[4..] == Repeated(CallFelts(contract, amount), n - 1);
      assert felts[3..4] == [amount];
    }
  }

  /** The calldata exists exactly when the contract parses or there is no call to make, and it decodes to exactly `count`
      calls `increment(amount)` on the contract, with nothing left over. */
  lemma CalldataDecodes(contract: string, amount: U64, count: U32)
    ensures var felts := IncrementCalldata(contract, amount, count);
            && (felts.Some? <==> count == 0 || FeltFromHex(contract).Some?)
            && (felts.Some? ==>
                  var calls := DecodeCalldata(felts.value);
                  && calls.Some? && |calls.value| == count
                  && forall i :: 0 <= i < count ==>
                       calls.value[i]
                       == Call(FeltFromHex(contract).value,
                            0x7a44dde9fea32737a5cf3f9683b3235138654aa2d189f6fe44af37a61dc60d, [amount]))
  {
    CalldataRepeats(contract, amount, count);
    if count > 0 && FeltFromHex(contract).Some? {
      RepeatedOne(CallOf(FeltFromHex(contract).value, amount), count);
    }
    hide *;
  }

  lemma {:induction false} RepeatedOne<T>(x: T, n: nat)
    ensures |Repeated([x], n)| == n && forall i :: 0 <= i < n ==> Repeated([x], n)[i] == x
  {
    if n == 0 {
    } else {
      RepeatedOne(x, n - 1);
    }
  }

  lemma CalldataRepeats(contract: string, amount: U64, count: U32)
    ensures var felts := IncrementCalldata(contract, amount, count);
            && (felts.Some? <==> count == 0 || FeltFromHex(contract).Some?)
            && (felts.Some? ==>
                  DecodeCalldata(felts.value)
                  == Some(if count == 0 then [] else Repeated([CallOf(FeltFromHex(contract).value, amount)], count)))
  {
    hide FeltFromHex;
    hide ToHex;
    ParseRepeated(contract, amount, count);
    ParseAllConcat([ToHex(count)], Repeated(CallTexts(contract, amount), count));
    ParseOne(ToHex(count));
    FeltRoundTrip(count);
    if count == 0 {
      assert IncrementCalldata(contract, amount, count) == Some([0] + []);
      assert ([0] + [])[1..] == [];
    } else if FeltFromHex(contract).Some? {
      var to := FeltFromHex(contract).value;
      DecodeRepeated(to, amount, count);
      assert IncrementCalldata(contract, amount, count) == Some([count] + Repeated(CallFelts(to, amount), count));
      assert ([count] + Repeated(CallFelts(to, amount), count))[1..] == Repeated(CallFelts(to, amount), count);
    }
  }

  // ------------------------------------------------------------------------
  // Running the calls
  // ------------------------------------------------------------------------

  /** The stored counters of the deployed counter contracts. */
  type Counters = map<Felt, Felt>

  /** `increment` adds to the stored counter; any other call fails, and so does the whole transaction. */
  function RunCalls(calls: seq<Call>, counters: Counters): Option<Counters> {
    if calls == [] then Some(counters)
    else
      var call := calls[0];
      if call.to in counters && call.selector == INCREMENT_SELECTOR && |call.args| == 1 then
        RunCalls(calls[1..], counters[call.to := Add(counters[call.to], call.args[0])])
      else None
  }

  /** n times the amount. */
  function Times(n: nat, amount: nat): nat {
    n * amount
  }

  lemma TimesStep(n: nat, amount: nat)
    ensures Times(n + 1, amount) == amount + Times(n, amount)
    ensures Times(0, amount) == 0
  {
  }

  lemma AddMany(c: Felt, amount: U64, n: nat)
    ensures FromNat(Add(c, amount) + Times(n, amount)) == FromNat(c + Times(n + 1, amount))
  {
    hide Times;
    TimesStep(n, amount);
    ModShift(c + amount, Times(n, amount));
  }

  lemma ModShift(x: nat, y: nat)
    ensures FromNat(FromNat(x) + y) == FromNat(x + y)
  {
    var q := x / PRIME;
    assert x + y == PRIME * q + (x % PRIME + y);
    ModPlusMultiple(x % PRIME + y, q);
  }

  lemma ModPlusMultiple(z: nat, q: nat)
    ensures (PRIME * q + z) % PRIME == z % PRIME
  {
    DivModUnique(PRIME * q + z, PRIME, q + z / PRIME, z % PRIME);
  }

  lemma {:induction false} RunIncrements(contract: Felt, amount: U64, n: nat, counters: Counters)
    requires contract in counters
    ensures RunCalls(Repeated([CallOf(contract, amount)], n), counters)
            == Some(counters[contract := FromNat(counters[contract] + Times(n, amount))])
    decreases n
  {
    hide Add;
    hide FromNat;
    hide Times;
    if n == 0 {
      TimesStep(0, amount);
      FromFelt(counters[contract]);
      assert counters[contract := counters[contract]] == counters;
    } else {
      var call := CallOf(contract, amount);
      var next := counters[contract := Add(counters[contract], amount)];
      RepeatedFront([call], n - 1);
      assert Repeated([call], n)[1..] == Repeated([call], n - 1);
      RunIncrements(contract, amount, n - 1, next);
      AddMany(counters[contract], amount, n - 1);
      assert next[contract := FromNat(next[contract] + Times(n - 1, amount))]
             == counters[contract := FromNat(counters[contract] + Times(n, amount))];
    }
  }

  lemma FromFelt(f: Felt)
    ensures FromNat(f) == f
  {
  }

  /** `increment_amount * increments_per_block as u64`, as a release build computes it. */
  function ExpectedIncrement(amount: U64, count: U32): U64 {
    Times(count, amount) % TWO64
  }

  lemma ProductFits(amount: U64, count: U32)
    ensures Times(count, amount) < 0x1_0000_0000 * TWO64 < PRIME
  {
    MulBound(count, 0x1_0000_0000, amount, TWO64);
  }

  lemma MulBound(a: nat, b: nat, c: nat, d: nat)
    requires a < b && c < d
    ensures a * c < b * d
  {
    assert a * c <= a * d;
    assert b * d >= (a + 1) * d == a * d + d;
  }

  /** The announced increment is the one the calls add exactly when the product fits 64 bits. */
  lemma ExpectedIncrementExact(amount: U64, count: U32)
    ensures ExpectedIncrement(amount, count) == (amount * count) % 0x1_0000_0000_0000_0000
    ensures (count * amount) % PRIME == ExpectedIncrement(amount, count) <==> count * amount < 0x1_0000_0000_0000_0000
  {
    ProductFits(amount, count);
    var total := Times(count, amount);
    assert total == count * amount && total == amount * count;
    hide Times;
    assert FromNat(total) == total;
  }

  /** A product that wraps: two calls with 2^63 each are announced as no increment at all. */
  lemma ExpectedIncrementWraps()
    ensures ExpectedIncrement(0x8000_0000_0000_0000, 2) == 0
    ensures (2 * 0x8000_0000_0000_0000) % PRIME == 0x1_0000_0000_0000_0000
  {
  }

  /** What running the decoded calldata does: without calls nothing; otherwise it fails on an unknown contract, and adds
      count * amount to the counter of a known one and touches no other. That is the announced increment exactly when the
      product fits 64 bits. */
  lemma MulticallMeaning(contract: string, amount: U64, count: U32, counters: Counters)
    requires count == 0 || FeltFromHex(contract).Some?
    ensures var felts := IncrementCalldata(contract, amount, count);
            && felts.Some? && DecodeCalldata(felts.value).Some?
            && RunCalls(DecodeCalldata(felts.value).value, counters)
               == if count == 0 then Some(counters)
                  else
                    var to := FeltFromHex(contract).value;
                    if to in counters then Some(counters[to := (counters[to] + count * amount) % PRIME]) else None
    ensures (count * amount) % PRIME == ExpectedIncrement(amount, count) <==> count * amount < 0x1_0000_0000_0000_0000
  {
    hide *;
    CalldataRepeats(contract, amount, count);
    ExpectedIncrementExact(amount, count);
    if count == 0 {
      NoCalls(counters);
    } else {
      var to := FeltFromHex(contract).value;
      if to in counters {
        RunIncrements(to, amount, count, counters);
        TimesAdded(counters[to], amount, count);
      } else {
        UnknownContract(to, amount, count, counters);
      }
    }
  }

  lemma TimesAdded(c: nat, amount: nat, n: nat)
    ensures FromNat(c + Times(n, amount)) == (c + n * amount) % PRIME
  {
  }

  lemma NoCalls(counters: Counters)
    ensures RunCalls([], counters) == Some(counters)
  {
  }

  lemma UnknownContract(to: Felt, amount: U64, n: nat, counters: Counters)
    requires n > 0 && to !in counters
    ensures RunCalls(Repeated([CallOf(to, amount)], n), counters) == None
  {
    RepeatedFront([CallOf(to, amount)], n - 1);
  }
}
