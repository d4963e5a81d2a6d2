/** The commit-reveal coin flip: the server's handlers, every interleaving of them, and the settled outcome. */
module CoinFlip {
  import opened Felts
  import opened Signing
  import opened Payloads
  import opened Multicall

  /** The Pedersen hash, uninterpreted. */
  type Pedersen = (Felt, Felt) -> Felt

  datatype BetCommitment = BetCommitment(commitment: string, seedBlock: nat, player: string)

  datatype RevealOutcome =
    | NotDeployed
    | NoCommitment
    | PlayerMismatch
    | InvalidNonce
    | CommitmentMismatch
    | Accepted(seedBlock: nat, player: string, bet: Felt)

  /** A revealed bet is clamped to 0 or 1. */
  function ClampBet(bet: Byte): Felt {
    if bet < 1 then bet else 1
  }

  /** One less than the head, but never below zero. */
  function SeedBlock(head: nat): nat {
    if head == 0 then 0 else head - 1
  }

  /** The checks on a commitment that was found and removed. */
  function CheckReveal(pedersen: Pedersen, c: BetCommitment, player: string, bet: Byte, nonce: string): RevealOutcome {
    if player != c.player then PlayerMismatch
    else
      match FeltFromHex(nonce)
      case None => InvalidNonce
      case Some(n) =>
        if ToHex(pedersen(ClampBet(bet), n)) != c.commitment then CommitmentMismatch
        else Accepted(c.seedBlock, player, ClampBet(bet))
  }

  /** The two changes handlers make to the shared commitments. */
  function Stored(commitments: map<string, BetCommitment>, sessionId: string, c: BetCommitment)
    : map<string, BetCommitment>
  {
    commitments[sessionId := c]
  }

  function Taken(commitments: map<string, BetCommitment>, sessionId: string): map<string, BetCommitment> {
    commitments - {sessionId}
  }

  /** What taking the session's commitment and checking the revealed values answers. */
  function RevealAnswer(
    pedersen: Pedersen, commitments: map<string, BetCommitment>,
    sessionId: string, player: string, bet: Byte, nonce: string): RevealOutcome
  {
    if sessionId in commitments then CheckReveal(pedersen, commitments[sessionId], player, bet, nonce) else NoCommitment
  }

  // ------------------------------------------------------------------------
  // The handlers over the shared state
  // ------------------------------------------------------------------------

  class AppState {
    var coinflip: Option<string>
    var commitments: map<string, BetCommitment>

    constructor ()
      ensures coinflip == None && commitments == map[]
    {
      coinflip := None;
      commitments := map[];
    }

    /** Keeps an existing deployment; otherwise stores the one just made, if deploying succeeded. */
    method DeployCoinflip(deployed: Option<string>) returns (address: Option<string>)
      modifies this`coinflip
      ensures coinflip == if old(coinflip).Some? then old(coinflip) else deployed
      ensures address == coinflip
    {
      if coinflip.Some? {
        return coinflip;
      }
      if deployed.Some? {
        coinflip := deployed;
      }
      return coinflip;
    }

    /** `head` is the block number read from the node, if that succeeded; the session id is freshly generated. */
    method CommitBet(head: Option<nat>, sessionId: string, commitment: string, player: string)
      returns (seedBlock: Option<nat>)
      modifies this`commitments
      ensures head.None? ==> seedBlock == None && commitments == old(commitments)
      ensures head.Some? ==>
                var seed := if head.value == 0 then 0 else head.value - 1;
                && seedBlock == Some(seed)
                && sessionId in commitments && commitments[sessionId] == BetCommitment(commitment, seed, player)
      ensures forall other :: other != sessionId ==>
                && (other in commitments <==> other in old(commitments))
                && (other in commitments ==> commitments[other] == old(commitments)[other])
      ensures head.Some? ==>
                commitments == Stored(old(commitments), sessionId, BetCommitment(commitment, SeedBlock(head.value), player))
    {
      if head.None? {
        return None;
      }
      var seed := if head.value >= 1 then head.value - 1 else 0;
      commitments := commitments[sessionId := BetCommitment(commitment, seed, player)];
      return Some(seed);
    }

    /** Consumes the commitment before any check of the revealed values. */
    method PlayCoinflip(pedersen: Pedersen, sessionId: string, player: string, bet: Byte, nonce: string)
      returns (outcome: RevealOutcome)
      modifies this`commitments
      ensures coinflip.None? ==> outcome == NotDeployed && commitments == old(commitments)
      ensures coinflip.Some? ==> sessionId !in commitments
      ensures forall other :: other != sessionId ==>
                && (other in commitments <==> other in old(commitments))
                && (other in commitments ==> commitments[other] == old(commitments)[other])
      ensures coinflip.Some? && sessionId !in old(commitments) ==> outcome == NoCommitment
      ensures coinflip.Some? && sessionId in old(commitments) ==>
                var c := old(commitments)[sessionId];
                var clamped: Felt := if bet == 0 then 0 else 1;
                outcome ==
                  if player != c.player then PlayerMismatch
                  else if FeltFromHex(nonce).None? then InvalidNonce
                  else if ToHex(pedersen(clamped, FeltFromHex(nonce).value)) != c.commitment then CommitmentMismatch
                  else Accepted(c.seedBlock, c.player, clamped)
      ensures coinflip.Some? ==>
                && commitments == Taken(old(commitments), sessionId)
                && outcome == RevealAnswer(pedersen, old(commitments), sessionId, player, bet, nonce)
    {
      if coinflip.None? {
        return NotDeployed;
      }
      if sessionId !in commitments {
        return NoCommitment;
      }
      var c := commitments[sessionId];
      commitments := commitments - {sessionId};
      if player != c.player {
        return PlayerMismatch;
      }
      var parsed := FeltFromHex(nonce);
      if parsed.None? {
        return InvalidNonce;
      }
      var computed := ToHex(pedersen(ClampBet(bet), parsed.value));
      if computed != c.commitment {
        return CommitmentMismatch;
      }
      return Accepted(c.seedBlock, player, ClampBet(bet));
    }
  }

  // ------------------------------------------------------------------------
  // Every interleaving
  // ------------------------------------------------------------------------

  /** Handlers run concurrently; between reading the head and storing the commitment, and between checking the
      deployment and taking the commitment, any other step may happen. Tasks name the handler calls in flight. */
  datatype Action =
    | Advance(blocks: nat)
    | Deploy
    | ReadHead(task: nat)
    | StoreCommitment(task: nat, sessionId: string, commitment: string, player: string)
    | StartPlay(task: nat)
    | Reveal(task: nat, sessionId: string, player: string, bet: Byte, nonce: string)

  datatype World = World(
    head: nat,
    deployed: bool,
    commitments: map<string, BetCommitment>,
    used: set<string>,
    seeds: map<nat, nat>,
    plays: set<nat>)

  const START := World(0, false, map[], {}, map[], {})

  /** Session ids are fresh, and a handler continues only where it got to. */
  ghost predicate Enabled(w: World, a: Action) {
    match a
    case Advance(_) => true
    case Deploy => true
    case ReadHead(task) => task !in w.seeds
    case StoreCommitment(task, sessionId, _, _) => task in w.seeds && sessionId !in w.used
    case StartPlay(task) => task !in w.plays
    case Reveal(task, _, _, _, _) => task in w.plays
  }

  ghost function Next(w: World, a: Action): World
    requires Enabled(w, a)
  {
    match a
    case Advance(blocks) => w.(head := w.head + blocks)
    case Deploy => w.(deployed := true)
    case ReadHead(task) => w.(seeds := w.seeds[task := SeedBlock(w.head)])
    case StoreCommitment(task, sessionId, commitment, player) =>
      w.(commitments := Stored(w.commitments, sessionId, BetCommitment(commitment, w.seeds[task], player)),
         used := w.used + {sessionId},
         seeds := w.seeds - {task})
    case StartPlay(task) => if w.deployed then w.(plays := w.plays + {task}) else w
    case Reveal(task, sessionId, _, _, _) =>
      w.(commitments := Taken(w.commitments, sessionId), plays := w.plays - {task})
  }

  /** What a reveal step answers. */
  ghost function Answer(pedersen: Pedersen, w: World, a: Action): RevealOutcome
    requires a.Reveal?
  {
    RevealAnswer(pedersen, w.commitments, a.sessionId, a.player, a.bet, a.nonce)
  }

  /** A run: a world before each action and one after the last. */
  ghost predicate Run(worlds: seq<World>, actions: seq<Action>) {
    && |worlds| == |actions| + 1
    && worlds[0] == START
    && forall i :: 0 <= i < |actions| ==> Enabled(worlds[i], actions[i]) && worlds[i + 1] == Next(worlds[i], actions[i])
  }

  lemma {:induction false} CommitmentsAreUsed(worlds: seq<World>, actions: seq<Action>, n: nat)
    requires Run(worlds, actions) && n < |worlds|
    ensures worlds[n].commitments.Keys <= worlds[n].used
  {
    if n == 0 {
    } else {
      CommitmentsAreUsed(worlds, actions, n - 1);
      assert worlds[n] == Next(worlds[n - 1], actions[n - 1]);
    }
  }

  /** A play gets to its reveal only once the contract is deployed. */
  lemma {:induction false} PlaysNeedDeployment(worlds: seq<World>, actions: seq<Action>, n: nat)
    requires Run(worlds, actions) && n < |worlds|
    ensures worlds[n].plays != {} ==> worlds[n].deployed
    ensures n < |actions| && actions[n].Reveal? ==> worlds[n].deployed
  {
    if n == 0 {
    } else {
      PlaysNeedDeployment(worlds, actions, n - 1);
      assert worlds[n] == Next(worlds[n - 1], actions[n - 1]);
    }
  }

  /** Once a used session has no commitment it never gets one again. */
  lemma {:induction false} ConsumedForever(worlds: seq<World>, actions: seq<Action>, m: nat, n: nat, sessionId: string)
    requires Run(worlds, actions) && m <= n < |worlds|
    requires sessionId in worlds[m].used && sessionId !in worlds[m].commitments
    ensures sessionId in worlds[n].used && sessionId !in worlds[n].commitments
  {
    if m == n {
    } else {
      ConsumedForever(worlds, actions, m, n - 1, sessionId);
      assert worlds[n] == Next(worlds[n - 1], actions[n - 1]);
    }
  }

  /** Any reveal that finds a commitment consumes it, whether or not the checks pass, and every later reveal of the
      session finds none; so a session is accepted at most once. */
  lemma RevealedOnce(pedersen: Pedersen, worlds: seq<World>, actions: seq<Action>, i: nat, j: nat)
    requires Run(worlds, actions) && i < j < |actions|
    requires actions[i].Reveal? && actions[j].Reveal? && actions[i].sessionId == actions[j].sessionId
    requires Answer(pedersen, worlds[i], actions[i]) != NoCommitment
    ensures actions[i].sessionId !in worlds[i + 1].commitments
    ensures Answer(pedersen, worlds[j], actions[j]) == NoCommitment
  {
    CommitmentsAreUsed(worlds, actions, i);
    assert worlds[i + 1] == Next(worlds[i], actions[i]);
    ConsumedForever(worlds, actions, i + 1, j, actions[i].sessionId);
  }

  /** In between, this task neither reads the head again nor stores a commitment. */
  ghost predicate Untouched(actions: seq<Action>, task: nat, k: nat, n: nat)
    requires n <= |actions|
  {
    forall m :: k < m < n ==>
      actions[m] != ReadHead(task) && !(actions[m].StoreCommitment? && actions[m].task == task)
  }

  /** A seed in flight is the one its task read last. */
  lemma {:induction false} SeedOrigin(worlds: seq<World>, actions: seq<Action>, n: nat, task: nat) returns (k: nat)
    requires Run(worlds, actions) && n < |worlds| && task in worlds[n].seeds
    ensures k < n && actions[k] == ReadHead(task)
    ensures worlds[n].seeds[task] == if worlds[k].head == 0 then 0 else worlds[k].head - 1
    ensures Untouched(actions, task, k, n)
  {
    assert n > 0;
    assert worlds[n] == Next(worlds[n - 1], actions[n - 1]);
    if actions[n - 1] == ReadHead(task) {
      k := n - 1;
    } else {
      k := SeedOrigin(worlds, actions, n - 1, task);
    }
  }

  /** A stored commitment is the one its session's commit handler stored, with the seed that this handler read: the last
      head its task read. */
  lemma {:induction false} CommitmentOrigin(worlds: seq<World>, actions: seq<Action>, n: nat, sessionId: string)
    returns (i: nat, k: nat)
    requires Run(worlds, actions) && n < |worlds| && sessionId in worlds[n].commitments
    ensures k < i < n && actions[i].StoreCommitment? && actions[i].sessionId == sessionId
    ensures actions[k] == ReadHead(actions[i].task) && Untouched(actions, actions[i].task, k, i)
    ensures worlds[n].commitments[sessionId]
            == BetCommitment(actions[i].commitment, if worlds[k].head == 0 then 0 else worlds[k].head - 1, actions[i].player)
  {
    assert n > 0;
    assert worlds[n] == Next(worlds[n - 1], actions[n - 1]);
    var a := actions[n - 1];
    if a.StoreCommitment? && a.sessionId == sessionId {
      i := n - 1;
      k := SeedOrigin(worlds, actions, n - 1, a.task);
    } else {
      i, k := CommitmentOrigin(worlds, actions, n - 1, sessionId);
    }
  }

  /** In every run, an accepted reveal uses exactly the player and the seed stored when its session was committed; the
      seed is one less than the head that the commit handler read, floored at zero; and the committed hash is the hash
      of the accepted bet with some nonce. */
  lemma AcceptedUsesCommitted(pedersen: Pedersen, worlds: seq<World>, actions: seq<Action>, j: nat)
    returns (i: nat, k: nat)
    requires Run(worlds, actions) && j < |actions| && actions[j].Reveal?
    requires Answer(pedersen, worlds[j], actions[j]).Accepted?
    ensures k < i < j
    ensures actions[i].StoreCommitment? && actions[i].sessionId == actions[j].sessionId
    ensures actions[k] == ReadHead(actions[i].task) && Untouched(actions, actions[i].task, k, i)
    ensures var answer := Answer(pedersen, worlds[j], actions[j]);
            && answer.player == actions[i].player == actions[j].player
            && answer.seedBlock == (if worlds[k].head == 0 then 0 else worlds[k].head - 1)
            && answer.bet == (if actions[j].bet == 0 then 0 else 1)
            && FeltFromHex(actions[j].nonce).Some?
            && actions[i].commitment == ToHex(pedersen(answer.bet, FeltFromHex(actions[j].nonce).value))
  {
    i, k := CommitmentOrigin(worlds, actions, j, actions[j].sessionId);
  }

  /** Nothing but its own reveal takes a session's commitment away or changes it. */
  lemma {:induction false} CommitmentKept(worlds: seq<World>, actions: seq<Action>, m: nat, n: nat, sessionId: string)
    requires Run(worlds, actions) && m <= n < |worlds|
    requires sessionId in worlds[m].commitments
    requires forall i :: m <= i < n ==> !(actions[i].Reveal? && actions[i].sessionId == sessionId)
    ensures sessionId in worlds[n].commitments && worlds[n].commitments[sessionId] == worlds[m].commitments[sessionId]
  {
    if m == n {
    } else {
      CommitmentKept(worlds, actions, m, n - 1, sessionId);
      CommitmentsAreUsed(worlds, actions, n - 1);
      assert worlds[n] == Next(worlds[n - 1], actions[n - 1]);
    }
  }

  /** In every run, the first reveal of a committed session is accepted exactly when it comes from the committed player,
      its nonce parses, and the hash of the clamped bet and the nonce prints as the committed text; whatever other players
      do in between. */
  lemma FirstRevealAccepted(pedersen: Pedersen, worlds: seq<World>, actions: seq<Action>, i: nat, j: nat)
    requires Run(worlds, actions) && i < j < |actions|
    requires actions[i].StoreCommitment? && actions[j].Reveal? && actions[j].sessionId == actions[i].sessionId
    requires forall m :: i < m < j ==> !(actions[m].Reveal? && actions[m].sessionId == actions[i].sessionId)
    ensures var play, seed := actions[j], worlds[i].seeds[actions[i].task];
            var answer := Answer(pedersen, worlds[j], play);
            var bet: Felt := if play.bet == 0 then 0 else 1;
            && (answer.Accepted? <==>
                  && play.player == actions[i].player
                  && FeltFromHex(play.nonce).Some?
                  && ToHex(pedersen(bet, FeltFromHex(play.nonce).value)) == actions[i].commitment)
            && (answer.Accepted? ==> answer == Accepted(seed, actions[i].player, bet))
  {
    assert worlds[i + 1] == Next(worlds[i], actions[i]);
    CommitmentKept(worlds, actions, i + 1, j, actions[i].sessionId);
  }

  // ------------------------------------------------------------------------
  // Binding
  // ------------------------------------------------------------------------

  /** Two reveals accepted against one commitment have the same clamped bet, or their two hash inputs collide. */
  lemma BetBinding(
    pedersen: Pedersen, c: BetCommitment,
    player: string, bet: Byte, nonce: string, player': string, bet': Byte, nonce': string)
    requires CheckReveal(pedersen, c, player, bet, nonce).Accepted?
    requires CheckReveal(pedersen, c, player', bet', nonce').Accepted?
    ensures FeltFromHex(nonce).Some? && FeltFromHex(nonce').Some?
    ensures var b: Felt := if bet == 0 then 0 else 1;
            var b': Felt := if bet' == 0 then 0 else 1;
            var n, n' := FeltFromHex(nonce).value, FeltFromHex(nonce').value;
            (b == b' && n == n') || ((b, n) != (b', n') && pedersen(b, n) == pedersen(b', n'))
  {
    HexInjective(pedersen(ClampBet(bet), FeltFromHex(nonce).value), pedersen(ClampBet(bet'), FeltFromHex(nonce').value));
  }

  // ------------------------------------------------------------------------
  // Settlement
  // ------------------------------------------------------------------------

  /** The contract's `play`: the payload of the message it sends. */
  function Play(pedersen: Pedersen, seed: Felt, player: Felt, bet: Felt): seq<Felt> {
    var low := pedersen(seed, player) % TWO128;
    var outcome := if low % 2 == 0 then 0 else 1;
    var won := if outcome == bet then 1 else 0;
    [player, seed, bet, outcome, won]
  }

  /** The calldata of an accepted reveal: one call `play(seed, player, bet)`; none if some text does not parse. */
  function PlayCalldata(contract: string, seedBlock: U64, player: string, bet: Felt): Option<seq<Felt>> {
    ParseAll(PlayTexts(contract, seedBlock, player, bet))
  }

  lemma LowParity(h: Felt)
    ensures (h % TWO128) % 2 == h % 2
  {
    var q := h / TWO128;
    assert h == TWO128 * q + h % TWO128;
    assert TWO128 * q == 2 * ((TWO128 / 2) * q);
  }

  function PlayTexts(contract: string, seedBlock: U64, player: string, bet: Felt): seq<string> {
    [ToHex(1), contract, ToHex(PLAY_SELECTOR), ToHex(3), ToHex(seedBlock), player, ToHex(bet)]
  }

  lemma PlayCalldataIs(contract: string, seedBlock: U64, player: string, bet: Felt)
    ensures PlayCalldata(contract, seedBlock, player, bet)
            == if FeltFromHex(contract).Some? && FeltFromHex(player).Some?
               then Some([1, FeltFromHex(contract).value, PLAY_SELECTOR, 3, seedBlock, FeltFromHex(player).value, bet])
               else None
  {
    hide FeltFromHex;
    hide ToHex;
    hide ParseAll;
    FeltRoundTrip(1);
    FeltRoundTrip(PLAY_SELECTOR);
    FeltRoundTrip(3);
    FeltRoundTrip(seedBlock);
    FeltRoundTrip(bet);
    var texts := PlayTexts(contract, seedBlock, player, bet);
    ParseAllPointwise(texts);
    assert texts[1] == contract && texts[5] == player;
    if FeltFromHex(contract).Some? && FeltFromHex(player).Some? {
      ParseAllIs(texts,
        [1, FeltFromHex(contract).value, PLAY_SELECTOR, 3, seedBlock, FeltFromHex(player).value, bet]);
    }
  }

  lemma PlayCalldataDecodes(contract: string, seedBlock: U64, player: string, bet: Felt)
    ensures PlayCalldata(contract, seedBlock, player, bet).Some?
            <==> FeltFromHex(contract).Some? && FeltFromHex(player).Some?
    ensures var felts := PlayCalldata(contract, seedBlock, player, bet);
            felts.Some? ==>
              DecodeCalldata(felts.value)
              == Some([Call(FeltFromHex(contract).value,
                         0x21c4a0db2b08b026c4e31bf76d5dd9b92aa54c0978df57474355786073775e8,
                         [seedBlock, FeltFromHex(player).value, bet])])
  {
    hide FeltFromHex;
    hide PlayCalldata;
    hide DecodeCalldata;
    PlayCalldataIs(contract, seedBlock, player, bet);
    if FeltFromHex(contract).Some? && FeltFromHex(player).Some? {
      OneCallDecodes(FeltFromHex(contract).value, PLAY_SELECTOR, [seedBlock, FeltFromHex(player).value, bet]);
    }
  }

  lemma OneCallDecodes(to: Felt, selector: Felt, args: seq<Felt>)
    requires |args| == 3
    ensures DecodeCalldata([1, to, selector, 3, args[0], args[1], args[2]]) == Some([Call(to, selector, args)])
  {
    var felts := [to, selector, 3, args[0], args[1], args[2]];
    assert [1, to, selector, 3, args[0], args[1], args[2]][1..] == felts;
    assert felts[6..] == [] && felts[3..6] == args;
    assert DecodeCalls(0, felts[6..]) == Some([]);
    assert [Call(to, selector, args)] + [] == [Call(to, selector, args)];
    assert DecodeCalls(1, felts) == Some([Call(to, selector, args)]);
  }

  /** The settled outcome is fixed at commit time: whatever bet is revealed and accepted later, the message carries the
      parity of pedersen(seed, player) of the commitment, and the bet only decides who won. */
  lemma OutcomeFixedAtCommit(
    pedersen: Pedersen, contract: string, c: BetCommitment, player: string, bet: Byte, nonce: string)
    requires c.seedBlock < TWO64
    requires CheckReveal(pedersen, c, player, bet, nonce).Accepted?
    ensures var accepted := CheckReveal(pedersen, c, player, bet, nonce);
            var felts := PlayCalldata(contract, accepted.seedBlock, accepted.player, accepted.bet);
            felts.Some? ==>
              && FeltFromHex(contract).Some? && FeltFromHex(c.player).Some?
              && var who := FeltFromHex(c.player).value;
                 var guess: Felt := if bet == 0 then 0 else 1;
                 var calls := DecodeCalldata(felts.value);
                 && calls.Some? && |calls.value| == 1
                 && calls.value[0].to == FeltFromHex(contract).value && calls.value[0].selector == PLAY_SELECTOR
                 && |calls.value[0].args| == 3
                 && var args := calls.value[0].args;
                    var outcome := pedersen(c.seedBlock, who) % 2;
                    Play(pedersen, args[0], args[1], args[2])
                    == [who, c.seedBlock, guess, outcome, if outcome == guess then 1 else 0]
  {
    hide FeltFromHex;
    hide PlayCalldata;
    hide DecodeCalldata;
    PlayCalldataDecodes(contract, c.seedBlock, c.player, ClampBet(bet));
    if FeltFromHex(c.player).Some? {
      LowParity(pedersen(c.seedBlock, FeltFromHex(c.player).value));
    }
  }
}
