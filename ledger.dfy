/**
 * The ledger rules of BlockChain.java, stated on the sequence of blocks
 * from genesis to tail: replaying the amounts into Anna's and Bob's
 * balances, the three ordered checks of `append`, and the replay that
 * `isValidBlockChain` performs. All arithmetic is Java `int` arithmetic.
 */
module Ledger {
  import opened Options
  import opened JavaInts
  import opened Hashes
  import opened Blocks

  datatype Party = Anna | Bob

  /** Why `append` refuses a block; each case is an exception the source throws. */
  datatype AppendError =
    | IncorrectNumber              // "Block number is incorrect."
    | NullPrevHash                 // the NullPointerException of `blk.getPrevHash().equals(...)`
    | PrevHashMismatch             // "Previous hash does not match."
    | InsufficientFunds(party: Party)  // "Insufficient funds for Anna." / "... for Bob."

  datatype Outcome = Appended | Rejected(error: AppendError)

  /** The pair `computeBalances` returns: index 0 is Anna, index 1 is Bob. */
  datatype Balances = Balances(anna: Int32, bob: Int32)

  function Last(blocks: seq<Block>): Block
    requires |blocks| >= 1
  {
    blocks[|blocks| - 1]
  }

  /**
   * One block's effect on the balances: a negative amount moves Math.abs(amount)
   * from Anna to Bob, a positive one moves amount from Bob to Anna; every
   * subtraction and addition wraps as Java's `int` does.
   */
  function Transfer(w: Balances, amount: Int32): (r: Balances)
    ensures amount != INT32_MIN ==> r == Balances(Add32(w.anna, amount), Sub32(w.bob, amount))
    ensures amount == INT32_MIN ==> r == Balances(Sub32(w.anna, INT32_MIN), Add32(w.bob, INT32_MIN))
  {
    if amount < 0 then
      var transfer := Abs32(amount);
      var moved := Balances(Sub32(w.anna, transfer), Add32(w.bob, transfer));
      if amount == INT32_MIN then moved
      else
        MinusNegated(w.anna, amount);
        MinusNegated(w.bob, -amount);
        moved
    else if amount > 0 then
      Balances(Add32(w.anna, amount), Sub32(w.bob, amount))
    else
      w
  }

  /** Subtracting the negation of an `int` other than MIN_VALUE adds it, overflow included. */
  lemma MinusNegated(a: Int32, x: Int32)
    requires x != INT32_MIN
    ensures Sub32(a, -x) == Add32(a, x)
  {
    Sub32Wraps(a, -x);
    Add32Wraps(a, x);
  }

  /** Which party, if any, cannot cover the amount; the funds check of `append`. */
  function Shortfall(w: Balances, amount: Int32): (r: Option<Party>)
    ensures r == Some(Anna) <==> amount < 0 && w.anna < Abs32(amount)
    ensures r == Some(Bob) <==> amount > 0 && w.bob < amount
    ensures amount == 0 ==> r == None
  {
    if amount < 0 then
      if w.anna < Abs32(amount) then Some(Anna) else None
    else if amount > 0 then
      if w.bob < amount then Some(Bob) else None
    else
      None
  }

  /** Replays every amount from genesis: Anna opens with the genesis amount, Bob with zero. */
  function BalancesOf(blocks: seq<Block>): Balances
    requires |blocks| >= 1
  {
    if |blocks| == 1 then Balances(blocks[0].amount, 0)
    else Transfer(BalancesOf(blocks[..|blocks| - 1]), Last(blocks).amount)
  }

  /** Replaying one more block applies its transfer to the balances so far. */
  lemma BalancesStep(blocks: seq<Block>, i: nat)
    requires 1 <= i < |blocks|
    ensures BalancesOf(blocks[..i + 1]) == Transfer(BalancesOf(blocks[..i]), blocks[i].amount)
  {
    assert blocks[..i + 1][..i] == blocks[..i];
  }

  /** The verdict of `append` on a chain holding `blocks`: the checks in the source's order. */
  function AppendCheck(blocks: seq<Block>, blk: Block): (r: Outcome)
    requires |blocks| >= 1
    ensures r == Appended ==> blk.num == Wrap32(|blocks|) && blk.prevHash == Some(Last(blocks).hash)
    ensures r == Appended ==> Shortfall(BalancesOf(blocks), blk.amount) == None
    ensures blk.num != Wrap32(|blocks|) ==> r == Rejected(IncorrectNumber)
    ensures blk.num == Wrap32(|blocks|) && blk.prevHash.None? ==> r == Rejected(NullPrevHash)
    ensures blk.num == Wrap32(|blocks|) && blk.prevHash.Some? && blk.prevHash.value != Last(blocks).hash
      ==> r == Rejected(PrevHashMismatch)
    ensures blk.num == Wrap32(|blocks|) && blk.prevHash == Some(Last(blocks).hash)
      && Shortfall(BalancesOf(blocks), blk.amount).Some?
      ==> r == Rejected(InsufficientFunds(Shortfall(BalancesOf(blocks), blk.amount).value))
  {
    if blk.num != Wrap32(|blocks|) then Rejected(IncorrectNumber)
    else if blk.prevHash.None? then Rejected(NullPrevHash)
    else if !Equals(blk.prevHash.value, Last(blocks).hash) then Rejected(PrevHashMismatch)
    else
      match Shortfall(BalancesOf(blocks), blk.amount)
      case Some(party) => Rejected(InsufficientFunds(party))
      case None => Appended
  }

  /** The checks `isValidBlockChain` applies to a block that follows `prefix`. */
  predicate FollowsValidly(prefix: seq<Block>, blk: Block)
    requires |prefix| >= 1
  {
    && blk.num == Add32(Last(prefix).num, 1)
    && blk.prevHash == Some(Last(prefix).hash)
    && IsValid(blk.hash)
    && Shortfall(BalancesOf(prefix), blk.amount) == None
  }

  /** `isValidBlockChain`: every block after genesis follows its prefix validly. Genesis itself is not checked. */
  predicate ReplayValid(blocks: seq<Block>)
    requires |blocks| >= 1
  {
    |blocks| == 1 || (ReplayValid(blocks[..|blocks| - 1]) && FollowsValidly(blocks[..|blocks| - 1], Last(blocks)))
  }

  /** Replaying one more block: the prefix must be valid and the block must follow it validly. */
  lemma ReplayStep(blocks: seq<Block>, i: nat)
    requires 1 <= i < |blocks|
    ensures ReplayValid(blocks[..i + 1]) <==> ReplayValid(blocks[..i]) && FollowsValidly(blocks[..i], blocks[i])
  {
    assert blocks[..i + 1][..i] == blocks[..i];
  }

  /** The replay's verdict, block by block: both directions. */
  lemma {:induction false} ReplayValidAt(blocks: seq<Block>)
    requires |blocks| >= 1
    ensures ReplayValid(blocks) <==> forall i :: 1 <= i < |blocks| ==> FollowsValidly(blocks[..i], blocks[i])
  {
    if |blocks| > 1 {
      var n := |blocks| - 1;
      var prefix := blocks[..n];
      ReplayValidAt(prefix);
      assert ReplayValid(blocks) == (ReplayValid(prefix) && FollowsValidly(prefix, blocks[n]));
      if ReplayValid(blocks) {
        forall i | 1 <= i < |blocks|
          ensures FollowsValidly(blocks[..i], blocks[i])
        {
          if i < n {
            SamePrefix(blocks, n, i);
          }
        }
      } else {
        if ReplayValid(prefix) {
          assert !FollowsValidly(blocks[..n], blocks[n]);
        } else {
          var i :| 1 <= i < n && !FollowsValidly(prefix[..i], prefix[i]);
          SamePrefix(blocks, n, i);
          assert !FollowsValidly(blocks[..i], blocks[i]);
        }
      }
    }
  }

  lemma SamePrefix(blocks: seq<Block>, n: nat, i: nat)
    requires i <= n <= |blocks| && i < |blocks|
    ensures blocks[..n][..i] == blocks[..i]
    ensures i < n ==> blocks[..n][i] == blocks[i]
  {
  }

  /** A valid chain's every prefix is valid: a failure found early decides the verdict. */
  lemma {:induction false} ReplayValidPrefix(blocks: seq<Block>, k: nat)
    requires 1 <= k <= |blocks|
    ensures ReplayValid(blocks) ==> ReplayValid(blocks[..k])
  {
    if k < |blocks| {
      var n := |blocks| - 1;
      ReplayValidPrefix(blocks[..n], k);
      assert blocks[..n][..k] == blocks[..k];
    } else {
      assert blocks[..k] == blocks;
    }
  }

  /** In a valid chain whose genesis is number 0, the tail carries the number |blocks| - 1 (as a Java `int`). */
  lemma {:induction false} LastNumber(blocks: seq<Block>)
    requires |blocks| >= 1 && ReplayValid(blocks) && blocks[0].num == 0
    ensures Last(blocks).num == Wrap32(|blocks| - 1)
  {
    var n := |blocks| - 1;
    if n > 0 {
      var prefix := blocks[..n];
      assert ReplayValid(prefix) && FollowsValidly(prefix, blocks[n]);
      assert prefix[0] == blocks[0] && Last(prefix) == blocks[n - 1] && |prefix| - 1 == n - 1;
      LastNumber(prefix);
      Wrap32Increment(n - 1);
    }
  }

  /** The number after a valid chain's tail is the chain's length, as `append` expects. */
  lemma NextNumber(blocks: seq<Block>)
    requires |blocks| >= 1 && ReplayValid(blocks) && blocks[0].num == 0
    ensures Add32(Last(blocks).num, 1) == Wrap32(|blocks|)
  {
    LastNumber(blocks);
    Wrap32Increment(|blocks| - 1);
  }

  /** In a valid chain whose genesis is number 0, block i carries the number i (as a Java `int`). */
  lemma ValidNumbering(blocks: seq<Block>)
    requires |blocks| >= 1 && ReplayValid(blocks) && blocks[0].num == 0
    ensures forall i :: 0 <= i < |blocks| ==> blocks[i].num == Wrap32(i)
  {
    forall i | 0 <= i < |blocks|
      ensures blocks[i].num == Wrap32(i)
    {
      NumberAt(blocks, i);
    }
  }

  lemma NumberAt(blocks: seq<Block>, i: nat)
    requires i < |blocks| && ReplayValid(blocks) && blocks[0].num == 0
    ensures blocks[i].num == Wrap32(i)
  {
    var prefix := blocks[..i + 1];
    ReplayValidPrefix(blocks, i + 1);
    assert prefix[0] == blocks[0] && Last(prefix) == blocks[i] && |prefix| - 1 == i;
    LastNumber(prefix);
  }

  /**
   * `append` accepts exactly the blocks that keep a valid chain valid, except that
   * it does not look at the block's own hash: validation does.
   */
  lemma AppendMatchesReplay(blocks: seq<Block>, blk: Block)
    requires |blocks| >= 1 && ReplayValid(blocks) && blocks[0].num == 0
    ensures ReplayValid(blocks + [blk]) <==> AppendCheck(blocks, blk) == Appended && IsValid(blk.hash)
  {
    var n := |blocks|;
    ReplayStep(blocks + [blk], n);
    assert (blocks + [blk])[..n] == blocks && (blocks + [blk])[..n + 1] == blocks + [blk];
    assert ReplayValid(blocks + [blk]) <==> FollowsValidly(blocks, blk);
    NextNumber(blocks);
    AppendedIff(blocks, blk);
  }

  /** `append` accepts exactly the blocks with the next number, the tail's hash as previous hash, and covered funds. */
  lemma AppendedIff(blocks: seq<Block>, blk: Block)
    requires |blocks| >= 1
    ensures AppendCheck(blocks, blk) == Appended <==>
      && blk.num == Wrap32(|blocks|)
      && blk.prevHash == Some(Last(blocks).hash)
      && Shortfall(BalancesOf(blocks), blk.amount) == None
  {
  }

  /**
   * The chains `append` builds: every block after genesis was accepted by `append`
   * on the blocks before it. Unlike `ReplayValid`, nothing is said about a block's own hash.
   */
  predicate AcceptedChain(blocks: seq<Block>)
    requires |blocks| >= 1
  {
    |blocks| == 1 || (AcceptedChain(blocks[..|blocks| - 1]) && AppendCheck(blocks[..|blocks| - 1], Last(blocks)) == Appended)
  }

  /** Every block after genesis has covered funds against the balances of the blocks before it. */
  ghost predicate FundsCovered(blocks: seq<Block>)
    requires |blocks| >= 1
  {
    forall i :: 1 <= i < |blocks| ==> Shortfall(BalancesOf(blocks[..i]), blocks[i].amount) == None
  }

  /** What `append` checked of block i: its number is i (as a Java `int`), it links to block i - 1, its funds were covered. */
  ghost predicate AcceptedLink(blocks: seq<Block>, i: nat)
    requires 1 <= i < |blocks|
  {
    && blocks[i].num == Wrap32(i)
    && blocks[i].prevHash == Some(blocks[i - 1].hash)
    && Shortfall(BalancesOf(blocks[..i]), blocks[i].amount) == None
  }

  /** Every block after genesis passed the checks of `append` against the blocks before it. */
  ghost predicate AcceptedLinks(blocks: seq<Block>)
    requires |blocks| >= 1
  {
    forall i :: 1 <= i < |blocks| ==> AcceptedLink(blocks, i)
  }

  /** A chain built by `append`, block by block: every block after genesis passed the checks. Both directions. */
  lemma {:induction false} AcceptedChainAt(blocks: seq<Block>)
    requires |blocks| >= 1
    ensures AcceptedChain(blocks) <==> AcceptedLinks(blocks)
  {
    if |blocks| > 1 {
      var n := |blocks| - 1;
      var prefix := blocks[..n];
      AcceptedChainAt(prefix);
      AcceptedAt(blocks, n);
      assert AcceptedChain(blocks) == (AcceptedChain(prefix) && AppendCheck(prefix, blocks[n]) == Appended);
      forall i | 1 <= i < n
        ensures AcceptedLink(prefix, i) <==> AcceptedLink(blocks, i)
      {
        AcceptedLinkPrefix(blocks, n, i);
      }
    }
  }

  lemma AcceptedLinkPrefix(blocks: seq<Block>, n: nat, i: nat)
    requires 1 <= i < n <= |blocks|
    ensures AcceptedLink(blocks[..n], i) <==> AcceptedLink(blocks, i)
  {
    SamePrefix(blocks, n, i);
    assert blocks[..n][i - 1] == blocks[i - 1];
  }

  /** `append`'s verdict on block i against the blocks before it. */
  lemma AcceptedAt(blocks: seq<Block>, i: nat)
    requires 1 <= i < |blocks|
    ensures AppendCheck(blocks[..i], blocks[i]) == Appended <==> AcceptedLink(blocks, i)
  {
    AppendedIff(blocks[..i], blocks[i]);
  }

  /** Linking a block that `append` accepts keeps every block's checks: what `append` relies on. */
  lemma AppendKeepsAccepted(blocks: seq<Block>, blk: Block)
    requires |blocks| >= 1 && AcceptedLinks(blocks) && AppendCheck(blocks, blk) == Appended
    ensures AcceptedLinks(blocks + [blk])
  {
    AcceptedChainAt(blocks);
    AcceptedChainAt(blocks + [blk]);
    assert (blocks + [blk])[..|blocks|] == blocks;
  }

  /** Dropping the tail keeps every remaining block's checks: what `removeLast` relies on. */
  lemma RemoveKeepsAccepted(blocks: seq<Block>)
    requires |blocks| > 1 && AcceptedLinks(blocks)
    ensures AcceptedLinks(blocks[..|blocks| - 1])
  {
    AcceptedChainAt(blocks);
    AcceptedChainAt(blocks[..|blocks| - 1]);
  }

  /** Covered funds hold for the blocks before the tail, and the tail itself was covered by them. */
  lemma FundsCoveredPrefix(blocks: seq<Block>)
    requires |blocks| > 1 && FundsCovered(blocks)
    ensures FundsCovered(blocks[..|blocks| - 1])
    ensures Shortfall(BalancesOf(blocks[..|blocks| - 1]), Last(blocks).amount) == None
  {
    var n := |blocks| - 1;
    forall i | 1 <= i < n
      ensures Shortfall(BalancesOf(blocks[..n][..i]), blocks[..n][i].amount) == None
    {
      SamePrefix(blocks, n, i);
    }
  }

  /** A chain `append` built has covered funds throughout. */
  lemma AcceptedFundsCovered(blocks: seq<Block>)
    requires |blocks| >= 1 && AcceptedLinks(blocks)
    ensures FundsCovered(blocks)
  {
    forall i | 1 <= i < |blocks|
      ensures Shortfall(BalancesOf(blocks[..i]), blocks[i].amount) == None
    {
      assert AcceptedLink(blocks, i);
    }
  }

  /** A chain that passes `isValidBlockChain` has covered funds throughout. */
  lemma ReplayFundsCovered(blocks: seq<Block>)
    requires |blocks| >= 1 && ReplayValid(blocks)
    ensures FundsCovered(blocks)
  {
    ReplayValidAt(blocks);
  }

  /** Each transfer keeps Anna's plus Bob's balance, added as Java `int`s. */
  lemma TransferConserves(w: Balances, amount: Int32)
    ensures Add32(Transfer(w, amount).anna, Transfer(w, amount).bob) == Add32(w.anna, w.bob)
  {
    if amount < 0 {
      Add32Moved(w.anna, w.bob, Abs32(amount));
    } else if amount > 0 {
      Add32Moved(w.bob, w.anna, amount);
      assert Add32(w.anna, w.bob) == Add32(w.bob, w.anna);
      assert Add32(Add32(w.anna, amount), Sub32(w.bob, amount)) == Add32(Sub32(w.bob, amount), Add32(w.anna, amount));
    }
  }

  /** The replayed balances always add up to the genesis amount, as Java `int`s. */
  lemma {:induction false} BalancesConserved(blocks: seq<Block>)
    requires |blocks| >= 1
    ensures Add32(BalancesOf(blocks).anna, BalancesOf(blocks).bob) == blocks[0].amount
  {
    if |blocks| > 1 {
      var prefix := blocks[..|blocks| - 1];
      BalancesConserved(prefix);
      TransferConserves(BalancesOf(prefix), Last(blocks).amount);
    }
  }

  /**
   * A transfer that passes the funds check, between non-negative balances whose sum
   * is an `int`, moves exactly |amount| and leaves both balances non-negative,
   * unless the amount is Integer.MIN_VALUE.
   */
  lemma ExactTransfer(w: Balances, amount: Int32)
    requires w.anna >= 0 && w.bob >= 0 && w.anna + w.bob <= INT32_MAX
    requires amount != INT32_MIN && Shortfall(w, amount) == None
    ensures Transfer(w, amount) == Balances(w.anna + amount, w.bob - amount)
    ensures Transfer(w, amount).anna >= 0 && Transfer(w, amount).bob >= 0
  {
  }

  /**
   * Without Integer.MIN_VALUE amounts and with a non-negative opening amount, a chain
   * whose every transfer was covered never overflows: both balances stay non-negative
   * and sum exactly to genesis. Chains built by `append` and chains that pass
   * validation both qualify (`AcceptedFundsCovered`, `ReplayFundsCovered`).
   */
  lemma {:induction false} ValidBalancesNonNegative(blocks: seq<Block>)
    requires |blocks| >= 1 && FundsCovered(blocks) && blocks[0].amount >= 0
    requires forall i :: 1 <= i < |blocks| ==> blocks[i].amount != INT32_MIN
    ensures BalancesOf(blocks).anna >= 0 && BalancesOf(blocks).bob >= 0
    ensures BalancesOf(blocks).anna + BalancesOf(blocks).bob == blocks[0].amount
  {
    if |blocks| > 1 {
      var n := |blocks| - 1;
      var prefix := blocks[..n];
      assert forall i :: 1 <= i < n ==> prefix[i] == blocks[i];
      FundsCoveredPrefix(blocks);
      ValidBalancesNonNegative(prefix);
      ExactTransfer(BalancesOf(prefix), blocks[n].amount);
    }
  }

  /**
   * Integer.MIN_VALUE defeats the funds check: Math.abs leaves it negative, so no
   * balance is "less" than it, and the transfer then drives both balances negative.
   */
  lemma MinValuePassesFundsCheck(w: Balances)
    requires w.anna >= 0 && w.bob >= 0
    ensures Shortfall(w, INT32_MIN) == None
    ensures Transfer(w, INT32_MIN).anna < 0 && Transfer(w, INT32_MIN).bob < 0
  {
  }

  /** The ledger of the source's tests: 300 to Anna, then -150, then 100; -350 from 300 is refused for Anna. */
  lemma LedgerScenario(genesis: Block, first: Block, second: Block, overdraft: Block)
    requires genesis.amount == 300 && first.amount == -150 && second.amount == 100
    requires overdraft.num == 1 && overdraft.prevHash == Some(genesis.hash) && overdraft.amount == -350
    ensures BalancesOf([genesis, first]) == Balances(150, 150)
    ensures BalancesOf([genesis, first, second]) == Balances(250, 50)
    ensures AppendCheck([genesis], overdraft) == Rejected(InsufficientFunds(Anna))
  {
    assert [genesis, first][..1] == [genesis];
    assert [genesis, first, second][..2] == [genesis, first];
  }
}
