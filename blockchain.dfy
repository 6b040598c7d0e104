/**
 * BlockChain.java: a singly linked list of blocks with `first` and `last`
 * pointers. The ghost sequence `Contents` is the list's blocks from genesis
 * to tail; `Nodes` are the list's nodes in the same order.
 */
module Chains {
  import opened Options
  import opened JavaInts
  import opened JavaStrings
  import opened Hashes
  import opened Blocks
  import opened Ledger

  /** Each block's own line, in chain order. */
  function Lines(blocks: seq<Block>): (ls: seq<string>)
    ensures |ls| == |blocks|
  {
    MapSeq(Blocks.ToString, blocks)
  }

  function MapSeq<T, U>(f: T -> U, xs: seq<T>): (ys: seq<U>)
    ensures |ys| == |xs|
  {
    if xs == [] then [] else MapSeq(f, xs[..|xs| - 1]) + [f(xs[|xs| - 1])]
  }

  lemma {:induction false} MapSeqAt<T, U>(f: T -> U, xs: seq<T>, i: nat)
    requires i < |xs|
    ensures MapSeq(f, xs)[i] == f(xs[i])
  {
    var n := |xs| - 1;
    if i < n {
      MapSeqAt(f, xs[..n], i);
      assert xs[..n][i] == xs[i];
    }
  }

  /** Line i is block i's own rendering. */
  lemma LineAt(blocks: seq<Block>, i: nat)
    requires i < |blocks|
    ensures Lines(blocks)[i] == Blocks.ToString(blocks[i])
  {
    MapSeqAt(Blocks.ToString, blocks, i);
  }

  /** Lines joined by newlines, with none after the last. */
  function Join(ls: seq<string>): string
    requires |ls| >= 1
  {
    if |ls| == 1 then ls[0] else Join(ls[..|ls| - 1]) + "\n" + ls[|ls| - 1]
  }

  /** Lines each followed by a newline: what a string builder holds after appending them. */
  function Terminated(ls: seq<string>): string
  {
    if ls == [] then "" else Terminated(ls[..|ls| - 1]) + ls[|ls| - 1] + "\n"
  }

  /** The rendering `toString` promises: one block per line, in order, no trailing newline. */
  function Render(blocks: seq<Block>): string
    requires |blocks| >= 1
  {
    Join(Lines(blocks))
  }

  /** The position of the last newline in s. */
  function LastNewline(s: string): (k: nat)
    requires '\n' in s
    ensures k < |s| && s[k] == '\n'
    ensures forall i :: k < i < |s| ==> s[i] != '\n'
  {
    if s[|s| - 1] == '\n' then |s| - 1 else LastNewline(s[..|s| - 1])
  }

  /** The lines of a text: the pieces between its newlines. */
  function SplitLines(s: string): seq<string>
    decreases |s|
  {
    if '\n' !in s then [s]
    else
      var k := LastNewline(s);
      SplitLines(s[..k]) + [s[k + 1..]]
  }

  lemma SplitLastLine(a: string, b: string)
    requires '\n' !in b
    ensures SplitLines(a + "\n" + b) == SplitLines(a) + [b]
  {
    var s := a + "\n" + b;
    assert s[|a|] == '\n';
    assert forall i :: |a| < i < |s| ==> s[i] == b[i - |a| - 1];
    var k := LastNewline(s);
    assert k == |a|;
    assert s[..k] == a && s[k + 1..] == b;
  }

  /** Splitting joined lines at their newlines gives the lines back. */
  lemma {:induction false} SplitJoin(ls: seq<string>)
    requires |ls| >= 1
    requires forall i :: 0 <= i < |ls| ==> '\n' !in ls[i]
    ensures SplitLines(Join(ls)) == ls
  {
    var n := |ls| - 1;
    if n > 0 {
      SplitJoin(ls[..n]);
      SplitLastLine(Join(ls[..n]), ls[n]);
      assert ls[..n] + [ls[n]] == ls;
    } else {
      assert '\n' !in ls[0];
    }
  }

  /** The builder's text is the joined lines plus one newline. */
  lemma {:induction false} TerminatedIsJoin(ls: seq<string>)
    requires |ls| >= 1
    ensures Terminated(ls) == Join(ls) + "\n"
  {
    var n := |ls| - 1;
    if n == 0 {
      assert ls[..0] == [];
    } else {
      TerminatedIsJoin(ls[..n]);
    }
  }

  /** One more line for the builder. */
  lemma TerminatedStep(ls: seq<string>, i: nat)
    requires i < |ls|
    ensures Terminated(ls[..i + 1]) == Terminated(ls[..i]) + ls[i] + "\n"
  {
    assert ls[..i + 1][..i] == ls[..i];
  }

  /** Joined lines start with the first line's first character and end with the last line's last. */
  lemma {:induction false} JoinEnds(ls: seq<string>)
    requires |ls| >= 1 && forall i :: 0 <= i < |ls| ==> |ls[i]| > 0
    ensures |Join(ls)| > 0 && Join(ls)[0] == ls[0][0]
    ensures Join(ls)[|Join(ls)| - 1] == ls[|ls| - 1][|ls[|ls| - 1]| - 1]
  {
    var n := |ls| - 1;
    if n > 0 {
      assert ls[..n][0] == ls[0];
      JoinEnds(ls[..n]);
    }
  }

  /** Splitting the rendering at its newlines gives back each block's own line, in chain order. */
  lemma RenderLines(blocks: seq<Block>)
    requires |blocks| >= 1
    ensures SplitLines(Render(blocks)) == Lines(blocks)
  {
    forall i | 0 <= i < |blocks|
      ensures '\n' !in Lines(blocks)[i]
    {
      LineAt(blocks, i);
    }
    SplitJoin(Lines(blocks));
  }

  /** Trimming terminated lines that start and end with visible characters leaves them joined. */
  lemma TrimTerminated(ls: seq<string>)
    requires |ls| >= 1
    requires forall i :: 0 <= i < |ls| ==> |ls[i]| > 0 && !Trimmable(ls[i][0]) && !Trimmable(ls[i][|ls[i]| - 1])
    ensures Trim(Terminated(ls)) == Join(ls)
  {
    TerminatedIsJoin(ls);
    JoinEnds(ls);
    TrimFinalNewline(Join(ls));
  }

  /** Trimming the builder's text removes exactly its final newline, leaving the rendering. */
  lemma TrimmedBuilder(blocks: seq<Block>)
    requires |blocks| >= 1
    ensures Trim(Terminated(Lines(blocks))) == Render(blocks)
  {
    var ls := Lines(blocks);
    forall i | 0 <= i < |blocks|
      ensures |ls[i]| > 0 && !Trimmable(ls[i][0]) && !Trimmable(ls[i][|ls[i]| - 1])
    {
      LineAt(blocks, i);
      ToStringEnds(blocks[i]);
    }
    TrimTerminated(ls);
  }

  class Node {
    const block: Block
    var next: Node?

    constructor (block: Block)
      ensures this.block == block && next == null
    {
      this.block := block;
      next := null;
    }
  }

  class BlockChain {
    /** The SHA-256 every block of this chain is mined with. */
    const sha256: HashFunction
    var first: Node
    var last: Node
    ghost var Nodes: seq<Node>
    ghost var Contents: seq<Block>

    ghost predicate Valid()
      reads this, Nodes
    {
      && |Nodes| == |Contents| >= 1
      && first == Nodes[0]
      && last == Nodes[|Nodes| - 1]
      && last.next == null
      && (forall i :: 0 <= i < |Nodes| ==> Nodes[i].block == Contents[i])
      && (forall i :: 0 <= i < |Nodes| - 1 ==> Nodes[i].next == Nodes[i + 1])
      && (forall i, j :: 0 <= i < j < |Nodes| ==> Nodes[i] != Nodes[j])
      && Contents[0].num == 0
      && Contents[0].prevHash == None
      && (forall i :: 1 <= i < |Contents| ==> Contents[i].prevHash.Some?)
      && AcceptedLinks(Contents)
    }

    /** A chain holding only a mined genesis block: number 0, the initial amount, no previous hash. */
    constructor (sha256: HashFunction, initial: Int32)
      requires Minable(sha256, 0, initial, None)
      ensures Valid() && this.sha256 == sha256
      ensures |Contents| == 1 && IsMined(sha256, Contents[0], 0, initial, None)
      ensures IsValid(Contents[0].hash)
      ensures fresh(Nodes[0])
    {
      this.sha256 := sha256;
      var start := MineBlock(sha256, 0, initial, None);
      var node := new Node(start);
      first, last := node, node;
      Nodes, Contents := [node], [start];
    }

    /** `getSize`: counts the nodes in an `int`. */
    method GetSize() returns (count: Int32)
      requires Valid()
      ensures count == Wrap32(|Contents|)
      ensures |Contents| <= INT32_MAX ==> count == |Contents|
    {
      count := 0;
      var curr: Node? := first;
      ghost var i := 0;
      while curr != null
        invariant 0 <= i <= |Nodes|
        invariant curr == if i < |Nodes| then Nodes[i] else null
        invariant count == Wrap32(i)
        decreases |Nodes| - i
      {
        Wrap32Increment(i);
        count := Add32(count, 1);
        curr := curr.next;
        i := i + 1;
      }
    }

    /** `mine`: a block mined for the next number and the tail's hash; the chain is not changed. */
    method Mine(amount: Int32) returns (b: Block)
      requires Valid()
      requires Minable(sha256, Wrap32(|Contents|), amount, Some(Last(Contents).hash))
      ensures IsMined(sha256, b, Wrap32(|Contents|), amount, Some(Last(Contents).hash))
    {
      var newBlockNum := GetSize();
      b := MineBlock(sha256, newBlockNum, amount, Some(last.block.hash));
    }

    /** `getHash`: the hash of the tail block. */
    function GetHash(): (h: Hash)
      reads this, Nodes
      requires Valid()
      ensures h == Last(Contents).hash
    {
      last.block.hash
    }

    /** `computeBalances`: replays every amount from genesis. */
    method ComputeBalances() returns (w: Balances)
      requires Valid()
      ensures w == BalancesOf(Contents)
    {
      var anna := first.block.amount;
      var bob: Int32 := 0;
      var curr := first.next;
      ghost var i := 1;
      while curr != null
        invariant 1 <= i <= |Nodes|
        invariant curr == if i < |Nodes| then Nodes[i] else null
        invariant Balances(anna, bob) == BalancesOf(Contents[..i])
        decreases |Nodes| - i
      {
        assert curr.block == Contents[i];
        BalancesStep(Contents, i);
        var amt := curr.block.amount;
        if amt < 0 {
          var transfer := Abs32(amt);
          anna := Sub32(anna, transfer);
          bob := Add32(bob, transfer);
        } else if amt > 0 {
          bob := Sub32(bob, amt);
          anna := Add32(anna, amt);
        }
        curr := curr.next;
        i := i + 1;
      }
      assert Contents[..|Contents|] == Contents;
      w := Balances(anna, bob);
    }

    /** `append`: the number, linkage and funds checks in that order; only a block passing all three is linked in. */
    method Append(blk: Block) returns (r: Outcome)
      requires Valid()
      modifies this, last
      ensures Valid()
      ensures r == AppendCheck(old(Contents), blk)
      ensures Contents == if r.Appended? then old(Contents) + [blk] else old(Contents)
      ensures r.Rejected? ==> Nodes == old(Nodes) && unchanged(this, old(last))
      ensures r.Appended? ==> |Nodes| == |old(Nodes)| + 1 && Nodes[..|old(Nodes)|] == old(Nodes) && fresh(Nodes[|Nodes| - 1])
    {
      var size := GetSize();
      if blk.num != size {
        return Rejected(IncorrectNumber);
      }
      if blk.prevHash.None? {
        return Rejected(NullPrevHash);
      }
      if !Equals(blk.prevHash.value, last.block.hash) {
        return Rejected(PrevHashMismatch);
      }
      var balances := ComputeBalances();
      var amt := blk.amount;
      if amt < 0 {
        if balances.anna < Abs32(amt) {
          return Rejected(InsufficientFunds(Anna));
        }
      } else if amt > 0 {
        if balances.bob < amt {
          return Rejected(InsufficientFunds(Bob));
        }
      }
      assert Shortfall(balances, blk.amount) == None;
      LinkTail(blk);
      r := Appended;
    }

    /** Links a new node holding blk after the tail. */
    method LinkTail(blk: Block)
      requires Valid() && AppendCheck(Contents, blk) == Appended
      modifies this, last
      ensures Valid()
      ensures Contents == old(Contents) + [blk]
      ensures |Nodes| == |old(Nodes)| + 1 && Nodes[..|old(Nodes)|] == old(Nodes) && fresh(Nodes[|Nodes| - 1])
    {
      AppendKeepsAccepted(Contents, blk);
      var newNode := new Node(blk);
      last.next := newNode;
      last := newNode;
      Nodes := Nodes + [newNode];
      Contents := Contents + [blk];
    }

    /** `removeLast`: unlinks the tail unless it is the genesis block. */
    method RemoveLast() returns (removed: bool)
      requires Valid()
      modifies this, Nodes
      ensures Valid()
      ensures removed <==> |old(Contents)| > 1
      ensures Contents == if removed then old(Contents)[..|old(Contents)| - 1] else old(Contents)
      ensures Nodes == if removed then old(Nodes)[..|old(Nodes)| - 1] else old(Nodes)
    {
      if first == last {
        return false;
      }
      var curr := first;
      ghost var i := 0;
      while curr.next != last
        invariant 0 <= i < |Nodes| - 1
        invariant curr == Nodes[i]
        decreases |Nodes| - i
      {
        curr := curr.next;
        i := i + 1;
      }
      assert Nodes[i + 1] == Nodes[|Nodes| - 1];
      ghost var kept := Contents[..|Contents| - 1];
      RemoveKeepsAccepted(Contents);
      assert kept[0] == Contents[0];
      curr.next := null;
      last := curr;
      Nodes := Nodes[..|Nodes| - 1];
      Contents := kept;
      removed := true;
    }

    /** `isValidBlockChain`: replays the chain, checking numbering, linkage, proof of work and funds. */
    method IsValidBlockChain() returns (ok: bool)
      requires Valid()
      ensures ok == ReplayValid(Contents)
    {
      var anna := first.block.amount;
      var bob: Int32 := 0;
      var prev := first;
      var curr := first.next;
      ghost var i := 1;
      while curr != null
        invariant 1 <= i <= |Nodes|
        invariant prev == Nodes[i - 1]
        invariant curr == if i < |Nodes| then Nodes[i] else null
        invariant Balances(anna, bob) == BalancesOf(Contents[..i])
        invariant ReplayValid(Contents[..i])
        decreases |Nodes| - i
      {
        var blk := curr.block;
        assert blk == Contents[i] && prev.block == Last(Contents[..i]);
        ReplayStep(Contents, i);
        BalancesStep(Contents, i);
        ReplayValidPrefix(Contents, i + 1);
        var passed, after := ReplayBlock(prev.block, blk, Balances(anna, bob));
        if !passed {
          return false;
        }
        anna, bob := after.anna, after.bob;
        prev := curr;
        curr := curr.next;
        i := i + 1;
      }
      assert Contents[..|Contents|] == Contents;
      return true;
    }

    /**
     * One pass of the loop of `isValidBlockChain`: the number, linkage, proof-of-work
     * and funds checks of blk after prev, then the transfer on the running balances.
     */
    static method ReplayBlock(prev: Block, blk: Block, w: Balances) returns (passed: bool, after: Balances)
      requires blk.prevHash.Some?
      ensures passed <==>
        && blk.num == Add32(prev.num, 1)
        && blk.prevHash == Some(prev.hash)
        && IsValid(blk.hash)
        && Shortfall(w, blk.amount) == None
      ensures passed ==> after == Transfer(w, blk.amount)
    {
      after := w;
      if blk.num != Add32(prev.num, 1) {
        return false, w;
      }
      if !Equals(blk.prevHash.value, prev.hash) {
        return false, w;
      }
      if !IsValid(blk.hash) {
        return false, w;
      }
      var anna, bob := w.anna, w.bob;
      var amt := blk.amount;
      if amt < 0 {
        var transfer := Abs32(amt);
        if anna < transfer {
          return false, w;
        }
        anna := Sub32(anna, transfer);
        bob := Add32(bob, transfer);
      } else if amt > 0 {
        if bob < amt {
          return false, w;
        }
        bob := Sub32(bob, amt);
        anna := Add32(anna, amt);
      }
      return true, Balances(anna, bob);
    }

    /** The loop of `toString`: appends every block's line and a newline to a builder. */
    method BuildText() returns (sb: string)
      requires Valid()
      ensures sb == Terminated(Lines(Contents))
    {
      ghost var ls := Lines(Contents);
      sb := "";
      var curr: Node? := first;
      ghost var i := 0;
      while curr != null
        invariant 0 <= i <= |Nodes|
        invariant curr == if i < |Nodes| then Nodes[i] else null
        invariant sb == Terminated(ls[..i])
        decreases |Nodes| - i
      {
        assert curr.block == Contents[i];
        LineAt(Contents, i);
        TerminatedStep(ls, i);
        var line := Blocks.ToString(curr.block);
        assert line == ls[i];
        sb := sb + line + "\n";
        curr := curr.next;
        i := i + 1;
      }
      assert ls[..|ls|] == ls;
    }

    /** `toString`: the builder's text, trimmed. */
    method ToString() returns (s: string)
      requires Valid()
      ensures s == Render(Contents)
    {
      var sb := BuildText();
      TrimmedBuilder(Contents);
      s := Trim(sb);
    }
  }

  /**
   * The sequence of the source's test of one append, run by a client through the class
   * contracts: a chain of 300, a mined block moving 150 from Anna to Bob appended, then a
   * valid chain of two blocks with balances 150/150. The hash function is one under which
   * every digest is valid, so mining stops at nonce 0.
   */
  method AppendOneBlockScenario(sha256: HashFunction)
    requires forall m :: IsValid(Hash(sha256(m)))
  {
    var chain, candidate := ChainWithOneBlock(sha256);
    var size := chain.GetSize();
    assert size == 2;
    var balances := chain.ComputeBalances();
    assert chain.Contents[..1] == [chain.Contents[0]];
    assert balances == Balances(150, 150);
    var valid := chain.IsValidBlockChain();
    assert FollowsValidly(chain.Contents[..1], chain.Contents[1]);
    assert valid;
  }

  /**
   * The sequence of the source's test of `removeLast`, continued: after one append the
   * tail can be removed, leaving the genesis block, and the same block appended again.
   */
  method RemoveScenario(sha256: HashFunction)
    requires forall m :: IsValid(Hash(sha256(m)))
  {
    var chain, candidate := ChainWithOneBlock(sha256);
    var removed := chain.RemoveLast();
    assert removed;
    var size := chain.GetSize();
    assert size == 1;
    var outcome := chain.Append(candidate);
    assert outcome == Appended;
  }

  /** `new BlockChain(300)`, `mine(-150)` and `append`: the first steps of both tests. */
  method ChainWithOneBlock(sha256: HashFunction) returns (chain: BlockChain, candidate: Block)
    requires forall m :: IsValid(Hash(sha256(m)))
    ensures fresh(chain) && fresh(chain.Nodes) && chain.Valid() && chain.sha256 == sha256
    ensures |chain.Contents| == 2 && chain.Contents[1] == candidate
    ensures chain.Contents[0].amount == 300 && chain.Contents[0].num == 0
    ensures candidate.num == 1 && candidate.amount == -150 && candidate.prevHash == Some(chain.Contents[0].hash)
    ensures IsValid(candidate.hash)
  {
    assert IsValid(ComputeHash(sha256, 0, 300, None, 0));
    chain := new BlockChain(sha256, 300);
    var genesis := chain.GetHash();
    assert IsValid(ComputeHash(sha256, 1, -150, Some(genesis), 0));
    candidate := chain.Mine(-150);
    assert Shortfall(BalancesOf(chain.Contents), -150) == None;
    var outcome := chain.Append(candidate);
    assert outcome == Appended;
  }
}
