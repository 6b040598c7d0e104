# A two-party proof-of-work ledger, in Dafny

This project models the core of a small Java blockchain (package
`edu.grinnell.csc207.blockchain`). Two parties, Anna and Bob, move money
between them. Every transaction is a block, and the blocks sit in a singly
linked list.

- `Hash` (hash.dfy, module `Hashes`) wraps digest bytes. It provides:
  - the proof-of-work test: the first three bytes are zero;
  - structural equality;
  - the lowercase hexadecimal rendering, two digits per byte. This is the base16 alphabet of section 8 of RFC 4648, in lower case.
- `Block` (block.dfy, module `Blocks`) is an immutable record `(num, amount, prevHash, nonce, hash)`.
  - Its hash is SHA-256 over a fixed layout: big-endian `num`, `amount` and the previous hash's bytes, then the big-endian `nonce`.
  - A block is either mined or rebuilt from a known nonce. Mining is a linear search from nonce 0.
  - It renders itself as one line of text.
- `BlockChain` (blockchain.dfy, module `Chains`) is a class over `Node` objects with `first` and `last` pointers.
  - `append` runs three ordered checks: number, linkage, funds.
  - `removeLast` never removes the genesis block.
  - `computeBalances` replays the amounts from genesis.
  - `isValidBlockChain` replays the chain and checks every rule.
  - `toString` prints one line per block.
- The ledger rules live in ledger.dfy (module `Ledger`). They are stated as functions on the sequence of blocks from genesis to tail:
  - `BalancesOf`, the replayed balances;
  - `AppendCheck`, the verdict of `append`;
  - `ReplayValid`, the verdict of `isValidBlockChain`.
  Each method of the class is proved to compute the matching function of its ghost `Contents`. The class invariant `Valid()` also keeps what `append` enforces on every chain it builds. Block i is numbered i, links to the hash of block i - 1, and its transfer was covered by the balances before it. This holds whether or not the blocks' own hashes are valid.
- `Option`, the model of a reference that may be null, is in options.dfy. Java's `int`, `long` and `byte` semantics are in java_ints.dfy. The two pieces of `String` behaviour the renderings use, `%d` and `trim`, are in java_strings.dfy.

Modelling decisions:

- **Java `int` arithmetic wraps.**
  - Every balance update is a single Java `+` or `-`. `Add32` and `Sub32` wrap into the `int` range. `Abs32` is `Math.abs`, so `Abs32(Integer.MIN_VALUE)` is `Integer.MIN_VALUE`.
  - The node counter of `getSize` and the `num + 1` of the validation are wrapped the same way.
  - No contract excludes `Integer.MIN_VALUE` or overflow. Instead:
    - `BalancesConserved` proves that conservation holds modulo 2^32 on every chain.
    - `ValidBalancesNonNegative` proves exact conservation and non-negative balances for a chain whose every transfer was covered, whose genesis amount is non-negative, and in which no later amount is `Integer.MIN_VALUE`. Chains built by `append` and chains that pass `isValidBlockChain` both have covered transfers.
    - `MinValuePassesFundsCheck` proves that `Integer.MIN_VALUE` passes the funds check of `append` and then drives both balances negative.
- **A null previous hash.** `prevHash` is an `Option<Hash>`. In `append`, `blk.getPrevHash().equals(...)` on a null previous hash throws. The model returns the distinct rejection `NullPrevHash` for it, after the number check and before the linkage check, as the source does. The chain invariant gives every non-genesis block a previous hash, so the same null dereference in `isValidBlockChain` cannot happen.
- **Exceptions become outcomes.** The three `IllegalArgumentException`s of `append` are the `Rejected` outcomes. Each rejection leaves the chain unchanged.
- **SHA-256 is a parameter.** Each operation that hashes takes a parameter `sha256` from message bytes to digest bytes, so every property holds for any hash function. A chain keeps the function it was built with.
- **Mining needs a valid nonce.** Mining requires that some non-negative `long` nonce gives a valid hash. Termination is argued from that nonce.
- **The class is usable by a client.** The constructor and `Append` say which nodes are fresh, and `RemoveLast` says the node list only shrinks. `AppendOneBlockScenario` and `RemoveScenario` run the sequences of Tests.java:57-67 and 93-106 through the class contracts alone. They check a valid chain of two blocks with balances 150/150, and a removal followed by a second append.
- **What the code enforces, and where.**
  - `append` (BlockChain.java:66-90) does not check the block's own hash, although `isValidBlockChain` does (BlockChain.java:146). So `append` can link a block that `isValidBlockChain` then rejects. `AppendMatchesReplay` states the exact relation between the two.
  - `isValidBlockChain` starts its checks at the second block (BlockChain.java:133-134), so the genesis block's hash is never checked.
  - The funds checks (BlockChain.java:78-86 and 151-161) compare against `Math.abs(amt)`, which is negative for `Integer.MIN_VALUE`. So both checks let that amount through, and the balances then go negative.

## Model

| member | source | states |
|---|---|---|
| Hashes.GetData | src/main/java/edu/grinnell/csc207/blockchain/Hash.java:16-27 | the bytes returned are exactly the bytes the hash was built from |
| Hashes.IsValid | src/main/java/edu/grinnell/csc207/blockchain/Hash.java:34-37 | valid iff the hash has at least three bytes and the first three are zero; shorter hashes are never valid |
| Hashes.ValidityIgnoresTail | src/main/java/edu/grinnell/csc207/blockchain/Hash.java:36 | two hashes that agree on their first three bytes agree on validity, whatever follows |
| Hashes.Equals | src/main/java/edu/grinnell/csc207/blockchain/Hash.java:59-68 | equal iff same length and the same byte at every index, which is equality of the hashes |
| Hashes.EqualsIsEquivalence | src/main/java/edu/grinnell/csc207/blockchain/Hash.java:59-68 | `equals` is reflexive, symmetric and transitive |
| Hashes.HexValue | src/main/java/edu/grinnell/csc207/blockchain/Hash.java:47 | a character has a value iff it is a lowercase hex digit, and that value's digit is the character |
| Hashes.ByteHexDigits | src/main/java/edu/grinnell/csc207/blockchain/Hash.java:47 | `ByteHex`, the `%02x` of one byte, is two digits: the high and the low nibble of the byte's unsigned value |
| Hashes.Hex | src/main/java/edu/grinnell/csc207/blockchain/Hash.java:44-50 | the rendering has exactly two characters per byte, all lowercase hex digits |
| Hashes.FromHex | src/main/java/edu/grinnell/csc207/blockchain/Hash.java:51 | decoding succeeds iff the text has even length and only hex digits, and then yields half as many bytes |
| Hashes.ToString | src/main/java/edu/grinnell/csc207/blockchain/Hash.java:44-50 | the builder loop produces the rendering of all the bytes, in order |
| Hashes.HexAt | src/main/java/edu/grinnell/csc207/blockchain/Hash.java:46-48 | positions 2i and 2i+1 hold the high and low digit of byte i's unsigned value |
| Hashes.PairValueAt | src/main/java/edu/grinnell/csc207/blockchain/Hash.java:47 | the digit pair at positions 2i, 2i+1 reads back as byte i |
| Hashes.HexRoundTrip | src/main/java/edu/grinnell/csc207/blockchain/Hash.java:44-51 | decoding the rendering gives back exactly the bytes |
| Hashes.HexInjective | src/main/java/edu/grinnell/csc207/blockchain/Hash.java:44-51 | equal renderings come from equal byte sequences |
| Hashes.LeadingZerosExample | src/test/java/edu/grinnell/csc207/blockchain/Tests.java:20-26 | the bytes 0,0,0,1 form a valid hash rendered "00000001" |
| JavaInts.Wrap32 | src/main/java/edu/grinnell/csc207/blockchain/BlockChain.java:40-44 | the `int` an integer wraps to; an integer already in range is unchanged |
| JavaInts.Add32 | src/main/java/edu/grinnell/csc207/blockchain/BlockChain.java:157 | Java `int` addition: the exact sum whenever it fits |
| JavaInts.Sub32 | src/main/java/edu/grinnell/csc207/blockchain/BlockChain.java:156 | Java `int` subtraction: the exact difference whenever it fits |
| JavaInts.Add32Wraps | src/main/java/edu/grinnell/csc207/blockchain/BlockChain.java:157 | `int` addition is the exact sum wrapped to 32 bits, also when it overflows |
| JavaInts.Sub32Wraps | src/main/java/edu/grinnell/csc207/blockchain/BlockChain.java:156 | `int` subtraction is the exact difference wrapped to 32 bits, also when it overflows |
| JavaInts.Wrap32Sum | src/main/java/edu/grinnell/csc207/blockchain/BlockChain.java:181-185 | wrapping the parts of a sum and then the sum gives the wrapped total |
| JavaInts.Wrap32Increment | src/main/java/edu/grinnell/csc207/blockchain/BlockChain.java:42 | incrementing a wrapped counter wraps the incremented count |
| JavaInts.Add32Moved | src/main/java/edu/grinnell/csc207/blockchain/BlockChain.java:181-182 | moving d from one `int` to another leaves their `int` sum unchanged, overflow included |
| JavaInts.Abs32 | src/main/java/edu/grinnell/csc207/blockchain/BlockChain.java:79 | `Math.abs`: non-negative magnitude except for Integer.MIN_VALUE, which it returns unchanged |
| JavaInts.Unsigned8 | src/main/java/edu/grinnell/csc207/blockchain/Hash.java:47 | `Byte.toUnsignedInt`: a value below 256 that is congruent to the byte modulo 256 |
| JavaInts.Signed8 | src/main/java/edu/grinnell/csc207/blockchain/Hash.java:47 | the `byte` whose unsigned value is the given value |
| JavaInts.PutInt | src/main/java/edu/grinnell/csc207/blockchain/Block.java:119-121 | `putInt` writes exactly four bytes; `PutIntRoundTrip` shows they determine the `int` |
| JavaInts.PutLong | src/main/java/edu/grinnell/csc207/blockchain/Block.java:127 | `putLong` writes exactly eight bytes; `PutLongRoundTrip` shows they determine the `long` |
| JavaInts.BigEndianRoundTrip | src/main/java/edu/grinnell/csc207/blockchain/Block.java:119-127 | the big-endian bytes of a value read back as that value |
| JavaInts.PutIntRoundTrip | src/main/java/edu/grinnell/csc207/blockchain/Block.java:119-121 | the four bytes `putInt` writes determine the `int` |
| JavaInts.PutLongRoundTrip | src/main/java/edu/grinnell/csc207/blockchain/Block.java:127 | the eight bytes `putLong` writes determine the `long` |
| JavaStrings.Decimal | src/main/java/edu/grinnell/csc207/blockchain/Block.java:96 | `%d` text: a minus sign exactly for negative values, then decimal digits with no leading zero (the digits are "0" when they start with '0') |
| JavaStrings.NatDecimal | src/main/java/edu/grinnell/csc207/blockchain/Block.java:96 | the digits of a natural number start with '0' exactly when the number is 0, and are then "0" |
| JavaStrings.DecimalRoundTrip | src/main/java/edu/grinnell/csc207/blockchain/Block.java:96 | the `%d` text parses back to the number |
| JavaStrings.Trim | src/main/java/edu/grinnell/csc207/blockchain/BlockChain.java:213 | `String.trim`: the result is no longer than the text, starts and ends with a character above U+0020, and is the text itself when it has no such character |
| JavaStrings.TrimStart | src/main/java/edu/grinnell/csc207/blockchain/BlockChain.java:213 | the leading characters up to U+0020 are removed and no more |
| JavaStrings.TrimEnd | src/main/java/edu/grinnell/csc207/blockchain/BlockChain.java:213 | the trailing characters up to U+0020 are removed and no more |
| JavaStrings.TrimFinalNewline | src/main/java/edu/grinnell/csc207/blockchain/BlockChain.java:213 | `trim` of visible-ended text plus a newline removes exactly that newline |
| Blocks.HashInput | src/main/java/edu/grinnell/csc207/blockchain/Block.java:119-127 | the digest input is 16 bytes without a previous hash, 16 plus its length with one |
| Blocks.ComputeHash | src/main/java/edu/grinnell/csc207/blockchain/Block.java:115-133 | the hash is the digest of putInt(num), putInt(amount), the previous hash's bytes when present, and putLong(nonce), in that order |
| Blocks.HashInputUnambiguous | src/main/java/edu/grinnell/csc207/blockchain/Block.java:119-127 | the digest input determines num, amount, previous hash and nonce |
| Blocks.Reconstruct | src/main/java/edu/grinnell/csc207/blockchain/Block.java:40-46 | the nonce constructor stores the four fields unchanged and sets the hash to the digest of those fields |
| Blocks.MineBlock | src/main/java/edu/grinnell/csc207/blockchain/Block.java:101-112 | mining yields the least non-negative nonce with a valid hash, and the block's hash is that nonce's digest |
| Blocks.MiningIsDeterministic | src/main/java/edu/grinnell/csc207/blockchain/Block.java:25-30 | two mined blocks with the same fields are equal |
| Blocks.RebuildFromMinedNonce | src/test/java/edu/grinnell/csc207/blockchain/Tests.java:45-52 | rebuilding a mined block from its nonce gives the same, valid hash |
| Blocks.ToString | src/main/java/edu/grinnell/csc207/blockchain/Block.java:95-98 | the line starts "Block num (Amount: ", ends with ')' and has no newline |
| Blocks.ToStringInjective | src/main/java/edu/grinnell/csc207/blockchain/Block.java:95-98 | the line carries all five fields: two blocks have the same line iff they are the same block (number, amount, nonce, previous hash or its absence, and hash) |
| Blocks.PrevTextInjective | src/main/java/edu/grinnell/csc207/blockchain/Block.java:97 | the prevHash field, hex digits or "null", determines the previous hash and whether there is one |
| Blocks.RenderFields | src/main/java/edu/grinnell/csc207/blockchain/Block.java:96-97 | the fields after "Amount: " end with ')' and have no newline, whether or not there is a previous hash; `ToStringInjective` shows they determine amount, nonce, previous hash and hash |
| Blocks.ToStringEnds | src/main/java/edu/grinnell/csc207/blockchain/Block.java:96 | a block's line starts and ends with a character `trim` keeps |
| Blocks.GenesisRendering | src/test/java/edu/grinnell/csc207/blockchain/Tests.java:37-38 | a block numbered 0 renders starting with "Block 0" |
| Ledger.Transfer | src/main/java/edu/grinnell/csc207/blockchain/BlockChain.java:150-164 | for any amount except Integer.MIN_VALUE, Anna gains the amount and Bob loses it, as Java `int`s, whatever its sign; Integer.MIN_VALUE moves `Math.abs` of it, which is itself |
| Ledger.MinusNegated | src/main/java/edu/grinnell/csc207/blockchain/BlockChain.java:152-157 | subtracting `Math.abs` of a negative `int` other than MIN_VALUE equals adding the `int`, overflow included |
| Ledger.Shortfall | src/main/java/edu/grinnell/csc207/blockchain/BlockChain.java:78-86 | Anna is short iff the amount is negative and her balance is below its `Math.abs`; Bob iff positive and his balance is below it; zero never fails |
| Ledger.BalancesStep | src/main/java/edu/grinnell/csc207/blockchain/BlockChain.java:177-188 | replaying one more block applies its transfer to the balances so far |
| Ledger.AppendCheck | src/main/java/edu/grinnell/csc207/blockchain/BlockChain.java:66-86 | the checks run in the source's order. A wrong number is rejected first. Then a missing previous hash gives `NullPrevHash` and a different one gives `PrevHashMismatch`, whatever the funds. Then a shortfall is reported for the party `Shortfall` names. An accepted block has the next number, the tail's hash and covered funds |
| Ledger.AppendedIff | src/main/java/edu/grinnell/csc207/blockchain/BlockChain.java:66-86 | `append` accepts iff the number is the size, the previous hash is the tail's hash and the funds check passes |
| Ledger.ReplayStep | src/main/java/edu/grinnell/csc207/blockchain/BlockChain.java:135-167 | a chain one block longer is valid iff its prefix is valid and the block follows that prefix validly |
| Ledger.ReplayValidAt | src/main/java/edu/grinnell/csc207/blockchain/BlockChain.java:127-169 | a chain is valid iff every non-genesis block passes number, linkage, proof-of-work and funds checks against its prefix |
| Ledger.ReplayValidPrefix | src/main/java/edu/grinnell/csc207/blockchain/BlockChain.java:135-167 | every prefix of a valid chain is valid |
| Ledger.LastNumber | src/main/java/edu/grinnell/csc207/blockchain/BlockChain.java:138 | in a valid chain from genesis 0, the tail's number is the length minus one, as an `int` |
| Ledger.NextNumber | src/main/java/edu/grinnell/csc207/blockchain/BlockChain.java:138 | the tail's number plus one is the chain's size, as `append` expects |
| Ledger.NumberAt | src/main/java/edu/grinnell/csc207/blockchain/BlockChain.java:138 | in a valid chain from genesis 0, block i is numbered i, as an `int` |
| Ledger.ValidNumbering | src/main/java/edu/grinnell/csc207/blockchain/BlockChain.java:138 | in a valid chain from genesis 0, every block i is numbered i |
| Ledger.AcceptedChainAt | src/main/java/edu/grinnell/csc207/blockchain/BlockChain.java:66-90 | a chain was built by `append` iff every block after genesis is numbered by its position as an `int`, links to the previous block's hash and was covered by the balances before it |
| Ledger.AcceptedAt | src/main/java/edu/grinnell/csc207/blockchain/BlockChain.java:66-86 | `append` accepts block i on the blocks before it iff block i passes the three checks against its neighbours |
| Ledger.AppendKeepsAccepted | src/main/java/edu/grinnell/csc207/blockchain/BlockChain.java:66-90 | linking a block that `append` accepts keeps every block's numbering, linkage and funds |
| Ledger.RemoveKeepsAccepted | src/main/java/edu/grinnell/csc207/blockchain/BlockChain.java:99-111 | dropping the tail keeps every remaining block's numbering, linkage and funds |
| Ledger.AcceptedFundsCovered | src/main/java/edu/grinnell/csc207/blockchain/BlockChain.java:76-86 | a chain built by `append` had every transfer covered |
| Ledger.ReplayFundsCovered | src/main/java/edu/grinnell/csc207/blockchain/BlockChain.java:150-161 | a chain that passes `isValidBlockChain` had every transfer covered |
| Ledger.FundsCoveredPrefix | src/main/java/edu/grinnell/csc207/blockchain/BlockChain.java:150-164 | covered transfers hold for the blocks before the tail, and the tail was covered by their balances |
| Ledger.AppendMatchesReplay | src/main/java/edu/grinnell/csc207/blockchain/BlockChain.java:66-90 | a valid chain stays valid after adding a block iff `append` accepts the block and its hash is valid |
| Ledger.TransferConserves | src/main/java/edu/grinnell/csc207/blockchain/BlockChain.java:178-186 | one transfer keeps the `int` sum of the two balances |
| Ledger.BalancesConserved | src/main/java/edu/grinnell/csc207/blockchain/BlockChain.java:173-190 | the replayed balances always add up to the genesis amount, as `int`s |
| Ledger.ExactTransfer | src/main/java/edu/grinnell/csc207/blockchain/BlockChain.java:150-164 | a covered transfer other than Integer.MIN_VALUE moves exactly the amount and leaves both balances non-negative |
| Ledger.ValidBalancesNonNegative | src/main/java/edu/grinnell/csc207/blockchain/BlockChain.java:150-164 | for a chain whose every transfer was covered by the balances before it, with a non-negative genesis amount and no later Integer.MIN_VALUE amount, the balances are non-negative and sum exactly to the genesis amount |
| Ledger.MinValuePassesFundsCheck | src/main/java/edu/grinnell/csc207/blockchain/BlockChain.java:78-81 | Integer.MIN_VALUE passes the funds check and drives both balances negative |
| Ledger.LedgerScenario | src/test/java/edu/grinnell/csc207/blockchain/Tests.java:70-89 | the amounts of the two-block test, 300 then -150 then 100, leave 150/150 and then 250/50 (balances that no test asserts); -350 on 300 is refused for Anna, as Tests.java:119-131 expects |
| Chains.LineAt | src/main/java/edu/grinnell/csc207/blockchain/BlockChain.java:210 | line i of the chain text is block i's own rendering |
| Chains.SplitJoin | src/main/java/edu/grinnell/csc207/blockchain/BlockChain.java:206-214 | lines without newlines, joined by newlines, split back into the same lines |
| Chains.TerminatedIsJoin | src/main/java/edu/grinnell/csc207/blockchain/BlockChain.java:208-213 | the builder's text is the joined lines plus one final newline |
| Chains.TerminatedStep | src/main/java/edu/grinnell/csc207/blockchain/BlockChain.java:210 | each loop step appends one line and one newline |
| Chains.TrimTerminated | src/main/java/edu/grinnell/csc207/blockchain/BlockChain.java:213 | trimming newline-terminated visible-ended lines removes only the final newline |
| Chains.RenderLines | src/main/java/edu/grinnell/csc207/blockchain/BlockChain.java:206-214 | splitting the chain's text at newlines gives each block's line, in chain order |
| Chains.TrimmedBuilder | src/main/java/edu/grinnell/csc207/blockchain/BlockChain.java:213 | trimming the builder's text leaves exactly the rendering |
| Chains.Node.constructor | src/main/java/edu/grinnell/csc207/blockchain/BlockChain.java:16-19 | a node holds the block and no successor |
| Chains.BlockChain.constructor | src/main/java/edu/grinnell/csc207/blockchain/BlockChain.java:28-32 | one mined genesis block numbered 0, with the initial amount, no previous hash and a valid hash, held by a fresh node |
| Chains.BlockChain.GetSize | src/main/java/edu/grinnell/csc207/blockchain/BlockChain.java:39-45 | the count of nodes as an `int`: the number of blocks when it fits |
| Chains.BlockChain.Mine | src/main/java/edu/grinnell/csc207/blockchain/BlockChain.java:54-58 | the mined block has number `getSize()` and the tail's hash as previous hash; the chain is not changed |
| Chains.BlockChain.GetHash | src/main/java/edu/grinnell/csc207/blockchain/BlockChain.java:118-120 | the hash of the tail block |
| Chains.BlockChain.ComputeBalances | src/main/java/edu/grinnell/csc207/blockchain/BlockChain.java:173-190 | the loop's result is the replay of every amount from genesis |
| Chains.BlockChain.Append | src/main/java/edu/grinnell/csc207/blockchain/BlockChain.java:66-91 | the outcome is the ordered checks' verdict; an accepted block becomes the new tail after the old blocks, in one fresh node after the old nodes; a rejection changes nothing |
| Chains.BlockChain.LinkTail | src/main/java/edu/grinnell/csc207/blockchain/BlockChain.java:88-90 | linking a fresh node after the tail appends the block, keeps the old nodes and keeps the list well formed, with every block's numbering, linkage and funds |
| Chains.BlockChain.RemoveLast | src/main/java/edu/grinnell/csc207/blockchain/BlockChain.java:99-111 | removes iff there is more than the genesis block, and then drops only the tail block and its node |
| Chains.BlockChain.ReplayBlock | src/main/java/edu/grinnell/csc207/blockchain/BlockChain.java:136-164 | one pass of the loop passes iff the block has the next number, links to the previous block, has a valid hash and is covered; it then returns the transferred balances |
| Chains.BlockChain.IsValidBlockChain | src/main/java/edu/grinnell/csc207/blockchain/BlockChain.java:127-169 | the loop's answer is the replay verdict on the chain's blocks |
| Chains.ChainWithOneBlock | src/test/java/edu/grinnell/csc207/blockchain/Tests.java:59-63 | a client creates a chain of 300, mines -150 and appends it: two blocks, the second the mined one, linked to the genesis hash |
| Chains.BlockChain.BuildText | src/main/java/edu/grinnell/csc207/blockchain/BlockChain.java:207-212 | the builder holds every block's line followed by a newline, in chain order |
| Chains.BlockChain.ToString | src/main/java/edu/grinnell/csc207/blockchain/BlockChain.java:206-214 | the text is the blocks' lines joined by newlines, with no trailing newline |

## Left out

- BlockChainDriver.java is left out. It is an interactive console loop over the core API.
- `BlockChain.printBalances` is left out. It is console output over `computeBalances`, which is modelled.
- The SHA-256 computation is left out and enters as a parameter. The `NoSuchAlgorithmException` path is left out too: the algorithm is always available.
- `Hash.hashCode` is left out. It has no contract beyond agreeing with `equals`.
- Hashes.Equals: compares two hashes only. The `this == other` shortcut and the `false` for a non-`Hash` argument have no counterpart, because Dafny's types rule them out.
- Hashes.GetData: hashes are values, so the aliasing of the byte array that the constructor stores and `getData` returns is not modelled.
- Blocks.MineBlock: requires that some nonce below 2^63 gives a valid hash. The wrap of `candidate++` past `Long.MAX_VALUE` and a search that never ends are not modelled.
- Block is an immutable datatype. Its accessors are the datatype's fields, so "a block never changes after construction" holds by construction.
- Chains.BlockChain.IsValidBlockChain: the `first == null` branch is not modelled, because the constructor always sets `first`.
- The placeholder test of Tests.java is left out.
- JavaStrings.Decimal: assumes a default locale whose zero digit is '0'. Block.java:96 calls `String.format` without a `Locale`, and `%d` prints the default locale's digits, so under another locale num, amount and nonce would print with other digits.
