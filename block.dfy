/**
 * Block.java: an immutable transaction record (number, amount, previous
 * hash, nonce, hash). Its hash is SHA-256 over a fixed byte layout; a
 * block is either mined (a linear search for the first nonce whose hash is
 * valid) or rebuilt from a known nonce.
 *
 * SHA-256 (FIPS 180-4) is a library call: it enters every operation as the
 * parameter `sha256`, so each property holds for every such function.
 */
module Blocks {
  import opened Options
  import opened JavaInts
  import opened JavaStrings
  import opened Hashes

  /** `MessageDigest.getInstance("sha-256")`, from message bytes to digest bytes. */
  type HashFunction = seq<Int8> -> seq<Int8>

  datatype Block = Block(num: Int32, amount: Int32, prevHash: Option<Hash>, nonce: Int64, hash: Hash)

  /** The bytes `computeHash` feeds the digest, in order. */
  function HashInput(num: Int32, amount: Int32, prevHash: Option<Hash>, nonce: Int64): (m: seq<Int8>)
    ensures prevHash.None? ==> |m| == 16
    ensures prevHash.Some? ==> |m| == 16 + |prevHash.value.data|
  {
    PutInt(num) + PutInt(amount) + (if prevHash.Some? then prevHash.value.data else []) + PutLong(nonce)
  }

  /** The layout is unambiguous: once the previous hash's presence and length are fixed, the input determines every field. */
  lemma HashInputUnambiguous(num: Int32, amount: Int32, prevHash: Option<Hash>, nonce: Int64,
                             num': Int32, amount': Int32, prevHash': Option<Hash>, nonce': Int64)
    requires prevHash.Some? == prevHash'.Some?
    requires prevHash.Some? ==> |prevHash.value.data| == |prevHash'.value.data|
    requires HashInput(num, amount, prevHash, nonce) == HashInput(num', amount', prevHash', nonce')
    ensures num == num' && amount == amount' && prevHash == prevHash' && nonce == nonce'
  {
    var m := HashInput(num, amount, prevHash, nonce);
    var p := if prevHash.Some? then prevHash.value.data else [];
    var p' := if prevHash'.Some? then prevHash'.value.data else [];
    var n := |p|;
    assert m == PutInt(num) + PutInt(amount) + p + PutLong(nonce);
    assert m == PutInt(num') + PutInt(amount') + p' + PutLong(nonce');
    assert m[..4] == PutInt(num) && m[..4] == PutInt(num');
    assert m[4..8] == PutInt(amount) && m[4..8] == PutInt(amount');
    assert m[8..8 + n] == p && m[8..8 + n] == p';
    assert m[8 + n..] == PutLong(nonce) && m[8 + n..] == PutLong(nonce');
    PutIntRoundTrip(num);
    PutIntRoundTrip(num');
    PutIntRoundTrip(amount);
    PutIntRoundTrip(amount');
    PutLongRoundTrip(nonce);
    PutLongRoundTrip(nonce');
  }

  /** `computeHash(nonce)` for a block with the given fields. */
  function ComputeHash(sha256: HashFunction, num: Int32, amount: Int32, prevHash: Option<Hash>, nonce: Int64): (h: Hash)
    ensures prevHash.None? ==> h.data == sha256(PutInt(num) + PutInt(amount) + PutLong(nonce))
    ensures prevHash.Some? ==> h.data == sha256(PutInt(num) + PutInt(amount) + prevHash.value.data + PutLong(nonce))
  {
    assert PutInt(num) + PutInt(amount) + [] == PutInt(num) + PutInt(amount);
    Hash(sha256(HashInput(num, amount, prevHash, nonce)))
  }

  /** A block's hash is the digest of its own fields, as both constructors leave it. */
  ghost predicate Sealed(sha256: HashFunction, b: Block)
  {
    b.hash == ComputeHash(sha256, b.num, b.amount, b.prevHash, b.nonce)
  }

  /** The constructor that takes a nonce: stores the fields and hashes them once, without searching. */
  function Reconstruct(sha256: HashFunction, num: Int32, amount: Int32, prevHash: Option<Hash>, nonce: Int64): (b: Block)
    ensures b.num == num && b.amount == amount && b.prevHash == prevHash && b.nonce == nonce
    ensures Sealed(sha256, b)
  {
    Block(num, amount, prevHash, nonce, ComputeHash(sha256, num, amount, prevHash, nonce))
  }

  /** Some non-negative `long` nonce gives these fields a valid hash, so mining stops. */
  ghost predicate Minable(sha256: HashFunction, num: Int32, amount: Int32, prevHash: Option<Hash>)
  {
    exists n: Int64 :: 0 <= n && IsValid(ComputeHash(sha256, num, amount, prevHash, n))
  }

  /** b is what mining these fields yields: the least non-negative nonce whose hash is valid. */
  ghost predicate IsMined(sha256: HashFunction, b: Block, num: Int32, amount: Int32, prevHash: Option<Hash>)
  {
    && b == Reconstruct(sha256, num, amount, prevHash, b.nonce)
    && 0 <= b.nonce
    && IsValid(b.hash)
    && forall n: Int64 :: 0 <= n < b.nonce ==> !IsValid(ComputeHash(sha256, num, amount, prevHash, n))
  }

  /** The mining constructor with `mineBlock`: try nonces 0, 1, 2, ... until the hash is valid. */
  method MineBlock(sha256: HashFunction, num: Int32, amount: Int32, prevHash: Option<Hash>) returns (b: Block)
    requires Minable(sha256, num, amount, prevHash)
    ensures IsMined(sha256, b, num, amount, prevHash)
  {
    ghost var found: Int64 :| 0 <= found && IsValid(ComputeHash(sha256, num, amount, prevHash, found));
    var candidate: Int64 := 0;
    var candidateHash := ComputeHash(sha256, num, amount, prevHash, candidate);
    while !IsValid(candidateHash)
      invariant 0 <= candidate <= found
      invariant candidateHash == ComputeHash(sha256, num, amount, prevHash, candidate)
      invariant NoValidNonceBelow(sha256, num, amount, prevHash, candidate)
      decreases found - candidate
    {
      assert candidate != found;
      NoValidNonceStep(sha256, num, amount, prevHash, candidate);
      candidate := candidate + 1;
      candidateHash := ComputeHash(sha256, num, amount, prevHash, candidate);
    }
    b := Block(num, amount, prevHash, candidate, candidateHash);
  }

  /** No nonce in [0, k) gives these fields a valid hash. */
  ghost predicate NoValidNonceBelow(sha256: HashFunction, num: Int32, amount: Int32, prevHash: Option<Hash>, k: Int64)
  {
    forall n: Int64 :: 0 <= n < k ==> !IsValid(ComputeHash(sha256, num, amount, prevHash, n))
  }

  lemma NoValidNonceStep(sha256: HashFunction, num: Int32, amount: Int32, prevHash: Option<Hash>, k: Int64)
    requires 0 <= k < 0x7FFF_FFFF_FFFF_FFFF
    requires NoValidNonceBelow(sha256, num, amount, prevHash, k)
    requires !IsValid(ComputeHash(sha256, num, amount, prevHash, k))
    ensures NoValidNonceBelow(sha256, num, amount, prevHash, k + 1)
  {
  }

  /** Mining is deterministic: the same fields always yield the same block. */
  lemma {:induction false} MiningIsDeterministic(sha256: HashFunction, b: Block, b': Block, num: Int32, amount: Int32, prevHash: Option<Hash>)
    requires IsMined(sha256, b, num, amount, prevHash)
    requires IsMined(sha256, b', num, amount, prevHash)
    ensures b == b'
  {
    assert IsValid(ComputeHash(sha256, num, amount, prevHash, b.nonce));
    assert IsValid(ComputeHash(sha256, num, amount, prevHash, b'.nonce));
  }

  /** Rebuilding a mined block from its nonce reproduces its hash, and that hash is valid. */
  lemma RebuildFromMinedNonce(sha256: HashFunction, b: Block, num: Int32, amount: Int32, prevHash: Option<Hash>)
    requires IsMined(sha256, b, num, amount, prevHash)
    ensures Reconstruct(sha256, num, amount, prevHash, b.nonce).hash == b.hash
    ensures IsValid(Reconstruct(sha256, num, amount, prevHash, b.nonce).hash)
  {
  }

  /** `toString`: "Block <num> (Amount: <amount>, Nonce: <nonce>, prevHash: <hex or null>, hash: <hex>)". */
  function ToString(b: Block): (s: string)
    ensures "Block " + Decimal(b.num) + " (Amount: " <= s
    ensures s[|s| - 1] == ')'
    ensures '\n' !in s
  {
    var line := "Block " + (Decimal(b.num) + (" (Amount: " + RenderFields(b)));
    LineShape(b.num, RenderFields(b), line);
    line
  }

  /** The line of a block numbered num whose fields render as fields. */
  lemma LineShape(num: int, fields: string, line: string)
    requires |fields| > 0 && '\n' !in fields
    requires line == "Block " + (Decimal(num) + (" (Amount: " + fields))
    ensures "Block " + Decimal(num) + " (Amount: " <= line
    ensures line[|line| - 1] == fields[|fields| - 1]
    ensures '\n' !in line
  {
    DecimalCharacters(num);
    Regroup("Block ", Decimal(num), " (Amount: ", fields);
  }

  /** Four pieces without a newline, joined: regrouping, the first three as a prefix, the last character. */
  lemma Regroup(x: string, y: string, z: string, w: string)
    requires '\n' !in x && '\n' !in y && '\n' !in z && '\n' !in w && |w| > 0
    ensures x + (y + (z + w)) == (x + y + z) + w
    ensures x + y + z <= x + (y + (z + w))
    ensures (x + (y + (z + w)))[|x + (y + (z + w))| - 1] == w[|w| - 1]
    ensures '\n' !in x + (y + (z + w))
  {
    NoNewlineConcat(z, w);
    NoNewlineConcat(y, z + w);
    NoNewlineConcat(x, y + (z + w));
  }

  /** A rendering starts with 'B' and ends with ')': neither is whitespace to `trim`. */
  lemma ToStringEnds(b: Block)
    ensures |ToString(b)| > 0 && !Trimmable(ToString(b)[0]) && !Trimmable(ToString(b)[|ToString(b)| - 1])
  {
    assert "Block " <= ToString(b);
  }

  /** The rendering of a previous hash: its hex digits, or "null" for the genesis block. */
  function PrevText(prevHash: Option<Hash>): (s: string)
    ensures ',' !in s && '\n' !in s
  {
    if prevHash.Some? then HexCharacters(prevHash.value.data); Hex(prevHash.value.data) else "null"
  }

  /** The part of the rendering after "Amount: ", one field after another. */
  function RenderFields(b: Block): (s: string)
    ensures |s| > 0 && s[|s| - 1] == ')'
    ensures '\n' !in s
  {
    DecimalCharacters(b.amount);
    NoNewlineConcat(Decimal(b.amount), NonceTail(b));
    Decimal(b.amount) + NonceTail(b)
  }

  function NonceTail(b: Block): (s: string)
    ensures |s| > 0 && s[|s| - 1] == ')'
    ensures '\n' !in s
  {
    DecimalCharacters(b.nonce);
    NoNewlineConcat(Decimal(b.nonce), PrevTail(b));
    NoNewlineConcat(", Nonce: ", Decimal(b.nonce) + PrevTail(b));
    ", Nonce: " + (Decimal(b.nonce) + PrevTail(b))
  }

  function PrevTail(b: Block): (s: string)
    ensures |s| > 0 && s[|s| - 1] == ')'
    ensures '\n' !in s
  {
    NoNewlineConcat(PrevText(b.prevHash), HashTail(b));
    NoNewlineConcat(", prevHash: ", PrevText(b.prevHash) + HashTail(b));
    ", prevHash: " + (PrevText(b.prevHash) + HashTail(b))
  }

  function HashTail(b: Block): (s: string)
    ensures |s| > 0 && s[|s| - 1] == ')'
    ensures '\n' !in s
  {
    HexCharacters(b.hash.data);
    NoNewlineConcat(Hex(b.hash.data), ")");
    NoNewlineConcat(", hash: ", Hex(b.hash.data) + ")");
    ", hash: " + (Hex(b.hash.data) + ")")
  }

  lemma NoNewlineConcat(a: string, b: string)
    requires '\n' !in a && '\n' !in b
    ensures '\n' !in a + b
  {
    assert forall i :: 0 <= i < |a + b| ==> (a + b)[i] == if i < |a| then a[i] else b[i - |a|];
  }

  /** Hex renderings hold only hex digits: no space, comma, parenthesis or newline. */
  lemma HexCharacters(bytes: seq<Int8>)
    ensures forall c :: c in Hex(bytes) ==> IsHexDigit(c)
  {
  }

  /** `%d` prints only a minus sign and digits. */
  lemma DecimalCharacters(x: int)
    ensures forall c :: c in Decimal(x) ==> c == '-' || '0' <= c <= '9'
  {
    var s := Decimal(x);
    if x < 0 {
      assert forall i :: 1 <= i < |s| ==> s[i] == s[1..][i - 1];
    }
  }

  /**
   * The rendering loses no field: two blocks with the same line are the same block.
   * Each field ends at the first character that cannot occur in it, and every field
   * reads back (`DecimalRoundTrip`, `HexInjective`).
   */
  lemma ToStringInjective(b: Block, b': Block)
    ensures ToString(b) == ToString(b') <==> b == b'
  {
    if ToString(b) == ToString(b') {
      DecimalCharacters(b.num);
      DecimalCharacters(b'.num);
      DecimalCharacters(b.amount);
      DecimalCharacters(b'.amount);
      DecimalCharacters(b.nonce);
      DecimalCharacters(b'.nonce);
      PrefixCancel("Block ", Decimal(b.num) + (" (Amount: " + RenderFields(b)), Decimal(b'.num) + (" (Amount: " + RenderFields(b')));
      FieldCut(Decimal(b.num), " (Amount: ", RenderFields(b), Decimal(b'.num), RenderFields(b'));
      FieldCut(Decimal(b.amount), ", Nonce: ", Decimal(b.nonce) + PrevTail(b), Decimal(b'.amount), Decimal(b'.nonce) + PrevTail(b'));
      FieldCut(Decimal(b.nonce), ", prevHash: ", PrevText(b.prevHash) + HashTail(b), Decimal(b'.nonce), PrevText(b'.prevHash) + HashTail(b'));
      FieldCut(PrevText(b.prevHash), ", hash: ", Hex(b.hash.data) + ")", PrevText(b'.prevHash), Hex(b'.hash.data) + ")");
      SuffixCancel(Hex(b.hash.data), Hex(b'.hash.data), ")");
      DecimalRoundTrip(b.num);
      DecimalRoundTrip(b'.num);
      DecimalRoundTrip(b.amount);
      DecimalRoundTrip(b'.amount);
      DecimalRoundTrip(b.nonce);
      DecimalRoundTrip(b'.nonce);
      PrevTextInjective(b.prevHash, b'.prevHash);
      HexInjective(b.hash.data, b'.hash.data);
    }
  }

  /** "null" is no hex rendering, and hex renderings read back: the previous-hash field determines the previous hash. */
  lemma PrevTextInjective(p: Option<Hash>, p': Option<Hash>)
    requires PrevText(p) == PrevText(p')
    ensures p == p'
  {
    if p.Some? {
      HexCharacters(p.value.data);
      assert 'n' !in PrevText(p);
    }
    if p'.Some? {
      HexCharacters(p'.value.data);
      assert 'n' !in PrevText(p');
    }
    if p.Some? && p'.Some? {
      HexInjective(p.value.data, p'.value.data);
    }
  }

  /**
   * A field followed by a separator whose first character the field cannot contain:
   * the field and what follows the separator are determined.
   */
  lemma FieldCut(a: string, sep: string, r: string, a': string, r': string)
    requires |sep| > 0 && sep[0] !in a && sep[0] !in a'
    requires a + (sep + r) == a' + (sep + r')
    ensures a == a' && r == r'
  {
    var s := a + (sep + r);
    FirstSeparator(a, sep, r);
    FirstSeparator(a', sep, r');
    assert |a| == |a'|;
    assert a == s[..|a|] == a';
    PrefixCancel(a, sep + r, sep + r');
    PrefixCancel(sep, r, r');
  }

  /** In a field followed by a separator, the separator's first character first occurs right after the field. */
  lemma FirstSeparator(a: string, sep: string, r: string)
    requires |sep| > 0 && sep[0] !in a
    ensures (a + (sep + r))[|a|] == sep[0]
    ensures forall k :: 0 <= k < |a| ==> (a + (sep + r))[k] != sep[0]
  {
  }

  lemma PrefixCancel(p: string, x: string, y: string)
    requires p + x == p + y
    ensures x == y
  {
    assert x == (p + x)[|p|..];
    assert y == (p + y)[|p|..];
  }

  lemma SuffixCancel(x: string, y: string, q: string)
    requires x + q == y + q
    ensures x == y
  {
    assert x == (x + q)[..|x|];
    assert y == (y + q)[..|y|];
  }

  /** The genesis block's rendering starts with "Block 0". */
  lemma GenesisRendering(b: Block)
    requires b.num == 0
    ensures "Block 0" <= ToString(b)
  {
    assert Decimal(0) == "0";
  }
}
