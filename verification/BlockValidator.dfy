/** Block validation and the chains it accepts, for an arbitrary hash function. */
module BlockValidator {
  import opened Json

  datatype Block = Block(index: Number, previousHash: string, timestamp: Number, transactions: seq<Transaction>,
                         nonce: Number, hash: string)

  /** What the validator is given from outside: the hash function and the two checks it calls. */
  datatype Checks = Checks(hashOf: string -> string, schemaOk: Block -> bool, transactionsOk: seq<Transaction> -> bool)

  /** The text that is hashed: the fields one after the other, with nothing in between. */
  function PreImage(b: Block): string {
    b.index + b.previousHash + b.timestamp + Stringify(b.transactions) + b.nonce
  }

  function CalculateBlockHash(b: Block, hashOf: string -> string): string {
    hashOf(PreImage(b))
  }

  function ValidateBlock(b: Block, previousHash: string, checks: Checks): (accepted: bool)
    ensures accepted <==> checks.schemaOk(b) && checks.transactionsOk(b.transactions)
                          && b.previousHash == previousHash && b.hash == checks.hashOf(PreImage(b))
  {
    if !checks.schemaOk(b) then false
    else if b.previousHash != previousHash then false
    else if b.hash != CalculateBlockHash(b, checks.hashOf) then false
    else checks.transactionsOk(b.transactions)
  }

  // ----- when two pre-images are the same -----

  function Header(b: Block): string {
    b.index + b.previousHash + b.timestamp
  }

  lemma PreImageParts(b: Block)
    ensures PreImage(b) == Header(b) + (Stringify(b.transactions) + b.nonce)
    ensures Stringify(b.transactions)[0] == '['
  {
  }

  lemma HeaderHasNoBracket(b: Block)
    requires '[' !in b.previousHash
    ensures '[' !in Header(b)
  {
    assert forall i | 0 <= i < |b.index| :: IsNumeral(b.index[i]);
    assert forall i | 0 <= i < |b.timestamp| :: IsNumeral(b.timestamp[i]);
  }

  /**
   * Two blocks have the same pre-image exactly when they have the same transactions, the same nonce and
   * the same header text. Only the boundaries inside the header are lost.
   */
  lemma SamePreImage(a: Block, b: Block)
    requires '[' !in a.previousHash && '[' !in b.previousHash
    ensures PreImage(a) == PreImage(b)
       <==> Header(a) == Header(b) && a.transactions == b.transactions && a.nonce == b.nonce
  {
    PreImageParts(a);
    PreImageParts(b);
    if PreImage(a) == PreImage(b) {
      HeaderHasNoBracket(a);
      HeaderHasNoBracket(b);
      var ta, tb := Stringify(a.transactions) + a.nonce, Stringify(b.transactions) + b.nonce;
      StopAt(Header(a), Header(b), ta, tb, c => c != '[');
      StringifyReadsBack(a.transactions, b.transactions, a.nonce, b.nonce);
    }
  }

  /** Blocks that agree in everything that is hashed. */
  predicate SameContent(a: Block, b: Block) {
    a.(hash := b.hash) == b
  }

  /** With the index known and previous hashes of one length the pre-image determines the block. */
  lemma PreImageInjective(a: Block, b: Block)
    requires a.index == b.index && |a.previousHash| == |b.previousHash|
    ensures PreImage(a) == PreImage(b) <==> SameContent(a, b)
  {
    if PreImage(a) == PreImage(b) {
      var ta, tb := Stringify(a.transactions) + a.nonce, Stringify(b.transactions) + b.nonce;
      Nested(a.index, a.previousHash, a.timestamp, Stringify(a.transactions), a.nonce);
      Nested(b.index, b.previousHash, b.timestamp, Stringify(b.transactions), b.nonce);
      Strip(a.index, a.previousHash + (a.timestamp + ta), b.previousHash + (b.timestamp + tb));
      SameLengthPrefix(a.previousHash, b.previousHash, a.timestamp + ta, b.timestamp + tb);
      StringifyHead(a.transactions, a.nonce);
      StringifyHead(b.transactions, b.nonce);
      NumberReadsBack(a.timestamp, b.timestamp, ta, tb);
      StringifyReadsBack(a.transactions, b.transactions, a.nonce, b.nonce);
    }
  }

  lemma Nested(p: string, q: string, r: string, s: string, t: string)
    ensures p + q + r + s + t == p + (q + (r + (s + t)))
  {
  }

  lemma StringifyHead(ts: seq<Transaction>, k: string)
    ensures Stringify(ts) + k != "" && (Stringify(ts) + k)[0] == '['
  {
  }

  lemma SameLengthPrefix(p: string, q: string, x: string, y: string)
    requires p + x == q + y && |p| == |q|
    ensures p == q && x == y
  {
    assert p == (p + x)[..|p|] && q == (q + y)[..|q|];
    Strip(p, x, y);
  }

  function Zeros(n: nat): string {
    seq(n, i => '0')
  }

  /**
   * Without a known index the pre-image does not determine the block, even when both previous hashes
   * are 64 hexadecimal digits: a digit can move from the hash into the index.
   */
  lemma IndexIsNotSeparated(timestampRest: Number)
    ensures var a := Block("1", "2" + Zeros(63), "1" + timestampRest, [], "0", "");
            var b := Block("12", Zeros(63) + "1", timestampRest, [], "0", "");
            && |a.previousHash| == |b.previousHash| == 64
            && PreImage(a) == PreImage(b) && !SameContent(a, b)
  {
    var a := Block("1", "2" + Zeros(63), "1" + timestampRest, [], "0", "");
    var b := Block("12", Zeros(63) + "1", timestampRest, [], "0", "");
    assert "1" + ("2" + Zeros(63)) == "12" + Zeros(63);
    assert ("12" + Zeros(63)) + ("1" + timestampRest) == ("12" + (Zeros(63) + "1")) + timestampRest;
    assert Header(a) == Header(b);
    PreImageParts(a);
    PreImageParts(b);
  }

  /** The order of the fields, on a block without transactions. */
  lemma PreImageExample()
    ensures PreImage(Block("7", "ab", "5", [], "3", "h")) == "7ab5[]3"
  {
    assert Objects([]) == [];
    assert Stringify([]) == "[]";
  }

  // ----- chains -----

  /** The hash that the block at position `i` must link to. */
  function LinkAt(chain: seq<Block>, genesis: string, i: nat): string
    requires i <= |chain|
  {
    if i == 0 then genesis else chain[i - 1].hash
  }

  /** A chain accepted block by block. */
  ghost predicate Accepted(chain: seq<Block>, genesis: string, checks: Checks) {
    forall i | 0 <= i < |chain| :: LinksAt(chain, genesis, checks, i)
  }

  predicate LinksAt(chain: seq<Block>, genesis: string, checks: Checks, i: nat)
    requires i < |chain|
  {
    ValidateBlock(chain[i], LinkAt(chain, genesis, i), checks)
  }

  lemma PrefixAccepted(chain: seq<Block>, genesis: string, checks: Checks, n: nat)
    requires Accepted(chain, genesis, checks) && n <= |chain|
    ensures Accepted(chain[..n], genesis, checks)
  {
    forall i | 0 <= i < n
      ensures LinksAt(chain[..n], genesis, checks, i)
    {
      assert LinksAt(chain, genesis, checks, i);
    }
  }

  const DIGEST_LENGTH := 64

  /** Hex digests of SHA-256 have 64 characters. */
  ghost predicate FixedLength(hashOf: string -> string) {
    forall x :: |hashOf(x)| == DIGEST_LENGTH
  }

  /** The hash function tells apart the pre-images that stand at the same position of the two chains. */
  ghost predicate NoCollision(a: seq<Block>, b: seq<Block>, hashOf: string -> string)
    requires |a| == |b|
  {
    forall i {:trigger TellsApart(hashOf, a[i], b[i])} | 0 <= i < |a| :: TellsApart(hashOf, a[i], b[i])
  }

  predicate TellsApart(hashOf: string -> string, a: Block, b: Block) {
    hashOf(PreImage(a)) == hashOf(PreImage(b)) ==> PreImage(a) == PreImage(b)
  }

  ghost predicate SameIndexes(a: seq<Block>, b: seq<Block>) {
    |a| == |b| && forall i | 0 <= i < |a| :: a[i].index == b[i].index
  }

  lemma AcceptedAt(chain: seq<Block>, genesis: string, checks: Checks, i: nat)
    requires Accepted(chain, genesis, checks) && i < |chain|
    ensures chain[i].previousHash == LinkAt(chain, genesis, i)
    ensures LinkAt(chain, genesis, i + 1) == chain[i].hash == checks.hashOf(PreImage(chain[i]))
  {
    assert LinksAt(chain, genesis, checks, i);
  }

  /**
   * No block of an accepted chain can be exchanged: another block with its index is accepted in its
   * place only if it is the same block. Before the last position not even a recomputed hash helps.
   */
  lemma NoBlockCanBeExchanged(chain: seq<Block>, genesis: string, checks: Checks, i: nat, b: Block)
    requires Accepted(chain, genesis, checks) && i < |chain|
    requires b.index == chain[i].index && TellsApart(checks.hashOf, b, chain[i])
    requires i + 1 < |chain| || b.hash == chain[i].hash
    ensures Accepted(chain[i := b], genesis, checks) <==> b == chain[i]
  {
    assert chain[i := chain[i]] == chain;
    if Accepted(chain[i := b], genesis, checks) {
      AcceptedAt(chain, genesis, checks, i);
      AcceptedAt(chain[i := b], genesis, checks, i);
      if i + 1 < |chain| {
        AcceptedAt(chain, genesis, checks, i + 1);
        AcceptedAt(chain[i := b], genesis, checks, i + 1);
      }
      PreImageInjective(b, chain[i]);
    }
  }

  lemma LinkLengths(a: seq<Block>, b: seq<Block>, g: string, h: string, checks: Checks, i: nat)
    requires Accepted(a, g, checks) && Accepted(b, h, checks) && |a| == |b| && |g| == |h| && i <= |a|
    requires FixedLength(checks.hashOf)
    ensures |LinkAt(a, g, i)| == |LinkAt(b, h, i)|
  {
    if i > 0 {
      AcceptedAt(a, g, checks, i - 1);
      AcceptedAt(b, h, checks, i - 1);
    }
  }

  /** Chains that agree on the hash of block `i` agree on the block and on what it links to. */
  lemma AgreeAt(a: seq<Block>, b: seq<Block>, g: string, h: string, checks: Checks, i: nat)
    requires Accepted(a, g, checks) && Accepted(b, h, checks) && SameIndexes(a, b) && |g| == |h| && i < |a|
    requires FixedLength(checks.hashOf) && NoCollision(a, b, checks.hashOf)
    requires LinkAt(a, g, i + 1) == LinkAt(b, h, i + 1)
    ensures a[i] == b[i] && LinkAt(a, g, i) == LinkAt(b, h, i)
  {
    AcceptedAt(a, g, checks, i);
    AcceptedAt(b, h, checks, i);
    LinkLengths(a, b, g, h, checks, i);
    assert TellsApart(checks.hashOf, a[i], b[i]);
    PreImageInjective(a[i], b[i]);
  }

  lemma ConsSuffix<T>(xs: seq<T>, i: nat)
    requires i < |xs|
    ensures xs[i..] == [xs[i]] + xs[i + 1..]
  {
  }

  lemma {:induction false} AgreeFrom(a: seq<Block>, b: seq<Block>, g: string, h: string, checks: Checks, i: nat)
    requires Accepted(a, g, checks) && Accepted(b, h, checks) && SameIndexes(a, b) && |g| == |h| && i <= |a|
    requires FixedLength(checks.hashOf) && NoCollision(a, b, checks.hashOf)
    requires LinkAt(a, g, |a|) == LinkAt(b, h, |b|)
    ensures a[i..] == b[i..] && LinkAt(a, g, i) == LinkAt(b, h, i)
    decreases |a| - i
  {
    if i < |a| {
      AgreeFrom(a, b, g, h, checks, i + 1);
      AgreeAt(a, b, g, h, checks, i);
      ConsSuffix(a, i);
      ConsSuffix(b, i);
    }
  }

  /**
   * Two accepted chains with the same indexes end in the same hash only if they are the same chain
   * started from the same hash, unless the hash function confuses two pre-images at some position.
   */
  lemma ChainIsDeterminedByItsHead(a: seq<Block>, b: seq<Block>, g: string, h: string, checks: Checks)
    requires Accepted(a, g, checks) && Accepted(b, h, checks) && SameIndexes(a, b) && |g| == |h|
    requires FixedLength(checks.hashOf) && NoCollision(a, b, checks.hashOf)
    ensures LinkAt(a, g, |a|) == LinkAt(b, h, |b|) <==> a == b && g == h
  {
    if LinkAt(a, g, |a|) == LinkAt(b, h, |b|) {
      AgreeFrom(a, b, g, h, checks, 0);
      assert a[0..] == a && b[0..] == b;
    }
  }
}
