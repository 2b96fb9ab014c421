/** The pre-obfuscators of the cipher (go/sigil/crypto_sigil.go). */
module Obfuscators {
  import opened ByteStrings

  const BLOCK_SIZE: nat := 32

  type Block = b: Bytes | |b| == BLOCK_SIZE witness seq(BLOCK_SIZE, _ => 0)

  /** The hash is a parameter: any function from bytes to blocks. */
  type Hash = Bytes -> Block

  /** `binary.BigEndian.PutUint64`. */
  function BigEndian64(n: nat): (b: Bytes)
    ensures |b| == 8
  {
    seq(8, i requires 0 <= i < 8 => ((n / Power256(7 - i)) % 256) as bv8)
  }

  function Power256(n: nat): (p: nat)
    ensures p > 0
  {
    if n == 0 then 1 else 256 * Power256(n - 1)
  }

  /** `binary.BigEndian.Uint64`. */
  function Number(b: Bytes): nat {
    if b == [] then 0 else 256 * Number(b[..|b| - 1]) + (b[|b| - 1] as nat)
  }

  /** The decoding of the encoding: numbers below 2^64 keep their value, so no two of them look alike. */
  lemma NumberOfBigEndian(n: nat)
    requires n < 0x1_0000_0000_0000_0000
    ensures Number(BigEndian64(n)) == n
  {
    var b := BigEndian64(n);
    PowersOf256();
    NumberOfFront(n, 8);
    assert b[..8] == b;
    assert n / 1 == n;
  }

  lemma PowersOf256()
    ensures Power256(0) == 1 && Power256(1) == 0x100 && Power256(2) == 0x1_0000 && Power256(3) == 0x100_0000
    ensures Power256(4) == 0x1_0000_0000 && Power256(5) == 0x100_0000_0000 && Power256(6) == 0x1_0000_0000_0000
    ensures Power256(7) == 0x100_0000_0000_0000 && Power256(8) == 0x1_0000_0000_0000_0000
  {
  }

  /** The first `k` bytes encode what is left of the number without its last `8 - k` bytes. */
  lemma {:induction false} NumberOfFront(n: nat, k: nat)
    requires n < Power256(8) && k <= 8
    ensures Number(BigEndian64(n)[..k]) == n / Power256(8 - k)
  {
    hide BigEndian64, Power256;
    PowersOf256();
    var b := BigEndian64(n);
    if k == 0 {
      assert b[..0] == [];
    } else {
      NumberOfFront(n, k - 1);
      assert b[..k][..k - 1] == b[..k - 1] && b[..k][k - 1] == b[k - 1];
      ByteOf(n, k - 1);
      OneMoreByte(n, k);
    }
  }

  lemma ByteOf(n: nat, i: nat)
    requires i < 8
    ensures BigEndian64(n)[i] as nat == (n / Power256(7 - i)) % 256
  {
    hide Power256;
    ByteBack((n / Power256(7 - i)) % 256);
  }

  /** A byte of this value, found by counting. */
  ghost function CountedByte(x: nat): (b: bv8)
    requires x < 256
    ensures b as nat == x
  {
    if x == 0 then 0
    else
      NextByte(CountedByte(x - 1));
      CountedByte(x - 1) + 1
  }

  lemma NextByte(b: bv8)
    requires b < 255
    ensures (b + 1) as nat == b as nat + 1
  {
  }

  lemma ByteOfItself(b: bv8)
    ensures (b as nat) as bv8 == b
  {
  }

  lemma ByteBack(x: nat)
    requires x < 256
    ensures (x as bv8) as nat == x
  {
    hide *;
    ByteOfItself(CountedByte(x));
  }

  lemma OneMoreByte(n: nat, k: nat)
    requires n < Power256(8) && 1 <= k <= 8
    ensures n / Power256(8 - k) == 256 * (n / Power256(9 - k)) + (n / Power256(8 - k)) % 256
  {
    PowersOf256();
    hide Power256;
  }

  // Key streams: block after block, cut to length

  /** The bytes a text stands for, one per character: the labels mixed into the hash. */
  function Ascii(s: string): Bytes
    requires forall i | 0 <= i < |s| :: s[i] as int < 128
  {
    seq(|s|, i requires 0 <= i < |s| => (s[i] as int) as bv8)
  }

  lemma AsciiIs(s: string)
    requires forall i | 0 <= i < |s| :: s[i] as int < 128
    ensures |Ascii(s)| == |s| && forall i | 0 <= i < |s| :: Ascii(s)[i] as int == s[i] as int
  {
    forall i | 0 <= i < |s| ensures Ascii(s)[i] as int == s[i] as int {
      ByteBack(s[i] as int);
    }
  }

  /** Block `i` of the stream seeded with `seed`. */
  function BlockAt(hash: Hash, seed: Bytes, i: nat): Block {
    hash(seed + BigEndian64(i))
  }

  function KeyStream(hash: Hash, seed: Bytes, length: nat): (stream: Bytes)
    ensures |stream| == length
  {
    seq(length, i requires 0 <= i < length => BlockAt(hash, seed, i / BLOCK_SIZE)[i % BLOCK_SIZE])
  }

  /** The first bytes of a stream do not depend on how long the stream is. */
  lemma KeyStreamPrefix(hash: Hash, seed: Bytes, short: nat, long: nat)
    requires short <= long
    ensures KeyStream(hash, seed, long)[..short] == KeyStream(hash, seed, short)
  {
  }

  lemma BlockPosition(block: nat, i: nat)
    requires i < BLOCK_SIZE
    ensures (block * BLOCK_SIZE + i) / BLOCK_SIZE == block && (block * BLOCK_SIZE + i) % BLOCK_SIZE == i
  {
  }

  /** The loop behind both `deriveKeyStream` and `deriveMask`; they differ in the seed. */
  method DeriveStream(hash: Hash, seed: Bytes, length: nat) returns (stream: array<bv8>)
    ensures fresh(stream) && stream[..] == KeyStream(hash, seed, length)
    ensures forall i | 0 <= i < length :: stream[i] == hash(seed + BigEndian64(i / 32))[i % 32]
  {
    stream := new bv8[length];
    var blockNum, offset := 0, 0;
    while offset < length
      invariant offset == if blockNum * BLOCK_SIZE <= length then blockNum * BLOCK_SIZE else length
      invariant forall k | 0 <= k < offset :: stream[k] == BlockAt(hash, seed, k / BLOCK_SIZE)[k % BLOCK_SIZE]
      decreases length - offset
    {
      var block := hash(seed + BigEndian64(blockNum));
      var copyLen := if |block| <= length - offset then |block| else length - offset;
      for j := 0 to copyLen
        invariant offset == blockNum * BLOCK_SIZE
        invariant forall k | 0 <= k < offset + j :: stream[k] == BlockAt(hash, seed, k / BLOCK_SIZE)[k % BLOCK_SIZE]
      {
        BlockPosition(blockNum, j);
        stream[offset + j] := block[j];
      }
      offset := offset + copyLen;
      blockNum := blockNum + 1;
    }
  }

  // The XOR obfuscator

  function Xor(data: Bytes, mask: Bytes): (r: Bytes)
    requires |data| == |mask|
    ensures |r| == |data|
  {
    seq(|data|, i requires 0 <= i < |data| => data[i] ^ mask[i])
  }

  lemma XorTwice(a: bv8, b: bv8)
    ensures (a ^ b) ^ b == a && 0 ^ b == b
  {
  }

  lemma XorInvolution(data: Bytes, mask: Bytes)
    requires |data| == |mask|
    ensures Xor(Xor(data, mask), mask) == data
  {
    forall i | 0 <= i < |data| ensures Xor(Xor(data, mask), mask)[i] == data[i] {
      XorTwice(data[i], mask[i]);
    }
  }

  function XorObfuscate(hash: Hash, data: Bytes, entropy: Bytes): Bytes {
    Xor(data, KeyStream(hash, entropy, |data|))
  }

  /** Each byte is combined with its byte of the hash blocks; zero bytes come out as the blocks themselves. */
  lemma XorObfuscateBytes(hash: Hash, data: Bytes, entropy: Bytes)
    ensures var r := XorObfuscate(hash, data, entropy);
            |r| == |data| &&
            (forall i | 0 <= i < |data| :: r[i] == data[i] ^ hash(entropy + BigEndian64(i / 32))[i % 32]) &&
            (forall i | 0 <= i < |data| && data[i] == 0 :: r[i] == hash(entropy + BigEndian64(i / 32))[i % 32])
  {
    hide BigEndian64;
    forall i | 0 <= i < |data| && data[i] == 0
      ensures data[i] ^ KeyStream(hash, entropy, |data|)[i] == KeyStream(hash, entropy, |data|)[i]
    {
      XorTwice(0, KeyStream(hash, entropy, |data|)[i]);
    }
  }

  /** Deobfuscating is obfuscating again, and brings the data back. */
  lemma XorObfuscateInvolution(hash: Hash, data: Bytes, entropy: Bytes)
    ensures XorObfuscate(hash, XorObfuscate(hash, data, entropy), entropy) == data
  {
    XorInvolution(data, KeyStream(hash, entropy, |data|));
  }

  method XorTransform(hash: Hash, data: Bytes, entropy: Bytes) returns (result: Bytes)
    ensures result == XorObfuscate(hash, data, entropy)
    ensures |result| == |data|
    ensures forall i | 0 <= i < |data| :: result[i] == data[i] ^ hash(entropy + BigEndian64(i / 32))[i % 32]
  {
    XorObfuscateBytes(hash, data, entropy);
    if |data| == 0 {
      return data;
    }
    var bytes := new bv8[|data|];
    var keyStream := DeriveStream(hash, entropy, |data|);
    hide Xor, KeyStream;
    ghost var stream := KeyStream(hash, entropy, |data|);
    for i := 0 to |data|
      invariant keyStream[..] == stream
      invariant forall k | 0 <= k < i :: bytes[k] == Xor(data, stream)[k]
    {
      assert keyStream[i] == keyStream[..][i];
      XorAt(data, stream, i);
      bytes[i] := data[i] ^ keyStream[i];
    }
    result := bytes[..];
  }

  // The permutation

  function SwapTarget(hash: Hash, seed: Bytes, i: nat): nat {
    Number(hash(seed + BigEndian64(i))[..8]) % (i + 1)
  }

  function Swapped(p: seq<nat>, i: nat, j: nat): seq<nat>
    requires i < |p| && j < |p|
  {
    p[i := p[j]][j := p[i]]
  }

  /** The swaps for positions `i` down to 1, each with a position not above it. */
  function ShuffleFrom(hash: Hash, seed: Bytes, p: seq<nat>, i: nat): seq<nat>
    requires i < |p| || i == 0
    decreases i
  {
    if i == 0 then p else ShuffleFrom(hash, seed, Swapped(p, i, SwapTarget(hash, seed, i)), i - 1)
  }

  function Identity(n: nat): (p: seq<nat>)
    ensures |p| == n
  {
    seq(n, i => i)
  }

  function Permutation(hash: Hash, entropy: Bytes, length: nat): seq<nat> {
    var seed := hash(entropy + Ascii("permutation"));
    if length == 0 then [] else ShuffleFrom(hash, seed, Identity(length), length - 1)
  }

  /** A bijection on the positions below its length. */
  ghost predicate IsPermutation(p: seq<nat>) {
    (forall i | 0 <= i < |p| :: p[i] < |p|) &&
    (forall i, j | 0 <= i < j < |p| :: p[i] != p[j]) &&
    (forall v: nat :: v < |p| ==> v in p)
  }

  lemma SwappedIsPermutation(p: seq<nat>, i: nat, j: nat)
    requires IsPermutation(p) && i < |p| && j < |p|
    ensures IsPermutation(Swapped(p, i, j))
  {
    var q := Swapped(p, i, j);
    forall v: nat | v < |q| ensures v in q {
      assert v in p;
      var k: nat :| k < |p| && p[k] == v;
      var k' := if k == i then j else if k == j then i else k;
      assert q[k'] == v;
    }
  }

  lemma {:induction false} ShuffleIsPermutation(hash: Hash, seed: Bytes, p: seq<nat>, i: nat)
    requires IsPermutation(p) && (i < |p| || i == 0)
    ensures IsPermutation(ShuffleFrom(hash, seed, p, i)) && |ShuffleFrom(hash, seed, p, i)| == |p|
    decreases i
  {
    hide IsPermutation;
    if i > 0 {
      var j := SwapTarget(hash, seed, i);
      SwappedIsPermutation(p, i, j);
      ShuffleIsPermutation(hash, seed, Swapped(p, i, j), i - 1);
    }
  }

  lemma PermutationIsBijection(hash: Hash, entropy: Bytes, length: nat)
    ensures |Permutation(hash, entropy, length)| == length && IsPermutation(Permutation(hash, entropy, length))
  {
    if length > 0 {
      IdentityIsPermutation(length);
      hide IsPermutation;
      ShuffleIsPermutation(hash, hash(entropy + Ascii("permutation")), Identity(length), length - 1);
    }
  }

  lemma IdentityIsPermutation(n: nat)
    ensures IsPermutation(Identity(n))
  {
    var p := Identity(n);
    forall v: nat | v < |p| ensures v in p {
      assert p[v] == v;
    }
  }

  /**
   The states of the shuffle: it starts with every position at its own place, and step `t` exchanges
   position `n - 1 - t` with the one the hash names among the positions not above it.
   */
  ghost predicate ShuffleRun(hash: Hash, seed: Bytes, states: seq<seq<nat>>, n: nat) {
    && |states| == n > 0
    && |states[0]| == n && (forall k | 0 <= k < n :: states[0][k] == k)
    && forall t | 0 <= t < n - 1 :: Exchanged(states[t], states[t + 1], n - 1 - t,
         Number(hash(seed + BigEndian64(n - 1 - t))[..8]) % (n - t))
  }

  predicate Exchanged(before: seq<nat>, after: seq<nat>, i: nat, j: nat) {
    i < |before| == |after| && j < |before| && after[i] == before[j] && after[j] == before[i] &&
    forall k | 0 <= k < |before| && k != i && k != j :: after[k] == before[k]
  }

  lemma {:induction false} ShuffleStates(hash: Hash, seed: Bytes, p: seq<nat>, i: nat) returns (states: seq<seq<nat>>)
    requires i < |p|
    ensures |states| == i + 1 && states[0] == p && states[i] == ShuffleFrom(hash, seed, p, i)
    ensures forall t | 0 <= t < i :: Exchanged(states[t], states[t + 1], i - t,
              Number(hash(seed + BigEndian64(i - t))[..8]) % (i - t + 1))
    decreases i
  {
    hide Number, BigEndian64;
    if i == 0 {
      states := [p];
    } else {
      var next := Swapped(p, i, SwapTarget(hash, seed, i));
      var rest := ShuffleStates(hash, seed, next, i - 1);
      states := [p] + rest;
      forall t | 0 <= t < i
        ensures Exchanged(states[t], states[t + 1], i - t, Number(hash(seed + BigEndian64(i - t))[..8]) % (i - t + 1))
      {
        if t > 0 {
          assert states[t] == rest[t - 1] && states[t + 1] == rest[t];
        }
      }
    }
  }

  /** The permutation is what the shuffle ends with. */
  lemma PermutationIsShuffled(hash: Hash, entropy: Bytes, n: nat) returns (states: seq<seq<nat>>)
    requires n > 0
    ensures ShuffleRun(hash, hash(entropy + Ascii("permutation")), states, n)
    ensures states[n - 1] == Permutation(hash, entropy, n)
  {
    hide Number, BigEndian64, ShuffleFrom, Ascii, Exchanged;
    states := ShuffleStates(hash, hash(entropy + Ascii("permutation")), Identity(n), n - 1);
  }

  method GeneratePermutation(hash: Hash, entropy: Bytes, length: nat) returns (permutation: array<nat>)
    ensures fresh(permutation) && permutation[..] == Permutation(hash, entropy, length)
  {
    permutation := new nat[length];
    for i := 0 to length
      invariant forall k | 0 <= k < i :: permutation[k] == k
    {
      permutation[i] := i;
    }
    assert permutation[..] == Identity(length);
    var seed := hash(entropy + Ascii("permutation"));
    hide *;
    PermutationStarts(hash, entropy, length);
    SwapDown(hash, seed, permutation);
  }

  /** The swaps, from the last position down to the second. */
  method SwapDown(hash: Hash, seed: Bytes, permutation: array<nat>)
    modifies permutation
    ensures permutation.Length > 0 ==> permutation[..] == ShuffleFrom(hash, seed, old(permutation[..]), permutation.Length - 1)
  {
    hide Number, BigEndian64, ShuffleFrom, Swapped;
    var i := permutation.Length - 1;
    while i > 0
      invariant i < permutation.Length && (permutation.Length > 0 ==> i >= 0)
      invariant permutation.Length > 0 ==>
                  ShuffleFrom(hash, seed, permutation[..], i) == ShuffleFrom(hash, seed, old(permutation[..]), permutation.Length - 1)
    {
      ShuffleStep(hash, seed, permutation[..], i);
      var jBytes := hash(seed + BigEndian64(i));
      var j := Number(jBytes[..8]) % (i + 1);
      SwapIn(permutation, i, j);
      i := i - 1;
    }
    ShuffleEnds(hash, seed, permutation[..]);
  }

  method SwapIn(permutation: array<nat>, i: nat, j: nat)
    requires i < permutation.Length && j < permutation.Length
    modifies permutation
    ensures permutation[..] == Swapped(old(permutation[..]), i, j)
  {
    permutation[i], permutation[j] := permutation[j], permutation[i];
  }

  lemma ShuffleStep(hash: Hash, seed: Bytes, p: seq<nat>, i: nat)
    requires 0 < i < |p|
    ensures var j := Number(hash(seed + BigEndian64(i))[..8]) % (i + 1);
            ShuffleFrom(hash, seed, p, i) == ShuffleFrom(hash, seed, Swapped(p, i, j), i - 1)
  {
  }

  lemma PermutationStarts(hash: Hash, entropy: Bytes, length: nat)
    ensures Permutation(hash, entropy, length) ==
            if length == 0 then [] else ShuffleFrom(hash, hash(entropy + Ascii("permutation")), Identity(length), length - 1)
  {
  }

  lemma ShuffleEnds(hash: Hash, seed: Bytes, p: seq<nat>)
    ensures ShuffleFrom(hash, seed, p, 0) == p
  {
  }

  // Every permutation can be drawn

  /** The positions the shuffle must exchange with, from 0 up to `i`, to lead from `p` to `q`. */
  function Wanted(p: seq<nat>, q: seq<nat>, i: nat): (targets: seq<nat>)
    requires IsPermutation(p) && IsPermutation(q) && |p| == |q| && i < |p|
    ensures |targets| == i + 1
    decreases i
  {
    InverseIn(p, q[i]);
    var j := InverseAt(p, q[i], 0);
    SwappedIsPermutation(p, i, j);
    if i == 0 then [j] else Wanted(Swapped(p, i, j), q, i - 1) + [j]
  }

  lemma {:induction false} WantedReaches(hash: Hash, seed: Bytes, p: seq<nat>, q: seq<nat>, i: nat)
    requires IsPermutation(p) && IsPermutation(q) && |p| == |q| && i < |p|
    requires forall k | i < k < |p| :: p[k] == q[k]
    requires forall k | 0 < k <= i :: SwapTarget(hash, seed, k) == Wanted(p, q, i)[k]
    ensures ShuffleFrom(hash, seed, p, i) == q
    decreases i
  {
    hide SwapTarget, IsPermutation;
    InverseIn(p, q[i]) by { AtMost(q, i); }
    var j := InverseAt(p, q[i], 0);
    SwappedIsPermutation(p, i, j);
    NotFixedYet(p, q, i, j);
    var next := Swapped(p, i, j);
    if i > 0 {
      assert Wanted(p, q, i) == Wanted(next, q, i - 1) + [j];
      WantedReaches(hash, seed, next, q, i - 1);
    } else {
      assert next == q;
      SwappedItself(p, q);
    }
  }

  lemma AtMost(q: seq<nat>, i: nat)
    requires IsPermutation(q) && i < |q|
    ensures q[i] < |q|
  {
  }

  lemma SwappedItself(p: seq<nat>, q: seq<nat>)
    requires IsPermutation(p) && IsPermutation(q) && |p| == |q| > 0 && forall k | 0 < k < |p| :: p[k] == q[k]
    ensures p == q
  {
    assert q[0] in p;
    var k: nat :| k < |p| && p[k] == q[0];
    assert k == 0;
  }

  /** What belongs at `i` is not above `i`, where everything is in place. */
  lemma NotFixedYet(p: seq<nat>, q: seq<nat>, i: nat, j: nat)
    requires IsPermutation(q) && |p| == |q| && i < |p| && j < |p| && p[j] == q[i]
    requires forall k | i < k < |p| :: p[k] == q[k]
    ensures j <= i
  {
  }

  lemma {:induction false} WantedSmall(p: seq<nat>, q: seq<nat>, i: nat)
    requires IsPermutation(p) && IsPermutation(q) && |p| == |q| && i < |p|
    requires forall k | i < k < |p| :: p[k] == q[k]
    ensures forall k | 0 <= k <= i :: Wanted(p, q, i)[k] <= k
    decreases i
  {
    hide IsPermutation;
    InverseIn(p, q[i]) by { AtMost(q, i); }
    var j := InverseAt(p, q[i], 0);
    SwappedIsPermutation(p, i, j);
    NotFixedYet(p, q, i, j);
    if i > 0 {
      WantedSmall(Swapped(p, i, j), q, i - 1);
    }
  }

  /** The block a hash has to give for the counter at the end of its input. */
  function NamingBlock(targets: seq<nat>, input: Bytes): Block {
    var k := if |input| < 8 then |targets| else Number(input[|input| - 8..]);
    if k < |targets| then BigEndian64(targets[k]) + seq(24, _ => 0) else seq(32, _ => 0)
  }

  lemma NamedTarget(hash: Hash, targets: seq<nat>, seed: Bytes, k: nat)
    requires forall input :: hash(input) == NamingBlock(targets, input)
    requires k < |targets| <= 0x1_0000_0000_0000_0000 && targets[k] <= k
    ensures SwapTarget(hash, seed, k) == targets[k]
  {
    hide BigEndian64, Number, NamingBlock;
    NumberOfBigEndian(k);
    NumberOfBigEndian(targets[k]);
    NamedBlock(targets, seed, k);
    assert targets[k] % (k + 1) == targets[k] by { SmallRemainder(targets[k], k + 1); }
  }

  lemma NamedBlock(targets: seq<nat>, seed: Bytes, k: nat)
    requires k < |targets| && Number(BigEndian64(k)) == k
    ensures NamingBlock(targets, seed + BigEndian64(k))[..8] == BigEndian64(targets[k])
  {
    hide BigEndian64, Number;
    var input := seed + BigEndian64(k);
    assert input[|input| - 8..] == BigEndian64(k);
  }

  lemma SmallRemainder(n: nat, d: nat)
    requires n < d
    ensures n % d == n
  {
  }

  /** No permutation is out of reach: for each there is a hash that makes the shuffle end with it. */
  lemma EveryPermutationDrawn(q: seq<nat>, entropy: Bytes) returns (hash: Hash)
    requires IsPermutation(q) && |q| <= 0x1_0000_0000_0000_0000
    ensures Permutation(hash, entropy, |q|) == q
  {
    if q == [] {
      hash := input => seq(32, _ => 0);
      return;
    }
    var (p, i) := (Identity(|q|), |q| - 1);
    IdentityIsPermutation(|q|);
    var targets := Wanted(p, q, i);
    hash := input => NamingBlock(targets, input);
    hide *;
    WantedSmall(p, q, i);
    var seed := hash(entropy + Ascii("permutation"));
    forall k | 0 < k <= i ensures SwapTarget(hash, seed, k) == targets[k] {
      NamedTarget(hash, targets, seed, k);
    }
    WantedReaches(hash, seed, p, q, i);
    PermutationStarts(hash, entropy, |q|);
  }

  // The shuffle-mask obfuscator

  function Gathered(data: Bytes, p: seq<nat>): (r: Bytes)
    requires |data| == |p| && forall i | 0 <= i < |p| :: p[i] < |p|
    ensures |r| == |data|
  {
    seq(|p|, i requires 0 <= i < |p| => data[p[i]])
  }

  /** `result` holds `data` put back: position `p[i]` of it is position `i` of the data. */
  predicate ScatteredTo(data: Bytes, p: seq<nat>, result: Bytes) {
    |data| == |p| == |result| && forall i | 0 <= i < |p| :: p[i] < |p| && result[p[i]] == data[i]
  }

  function MaskSeed(entropy: Bytes): Bytes {
    entropy + Ascii("mask")
  }

  function ShuffleObfuscate(hash: Hash, data: Bytes, entropy: Bytes): Bytes {
    PermutationIsBijection(hash, entropy, |data|);
    Gathered(Xor(data, KeyStream(hash, MaskSeed(entropy), |data|)), Permutation(hash, entropy, |data|))
  }

  function InverseAt(p: seq<nat>, v: nat, from: nat): nat
    requires from <= |p|
    decreases |p| - from
  {
    if from == |p| then 0 else if p[from] == v then from else InverseAt(p, v, from + 1)
  }

  lemma {:induction false} InverseFound(p: seq<nat>, v: nat, from: nat, i: nat)
    requires from <= i < |p| && p[i] == v
    ensures from <= InverseAt(p, v, from) < |p| && p[InverseAt(p, v, from)] == v
    decreases |p| - from
  {
    if p[from] != v {
      InverseFound(p, v, from + 1, i);
    }
  }

  function ShuffleDeobfuscate(hash: Hash, data: Bytes, entropy: Bytes): Bytes {
    var p := Permutation(hash, entropy, |data|);
    PermutationIsBijection(hash, entropy, |data|);
    var scattered := Scattered(data, p);
    Xor(scattered, KeyStream(hash, MaskSeed(entropy), |data|))
  }

  function Scattered(data: Bytes, p: seq<nat>): (r: Bytes)
    requires IsPermutation(p) && |data| == |p|
    ensures ScatteredTo(data, p, r)
  {
    var r := seq(|p|, v requires 0 <= v < |p| => InverseIn(p, v); data[InverseAt(p, v, 0)]);
    forall i | 0 <= i < |p| ensures p[i] < |p| && r[p[i]] == data[i] {
      InverseIn(p, p[i]);
    }
    r
  }

  lemma InverseIn(p: seq<nat>, v: nat)
    requires IsPermutation(p) && v < |p|
    ensures InverseAt(p, v, 0) < |p| && p[InverseAt(p, v, 0)] == v
  {
    assert v in p;
    var i: nat :| i < |p| && p[i] == v;
    InverseFound(p, v, 0, i);
  }

  lemma ScatteredUnique(data: Bytes, p: seq<nat>, a: Bytes, b: Bytes)
    requires IsPermutation(p) && ScatteredTo(data, p, a) && ScatteredTo(data, p, b)
    ensures a == b
  {
    forall v: nat | v < |p| ensures a[v] == b[v] {
      assert v in p;
      var i: nat :| i < |p| && p[i] == v;
    }
  }

  lemma GatherScatter(data: Bytes, p: seq<nat>)
    requires IsPermutation(p) && |data| == |p|
    ensures Scattered(Gathered(data, p), p) == data
    ensures Gathered(Scattered(data, p), p) == data
  {
    ScatteredUnique(Gathered(data, p), p, Scattered(Gathered(data, p), p), data);
  }

  /** The two directions of the shuffle-mask obfuscator undo each other, for every hash and entropy. */
  lemma ShuffleInverse(hash: Hash, data: Bytes, entropy: Bytes)
    ensures ShuffleDeobfuscate(hash, ShuffleObfuscate(hash, data, entropy), entropy) == data
    ensures ShuffleObfuscate(hash, ShuffleDeobfuscate(hash, data, entropy), entropy) == data
  {
    PermutationIsBijection(hash, entropy, |data|);
    var p, mask := Permutation(hash, entropy, |data|), KeyStream(hash, MaskSeed(entropy), |data|);
    hide Permutation, KeyStream, MaskSeed, IsPermutation, Scattered;
    GatherScatter(Xor(data, mask), p);
    GatherScatter(data, p);
    XorInvolution(data, mask);
    XorInvolution(Scattered(data, p), mask);
  }

  /**
   The byte at position `i` is the one the permutation takes from its place, combined with the
   byte of the hash blocks for that place, seeded with the entropy and the label `mask`.
   */
  lemma ShuffleObfuscateAt(hash: Hash, data: Bytes, entropy: Bytes, i: nat)
    requires i < |data|
    ensures var (p, r) := (Permutation(hash, entropy, |data|), ShuffleObfuscate(hash, data, entropy));
            |p| == |r| == |data| && p[i] < |data| &&
            r[i] == data[p[i]] ^ hash(entropy + Ascii("mask") + BigEndian64(p[i] / 32))[p[i] % 32]
  {
    hide BigEndian64, Permutation, Ascii;
    PermutationIsBijection(hash, entropy, |data|);
  }

  /** The other direction puts the byte back and takes the mask off. */
  lemma ShuffleDeobfuscateAt(hash: Hash, data: Bytes, entropy: Bytes, i: nat)
    requires i < |data|
    ensures var (p, r) := (Permutation(hash, entropy, |data|), ShuffleDeobfuscate(hash, data, entropy));
            |p| == |r| == |data| && p[i] < |data| &&
            r[p[i]] == data[i] ^ hash(entropy + Ascii("mask") + BigEndian64(p[i] / 32))[p[i] % 32]
  {
    hide BigEndian64, Permutation, Ascii, Scattered;
    PermutationIsBijection(hash, entropy, |data|);
  }

  method ShuffleObfuscateBytes(hash: Hash, data: Bytes, entropy: Bytes) returns (result: Bytes)
    ensures result == ShuffleObfuscate(hash, data, entropy)
  {
    PermutationIsBijection(hash, entropy, |data|);
    hide Permutation, KeyStream, MaskSeed, IsPermutation;
    ghost var p, stream := Permutation(hash, entropy, |data|), KeyStream(hash, MaskSeed(entropy), |data|);
    if |data| == 0 {
      return data;
    }
    var permutation := GeneratePermutation(hash, entropy, |data|);
    var mask := DeriveStream(hash, MaskSeed(entropy), |data|);
    var masked := MaskBytes(data, mask);
    var shuffled := new bv8[|data|];
    for i := 0 to |data|
      invariant permutation[..] == p && masked[..] == Xor(data, stream)
      invariant forall k | 0 <= k < i :: p[k] < |data| && shuffled[k] == Xor(data, stream)[p[k]]
    {
      PermutationAt(p, i);
      assert permutation[i] == permutation[..][i];
      assert masked[p[i]] == masked[..][p[i]];
      shuffled[i] := masked[permutation[i]];
    }
    result := shuffled[..];
  }

  method MaskBytes(data: Bytes, mask: array<bv8>) returns (result: array<bv8>)
    requires |data| == mask.Length
    ensures fresh(result) && result[..] == Xor(data, mask[..])
  {
    hide Xor;
    result := new bv8[|data|](i requires 0 <= i < |data| => data[i]);
    ghost var masked := Xor(data, mask[..]);
    for i := 0 to |data|
      invariant mask[..] == old(mask[..])
      invariant forall k | 0 <= k < i :: result[k] == masked[k]
      invariant forall k | i <= k < |data| :: result[k] == data[k]
    {
      XorAt(data, mask[..], i);
      result[i] := result[i] ^ mask[i];
    }
  }

  lemma XorAt(data: Bytes, mask: Bytes, i: nat)
    requires |data| == |mask| && i < |data|
    ensures Xor(data, mask)[i] == data[i] ^ mask[i]
  {
  }

  lemma PermutationAt(p: seq<nat>, i: nat)
    requires IsPermutation(p) && i < |p|
    ensures p[i] < |p| && forall k | 0 <= k < |p| && k != i :: p[k] != p[i]
  {
  }

  method ShuffleDeobfuscateBytes(hash: Hash, data: Bytes, entropy: Bytes) returns (result: Bytes)
    ensures result == ShuffleDeobfuscate(hash, data, entropy)
  {
    hide *;
    DeobfuscateUnfold(hash, data, entropy);
    ghost var p, stream := Permutation(hash, entropy, |data|), KeyStream(hash, MaskSeed(entropy), |data|);
    if |data| == 0 {
      return data;
    }
    var restored := new bv8[|data|];
    var permutation := GeneratePermutation(hash, entropy, |data|);
    var mask := DeriveStream(hash, MaskSeed(entropy), |data|);
    for i := 0 to |data|
      invariant permutation[..] == p && mask[..] == stream
      invariant forall k | 0 <= k < i :: p[k] < |data| && restored[p[k]] == data[k]
    {
      PermutationAt(p, i);
      assert permutation[i] == permutation[..][i];
      restored[permutation[i]] := data[i];
    }
    ScatteredIs(data, p, restored[..]);
    var unmasked := MaskBytes(restored[..], mask);
    result := unmasked[..];
  }

  lemma DeobfuscateUnfold(hash: Hash, data: Bytes, entropy: Bytes)
    ensures var p := Permutation(hash, entropy, |data|);
            |p| == |data| && IsPermutation(p) &&
            ShuffleDeobfuscate(hash, data, entropy) ==
            Xor(Scattered(data, p), KeyStream(hash, MaskSeed(entropy), |data|))
    ensures |data| == 0 ==> ShuffleDeobfuscate(hash, data, entropy) == data
  {
    PermutationIsBijection(hash, entropy, |data|);
  }

  lemma ScatteredIs(data: Bytes, p: seq<nat>, result: Bytes)
    requires IsPermutation(p) && |data| == |p| == |result|
    requires forall i | 0 <= i < |p| :: p[i] < |data| && result[p[i]] == data[i]
    ensures result == Scattered(data, p)
  {
    hide IsPermutation;
    ScatteredUnique(data, p, Scattered(data, p), result);
  }
}
