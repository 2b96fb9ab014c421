/**
 Sigils and their pipeline (go/sigil/sigil.go), and the authenticated cipher
 (go/sigil/crypto_sigil.go).  Random bytes drawn on the way in are an argument.
 */
module Sigils {
  import opened Options
  import opened ByteStrings
  import opened Obfuscators

  /** A Go byte slice: nil is not the empty slice. */
  datatype Slice = Nil | Of(bytes: Bytes)

  /** `string(slice)`. */
  function Text(s: Slice): Bytes {
    if s.Nil? then [] else s.bytes
  }

  datatype SigilError =
    | NoKeyConfigured
    | InvalidKey
    | InvalidNonce
    | NonceUnavailable
    | CiphertextTooShort
    | DecryptionFailed

  datatype Outcome = Ok(data: Slice) | Failed(error: SigilError)

  datatype Sigil = Sigil(In: (Slice, Bytes) -> Outcome, Out: Slice -> Outcome)

  /** Whatever comes in successfully goes out unchanged. */
  ghost predicate Lawful(s: Sigil) {
    forall data, drawn :: s.In(data, drawn).Ok? ==> s.Out(s.In(data, drawn).data) == Ok(data)
  }

  // The pipeline

  function Transmute(data: Slice, sigils: seq<Sigil>, drawn: seq<Bytes>): Outcome
    requires |drawn| == |sigils|
    decreases |sigils|
  {
    if sigils == [] then Ok(data)
    else
      var first := sigils[0].In(data, drawn[0]);
      if first.Failed? then first else Transmute(first.data, sigils[1..], drawn[1..])
  }

  function Untransmute(data: Slice, sigils: seq<Sigil>): Outcome
    decreases |sigils|
  {
    if sigils == [] then Ok(data)
    else
      var last := sigils[|sigils| - 1].Out(data);
      if last.Failed? then last else Untransmute(last.data, sigils[..|sigils| - 1])
  }

  /**
   What the pipeline hands on: every sigil gets what the one before it made, the first one the
   data; the answer is what the last one made, or the error of the first that fails.
   */
  lemma {:induction false} TransmuteStages(data: Slice, sigils: seq<Sigil>, drawn: seq<Bytes>)
    returns (stages: seq<Slice>)
    requires |drawn| == |sigils|
    ensures 1 <= |stages| <= |sigils| + 1 && stages[0] == data
    ensures forall i | 0 <= i < |stages| - 1 :: sigils[i].In(stages[i], drawn[i]) == Ok(stages[i + 1])
    ensures var last := |stages| - 1;
            if last == |sigils| then Transmute(data, sigils, drawn) == Ok(stages[last])
            else
              Transmute(data, sigils, drawn).Failed? &&
              Transmute(data, sigils, drawn) == sigils[last].In(stages[last], drawn[last])
    decreases |sigils|
  {
    stages := [data];
    if sigils != [] && sigils[0].In(data, drawn[0]).Ok? {
      var rest := TransmuteStages(sigils[0].In(data, drawn[0]).data, sigils[1..], drawn[1..]);
      stages := [data] + rest;
    }
  }

  /** The same from the last sigil to the first: stage `i` is what `i` sigils have made. */
  lemma {:induction false} UntransmuteStages(data: Slice, sigils: seq<Sigil>) returns (stages: seq<Slice>)
    ensures 1 <= |stages| <= |sigils| + 1 && stages[0] == data
    ensures forall i | 0 <= i < |stages| - 1 :: sigils[|sigils| - 1 - i].Out(stages[i]) == Ok(stages[i + 1])
    ensures var last := |stages| - 1;
            if last == |sigils| then Untransmute(data, sigils) == Ok(stages[last])
            else Untransmute(data, sigils).Failed? && Untransmute(data, sigils) == sigils[|sigils| - 1 - last].Out(stages[last])
    decreases |sigils|
  {
    stages := [data];
    if sigils != [] && sigils[|sigils| - 1].Out(data).Ok? {
      var front := sigils[..|sigils| - 1];
      var rest := UntransmuteStages(sigils[|sigils| - 1].Out(data).data, front);
      stages := [data] + rest;
      forall i | 0 <= i < |stages| - 1 ensures sigils[|sigils| - 1 - i].Out(stages[i]) == Ok(stages[i + 1]) {
        if i > 0 {
          assert front[|front| - 1 - (i - 1)] == sigils[|sigils| - 1 - i];
          assert stages[i] == rest[i - 1] && stages[i + 1] == rest[i];
        }
      }
    }
  }

  method TransmuteLoop(input: Slice, sigils: seq<Sigil>, drawn: seq<Bytes>) returns (r: Outcome)
    requires |drawn| == |sigils|
    ensures r == Transmute(input, sigils, drawn)
  {
    var data := input;
    for i := 0 to |sigils|
      invariant Transmute(data, sigils[i..], drawn[i..]) == Transmute(input, sigils, drawn)
    {
      assert sigils[i..][1..] == sigils[i + 1..] && drawn[i..][1..] == drawn[i + 1..];
      var next := sigils[i].In(data, drawn[i]);
      if next.Failed? {
        return next;
      }
      data := next.data;
    }
    r := Ok(data);
  }

  method UntransmuteLoop(input: Slice, sigils: seq<Sigil>) returns (r: Outcome)
    ensures r == Untransmute(input, sigils)
  {
    var data := input;
    var i := |sigils| - 1;
    assert sigils[..|sigils|] == sigils;
    while i >= 0
      invariant -1 <= i < |sigils|
      invariant Untransmute(data, sigils[..i + 1]) == Untransmute(input, sigils)
    {
      assert sigils[..i + 1][..i] == sigils[..i];
      var next := sigils[i].Out(data);
      if next.Failed? {
        return next;
      }
      data := next.data;
      i := i - 1;
    }
    r := Ok(data);
  }

  lemma {:induction false} UntransmuteConcat(data: Slice, a: seq<Sigil>, b: seq<Sigil>)
    ensures var mid := Untransmute(data, b);
            Untransmute(data, a + b) == if mid.Failed? then mid else Untransmute(mid.data, a)
    decreases |b|
  {
    if b == [] {
      assert a + b == a;
    } else {
      var front, last := b[..|b| - 1], b[|b| - 1];
      assert (a + b)[..|a + b| - 1] == a + front && (a + b)[|a + b| - 1] == last;
      if last.Out(data).Ok? {
        UntransmuteConcat(last.Out(data).data, a, front);
      }
    }
  }

  /** A list of lawful sigils is lawful: undone in reverse order, it gives the data back. */
  lemma {:induction false} PipelineLawful(data: Slice, sigils: seq<Sigil>, drawn: seq<Bytes>)
    requires |drawn| == |sigils| && forall s :: s in sigils ==> Lawful(s)
    requires Transmute(data, sigils, drawn).Ok?
    ensures Untransmute(Transmute(data, sigils, drawn).data, sigils) == Ok(data)
    decreases |sigils|
  {
    if sigils != [] {
      var first := sigils[0].In(data, drawn[0]);
      assert sigils[0] in sigils;
      assert Lawful(sigils[0]);
      PipelineLawful(first.data, sigils[1..], drawn[1..]);
      UntransmuteConcat(Transmute(data, sigils, drawn).data, [sigils[0]], sigils[1..]);
      assert sigils == [sigils[0]] + sigils[1..];
      UntransmuteOne(first.data, sigils[0]);
    }
  }

  lemma UntransmuteOne(data: Slice, s: Sigil)
    ensures Untransmute(data, [s]) == s.Out(data)
  {
    assert [s][..0] == [];
  }

  lemma TransmuteOne(data: Slice, s: Sigil, drawn: Bytes)
    ensures Transmute(data, [s], [drawn]) == s.In(data, drawn)
  {
    assert [s][1..] == [] && [drawn][1..] == [];
  }

  // The reversing sigil

  function Reversed(b: Bytes): (r: Bytes)
    ensures |r| == |b|
  {
    seq(|b|, i requires 0 <= i < |b| => b[|b| - 1 - i])
  }

  function Reverse(data: Slice): Slice {
    if data.Nil? then Nil else Of(Reversed(data.bytes))
  }

  method ReverseIn(data: Slice) returns (r: Slice)
    ensures r == Reverse(data)
    ensures data.Of? ==>
              r.Of? && |r.bytes| == |data.bytes| &&
              forall i | 0 <= i < |data.bytes| :: r.bytes[i] == data.bytes[|data.bytes| - 1 - i]
  {
    if data.Nil? {
      return Nil;
    }
    var reversed := new bv8[|data.bytes|];
    var i, j := 0, |data.bytes| - 1;
    while i < |data.bytes|
      invariant 0 <= i <= |data.bytes| && j == |data.bytes| - 1 - i
      invariant forall k | 0 <= k < i :: reversed[k] == data.bytes[|data.bytes| - 1 - k]
    {
      reversed[i] := data.bytes[j];
      i, j := i + 1, j - 1;
    }
    r := Of(reversed[..]);
  }

  function ReverseSigil(): Sigil {
    Sigil((data, drawn) => Ok(Reverse(data)), data => Ok(Reverse(data)))
  }

  lemma ReverseLawful()
    ensures Lawful(ReverseSigil())
  {
    forall data: Slice ensures Reverse(Reverse(data)) == data {
      if data.Of? {
        assert Reversed(Reversed(data.bytes)) == data.bytes;
      }
    }
  }

  // The cipher sigil

  const NONCE_SIZE: nat := 12
  const NONCE_SIZE_X: nat := 24
  const OVERHEAD: nat := 16
  const KEY_SIZE: nat := 32

  /** Authenticated encryption under a key and a nonce. */
  datatype Aead = Aead(seal: (Bytes, Bytes, Bytes) -> Bytes, open: (Bytes, Bytes, Bytes) -> Option<Bytes>)

  /** What is sealed opens again under the same key and nonce, 16 bytes longer. */
  ghost predicate Sound(aead: Aead) {
    forall key, nonce, plain ::
      aead.open(key, nonce, aead.seal(key, nonce, plain)) == Some(plain) &&
      |aead.seal(key, nonce, plain)| == |plain| + OVERHEAD
  }

  datatype PreObfuscator = PreObfuscator(obfuscate: (Bytes, Bytes) -> Bytes, deobfuscate: (Bytes, Bytes) -> Bytes)

  ghost predicate Invertible(o: PreObfuscator) {
    forall data, entropy :: o.deobfuscate(o.obfuscate(data, entropy), entropy) == data
  }

  function XorPreObfuscator(hash: Hash): PreObfuscator {
    PreObfuscator((data, entropy) => XorObfuscate(hash, data, entropy), (data, entropy) => XorObfuscate(hash, data, entropy))
  }

  function ShufflePreObfuscator(hash: Hash): PreObfuscator {
    PreObfuscator((data, entropy) => ShuffleObfuscate(hash, data, entropy), (data, entropy) => ShuffleDeobfuscate(hash, data, entropy))
  }

  lemma ObfuscatorsInvertible(hash: Hash)
    ensures Invertible(XorPreObfuscator(hash)) && Invertible(ShufflePreObfuscator(hash))
  {
    forall data: Bytes, entropy: Bytes
      ensures XorObfuscate(hash, XorObfuscate(hash, data, entropy), entropy) == data &&
              ShuffleDeobfuscate(hash, ShuffleObfuscate(hash, data, entropy), entropy) == data {
      hide *;
      XorObfuscateInvolution(hash, data, entropy);
      ShuffleInverse(hash, data, entropy);
    }
    hide XorObfuscate, ShuffleObfuscate, ShuffleDeobfuscate;
  }

  /** What the two obfuscators do to the byte at `i`: XOR with the hash blocks, alone or at the permuted place. */
  lemma ObfuscatorsAt(hash: Hash, data: Bytes, entropy: Bytes, i: nat)
    requires i < |data|
    ensures var r := XorPreObfuscator(hash).obfuscate(data, entropy);
            |r| == |data| && r[i] == data[i] ^ hash(entropy + BigEndian64(i / 32))[i % 32]
    ensures var (p, r) := (Permutation(hash, entropy, |data|), ShufflePreObfuscator(hash).obfuscate(data, entropy));
            |p| == |r| == |data| && p[i] < |data| &&
            r[i] == data[p[i]] ^ hash(entropy + Ascii("mask") + BigEndian64(p[i] / 32))[p[i] % 32]
  {
    XorObfuscateBytes(hash, data, entropy);
    ShuffleObfuscateAt(hash, data, entropy, i);
    hide XorObfuscate, ShuffleObfuscate, Permutation, BigEndian64, Ascii;
  }

  datatype ChaChaPolySigil = ChaChaPolySigil(key: Option<Bytes>, nonceSize: nat, obfuscator: Option<PreObfuscator>)

  function NewChaChaPolySigil(hash: Hash, key: Bytes, custom: Option<PreObfuscator>): (r: Option<ChaChaPolySigil>)
    ensures r.Some? <==> |key| == KEY_SIZE
    ensures r.Some? ==> r.value.key == Some(key) && ActiveNonceSize(r.value) == NONCE_SIZE_X
    ensures r.Some? ==> r.value.obfuscator == if custom.Some? then custom else Some(XorPreObfuscator(hash))
  {
    if |key| != KEY_SIZE then None
    else
      var obfuscator := if custom.None? then XorPreObfuscator(hash) else custom.value;
      Some(ChaChaPolySigil(Some(key), NONCE_SIZE_X, Some(obfuscator)))
  }

  function ActiveNonceSize(s: ChaChaPolySigil): nat {
    if s.nonceSize != 0 then s.nonceSize else NONCE_SIZE_X
  }

  function CipherIn(aead: Aead, s: ChaChaPolySigil, data: Slice, drawn: Bytes): Outcome {
    if s.key.None? then Failed(NoKeyConfigured)
    else if data.Nil? then Ok(Nil)
    else if ActiveNonceSize(s) != NONCE_SIZE && ActiveNonceSize(s) != NONCE_SIZE_X then Failed(InvalidNonce)
    else if |s.key.value| != KEY_SIZE then Failed(InvalidKey)
    else if |drawn| < ActiveNonceSize(s) then Failed(NonceUnavailable)
    else
      var nonce := drawn[..ActiveNonceSize(s)];
      var obfuscated := if s.obfuscator.None? then data.bytes else s.obfuscator.value.obfuscate(data.bytes, nonce);
      Ok(Of(nonce + aead.seal(s.key.value, nonce, obfuscated)))
  }

  function CipherOut(aead: Aead, s: ChaChaPolySigil, data: Slice): Outcome {
    if s.key.None? then Failed(NoKeyConfigured)
    else if data.Nil? then Ok(Nil)
    else if ActiveNonceSize(s) != NONCE_SIZE && ActiveNonceSize(s) != NONCE_SIZE_X then Failed(InvalidNonce)
    else if |s.key.value| != KEY_SIZE then Failed(InvalidKey)
    else if |data.bytes| < ActiveNonceSize(s) + OVERHEAD then Failed(CiphertextTooShort)
    else
      var nonce := data.bytes[..ActiveNonceSize(s)];
      var plain := aead.open(s.key.value, nonce, data.bytes[ActiveNonceSize(s)..]);
      if plain.None? then Failed(DecryptionFailed)
      else
        // An empty plaintext comes back as an empty slice, never as nil.
        Ok(Of(if s.obfuscator.None? then plain.value else s.obfuscator.value.deobfuscate(plain.value, nonce)))
  }

  function CipherSigil(aead: Aead, s: ChaChaPolySigil): Sigil {
    Sigil((data, drawn) => CipherIn(aead, s, data, drawn), data => CipherOut(aead, s, data))
  }

  /** The key, the nonce size and the data the cipher can work with. */
  predicate Usable(s: ChaChaPolySigil) {
    s.key.Some? && |s.key.value| == 32 && (s.nonceSize == 0 || s.nonceSize == 12 || s.nonceSize == 24)
  }

  /**
   What sealing gives: the nonce drawn, 24 bytes unless 12 are asked for, and after it the data,
   obfuscated under the nonce, sealed under the key and the nonce.
   */
  lemma CipherMessage(aead: Aead, s: ChaChaPolySigil, data: Slice, drawn: Bytes)
    ensures CipherIn(aead, s, data, drawn).Ok? <==>
            s.key.Some? && (data.Of? ==> Usable(s) && |drawn| >= if s.nonceSize == 12 then 12 else 24)
    ensures data.Of? && CipherIn(aead, s, data, drawn).Ok? ==>
              var nonce := drawn[..if s.nonceSize == 12 then 12 else 24];
              var plain := if s.obfuscator.Some? then s.obfuscator.value.obfuscate(data.bytes, nonce) else data.bytes;
              CipherIn(aead, s, data, drawn) == Ok(Of(nonce + aead.seal(s.key.value, nonce, plain)))
    ensures data.Nil? && s.key.Some? ==> CipherIn(aead, s, data, drawn) == Ok(Nil)
    ensures s.key.None? ==> CipherIn(aead, s, data, drawn) == Failed(NoKeyConfigured)
    ensures data.Of? && Usable(s) && CipherIn(aead, s, data, drawn).Failed? ==>
              CipherIn(aead, s, data, drawn) == Failed(NonceUnavailable)
  {
  }

  /** What a cipher that cannot work answers, and in which order: no key, nothing to do, a wrong nonce size, a wrong key size. */
  lemma CipherRefusals(aead: Aead, s: ChaChaPolySigil, data: Slice, drawn: Bytes)
    requires !(data.Of? && Usable(s))
    ensures CipherIn(aead, s, data, drawn) == CipherOut(aead, s, data) ==
            if s.key.None? then Failed(NoKeyConfigured)
            else if data.Nil? then Ok(Nil)
            else if s.nonceSize !in {0, 12, 24} then Failed(InvalidNonce)
            else Failed(InvalidKey)
  {
  }

  /** When opening succeeds: the message is long enough, and the cipher accepts what follows the nonce. */
  lemma CipherOpens(aead: Aead, s: ChaChaPolySigil, message: Bytes)
    requires Usable(s)
    ensures var size := if s.nonceSize == 12 then 12 else 24;
            if |message| < size + 16 then CipherOut(aead, s, Of(message)) == Failed(CiphertextTooShort)
            else
              var (nonce, plain) := (message[..size], aead.open(s.key.value, message[..size], message[size..]));
              if plain.None? then CipherOut(aead, s, Of(message)) == Failed(DecryptionFailed)
              else
                CipherOut(aead, s, Of(message)) ==
                Ok(Of(if s.obfuscator.Some? then s.obfuscator.value.deobfuscate(plain.value, nonce) else plain.value))
  {
  }

  /** Sealing with any nonce and opening gives the slice back, nil and empty told apart. */
  lemma CipherRoundTrip(aead: Aead, s: ChaChaPolySigil, data: Slice, drawn: Bytes)
    requires Sound(aead) && (s.obfuscator.Some? ==> Invertible(s.obfuscator.value))
    requires CipherIn(aead, s, data, drawn).Ok?
    ensures CipherOut(aead, s, CipherIn(aead, s, data, drawn).data) == Ok(data)
  {
    if data.Of? {
      var nonce := drawn[..ActiveNonceSize(s)];
      var obfuscated := if s.obfuscator.None? then data.bytes else s.obfuscator.value.obfuscate(data.bytes, nonce);
      var sealed := nonce + aead.seal(s.key.value, nonce, obfuscated);
      assert sealed[..|nonce|] == nonce && sealed[|nonce|..] == aead.seal(s.key.value, nonce, obfuscated);
    }
  }

  /** What sealing gives is no nil slice, so it survives being stored as text. */
  lemma SealedIsText(aead: Aead, s: ChaChaPolySigil, content: Bytes, drawn: Bytes)
    requires CipherIn(aead, s, Of(content), drawn).Ok?
    ensures var sealed := CipherIn(aead, s, Of(content), drawn).data; Of(Text(sealed)) == sealed
  {
  }

  lemma CipherLawful(aead: Aead, s: ChaChaPolySigil)
    requires Sound(aead) && (s.obfuscator.Some? ==> Invertible(s.obfuscator.value))
    ensures Lawful(CipherSigil(aead, s))
  {
    forall data: Slice, drawn: Bytes | CipherIn(aead, s, data, drawn).Ok?
      ensures CipherOut(aead, s, CipherIn(aead, s, data, drawn).data) == Ok(data) {
      hide CipherIn, CipherOut;
      CipherRoundTrip(aead, s, data, drawn);
    }
    hide CipherIn, CipherOut;
  }

  function NonceFromCiphertext(ciphertext: Bytes): Option<Bytes> {
    if |ciphertext| < NONCE_SIZE_X then None else Some(ciphertext[..NONCE_SIZE_X])
  }

  /** The nonce of a message is found in front of its ciphertext. */
  lemma NonceInFront(aead: Aead, s: ChaChaPolySigil, data: Slice, drawn: Bytes)
    requires data.Of? && ActiveNonceSize(s) == NONCE_SIZE_X && CipherIn(aead, s, data, drawn).Ok?
    ensures NonceFromCiphertext(CipherIn(aead, s, data, drawn).data.bytes) == Some(drawn[..NONCE_SIZE_X])
  {
    var nonce := drawn[..NONCE_SIZE_X];
    var sealed := CipherIn(aead, s, data, drawn).data.bytes;
    assert sealed == nonce + sealed[NONCE_SIZE_X..];
  }
}
