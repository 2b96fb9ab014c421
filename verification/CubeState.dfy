/**
 The cube (go/cube/cube.go) as a value: an encrypting layer over the in-memory medium, or
 over another cube.  The theorem compares it with the bare medium run on plain contents.
 */
module CubeState {
  import opened Options
  import Paths
  import opened PrefixMaps
  import opened PathTree
  import opened MemoryState
  import Obfuscators
  import Sigils

  /** The medium behind a handle: the memory itself, or a cube over a medium. */
  datatype Layers = Bare | Cube(inner: Layers, sigil: Sigils.ChaChaPolySigil)

  function Depth(layers: Layers): nat {
    match layers
    case Bare => 0
    case Cube(inner, _) => 1 + Depth(inner)
  }

  datatype ReadResult = Content(bytes: Bytes) | Missing | Undecryptable

  datatype CubeStatus = Stored(status: Status) | EncryptFailed | AppendFailed

  datatype CubeStep = CubeStep(status: CubeStatus, mem: Mem)

  /** What reading through the layers makes of a stored content. */
  function Decrypt(aead: Sigils.Aead, layers: Layers, stored: Bytes): ReadResult {
    match layers
    case Bare => Content(stored)
    case Cube(inner, sigil) =>
      var below := Decrypt(aead, inner, stored);
      if !below.Content? then below
      else
        var out := Sigils.Untransmute(Sigils.Of(below.bytes), [Sigils.CipherSigil(aead, sigil)]);
        if out.Failed? then Undecryptable else Content(Sigils.Text(out.data))
  }

  function CubeRead(aead: Sigils.Aead, layers: Layers, m: Mem, path: string): ReadResult {
    if path in m.files then Decrypt(aead, layers, m.files[path]) else Missing
  }

  /** Each layer seals with random bytes of its own, the outer one first. */
  ghost function CubeWriteMode(aead: Sigils.Aead, layers: Layers, m: Mem, path: string, content: Bytes, mode: Mode,
      drawn: seq<Bytes>, now: Time): CubeStep
    requires |drawn| == Depth(layers)
  {
    match layers
    case Bare =>
      var step := WriteMode(m, path, content, mode, now);
      CubeStep(Stored(step.status), step.mem)
    case Cube(inner, sigil) =>
      var sealed := Sigils.Transmute(Sigils.Of(content), [Sigils.CipherSigil(aead, sigil)], [drawn[0]]);
      if sealed.Failed? then CubeStep(EncryptFailed, m)
      else CubeWriteMode(aead, inner, m, path, Sigils.Text(sealed.data), mode, drawn[1..], now)
  }

  /** Append, some writes, and Close: what is there is read back, and all of it is sealed anew. */
  ghost function CubeAppendClose(aead: Sigils.Aead, layers: Layers, m: Mem, path: string, more: Bytes,
      drawn: seq<Bytes>, now: Time): CubeStep
    requires |drawn| == Depth(layers)
  {
    if Exists(m, path) then
      var was := CubeRead(aead, layers, m, path);
      if !was.Content? then CubeStep(AppendFailed, m)
      else CubeWriteMode(aead, layers, m, path, was.bytes + more, DEFAULT_MODE, drawn, now)
    else CubeWriteMode(aead, layers, m, path, more, DEFAULT_MODE, drawn, now)
  }

  /** Every layer has a usable key and nonce size and an obfuscator it can undo. */
  ghost predicate GoodLayers(layers: Layers) {
    match layers
    case Bare => true
    case Cube(inner, sigil) =>
      GoodLayers(inner) &&
      sigil.key.Some? && |sigil.key.value| == Sigils.KEY_SIZE &&
      Sigils.ActiveNonceSize(sigil) in {Sigils.NONCE_SIZE, Sigils.NONCE_SIZE_X} &&
      (sigil.obfuscator.Some? ==> Sigils.Invertible(sigil.obfuscator.value))
  }

  /** The random source delivers a whole nonce to every layer. */
  predicate GoodDraws(layers: Layers, drawn: seq<Bytes>) {
    |drawn| == Depth(layers) &&
    match layers
    case Bare => true
    case Cube(inner, sigil) => |drawn[0]| >= Sigils.ActiveNonceSize(sigil) && GoodDraws(inner, drawn[1..])
  }

  /** What ends up stored for a content. */
  ghost predicate Seals(aead: Sigils.Aead, layers: Layers, content: Bytes, stored: Bytes) {
    Decrypt(aead, layers, stored) == Content(content)
  }

  /** A cube made by `New` is good. */
  lemma NewCubeIsGood(hash: Obfuscators.Hash, inner: Layers, key: Bytes)
    requires GoodLayers(inner) && |key| == Sigils.KEY_SIZE
    ensures GoodLayers(Cube(inner, Sigils.NewChaChaPolySigil(hash, key, None).value))
  {
    hide Sigils.Invertible, Sigils.XorPreObfuscator;
    Sigils.ObfuscatorsInvertible(hash);
  }

  /**
   What a layer hands to the medium below it: the nonce, 24 bytes of what is drawn unless 12 are asked for, and
   after it the content, obfuscated under the nonce, sealed under the key and the nonce.
   */
  lemma LayerWrites(aead: Sigils.Aead, inner: Layers, s: Sigils.ChaChaPolySigil, m: Mem, path: string, content: Bytes,
      mode: Mode, drawn: seq<Bytes>, now: Time)
    requires Sigils.Usable(s) && |drawn| == Depth(inner) + 1
    ensures var size := if s.nonceSize == 12 then 12 else 24;
            CubeWriteMode(aead, Cube(inner, s), m, path, content, mode, drawn, now) ==
            if |drawn[0]| < size then CubeStep(EncryptFailed, m)
            else
              var nonce := drawn[0][..size];
              var plain := if s.obfuscator.Some? then s.obfuscator.value.obfuscate(content, nonce) else content;
              CubeWriteMode(aead, inner, m, path, nonce + aead.seal(s.key.value, nonce, plain), mode, drawn[1..], now)
  {
    hide Sigils.Transmute, Sigils.CipherIn, Sigils.CipherOut;
    Sigils.CipherMessage(aead, s, Sigils.Of(content), drawn[0]);
    Sigils.TransmuteOne(Sigils.Of(content), Sigils.CipherSigil(aead, s), drawn[0]);
  }

  /** What a layer makes of what the medium below it reads. */
  lemma LayerReads(aead: Sigils.Aead, inner: Layers, s: Sigils.ChaChaPolySigil, m: Mem, path: string)
    requires Sigils.Usable(s)
    ensures var (below, size) := (CubeRead(aead, inner, m, path), if s.nonceSize == 12 then 12 else 24);
            CubeRead(aead, Cube(inner, s), m, path) ==
            if !below.Content? then below
            else if |below.bytes| < size + 16 then Undecryptable
            else
              var (nonce, plain) := (below.bytes[..size], aead.open(s.key.value, below.bytes[..size], below.bytes[size..]));
              if plain.None? then Undecryptable
              else Content(if s.obfuscator.Some? then s.obfuscator.value.deobfuscate(plain.value, nonce) else plain.value)
    ensures CubeRead(aead, Bare, m, path) == if path in m.files then Content(m.files[path]) else Missing
  {
    hide Sigils.Untransmute, Sigils.CipherIn, Sigils.CipherOut;
    var below := CubeRead(aead, inner, m, path);
    if below.Content? {
      Sigils.CipherOpens(aead, s, below.bytes);
      Sigils.UntransmuteOne(Sigils.Of(below.bytes), Sigils.CipherSigil(aead, s));
    }
  }

  /** Writing through the layers stores something that reads back as the content. */
  lemma {:induction false} CubeWriteSeals(aead: Sigils.Aead, layers: Layers, m: Mem, path: string, content: Bytes,
      mode: Mode, drawn: seq<Bytes>, now: Time)
    returns (stored: Bytes)
    requires Sigils.Sound(aead) && GoodLayers(layers) && |drawn| == Depth(layers)
    ensures var step := CubeWriteMode(aead, layers, m, path, content, mode, drawn, now);
            var bare := WriteMode(m, path, stored, mode, now);
            if step.status.EncryptFailed? then step.mem == m
            else Seals(aead, layers, content, stored) && step == CubeStep(Stored(bare.status), bare.mem)
    ensures GoodDraws(layers, drawn) ==> !CubeWriteMode(aead, layers, m, path, content, mode, drawn, now).status.EncryptFailed?
    decreases layers
  {
    hide Sigils.Sound, Sigils.CipherOut, Sigils.Untransmute, Sigils.Transmute, WriteMode, Sigils.Invertible,
      Sigils.Lawful;
    match layers
    case Bare => stored := content;
    case Cube(inner, sigil) =>
      stored := [];
      var cipher := Sigils.CipherSigil(aead, sigil);
      Sigils.TransmuteOne(Sigils.Of(content), cipher, drawn[0]);
      var sealed := Sigils.CipherIn(aead, sigil, Sigils.Of(content), drawn[0]);
      if sealed.Ok? {
        hide Sigils.CipherIn;
        stored := CubeWriteSeals(aead, inner, m, path, Sigils.Text(sealed.data), mode, drawn[1..], now);
        Sigils.CipherRoundTrip(aead, sigil, Sigils.Of(content), drawn[0]);
        Sigils.SealedIsText(aead, sigil, content, drawn[0]);
        Sigils.UntransmuteOne(sealed.data, cipher);
      }
  }

  // The simulation

  ghost predicate SameContents(aead: Sigils.Aead, layers: Layers, sealed: map<string, Bytes>,
      plain: map<string, Bytes>) {
    sealed.Keys == plain.Keys &&
    forall p :: p in plain ==> Seals(aead, layers, plain[p], sealed[p])
  }

  /** The cube's memory looks like the plain one, and reads like it. */
  ghost predicate Mirrors(aead: Sigils.Aead, layers: Layers, sealed: Mem, plain: Mem) {
    SameContents(aead, layers, sealed.files, plain.files) &&
    sealed.modes == plain.modes && sealed.dirs == plain.dirs && sealed.times == plain.times
  }

  lemma MirrorsReads(aead: Sigils.Aead, layers: Layers, sealed: Mem, plain: Mem, path: string)
    requires Mirrors(aead, layers, sealed, plain)
    ensures CubeRead(aead, layers, sealed, path) ==
            if Read(plain, path).Some? then Content(Read(plain, path).value) else Missing
    ensures path in sealed.files <==> path in plain.files
    ensures DirectoryExists(sealed, path) <==> DirectoryExists(plain, path)
    ensures HasChildren(sealed, path) <==> HasChildren(plain, path)
    ensures HasFileAncestor(sealed, path) <==> HasFileAncestor(plain, path)
  {
    hide Decrypt;
    assert forall f :: f in sealed.files <==> f in sealed.files.Keys;
    assert forall f :: f in plain.files <==> f in plain.files.Keys;
  }

  lemma MoveKeyMirrors(aead: Sigils.Aead, layers: Layers, sealed: map<string, Bytes>, plain: map<string, Bytes>,
      from: string, to: string)
    requires SameContents(aead, layers, sealed, plain)
    ensures SameContents(aead, layers, MoveKey(sealed, from, to), MoveKey(plain, from, to))
  {
    hide Decrypt, Seals;
    assert forall f :: f in sealed <==> f in sealed.Keys;
    assert forall f :: f in plain <==> f in plain.Keys;
    MoveKeyKeys(sealed, plain, from, to);
  }

  lemma {:induction false} MoveAllMirrors(aead: Sigils.Aead, layers: Layers, sealed: map<string, Bytes>,
      plain: map<string, Bytes>, order: seq<string>, from: string, to: string)
    requires SameContents(aead, layers, sealed, plain)
    requires forall k :: k in order ==> Paths.HasPrefix(k, from)
    ensures SameContents(aead, layers, MoveAll(sealed, order, from, to), MoveAll(plain, order, from, to))
    decreases |order|
  {
    hide SameContents;
    if order != [] {
      assert order[0] in order;
      var dest := Moved(order[0], from, to);
      MoveKeyMirrors(aead, layers, sealed, plain, order[0], dest);
      MoveAllMirrors(aead, layers, MoveKey(sealed, order[0], dest), MoveKey(plain, order[0], dest), order[1..], from, to);
    }
  }

  /** Operations the cube hands to its inner medium as they are. */
  predicate PassedOn(op: Op) {
    op.OpEnsureDir? || op.OpDelete? || op.OpDeleteAll? || op.OpRename?
  }

  lemma LegalMirrors(aead: Sigils.Aead, layers: Layers, sealed: Mem, plain: Mem, op: Op)
    requires Mirrors(aead, layers, sealed, plain)
    ensures Legal(sealed, op) <==> Legal(plain, op)
  {
    hide Decrypt, Seals;
    assert forall f :: f in sealed.files <==> f in sealed.files.Keys;
    assert forall f :: f in plain.files <==> f in plain.files.Keys;
  }

  lemma OrderedFiles(m: Mem, from: string, to: string, orders: Orders)
    requires LegalOrders(m, from, to, orders)
    ensures forall k :: k in orders.files ==> Paths.HasPrefix(k, ChildPrefix(from))
  {
  }

  lemma PassedOnMirrors(aead: Sigils.Aead, layers: Layers, sealed: Mem, plain: Mem, op: Op)
    requires Mirrors(aead, layers, sealed, plain) && PassedOn(op) && Legal(sealed, op) && Legal(plain, op)
    ensures Apply(sealed, op).status == Apply(plain, op).status
    ensures Mirrors(aead, layers, Apply(sealed, op).mem, Apply(plain, op).mem)
  {
    hide Decrypt, Seals, Ancestors, DirectoryExists, HasChildren, HasFileAncestor, Enumerates, CubeRead, Doomed;
    MirrorsReads(aead, layers, sealed, plain, op.path);
    assert forall f :: f in sealed.files <==> f in sealed.files.Keys;
    assert forall f :: f in plain.files <==> f in plain.files.Keys;
    match op
    case OpEnsureDir(path) =>
    case OpDelete(path) =>
    case OpDeleteAll(path) =>
      assert forall f :: f in sealed.files <==> f in plain.files;
      assert (set k | k in sealed.files && Doomed(k, path)) == (set k | k in plain.files && Doomed(k, path));
    case OpRename(from, to, orders) =>
      if from in plain.files {
        MoveKeyMirrors(aead, layers, sealed.files, plain.files, from, to);
      } else if DirectoryExists(plain, from) {
        hide MoveAll, MoveDirectories;
        OrderedFiles(plain, from, to, orders);
        MoveAllMirrors(aead, layers, sealed.files, plain.files, orders.files, ChildPrefix(from), ChildPrefix(to));
      }
  }

  /** A write through the layers is a write of the plain content, unless sealing fails. */
  lemma CubeWriteMirrors(aead: Sigils.Aead, layers: Layers, sealed: Mem, plain: Mem, path: string, content: Bytes,
      mode: Mode, drawn: seq<Bytes>, now: Time)
    requires Sigils.Sound(aead) && GoodLayers(layers) && GoodDraws(layers, drawn)
    requires Mirrors(aead, layers, sealed, plain)
    ensures var step := CubeWriteMode(aead, layers, sealed, path, content, mode, drawn, now);
            var bare := WriteMode(plain, path, content, mode, now);
            step.status == Stored(bare.status) && Mirrors(aead, layers, step.mem, bare.mem)
  {
    hide Decrypt, Seals, Ancestors, Sigils.Sound, GoodLayers, HasFileAncestor, DirectoryExists, HasChildren,
      CubeWriteMode, CubeRead;
    var stored := CubeWriteSeals(aead, layers, sealed, path, content, mode, drawn, now);
    MirrorsReads(aead, layers, sealed, plain, path);
  }

  /** What append and close mean on plain contents. */
  ghost function PlainAppendClose(m: Mem, path: string, more: Bytes, now: Time): CubeStep {
    if Exists(m, path) && path !in m.files then CubeStep(AppendFailed, m)
    else
      var step := WriteMode(m, path, (if path in m.files then m.files[path] else []) + more, DEFAULT_MODE, now);
      CubeStep(Stored(step.status), step.mem)
  }

  lemma CubeAppendMirrors(aead: Sigils.Aead, layers: Layers, sealed: Mem, plain: Mem, path: string, more: Bytes,
      drawn: seq<Bytes>, now: Time)
    requires Sigils.Sound(aead) && GoodLayers(layers) && GoodDraws(layers, drawn)
    requires Mirrors(aead, layers, sealed, plain)
    ensures var step := CubeAppendClose(aead, layers, sealed, path, more, drawn, now);
            var bare := PlainAppendClose(plain, path, more, now);
            step.status == bare.status && Mirrors(aead, layers, step.mem, bare.mem)
  {
    hide Decrypt, Seals, Sigils.Sound, GoodLayers, DirectoryExists, HasChildren, HasFileAncestor, CubeWriteMode,
      WriteMode, Mirrors;
    MirrorsReads(aead, layers, sealed, plain, path);
    var content := (if path in plain.files then plain.files[path] else []) + more;
    assert [] + more == more;
    CubeWriteMirrors(aead, layers, sealed, plain, path, content, DEFAULT_MODE, drawn, now);
  }

  /**
   Append and close is a WriteMode of the old content plus the appended bytes, except on a
   directory that is not stored but only implied by what lies below it, where append refuses.
   */
  lemma AppendIsWriteUnlessImplied(m: Mem, path: string, more: Bytes, now: Time)
    ensures var content := (if path in m.files then m.files[path] else []) + more;
            PlainAppendClose(m, path, more, now).mem == WriteMode(m, path, content, DEFAULT_MODE, now).mem <==>
            !(path !in m.files && path !in m.dirs && DirectoryExists(m, path) && !HasFileAncestor(m, path))
  {
  }

  // Runs

  datatype CubeOp =
    | Pass(op: Op)
    | Write(path: string, content: Bytes, mode: Mode, drawn: seq<Bytes>, now: Time)
    | AppendClose(path: string, content: Bytes, drawn: seq<Bytes>, now: Time)

  ghost predicate LegalCubeOp(layers: Layers, m: Mem, op: CubeOp) {
    match op
    case Pass(inner) => PassedOn(inner) && Legal(m, inner)
    case Write(_, _, _, drawn, _) => GoodDraws(layers, drawn)
    case AppendClose(_, _, drawn, _) => GoodDraws(layers, drawn)
  }

  ghost function ApplyCube(aead: Sigils.Aead, layers: Layers, m: Mem, op: CubeOp): CubeStep
    requires LegalCubeOp(layers, m, op)
  {
    match op
    case Pass(inner) =>
      var step := Apply(m, inner);
      CubeStep(Stored(step.status), step.mem)
    case Write(path, content, mode, drawn, now) => CubeWriteMode(aead, layers, m, path, content, mode, drawn, now)
    case AppendClose(path, more, drawn, now) => CubeAppendClose(aead, layers, m, path, more, drawn, now)
  }

  ghost function ApplyPlain(layers: Layers, m: Mem, op: CubeOp): CubeStep
    requires LegalCubeOp(layers, m, op)
  {
    match op
    case Pass(inner) =>
      var step := Apply(m, inner);
      CubeStep(Stored(step.status), step.mem)
    case Write(path, content, mode, _, now) =>
      var step := WriteMode(m, path, content, mode, now);
      CubeStep(Stored(step.status), step.mem)
    case AppendClose(path, more, _, now) => PlainAppendClose(m, path, more, now)
  }

  lemma CubeStepMirrors(aead: Sigils.Aead, layers: Layers, sealed: Mem, plain: Mem, op: CubeOp)
    requires Sigils.Sound(aead) && GoodLayers(layers) && Mirrors(aead, layers, sealed, plain)
    requires LegalCubeOp(layers, plain, op)
    ensures LegalCubeOp(layers, sealed, op)
    ensures ApplyCube(aead, layers, sealed, op).status == ApplyPlain(layers, plain, op).status
    ensures Mirrors(aead, layers, ApplyCube(aead, layers, sealed, op).mem, ApplyPlain(layers, plain, op).mem)
  {
    hide Mirrors, Sigils.Sound, GoodLayers, GoodDraws, Apply, Legal, CubeWriteMode, WriteMode, CubeAppendClose,
      PlainAppendClose;
    match op
    case Pass(inner) =>
      LegalMirrors(aead, layers, sealed, plain, inner);
      PassedOnMirrors(aead, layers, sealed, plain, inner);
    case Write(path, content, mode, drawn, now) =>
      CubeWriteMirrors(aead, layers, sealed, plain, path, content, mode, drawn, now);
    case AppendClose(path, more, drawn, now) =>
      CubeAppendMirrors(aead, layers, sealed, plain, path, more, drawn, now);
  }

  ghost predicate IsPlainRun(layers: Layers, states: seq<Mem>, ops: seq<CubeOp>) {
    |states| == |ops| + 1 &&
    forall i | 0 <= i < |ops| ::
      LegalCubeOp(layers, states[i], ops[i]) && states[i + 1] == ApplyPlain(layers, states[i], ops[i]).mem
  }

  ghost predicate IsCubeRun(aead: Sigils.Aead, layers: Layers, states: seq<Mem>, ops: seq<CubeOp>) {
    |states| == |ops| + 1 &&
    forall i | 0 <= i < |ops| ::
      LegalCubeOp(layers, states[i], ops[i]) && states[i + 1] == ApplyCube(aead, layers, states[i], ops[i]).mem
  }

  /**
   Cubes of any depth over an empty in-memory medium: after every run, and at every point of
   it, each operation has the outcome and each path reads as on the bare medium.
   */
  lemma {:induction false} CubeReadsLikeBare(aead: Sigils.Aead, layers: Layers, sealed: seq<Mem>, plain: seq<Mem>,
      ops: seq<CubeOp>)
    requires Sigils.Sound(aead) && GoodLayers(layers)
    requires IsPlainRun(layers, plain, ops) && IsCubeRun(aead, layers, sealed, ops)
    requires sealed[0] == plain[0] == EMPTY
    ensures forall i | 0 <= i < |ops| ::
              ApplyCube(aead, layers, sealed[i], ops[i]).status == ApplyPlain(layers, plain[i], ops[i]).status
    ensures forall i, path | 0 <= i < |plain| ::
              CubeRead(aead, layers, sealed[i], path) ==
              if path in plain[i].files then Content(plain[i].files[path]) else Missing
  {
    EmptyMirrors(aead, layers);
    hide Mirrors, Sigils.Sound, GoodLayers, LegalCubeOp, ApplyCube, ApplyPlain, CubeRead;
    for n := 0 to |ops|
      invariant forall i | 0 <= i <= n :: Mirrors(aead, layers, sealed[i], plain[i])
      invariant forall i | 0 <= i < n ::
                  ApplyCube(aead, layers, sealed[i], ops[i]).status == ApplyPlain(layers, plain[i], ops[i]).status
    {
      CubeStepMirrors(aead, layers, sealed[n], plain[n], ops[n]);
    }
    forall i, path | 0 <= i < |plain|
      ensures CubeRead(aead, layers, sealed[i], path) ==
              if path in plain[i].files then Content(plain[i].files[path]) else Missing {
      MirrorsReads(aead, layers, sealed[i], plain[i], path);
    }
  }

  lemma EmptyMirrors(aead: Sigils.Aead, layers: Layers)
    ensures Mirrors(aead, layers, EMPTY, EMPTY)
  {
    hide Decrypt;
  }
}
