/**
 The cube object over an in-memory medium (go/cube/cube.go) and its writer, which seals what
 it collected when it is closed.  The methods are proved against the functions of CubeState.
 */
module CubeMedium {
  import opened Options
  import opened MemoryState
  import opened CubeState
  import MemoryMedium
  import Sigils

  class Medium {
    const inner: MemoryMedium.MemoryMedium
    const aead: Sigils.Aead
    const sigil: Sigils.ChaChaPolySigil

    constructor (inner: MemoryMedium.MemoryMedium, aead: Sigils.Aead, sigil: Sigils.ChaChaPolySigil)
      ensures this.inner == inner && this.aead == aead && this.sigil == sigil
    {
      this.inner, this.aead, this.sigil := inner, aead, sigil;
    }

    function Handle(): Layers {
      Cube(Bare, sigil)
    }

    method Read(path: string) returns (r: ReadResult)
      ensures r == CubeRead(aead, Handle(), inner.State(), path)
    {
      hide Sigils.Untransmute;
      var ciphertext := inner.ReadFile(path);
      if ciphertext.None? {
        return Missing;
      }
      var out := Sigils.UntransmuteLoop(Sigils.Of(ciphertext.value), [Sigils.CipherSigil(aead, sigil)]);
      assert Decrypt(aead, Bare, ciphertext.value) == Content(ciphertext.value);
      r := if out.Failed? then Undecryptable else Content(Sigils.Text(out.data));
    }

    method WriteMode(path: string, content: Bytes, mode: Mode, drawn: Bytes, now: Time) returns (status: CubeStatus)
      modifies inner
      ensures CubeStep(status, inner.State()) ==
              CubeWriteMode(aead, Handle(), old(inner.State()), path, content, mode, [drawn], now)
    {
      hide Sigils.Transmute, MemoryState.WriteMode;
      var ciphertext := Sigils.TransmuteLoop(Sigils.Of(content), [Sigils.CipherSigil(aead, sigil)], [drawn]);
      assert [drawn][1..] == [];
      if ciphertext.Failed? {
        return EncryptFailed;
      }
      var stored := inner.WriteFileMode(path, Sigils.Text(ciphertext.data), mode, now);
      status := Stored(stored);
    }

    /** The content an appending writer starts with, or none when it cannot be read. */
    method Existing(path: string) returns (existing: Option<Bytes>)
      ensures var was := CubeRead(aead, Handle(), inner.State(), path);
              existing ==
              if !Exists(inner.State(), path) then Some([])
              else if was.Content? then Some(was.bytes)
              else None
    {
      hide CubeRead, DirectoryExists;
      var exists_ := path in inner.fileContents;
      if !exists_ {
        exists_ := inner.DirectoryExistsAt(path);
      }
      if !exists_ {
        return Some([]);
      }
      var plain := Read(path);
      existing := if plain.Content? then Some(plain.bytes) else None;
    }
  }

  class CubeWriteCloser {
    const medium: Medium
    const path: string
    const mode: Mode
    var data: Bytes

    constructor (medium: Medium, path: string, existing: Bytes)
      ensures this.medium == medium && this.path == path && this.mode == DEFAULT_MODE && data == existing
    {
      this.medium, this.path, this.mode, this.data := medium, path, DEFAULT_MODE, existing;
    }

    method Write(more: Bytes) returns (count: nat)
      modifies this
      ensures count == |more| && data == old(data) + more
    {
      data := data + more;
      count := |more|;
    }

    method Close(drawn: Bytes, now: Time) returns (status: CubeStatus)
      modifies medium.inner
      ensures CubeStep(status, medium.inner.State()) ==
              CubeWriteMode(medium.aead, medium.Handle(), old(medium.inner.State()), path, data,
                            if mode == 0 then DEFAULT_MODE else mode, [drawn], now)
    {
      var usedMode := if mode == 0 then DEFAULT_MODE else mode;
      status := medium.WriteMode(path, data, usedMode, drawn, now);
    }
  }

  /** Append, one write and Close, run in one go, is the append of CubeState. */
  method AppendAndClose(medium: Medium, path: string, more: Bytes, drawn: Bytes, now: Time) returns (status: CubeStatus)
    modifies medium.inner
    ensures CubeStep(status, medium.inner.State()) ==
            CubeAppendClose(medium.aead, medium.Handle(), old(medium.inner.State()), path, more, [drawn], now)
  {
    hide CubeRead, CubeWriteMode, Exists;
    var existing := medium.Existing(path);
    if existing.None? {
      return AppendFailed;
    }
    var writer := new CubeWriteCloser(medium, path, existing.value);
    var count := writer.Write(more);
    assert [] + more == more;
    status := writer.Close(drawn, now);
  }
}
