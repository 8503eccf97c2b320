/**
  The image builder of Toolchain/ModulePacker/main.c. Open files are objects; opening and
  closing them is not part of the model.
 */
module ModulePacker {
  import opened Bytes

  const BUFFER_SIZE: nat := 128

  /** The modules behind the kernel, each behind its size. */
  function Packed(modules: seq<seq<byte>>): seq<byte> {
    if modules == [] then [] else FourBytes(Cut(|modules[0]|)) + modules[0] + Packed(modules[1..])
  }

  function Image(kernel: seq<byte>, modules: seq<seq<byte>>): seq<byte> {
    kernel + FourBytes(Cut(|modules|)) + Packed(modules)
  }

  lemma {:induction false} PackedSnoc(modules: seq<seq<byte>>, last: seq<byte>)
    ensures Packed(modules + [last]) == Packed(modules) + FourBytes(Cut(|last|)) + last
  {
    var all := modules + [last];
    if modules == [] {
      assert all[1..] == [];
    } else {
      assert all[1..] == modules[1..] + [last];
      PackedSnoc(modules[1..], last);
    }
  }

  /** The image so far, with one more module. */
  lemma ImageSnoc(kernel: seq<byte>, count: seq<byte>, files: seq<seq<byte>>, i: nat)
    requires 1 <= i < |files|
    ensures kernel + count + Packed(files[1..i + 1])
            == kernel + count + Packed(files[1..i]) + FourBytes(Cut(|files[i]|)) + files[i]
  {
    PackedSnoc(files[1..i], files[i]);
    assert files[1..i + 1] == files[1..i] + [files[i]];
  }

  /** A file open for reading: `feof` holds only after a read came up short. */
  class Source {
    const data: seq<byte>
    var pos: nat
    var atEof: bool

    constructor (data: seq<byte>)
      ensures this.data == data && pos == 0 && !atEof
    {
      this.data := data;
      pos, atEof := 0, false;
    }

    /** `fread(buffer, 1, count, source)` */
    method Read(count: nat) returns (chunk: seq<byte>)
      requires pos <= |data|
      modifies this
      ensures old(pos) <= pos <= |data| && chunk == data[old(pos)..pos]
      ensures pos == old(pos) + count || (pos == |data| && atEof && |chunk| < count)
      ensures pos == old(pos) + count ==> atEof == old(atEof)
    {
      if count <= |data| - pos {
        chunk := data[pos..pos + count];
        pos := pos + count;
      } else {
        chunk := data[pos..];
        pos, atEof := |data|, true;
      }
    }
  }

  class Target {
    var bytes: seq<byte>

    constructor ()
      ensures bytes == []
    {
      bytes := [];
    }

    /** `fwrite` */
    method Write(chunk: seq<byte>)
      modifies this
      ensures bytes == old(bytes) + chunk
    {
      bytes := bytes + chunk;
    }
  }

  /** `write_file`, for a file of any length, also an exact number of buffers or none. */
  method WriteFile(target: Target, source: Source)
    requires source.pos == 0 && !source.atEof
    modifies target, source
    ensures target.bytes == old(target.bytes) + source.data
  {
    while !source.atEof
      invariant source.pos <= |source.data| && (source.atEof ==> source.pos == |source.data|)
      invariant target.bytes == old(target.bytes) + source.data[..source.pos]
      decreases |source.data| - source.pos, if source.atEof then 0 else 1
    {
      ghost var was := source.pos;
      var chunk := source.Read(BUFFER_SIZE);
      target.Write(chunk);
      assert source.data[..was] + chunk == source.data[..source.pos];
    }
  }

  /** `write_size`: the size is cut to 32 bits. */
  method WriteSize(target: Target, size: nat)
    modifies target
    ensures target.bytes == old(target.bytes) + FourBytes(Cut(size))
  {
    target.Write(FourBytes(Cut(size)));
  }

  /** `buildImage`: the kernel, the number of modules, and the modules behind their sizes. */
  method BuildImage(files: seq<seq<byte>>) returns (image: seq<byte>)
    requires 0 < |files| < 0x8000_0000
    ensures image == Image(files[0], files[1..])
  {
    hide FourBytes;
    var target := new Target();
    var source := new Source(files[0]);
    WriteFile(target, source);
    var extraBinaries := |files| - 1;
    target.Write(FourBytes(extraBinaries));
    assert files[1..1] == [];
    var i := 1;
    while i < |files|
      invariant 1 <= i <= |files|
      invariant target.bytes == files[0] + FourBytes(Cut(|files| - 1)) + Packed(files[1..i])
    {
      source := new Source(files[i]);
      WriteSize(target, |files[i]|);
      WriteFile(target, source);
      ImageSnoc(files[0], FourBytes(Cut(|files| - 1)), files, i);
      i := i + 1;
    }
    assert files[1..|files|] == files[1..];
    image := target.bytes;
  }
}
