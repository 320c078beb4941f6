/**
 * Binary files as the readers and writers of the package see them: an
 * input file is its bytes plus a read position, an output file the bytes
 * written so far. Opening, closing and the operating system are not part
 * of this model.
 */
module Streams {
  import opened Bytes
  import Text

  /** A file opened in "rb" mode. */
  class InputStream {
    var bytes: seq<byte>
    var pos: nat

    ghost predicate Valid()
      reads this
    {
      pos <= |bytes|
    }

    constructor(contents: seq<byte>)
      ensures Valid() && bytes == contents && pos == 0
    {
      bytes := contents;
      pos := 0;
    }

    /** `read(n)`: up to `n` bytes from the read position, fewer at the end of the file. */
    method Read(n: nat) returns (chunk: seq<byte>)
      requires Valid()
      modifies this
      ensures Valid() && bytes == old(bytes)
      ensures chunk == Text.Slice(old(bytes), old(pos), old(pos) + n)
      ensures pos == old(pos) + |chunk|
    {
      chunk := Text.Slice(bytes, pos, pos + n);
      assert chunk == bytes[pos..pos + |chunk|];
      pos := pos + |chunk|;
    }
  }

  /** A file opened in "wb" mode. */
  class OutputStream {
    var bytes: seq<byte>

    constructor()
      ensures bytes == []
    {
      bytes := [];
    }

    /** `write(b)`: append `b`. */
    method Write(b: seq<byte>)
      modifies this
      ensures bytes == old(bytes) + b
    {
      bytes := bytes + b;
    }
  }

  /** A file opened in "w" mode: the text written so far. */
  class TextOutput {
    var text: string

    constructor()
      ensures text == []
    {
      text := [];
    }

    /** `write(t)`: append `t`. */
    method Write(t: string)
      modifies this
      ensures text == old(text) + t
    {
      text := text + t;
    }
  }
}
