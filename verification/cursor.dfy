/**
 * The `Vec<u8>` the decoders consume. The finder reverses the file once,
 * so that `Vec::pop`, which takes the LAST element, hands the bytes out in
 * file order. A byte sequence seen as such a stack has its next byte at the
 * end; `Reversed(file)` is the stack of a file.
 */
module Cursor {
  import opened Errors
  import opened Hex

  /** What a decoder produced, and the stack it left behind. */
  datatype Decoded<T> = Decoded(result: Result<T>, rest: seq<Byte>)

  /** Passes a failure on, keeping the stack the failing step left. */
  function Propagate<T, U>(d: Decoded<U>): Decoded<T>
    requires d.result.Err?
  {
    Decoded(Err(d.result.error), d.rest)
  }

  /**
   * `(0..n).map(|_| stack.pop().expect(..)).collect::<Vec<u8>>()`: the `n`
   * top bytes in the order they are popped. When fewer than `n` bytes are
   * left, the loop pops them all and then panics on the empty vector.
   */
  function PopBytes(stack: seq<Byte>, n: nat, field: string): (d: Decoded<seq<Byte>>)
    ensures d.result.Ok? <==> n <= |stack|
    ensures d.result.Ok? ==> |d.result.value| == n && d.rest == stack[..|stack| - n]
    ensures d.result.Err? ==> d.result.error == InsufficientData(field) && d.rest == []
  {
    if n <= |stack| then
      Decoded(Ok(Reversed(stack[|stack| - n..])), stack[..|stack| - n])
    else
      Decoded(Err(InsufficientData(field)), [])
  }

  /**
   * Popping `n` bytes off a reversed file yields the first `n` bytes of the
   * file, in file order, and leaves the rest of the file reversed: the i-th
   * popped byte is `file[i]`.
   */
  lemma PopFile(file: seq<Byte>, n: nat, field: string)
    ensures n <= |file| ==> PopBytes(Reversed(file), n, field) == Decoded(Ok(file[..n]), Reversed(file[n..]))
    ensures n > |file| ==> PopBytes(Reversed(file), n, field) == Decoded(Err(InsufficientData(field)), [])
  {
    if n <= |file| {
      ReversedSplit(file, n);
      var stack := Reversed(file);
      assert PopBytes(stack, n, field) == Decoded(Ok(Reversed(Reversed(file[..n]))), Reversed(file[n..]));
      ReversedTwice(file[..n]);
    }
  }

  /** The top `n` entries of a file's stack are its first `n` bytes, reversed. */
  lemma ReversedSplit(file: seq<Byte>, n: nat)
    requires n <= |file|
    ensures Reversed(file)[|file| - n..] == Reversed(file[..n])
    ensures Reversed(file)[..|file| - n] == Reversed(file[n..])
  {
    assert file == file[..n] + file[n..];
    ReversedAppend(file[..n], file[n..]);
  }

  /** Cutting a suffix of `s` at `j - i` is cutting `s` at `j`. */
  lemma SliceOfSuffix<T>(s: seq<T>, i: nat, j: nat)
    requires i <= j <= |s|
    ensures s[i..][..j - i] == s[i..j]
    ensures s[i..][j - i..] == s[j..]
  {
  }

  /** Cutting a prefix of `s` is cutting `s`. */
  lemma SliceOfPrefix<T>(s: seq<T>, i: nat, j: nat)
    requires i <= j <= |s|
    ensures s[..j][i..] == s[i..j]
    ensures s[..j][..i] == s[..i]
  {
  }

  /** A `Vec<u8>` that is only ever reversed and popped. */
  class ByteVec {
    var bytes: seq<Byte>

    constructor (contents: seq<Byte>)
      ensures bytes == contents
    {
      bytes := contents;
    }

    function IsEmpty(): (empty: bool)
      reads this
      ensures empty <==> bytes == []
    {
      |bytes| == 0
    }

    /** `Vec::pop`: removes and returns the last byte, `None` when empty. */
    method Pop() returns (b: Option<Byte>)
      modifies this
      ensures old(bytes) == [] ==> b == None && bytes == []
      ensures old(bytes) != [] ==> b == Some(old(bytes)[|old(bytes)| - 1]) && bytes == old(bytes)[..|old(bytes)| - 1]
    {
      if |bytes| == 0 {
        b := None;
      } else {
        b := Some(bytes[|bytes| - 1]);
        bytes := bytes[..|bytes| - 1];
      }
    }

    /** `Vec::reverse`. */
    method Reverse()
      modifies this
      ensures bytes == Reversed(old(bytes))
    {
      bytes := Reversed(bytes);
    }

    /** The `(0..n).map(|_| pop().expect(..)).collect()` loop of every decoder. */
    method PopN(n: nat, field: string) returns (r: Result<seq<Byte>>)
      modifies this
      ensures Decoded(r, bytes) == PopBytes(old(bytes), n, field)
    {
      ghost var stack := bytes;
      var popped: seq<Byte> := [];
      var i := 0;
      while i < n
        invariant i <= n && i <= |stack|
        invariant bytes == stack[..|stack| - i]
        invariant popped == Reversed(stack[|stack| - i..])
      {
        var b := Pop();
        if b.None? {
          return Err(InsufficientData(field));
        }
        assert stack[|stack| - (i + 1)..][1..] == stack[|stack| - i..];
        popped := popped + [b.value];
        i := i + 1;
      }
      return Ok(popped);
    }
  }
}
