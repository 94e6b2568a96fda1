/** The buffered connection: integers are read and written byte by byte, and a failed read sticks. */
module ReadWriters {
  import opened Bytes
  import opened ChunkSpec
  import opened Pools

  class ReadWriter {
    /** Bytes the peer has sent and nobody has read yet. */
    var input: seq<byte>
    var readError: bool
    /** Bytes written so far. */
    var output: seq<byte>

    constructor (bytes: seq<byte>)
      ensures Pending() == In(bytes, false) && output == []
    {
      input, readError, output := bytes, false, [];
    }

    function Pending(): In
      reads this
    {
      In(input, readError)
    }

    method ReadByte() returns (b: byte, ok: bool)
      modifies this`input
      ensures ok == (old(input) != [])
      ensures ok ==> b == old(input)[0] && input == old(input)[1..]
      ensures !ok ==> input == []
    {
      b, ok := 0, input != [];
      if ok {
        b, input := input[0], input[1..];
      }
    }

    method ReadUintBE(n: nat) returns (v: nat)
      requires n <= 4
      modifies this`input, this`readError
      ensures (v, Pending()) == old(Pending()).ReadBE(n)
    {
      if readError { return 0; }
      ghost var was := input;
      v := 0;
      for i := 0 to n
        invariant !readError && i <= |was| && input == was[i..] && v == FromBE(was[..i])
      {
        var b, ok := ReadByte();
        if !ok {
          readError := true;
          return 0;
        }
        assert was[..i + 1][..i] == was[..i];
        v := v * 256 + b;
      }
    }

    method ReadUintLE(n: nat) returns (v: nat)
      requires n <= 4
      modifies this`input, this`readError
      ensures (v, Pending()) == old(Pending()).ReadLE(n)
    {
      if readError { return 0; }
      ghost var was := input;
      v := 0;
      for i := 0 to n
        invariant !readError && i <= |was| && input == was[i..] && v == FromLE(was[..i])
      {
        var b, ok := ReadByte();
        if !ok {
          readError := true;
          return 0;
        }
        FromLEAppend(was[..i], b);
        assert was[..i + 1] == was[..i] + [b];
        v := v + b * Pow256(i);
      }
    }

    /** Fills `size` bytes of `s` from position `start` on, or fails. */
    method Read(s: Slice, start: nat, size: nat) returns (ok: bool)
      requires s.Valid() && start + size <= s.len
      modifies this`input, this`readError, s.buf
      ensures ok == (!old(readError) && |old(input)| >= size)
      ensures ok ==> input == old(input)[size..] && !readError && s.Bytes(start, start + size) == old(input)[..size]
      ensures !ok ==> input == (if old(readError) then old(input) else []) && readError
      ensures s.SameOutside(old(s.buf[..]), start, start + size)
    {
      if readError { return false; }
      ok := |input| >= size;
      var count := if ok then size else |input|;
      s.Store(start, input[..count]);
      assert ok ==> s.Bytes(start, start + size) == input[..size];
      input := input[count..];
      readError := !ok;
    }

    /** The next four bytes, unread. */
    method Peek4() returns (v: nat, ok: bool)
      ensures ok == (|input| >= 4)
      ensures ok ==> v == FromBE(input[..4])
    {
      ok := |input| >= 4;
      v := if ok then FromBE(input[..4]) else 0;
    }

    method WriteUintBE(v: nat, n: nat)
      modifies this`output
      ensures output == old(output) + BE(v, n)
    {
      hide Shift;
      for i := 0 to n
        invariant output == old(output) + BE(Shift(v, n - i), i)
      {
        ShiftSplit(v, n - i - 1);
        output := output + [Shift(v, n - i - 1) % 256];
      }
      ShiftZero(v);
    }

    method WriteUintLE(v: nat, n: nat)
      modifies this`output
      ensures output == old(output) + LE(v, n)
    {
      var w := v;
      for i := 0 to n
        invariant output + LE(w, n - i) == old(output) + LE(v, n)
      {
        assert output + ([w % 256] + LE(w / 256, n - i - 1)) == output + [w % 256] + LE(w / 256, n - i - 1);
        output := output + [w % 256];
        w := w / 256;
      }
      assert output + [] == output;
    }

    method Write(p: seq<byte>)
      modifies this`output
      ensures output == old(output) + p
    {
      output := output + p;
    }
  }

  lemma {:induction false} FromLEAppend(s: seq<byte>, b: byte)
    ensures FromLE(s + [b]) == FromLE(s) + b * Pow256(|s|)
  {
    if s == [] {
      assert (s + [b])[1..] == [];
    } else {
      FromLEAppend(s[1..], b);
      assert (s + [b])[1..] == s[1..] + [b];
      MulShift(b, Pow256(|s| - 1));
    }
  }

  lemma MulShift(b: nat, p: nat)
    ensures 256 * (b * p) == b * (256 * p)
  {
  }
}
