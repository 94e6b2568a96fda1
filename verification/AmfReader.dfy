/** The bytes a value is decoded from, and the reads that can fail. */
module AmfReaders {
  import opened Bytes

  type Text = seq<byte>

  /** The bits of a floating-point number. */
  type Double = s: seq<byte> | |s| == 8 witness [0, 0, 0, 0, 0, 0, 0, 0]

  datatype Result<T> = Ok(value: T, rest: seq<byte>) | Fail

  /** Go's two readers of bytes in memory; only the second refuses to read nothing at its end. */
  datatype Kind = BytesBuffer | BytesReader

  /** Exactly `n` bytes. */
  function Take(kind: Kind, s: seq<byte>, n: nat): (r: Result<seq<byte>>)
    ensures r.Ok? ==> |r.value| == n && s == r.value + r.rest
  {
    if n > |s| || (kind.BytesReader? && s == []) then Fail else Ok(s[..n], s[n..])
  }

  /** What a decoding method leaves: the value and the rest of the input, or an error. */
  ghost predicate Decoded<T>(r: Result<T>, v: Option<T>, rest: seq<byte>) {
    match r
    case Fail => v == None
    case Ok(x, t) => v == Some(x) && rest == t
  }

  /** A read that finds too little takes it all. */
  class Reader {
    const kind: Kind
    var input: seq<byte>

    constructor (kind: Kind, bytes: seq<byte>)
      ensures this.kind == kind && input == bytes
    {
      this.kind, input := kind, bytes;
    }

    method ReadBytes(n: nat) returns (bytes: seq<byte>, ok: bool)
      modifies this
      ensures ok == Take(kind, old(input), n).Ok?
      ensures ok ==> Ok(bytes, input) == Take(kind, old(input), n)
      ensures !ok ==> input == []
    {
      ok := n <= |input| && (kind.BytesBuffer? || input != []);
      if ok {
        bytes, input := input[..n], input[n..];
      } else {
        bytes, input := [], [];
      }
    }

    /** A plain `Read` of a buffer of `n` bytes, of which it may fill only some; the rest stay zero. */
    method Read(n: nat) returns (bytes: seq<byte>, ok: bool)
      modifies this
      ensures ok == (old(input) != [] || (n == 0 && kind.BytesBuffer?))
      ensures ok && n <= |old(input)| ==> bytes == old(input)[..n] && input == old(input)[n..]
      ensures ok && n > |old(input)| ==> bytes == old(input) + seq(n - |old(input)|, _ => 0) && input == []
      ensures !ok ==> input == []
    {
      bytes, ok := [], input != [] || (n == 0 && kind.BytesBuffer?);
      if ok {
        var m := Min(n, |input|);
        bytes, input := input[..m] + seq(n - m, _ => 0), input[m..];
      } else {
        input := [];
      }
    }
  }
}
