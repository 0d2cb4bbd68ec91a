/** The io.Reader that a buffering layer reads from, as an adversary. */
module Source {
  import opened Prelude

  datatype Error =
    | EOF
    | Other(id: int)            // any other error of the source
    | ErrNoProgress
    | ErrBufferFull
    | ErrNegativeCount
    | ErrInvalidUnreadByte
    | ErrInvalidUnreadRune
    | ErrTooLong
    | ErrShortWrite

  const MAX_EMPTY_READS := 100

  predicate OwnError(e: Error) {
    e.EOF? || e.Other?
  }

  /**
   A reader that will deliver the bytes of `rest`, in pieces and with errors of its own
   choosing.  It reports EOF only after the last byte, may report other errors at any
   time, and may scribble over the whole of the slice it is given.
   */
  class Source {
    var rest: seq<byte>
    ghost var calls: nat        // how often it was called

    constructor (input: seq<byte>)
      ensures rest == input && calls == 0
    {
      rest, calls := input, 0;
    }

    method Read(p: array<byte>, lo: nat, hi: nat) returns (n: nat, err: Option<Error>)
      requires lo <= hi <= p.Length
      modifies this, p
      ensures n <= hi - lo && n <= |old(rest)| && rest == old(rest)[n..] && calls == old(calls) + 1
      ensures p[lo..lo + n] == old(rest)[..n]
      ensures forall i :: 0 <= i < p.Length && !(lo <= i < hi) ==> p[i] == old(p[i])
      ensures err.Some? ==> OwnError(err.value)
      ensures err == Some(EOF) ==> rest == []
    {
      n :| 0 <= n <= hi - lo && n <= |rest|;
      forall i | lo <= i < lo + n {
        p[i] := rest[i - lo];
      }
      assert p[lo..lo + n] == rest[..n];
      rest, calls := rest[n..], calls + 1;
      err := *;
      if err.Some? && (!OwnError(err.value) || (err.value == EOF && rest != [])) {
        err := None;
      }
    }
  }
}
