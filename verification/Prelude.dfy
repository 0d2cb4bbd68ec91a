/** Types shared by every module of the project. */
module Prelude {
  datatype Option<+T> = None | Some(value: T)

  /** An unsigned 8-bit quantity. */
  type byte = x: int | 0 <= x < 256

  function Min(a: int, b: int): int {
    if a <= b then a else b
  }

  function Max(a: int, b: int): int {
    if a <= b then b else a
  }

  /** To4: the four bytes of an IPv4 address, which in its 16-byte form follow `prefix`. */
  function FourBytes<T(==)>(ip: seq<T>, prefix: seq<T>): Option<seq<T>> {
    if |ip| == 4 then Some(ip) else if |ip| == 16 && ip[..12] == prefix then Some(ip[12..]) else None
  }

  function Ascii(s: string): (b: seq<byte>)
    requires forall i :: 0 <= i < |s| ==> s[i] < 128 as char
    ensures |b| == |s| && forall i :: 0 <= i < |s| ==> b[i] == s[i] as int
  {
    seq(|s|, i requires 0 <= i < |s| => s[i] as int)
  }

  lemma Regroup<T>(a: seq<T>, b: seq<T>, c: seq<T>)
    ensures (a + b) + c == a + (b + c)
  {
  }

  lemma TakeOff<T>(all: seq<T>, n: nat)
    requires n <= |all|
    ensures all == all[..n] + all[n..]
  {
  }

  /** After the first `n` of `all`, the next are `piece`. */
  lemma Onward<T>(all: seq<T>, n: nat, piece: seq<T>, rest: seq<T>)
    requires n <= |all| && all[n..] == piece + rest
    ensures n + |piece| <= |all| && all[..n] + piece == all[..n + |piece|] && rest == all[n + |piece|..]
  {
    assert all == all[..n] + all[n..];
  }

  /** The first element of what stands from index i on, and the rest. */
  lemma Apart<T>(s: seq<T>, i: nat, c: T, more: seq<T>, rest: seq<T>)
    requires i <= |s| && s[i..] == ([c] + more) + rest
    ensures i < |s| && s[i] == c && s[i + 1..] == more + rest
  {
    assert |s[i..]| >= 1 && s[i..][0] == s[i];
    assert s[i + 1..] == s[i..][1..];
  }
}
