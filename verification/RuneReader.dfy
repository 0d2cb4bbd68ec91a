/** The push-back rune reader of fmt/scan.go. */
module RuneReader {
  import opened Prelude
  import opened Utf8

  datatype Error = EOF | Other(id: int)

  /** What the io.Reader has in store: bytes, and errors that it may go on after. */
  datatype Item = Got(b: byte) | Failed(e: Error)

  function Gots(p: seq<byte>): (s: seq<Item>)
    ensures |s| == |p| && forall i :: 0 <= i < |p| ==> s[i] == Got(p[i])
  {
    seq(|p|, i requires 0 <= i < |p| => Got(p[i]))
  }

  /** The bytes up to the first error. */
  function Head(s: seq<Item>): (p: seq<byte>)
    ensures |p| <= |s| && (|p| < |s| ==> s[|p|].Failed?)
  {
    if s == [] || s[0].Failed? then [] else [s[0].b] + Head(s[1..])
  }

  /** That error; `fin` when there is none in store. */
  function Stop(s: seq<Item>, fin: Error): Error {
    if |Head(s)| < |s| then s[|Head(s)|].e else fin
  }

  /** What is in store after it. */
  function Tail(s: seq<Item>): seq<Item> {
    if |Head(s)| < |s| then s[|Head(s)| + 1..] else []
  }

  lemma HeadCons(b: byte, rest: seq<Item>)
    ensures Head([Got(b)] + rest) == [b] + Head(rest)
  {
    assert ([Got(b)] + rest)[1..] == rest;
  }

  lemma GotsCons(p: seq<byte>, after: seq<Item>)
    requires p != []
    ensures Gots(p) + after == [Got(p[0])] + (Gots(p[1..]) + after)
  {
  }

  lemma ConsBack(p: seq<byte>, q: seq<byte>)
    requires p != []
    ensures [p[0]] + (p[1..] + q) == p + q
  {
  }

  lemma {:induction false} HeadOfGots(p: seq<byte>, after: seq<Item>)
    ensures Head(Gots(p) + after) == p + Head(after)
  {
    if p == [] {
      assert Gots(p) + after == after;
    } else {
      HeadOfGots(p[1..], after);
      GotsCons(p, after);
      HeadCons(p[0], Gots(p[1..]) + after);
      ConsBack(p, Head(after));
    }
  }

  /** The first error and what follows it are those of the part after the bytes. */
  lemma StopOfGots(p: seq<byte>, after: seq<Item>, fin: Error)
    ensures Stop(Gots(p) + after, fin) == Stop(after, fin) && Tail(Gots(p) + after) == Tail(after)
  {
    HeadOfGots(p, after);
    var s, k := Gots(p) + after, |Head(after)|;
    if k < |after| {
      assert s[|p| + k] == after[k];
      assert s[|p| + k + 1..] == after[k + 1..];
    }
  }

  lemma GotsApart(p: seq<byte>, q: seq<byte>)
    ensures Gots(p + q) == Gots(p) + Gots(q)
  {
  }

  lemma DropGots(p: seq<byte>, k: nat, after: seq<Item>)
    requires k <= |p|
    ensures (Gots(p) + after)[k..] == Gots(p[k..]) + after
  {
  }

  class ReadRune {
    var rest: seq<Item>         // what io.ReadFull of one byte will meet
    const fin: Error            // and the error after all that

    const buf: array<byte>      // used only inside Read
    var pending: nat            // number of bytes in pendBuf
    const pendBuf: array<byte>
    var peekRune: int           // if >= 0 the next rune; otherwise the complement of the previous one
    ghost var last: Option<int> // the rune read last, until it is given back
    ghost var stream: seq<Item> // what has not yet been turned into runes

    constructor (input: seq<Item>, fin: Error)
      ensures Valid() && stream == input && this.fin == fin && peekRune == -1 && last == None
      ensures fresh(buf) && fresh(pendBuf)
    {
      rest, this.fin, pending, peekRune, last, stream := input, fin, 0, -1, None, input;
      buf := new byte[UTF_MAX];
      pendBuf := new byte[UTF_MAX];
    }

    /**
     Pending bytes are what an ill-formed sequence left over: all but the last are continuation
     bytes.  A negative peekRune is the complement of the rune read last, or -1 before the first.
     */
    ghost predicate Valid()
      reads this, pendBuf
    {
      && buf.Length == UTF_MAX && pendBuf.Length == UTF_MAX && buf != pendBuf && pending < UTF_MAX
      && (forall i :: 0 <= i < pending - 1 ==> Continues(pendBuf[i])) && stream == Gots(pendBuf[..pending]) + rest
      && -1 - 0x10FFFF <= peekRune <= 0x10FFFF
      && (if peekRune >= 0 then last == None else last == Some(-1 - peekRune) || (last == None && peekRune == -1))
    }

    /** A byte, or the error in its place. */
    static ghost predicate Takes(s: seq<Item>, fin: Error, b: byte, err: Option<Error>, s': seq<Item>) {
      if s == [] then err == Some(fin) && s' == []
      else s == [s[0]] + s' && (match s[0] case Got(x) => err == None && b == x case Failed(e) => err == Some(e))
    }

    method ReadByte() returns (b: byte, err: Option<Error>)
      requires Valid()
      modifies this`rest, this`stream, this`pending, pendBuf
      ensures Valid() && Takes(old(stream), fin, b, err, stream)
      ensures pending == Max(0, old(pending) - 1) && (err != None ==> old(pending) == 0)
      ensures old(pending) > 1 ==> Continues(b)
    {
      if pending > 0 {
        b, err := TakePending();
        return;
      }
      assert stream == rest;
      if rest == [] {
        return 0, Some(fin);
      }
      b, err := 0, None;
      match rest[0] {
        case Failed(e) => err := Some(e);
        case Got(x) => b := x; pendBuf[0] := x;
      }
      rest := rest[1..];
      stream := rest;
    }

    method TakePending() returns (b: byte, err: Option<Error>)
      requires Valid() && pending > 0
      modifies this`pending, this`stream, pendBuf
      ensures Valid() && pending == old(pending) - 1 && err == None && old(stream) == [Got(b)] + stream
      ensures old(pending) > 1 ==> Continues(b)
    {
      b, err := pendBuf[0], None;
      ghost var all, tail := pendBuf[..pending], pendBuf[1..pending];
      GotsCons(all, rest);
      assert all[1..] == tail;
      forall i | 0 <= i < UTF_MAX - 1 {
        pendBuf[i] := pendBuf[i + 1];
      }
      pending := pending - 1;
      assert pendBuf[..pending] == tail;
      stream := Gots(tail) + rest;
    }

    /** What Read does to a stream `s` when no rune was unread. */
    static ghost predicate Reads(s: seq<Item>, fin: Error, rr: int, size: int, err: Option<Error>, s': seq<Item>) {
      var h := Head(s);
      if h != [] && FullRune(h) then err == None && (rr, size) == DecodeRune(h) && s' == s[size..]
      else if h != [] && Stop(s, fin) == EOF then
        err == None && (rr, size) == DecodeRune(h) && s' == Gots(h[size..]) + Tail(s)
      else err == Some(Stop(s, fin)) && s' == Tail(s)
    }

    /** The bytes `p` gathered from `s` are a full rune. */
    static lemma GatheredFull(s: seq<Item>, fin: Error, p: seq<byte>, after: seq<Item>)
      requires s == Gots(p) + after && p != [] && FullRune(p)
      ensures Reads(s, fin, DecodeRune(p).0, DecodeRune(p).1, None, Gots(p[DecodeRune(p).1..]) + after)
    {
      HeadOfGots(p, after);
      FullIsEnough(p, Head(after));
      DropGots(p, DecodeRune(p).1, after);
    }

    /** The bytes `p` gathered from `s` are not, and an error stands after them. */
    static lemma GatheredPart(s: seq<Item>, fin: Error, p: seq<byte>, mid: seq<Item>, b: byte, e: Error, after: seq<Item>)
      requires s == Gots(p) + mid && !FullRune(p) && Takes(mid, fin, b, Some(e), after)
      ensures Head(s) == p && Stop(s, fin) == e && Tail(s) == after
    {
      HeadOfGots(p, mid);
      StopOfGots(p, mid, fin);
      assert Head(mid) == [] && p + [] == p;
      assert mid != [] ==> mid[1..] == after;
    }

    method Read() returns (rr: int, size: int, err: Option<Error>)
      requires Valid()
      modifies this`rest, this`stream, this`pending, this`peekRune, this`last, pendBuf, buf
      ensures Valid()
      ensures old(peekRune) >= 0 ==> rr == old(peekRune) && size == RuneLen(rr) && err == None && stream == old(stream)
      ensures old(peekRune) < 0 ==> Reads(old(stream), fin, rr, size, err, stream)
      ensures if err == None then last == Some(rr) && peekRune == -1 - rr else last == old(last) && peekRune == old(peekRune)
    {
      rr, size, err := 0, 0, None;
      if peekRune >= 0 {
        rr := peekRune;
        size := RuneLen(rr);
      } else {
        rr, size, err := ReadFresh();
        if err != None {
          return;
        }
      }
      peekRune, last := -1 - rr, Some(rr);
    }

    /** Read with no rune to give again. */
    method ReadFresh() returns (rr: int, size: int, err: Option<Error>)
      requires Valid() && peekRune < 0
      modifies this`rest, this`stream, this`pending, pendBuf, buf
      ensures Valid() && Reads(old(stream), fin, rr, size, err, stream) && (err == None ==> 0 <= rr <= 0x10FFFF)
    {
      rr, size, err := 0, 0, None;
      ghost var s := stream;
      var b: byte;
      b, err := ReadByte();
      buf[0] := b;
      if err != None {
        NothingGathered(s, fin, b, err.value, stream);
        return;
      }
      if buf[0] < RUNE_SELF {
        AsciiGathered(s, fin, b, stream);
        return buf[0], 1, None;
      }
      rr, size, err := ReadLong(s, fin);
    }

    /** The rest of a rune that starts beyond ASCII. */
    method ReadLong(ghost s: seq<Item>, ghost e: Error) returns (rr: int, size: int, err: Option<Error>)
      requires Valid() && RUNE_SELF <= buf[0] && (pending > 0 ==> Continues(buf[0])) && s == [Got(buf[0])] + stream && e == fin
      modifies this`rest, this`stream, this`pending, pendBuf, buf
      ensures Valid() && Reads(s, fin, rr, size, err, stream) && (err == None ==> 0 <= rr <= 0x10FFFF)
    {
      rr, size := 0, 0;
      var n;
      n, err := Complete(s, fin);
      if err != None {
        return;
      }
      ghost var p, after := buf[..n], stream;
      rr, size := DecodeRune(buf[..n]).0, DecodeRune(buf[..n]).1;
      Leftover(p);
      assert p[size..] == buf[size..n];
      if size < n {
        Save(size, n);
      } else {
        assert Gots([]) + after == after;
      }
    }

    static lemma NothingGathered(s: seq<Item>, fin: Error, b: byte, e: Error, after: seq<Item>)
      requires Takes(s, fin, b, Some(e), after)
      ensures Reads(s, fin, 0, 0, Some(e), after)
    {
      assert Gots([]) + s == s;
      GatheredPart(s, fin, [], s, b, e, after);
    }

    static lemma AsciiGathered(s: seq<Item>, fin: Error, b: byte, after: seq<Item>)
      requires s == [Got(b)] + after && b < RUNE_SELF
      ensures Reads(s, fin, b, 1, None, after)
    {
      assert Gots([b]) == [Got(b)] && Gots([b][1..]) + after == after;
      GatheredFull(s, fin, [b], after);
    }

    /** The loop of ReadRune: append bytes to buf[0] until they are a full rune or the input ends. */
    method Complete(ghost s: seq<Item>, ghost e: Error) returns (n: nat, err: Option<Error>)
      requires Valid() && RUNE_SELF <= buf[0] && (pending > 0 ==> Continues(buf[0])) && s == [Got(buf[0])] + stream && e == fin
      modifies this`rest, this`stream, this`pending, pendBuf, buf
      ensures Valid() && 1 <= n <= UTF_MAX
      ensures (n > 1 || err != None || !FullRune(buf[..n]) ==> pending == 0) && (n > 1 ==> !FullRune(buf[..n - 1]))
      ensures err == None ==>
                var (rr, size) := DecodeRune(buf[..n]); Reads(s, fin, rr, size, None, Gots(buf[..n][size..]) + stream)
      ensures err != None ==> err != Some(EOF) && Reads(s, fin, 0, 0, err, stream)
    {
      n, err := 1, None;
      assert buf[..1] == [buf[0]] && Gots([buf[0]]) == [Got(buf[0])];
      while !FullRune(buf[..n])
        invariant 1 <= n <= UTF_MAX && Valid() && err == None
        invariant Gots(buf[..n]) + stream == s
        invariant n > 1 ==> !FullRune(buf[..n - 1]) && pending == 0
        invariant n == 1 ==> pending > 0 ==> Continues(buf[0])
        decreases UTF_MAX - n
      {
        NotFullContinues(buf[..n]);
        ghost var p, mid := buf[..n], stream;
        var b: byte;
        b, err := ReadByte();
        if err != None {
          GatheredPart(s, fin, p, mid, b, err.value, stream);
          if err == Some(EOF) {
            err := None;
          }
          return;
        }
        buf[n] := b;
        Append(p, b, mid, stream);
        assert buf[..n + 1] == p + [b];
        n := n + 1;
      }
      GatheredFull(s, fin, buf[..n], stream);
    }

    /** Save the bytes buf[size..n] of an ill-formed sequence for the next read. */
    method Save(size: nat, n: nat)
      requires Valid() && pending == 0 && 1 <= size < n <= UTF_MAX
      requires forall i :: size <= i < n - 1 ==> Continues(buf[i])
      modifies this`pending, this`stream, pendBuf
      ensures Valid() && stream == Gots(buf[size..n]) + old(stream)
    {
      assert stream == rest;
      forall i | 0 <= i < n - size {
        pendBuf[i] := buf[size + i];
      }
      pending := n - size;
      assert pendBuf[..pending] == buf[size..n];
      stream := Gots(buf[size..n]) + stream;
    }

    /**
     UnreadRune; false stands for the error it returns when there is no rune to give back.  The
     rune that the next Read returns is one really read exactly when `last` holds one.
     */
    method Unread() returns (ok: bool)
      requires Valid()
      modifies this`peekRune, this`last
      ensures Valid() && stream == old(stream) && ok == (old(peekRune) < 0)
      ensures ok ==> peekRune >= 0 && last == None
      ensures ok ==> (old(last) == Some(peekRune) <==> old(last).Some?)
      ensures ok && old(last) == None ==> peekRune == 0
      ensures !ok ==> peekRune == old(peekRune) && last == old(last) == None
    {
      if peekRune >= 0 {
        return false;
      }
      peekRune, last := -1 - peekRune, None;
      return true;
    }

    /** A rune read, unread and read again is the same, and the stream is consumed once. */
    method ReadAgain() returns (rr: int, again: int, ghost size: int, err: Option<Error>)
      requires Valid() && peekRune < 0
      modifies this`rest, this`stream, this`pending, this`peekRune, this`last, pendBuf, buf
      ensures Valid() && Reads(old(stream), fin, rr, size, err, stream)
      ensures err == None ==> rr == again && last == Some(rr) && peekRune == -1 - rr
    {
      var n;
      rr, n, err := Read();
      again, size := rr, n;
      if err != None {
        return;
      }
      var ok := Unread();
      var e;
      again, n, e := Read();
    }

    /**
     Reading on until an error yields the rune-by-rune decoding of the bytes, ill-formed ones
     included; an error other than EOF in the middle of the last rune loses that rune.
     */
    method ReadAll(ghost input: seq<byte>) returns (runes: seq<int>)
      requires Valid() && peekRune < 0 && stream == Gots(input)
      modifies this`rest, this`stream, this`pending, this`peekRune, this`last, pendBuf, buf
      ensures Valid() && stream == [] && runes == ReadOut(input, fin == EOF)
    {
      runes := [];
      ghost var p := input;
      while true
        invariant Valid() && peekRune < 0 && stream == Gots(p)
        invariant runes + ReadOut(p, fin == EOF) == ReadOut(input, fin == EOF)
        decreases |p|
      {
        var rr, size, err := Read();
        PlainRead(p, fin, rr, size, err, stream);
        if err != None {
          return;
        }
        ReadOutStep(p, fin == EOF, rr, size);
        Regroup(runes, [rr], ReadOut(p[size..], fin == EOF));
        runes, p := runes + [rr], p[size..];
      }
    }
  }

  lemma Append(p: seq<byte>, b: byte, mid: seq<Item>, after: seq<Item>)
    requires mid == [Got(b)] + after
    ensures Gots(p) + mid == Gots(p + [b]) + after
  {
    GotsApart(p, [b]);
    assert Gots([b]) == [Got(b)];
  }

  /** What Read does when nothing but bytes is in store. */
  lemma PlainRead(p: seq<byte>, fin: Error, rr: int, size: int, err: Option<Error>, s: seq<Item>)
    requires ReadRune.Reads(Gots(p), fin, rr, size, err, s)
    ensures err == None <==> p != [] && (FullRune(p) || fin == EOF)
    ensures if err == None then (rr, size) == DecodeRune(p) && s == Gots(p[size..]) else s == []
  {
    PlainBytes(p, fin);
    if err == None {
      GotsLeft(p, DecodeRune(p).1);
      NothingMore(Gots(p[DecodeRune(p).1..]));
    }
  }

  lemma NothingMore(s: seq<Item>)
    ensures s + [] == s
  {
  }

  lemma ReadOutStep(p: seq<byte>, eof: bool, rr: int, size: int)
    requires p != [] && (FullRune(p) || eof) && (rr, size) == DecodeRune(p)
    ensures 0 < size <= |p| && ReadOut(p, eof) == [rr] + ReadOut(p[size..], eof)
  {
  }

  lemma GotsLeft(p: seq<byte>, k: nat)
    requires k <= |p|
    ensures Gots(p)[k..] == Gots(p[k..])
  {
  }

  lemma PlainBytes(p: seq<byte>, fin: Error)
    ensures Head(Gots(p)) == p && Stop(Gots(p), fin) == fin && Tail(Gots(p)) == []
  {
    HeadOfGots(p, []);
    assert Gots(p) + [] == Gots(p) && p + Head([]) == p;
  }

  /** The runes of `p`; unless it ends in EOF, without an unfinished last one. */
  function ReadOut(p: seq<byte>, eof: bool): seq<rune>
    decreases |p|
  {
    if p == [] || (!eof && !FullRune(p)) then []
    else [DecodeRune(p).0] + ReadOut(p[DecodeRune(p).1..], eof)
  }

  /** At EOF nothing is missing. */
  lemma {:induction false} ReadOutAll(p: seq<byte>)
    ensures ReadOut(p, true) == DecodeAll(p)
    decreases |p|
  {
    if p != [] { ReadOutAll(p[DecodeRune(p).1..]); }
  }

  /** Where the unfinished last rune starts; the length of `p` when there is none. */
  function Unfinished(p: seq<byte>): (k: nat)
    ensures k <= |p| && (k < |p| ==> !FullRune(p[k..]))
    decreases |p|
  {
    if p == [] || !FullRune(p) then 0
    else
      var n := DecodeRune(p).1;
      assert p[n..][Unfinished(p[n..])..] == p[n + Unfinished(p[n..])..];
      n + Unfinished(p[n..])
  }

  /** Before another error only an unfinished last rune is: the rest decodes as it would alone. */
  lemma {:induction false} ReadOutPart(p: seq<byte>)
    ensures ReadOut(p, false) == DecodeAll(p[..Unfinished(p)])
    decreases |p|
  {
    if p != [] && FullRune(p) {
      var n := DecodeRune(p).1;
      var q := p[..Unfinished(p)];
      ReadOutPart(p[n..]);
      CutAfterRune(p, Unfinished(p));
      assert q[n..] == p[n..][..Unfinished(p[n..])];
    }
  }

  /** UnreadRune before any ReadRune succeeds, and the next ReadRune returns a rune that was never read. */
  method UnreadFirst(input: seq<Item>, fin: Error) returns (r: ReadRune, ok: bool, rr: int, err: Option<Error>)
    ensures fresh(r) && r.Valid() && ok && rr == 0 && err == None && r.stream == input
  {
    r := new ReadRune(input, fin);
    ok := r.Unread();
    var size;
    rr, size, err := r.Read();
  }

  /** An error in the middle of a rune: the byte before it is lost, and reading goes on after it. */
  lemma ByteIsLost(rr: int, size: int, err: Option<Error>, s: seq<Item>)
    requires ReadRune.Reads([Got(0xE2), Failed(Other(1)), Got(0x82)], EOF, rr, size, err, s)
    ensures err == Some(Other(1)) && s == [Got(0x82)]
  {
    HeadOfGots([0xE2], [Failed(Other(1)), Got(0x82)]);
    assert Gots([0xE2]) + [Failed(Other(1)), Got(0x82)] == [Got(0xE2), Failed(Other(1)), Got(0x82)];
    assert Head([Failed(Other(1)), Got(0x82)]) == [];
  }

  /** What decoding leaves of the bytes gathered for one rune: continuation bytes, except perhaps the last. */
  lemma Leftover(p: seq<byte>)
    requires 1 <= |p| <= UTF_MAX && (|p| > 1 ==> !FullRune(p[..|p| - 1]))
    ensures 1 <= DecodeRune(p).1 <= |p|
    ensures DecodeRune(p).1 < |p| ==> DecodeRune(p).1 == 1
    ensures forall i :: 1 <= i < |p| - 1 ==> Continues(p[i])
  {
    if |p| > 1 {
      NotFullContinues(p[..|p| - 1]);
    }
  }
}
