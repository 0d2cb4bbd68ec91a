/** bufio.Scanner with ScanLines: the tokens depend on the input bytes only, not on how they arrive. */
module Scanner {
  import opened Prelude
  import opened Source

  const MAX_INT := 0x7FFF_FFFF_FFFF_FFFF
  const START_BUF_SIZE := 4096
  const NEWLINE: byte := 10
  const CR: byte := 13

  /**
   The reader of a Scanner: the bytes of `rest` in chunks of its own choosing, never more
   than 100 empty reads in a row, then the error `fin`, perhaps along with the last bytes.
   */
  class Feed {
    var rest: seq<byte>
    var idle: nat
    const fin: Error

    constructor (input: seq<byte>, fin: Error)
      ensures rest == input && this.fin == fin && idle == 0
    {
      rest, idle, this.fin := input, 0, fin;
    }

    method Read(p: array<byte>, lo: nat, hi: nat) returns (n: nat, err: Option<Error>)
      requires lo < hi <= p.Length && idle <= MAX_EMPTY_READS
      modifies this, p
      ensures n <= hi - lo && n <= |old(rest)| && rest == old(rest)[n..] && idle <= MAX_EMPTY_READS
      ensures p[lo..lo + n] == old(rest)[..n]
      ensures forall i :: 0 <= i < p.Length && !(lo <= i < hi) ==> p[i] == old(p[i])
      ensures err != None ==> err == Some(fin) && rest == []
      ensures n == 0 && err == None ==> idle == old(idle) + 1
    {
      n :| 0 <= n <= hi - lo && n <= |rest|;
      var wait: bool := *;
      if n == 0 && rest != [] && (!wait || idle == MAX_EMPTY_READS) {
        n := 1;
      }
      forall i | lo <= i < lo + n {
        p[i] := rest[i - lo];
      }
      assert p[lo..lo + n] == rest[..n];
      rest := rest[n..];
      err := if rest == [] && (wait || (n == 0 && idle == MAX_EMPTY_READS)) then Some(fin) else None;
      idle := if n == 0 && err == None then idle + 1 else 0;
    }
  }

  // ------------------------------------------------------------ what lines are

  /** How many bytes the first line of `s` has, its newline included. */
  function LineLen(s: seq<byte>): (k: nat)
    ensures k <= |s| && (s != [] ==> k > 0)
    ensures forall i :: 0 <= i < k - 1 ==> s[i] != NEWLINE
    ensures k < |s| ==> s[k - 1] == NEWLINE
  {
    if s == [] then 0 else if s[0] == NEWLINE then 1 else 1 + LineLen(s[1..])
  }

  function DropCR(s: seq<byte>): seq<byte> {
    if s != [] && s[|s| - 1] == CR then s[..|s| - 1] else s
  }

  predicate Terminated(line: seq<byte>) {
    line != [] && line[|line| - 1] == NEWLINE
  }

  /** A line without its end-of-line marker. */
  function Text(line: seq<byte>): seq<byte> {
    DropCR(if Terminated(line) then line[..|line| - 1] else line)
  }

  /** The input cut after every newline. */
  function Cut(s: seq<byte>): seq<seq<byte>> {
    if s == [] then [] else [s[..LineLen(s)]] + Cut(s[LineLen(s)..])
  }

  function Lines(s: seq<byte>): seq<seq<byte>> {
    if s == [] then [] else [Text(s[..LineLen(s)])] + Lines(s[LineLen(s)..])
  }

  function Flatten(parts: seq<seq<byte>>): seq<byte> {
    if parts == [] then [] else parts[0] + Flatten(parts[1..])
  }

  /** A piece of a cut: it holds no newline except at its end, where all but the last must have one. */
  ghost predicate PieceOk(piece: seq<byte>, last: bool) {
    && piece != [] && (!last ==> Terminated(piece))
    && (forall j :: 0 <= j < |piece| - 1 ==> piece[j] != NEWLINE)
  }

  lemma CutFirst(s: seq<byte>)
    requires s != []
    ensures var k := LineLen(s);
            && Cut(s) == [s[..k]] + Cut(s[k..]) && Lines(s) == [Text(s[..k])] + Lines(s[k..])
            && PieceOk(s[..k], Cut(s[k..]) == [])
  {
    assert LineLen(s) == |s| ==> Cut(s[LineLen(s)..]) == [];
  }

  /** Cutting loses nothing, its pieces are lines, and Lines is their text, one for one. */
  lemma {:induction false} CutIsFaithful(s: seq<byte>)
    ensures Flatten(Cut(s)) == s && |Lines(s)| == |Cut(s)|
    ensures forall i :: 0 <= i < |Cut(s)| ==> PieceOk(Cut(s)[i], i == |Cut(s)| - 1) && Lines(s)[i] == Text(Cut(s)[i])
  {
    if s != [] {
      var k := LineLen(s);
      var tail := s[k..];
      CutIsFaithful(tail);
      TakeOff(s, k);
      CutFirst(s);
      forall i | 0 <= i < |Cut(s)| ensures PieceOk(Cut(s)[i], i == |Cut(s)| - 1) && Lines(s)[i] == Text(Cut(s)[i]) {
        if i > 0 {
          assert Cut(s)[i] == Cut(tail)[i - 1] && Lines(s)[i] == Lines(tail)[i - 1];
        }
      }
    }
  }

  /** A line that ends within `p` is the same whatever follows. */
  lemma {:induction false} LineWithin(p: seq<byte>, tail: seq<byte>)
    requires NEWLINE in p
    ensures LineLen(p + tail) == LineLen(p) && Terminated(p[..LineLen(p)])
  {
    if p[0] != NEWLINE {
      assert (p + tail)[1..] == p[1..] + tail;
      LineWithin(p[1..], tail);
      assert p[..LineLen(p)] == [p[0]] + p[1..][..LineLen(p[1..])];
    }
  }

  /** A line that does not end within `p` is at least as long as `p`, and longer when more bytes follow. */
  lemma {:induction false} LineBeyond(p: seq<byte>, tail: seq<byte>)
    requires NEWLINE !in p
    ensures LineLen(p + tail) == |p| + LineLen(tail)
  {
    if p == [] {
      assert p + tail == tail;
    } else {
      assert (p + tail)[1..] == p[1..] + tail;
      LineBeyond(p[1..], tail);
    }
  }

  // -------------------------------------------------------------- ScanLines

  /** The split function; None is a nil token. */
  function ScanLines(data: seq<byte>, atEOF: bool): (r: (nat, Option<seq<byte>>))
    ensures r.0 <= |data|
    ensures r.1.Some? ==> r.0 > 0 && r.0 == LineLen(data) && r.1 == Some(Text(data[..r.0]))
    ensures r.1 == None ==> r.0 == 0 && NEWLINE !in data && (atEOF ==> data == [])
    ensures r.1.Some? ==> NEWLINE in data || atEOF
  {
    if atEOF && data == [] then (0, None)
    else if NEWLINE in data then
      LineWithin(data, []);
      assert data + [] == data;
      var i := LineLen(data) - 1;
      assert data[..i + 1][..i] == data[..i];
      (i + 1, Some(DropCR(data[..i])))
    else if atEOF then
      LineBeyond(data, []);
      assert data + [] == data && data[..|data|] == data;
      (|data|, Some(DropCR(data)))
    else (0, None)
  }

  // -------------------------------------------------------------- the buffer

  /** The size of the next buffer. */
  function Grow(len: nat, max: int): int {
    var n := if len == 0 then START_BUF_SIZE else 2 * len;
    if n > max then max else n
  }

  /** The size at which the buffer stops growing. */
  function Cap(len: nat, max: int): (c: nat)
    ensures c >= len
    decreases max - len
  {
    if len >= max || len > MAX_INT / 2 then len else Cap(Grow(len, max), max)
  }

  /**
   That is the configured maximum, or the initial size when it is larger; a maximum beyond
   half the range of an int may not be reached, since doubling stops there.
   */
  lemma {:induction false} CapIsMax(len: nat, max: int)
    ensures max <= MAX_INT / 2 ==> Cap(len, max) == Max(len, max)
    ensures max > MAX_INT / 2 ==> MAX_INT / 2 < Cap(len, max) <= Max(len, max)
    decreases max - len
  {
    if len < max && len <= MAX_INT / 2 { CapIsMax(Grow(len, max), max); }
  }

  /** The line cannot be scanned with a buffer of `cap` bytes: it does not fit, or fills it without a newline. */
  predicate TooLong(line: seq<byte>, cap: nat) {
    |line| > cap || (|line| == cap && !Terminated(line))
  }

  class Scanner {
    const rd: Feed
    var buf: array<byte>
    var maxTokenSize: int
    var start: nat
    var end: nat
    var err: Option<Error>
    var empties: nat
    var token: Option<seq<byte>>
    ghost var stream: seq<byte>     // the bytes not yet returned in tokens

    /** NewScanner, with the buffer and maximum that Scanner.Buffer may have set. */
    constructor (src: Feed, initial: array<byte>, max: int)
      requires src.idle <= MAX_EMPTY_READS
      ensures Valid() && rd == src && buf == initial && maxTokenSize == max && stream == src.rest && err == None
    {
      rd, buf, maxTokenSize, start, end, err, empties, token := src, initial, max, 0, 0, None, 0, None;
      stream := src.rest;
    }

    /** No Scan has failed yet. */
    ghost predicate Valid()
      reads this, buf, rd
    {
      && start <= end <= buf.Length && rd.idle <= MAX_EMPTY_READS
      && stream == buf[start..end] + rd.rest
      && (err != None ==> err == Some(rd.fin) && rd.rest == [])
    }

    ghost function Limit(): nat
      reads this
      ensures maxTokenSize <= MAX_INT / 2 ==> Limit() == Max(buf.Length, maxTokenSize)
    {
      CapIsMax(buf.Length, maxTokenSize);
      Cap(buf.Length, maxTokenSize)
    }

    /** Shift data to the beginning of the buffer if there is lots of empty space or space is needed. */
    method Shift()
      requires Valid()
      modifies this`start, this`end, buf
      ensures Valid() && (end == buf.Length ==> start == 0) && end - start == old(end - start)
      ensures buf[start..end] == old(buf[start..end])
    {
      if start > 0 && (end == buf.Length || start > buf.Length / 2) {
        ghost var live := buf[start..end];
        var d, k := start, end - start;
        forall i | 0 <= i < k {
          buf[i] := buf[d + i];
        }
        assert buf[..k] == live;
        start, end := 0, k;
      }
    }

    /** Make room for at least one byte; false when the buffer may not grow any more. */
    method MakeRoom() returns (ok: bool)
      requires Valid() && (end == buf.Length ==> start == 0)
      modifies this`start, this`end, this`buf
      ensures Valid() && Limit() == old(Limit()) && (buf == old(buf) || fresh(buf))
      ensures buf[start..end] == old(buf[start..end])
      ensures ok ==> end < buf.Length
      ensures !ok ==> end - start == Limit()
    {
      if end == buf.Length {
        if buf.Length >= maxTokenSize || buf.Length > MAX_INT / 2 {
          return false;
        }
        var newSize := Grow(buf.Length, maxTokenSize);
        var newBuf := new byte[newSize];
        forall i | 0 <= i < end - start {
          newBuf[i] := buf[start + i];
        }
        assert newBuf[..end - start] == buf[start..end];
        buf, end, start := newBuf, end - start, 0;
      }
      return true;
    }

    /** Read until there is data or an error. */
    method ReadMore()
      requires Valid() && end < buf.Length && err == None
      modifies this`end, this`err, this`empties, buf, rd
      ensures Valid()
      ensures |rd.rest| < |old(rd.rest)| || (|rd.rest| == |old(rd.rest)| && err != None)
    {
      var loop := 0;
      ghost var live := buf[start..end];
      while true
        invariant Valid() && err == None && end == old(end) && rd.rest == old(rd.rest) && buf[start..end] == live
        invariant loop <= rd.idle <= MAX_EMPTY_READS
        decreases MAX_EMPTY_READS - loop
      {
        ghost var ahead := rd.rest;
        var n, e := rd.Read(buf, end, buf.Length);
        assert buf[start..end] == live;
        assert buf[start..end + n] == live + ahead[..n] && ahead == ahead[..n] + ahead[n..];
        end := end + n;
        if e != None {
          err := e;
          return;
        }
        if n > 0 {
          empties := 0;
          return;
        }
        loop := loop + 1;
        assert loop <= MAX_EMPTY_READS;
      }
    }

    /** Consume n bytes of the buffer. */
    method Advance(n: nat)
      requires Valid() && n <= end - start
      modifies this`start, this`stream
      ensures Valid() && start == old(start) + n && stream == old(stream)[n..]
    {
      assert buf[start + n..end] == buf[start..end][n..];
      start, stream := start + n, stream[n..];
    }

    /** Offer the buffered data to the split function; true when that yields a token. */
    method TrySplit() returns (ok: bool)
      requires Valid()
      modifies this`start, this`token, this`empties, this`stream
      ensures Valid()
      ensures ok ==> IsFirst(old(stream), old(end - start))
      ensures !ok ==> start == old(start) && stream == old(stream) && NEWLINE !in buf[start..end] && (err != None ==> stream == [])
    {
      if end > start || err != None {
        var data := buf[start..end];
        var (advance, tok) := ScanLines(data, err != None);
        Advance(advance);
        token := tok;
        if token != None {
          Buffered(data, rd.rest, err != None);
          // A token always advances, so the count of empty tokens stays at zero.
          if err == None || advance > 0 {
            empties := 0;
          } else {
            assert false;
          }
          return true;
        }
      }
      return false;
    }

    /** The token is the first line of `s`, which has at most `room` bytes, and the rest of `s` is left. */
    ghost predicate IsFirst(s: seq<byte>, room: int)
      reads this
    {
      && s != [] && LineLen(s) <= room
      && token == Some(Text(s[..LineLen(s)])) && stream == s[LineLen(s)..]
      && (!Terminated(s[..LineLen(s)]) ==> stream == [])
    }

    static lemma Buffered(data: seq<byte>, tail: seq<byte>, atEOF: bool)
      requires data != [] && (NEWLINE in data || (atEOF && tail == []))
      ensures LineLen(data + tail) == LineLen(data)
      ensures (data + tail)[..LineLen(data)] == data[..LineLen(data)] && (data + tail)[LineLen(data)..] == data[LineLen(data)..] + tail
      ensures !Terminated(data[..LineLen(data)]) ==> tail == [] && LineLen(data) == |data|
    {
      if NEWLINE in data {
        LineWithin(data, tail);
      } else {
        assert data + tail == data;
      }
    }

    /**
     Scan returns the first line of what is left, which then has at most `Limit()` bytes; it
     fails at the end of the input, and with ErrTooLong only on a line that fills the buffer.
     Only an unterminated line of exactly that many bytes may do either: it is returned when
     the error comes with its last bytes, and is too long when the error comes later.
     */
    method Scan() returns (ok: bool)
      requires Valid()
      modifies this, buf, rd
      ensures ok ==> Valid() && IsFirst(old(stream), old(Limit())) && Limit() == old(Limit())
      ensures !ok && old(stream) == [] && old(Limit()) > 0 ==> err == Some(rd.fin)
      ensures !ok && old(stream) != [] ==> err == Some(ErrTooLong) && TooLong(old(stream)[..LineLen(old(stream))], old(Limit()))
      ensures buf == old(buf) || fresh(buf)
    {
      while true
        invariant Valid() && stream == old(stream) && Limit() == old(Limit()) && (buf == old(buf) || fresh(buf))
        decreases |rd.rest|, err == None
      {
        ok := TrySplit();
        if ok {
          return true;
        }
        if err != None {
          start, end := 0, 0;
          return false;
        }
        Shift();
        var room := MakeRoom();
        if !room {
          LineBeyond(buf[start..end], rd.rest);
          err := Some(ErrTooLong);
          return false;
        }
        ReadMore();
      }
    }

    /**
     Scanning to the first failure: for every input and every way of delivering it the
     tokens are the lines, all of them unless a line is too long for the buffer.
     */
    method ScanAll() returns (tokens: seq<seq<byte>>)
      requires Valid()
      modifies this, buf, rd
      ensures tokens <= Lines(old(stream))
      ensures AllFit(old(stream), old(Limit())) ==> tokens == Lines(old(stream)) && (old(Limit()) > 0 ==> err == Some(rd.fin))
    {
      tokens := [];
      ghost var all, limit := stream, Limit();
      while true
        invariant Valid() && Limit() == limit && (buf == old(buf) || fresh(buf))
        invariant tokens + Lines(stream) == Lines(all)
        invariant AllFit(all, limit) ==> AllFit(stream, limit)
        decreases |stream|
      {
        ghost var s := stream;
        var ok := Scan();
        if !ok {
          assert AllFit(s, limit) ==> s == [];
          return;
        }
        Peel(tokens, s, limit);
        tokens := tokens + [token.value];
      }
    }
  }

  lemma Peel(tokens: seq<seq<byte>>, s: seq<byte>, cap: nat)
    requires s != []
    ensures tokens + Lines(s) == (tokens + [Text(s[..LineLen(s)])]) + Lines(s[LineLen(s)..])
    ensures AllFit(s, cap) ==> AllFit(s[LineLen(s)..], cap)
  {
  }

  /** Every line of `s` can be scanned with a buffer of `cap` bytes. */
  predicate AllFit(s: seq<byte>, cap: nat) {
    s == [] || (!TooLong(s[..LineLen(s)], cap) && AllFit(s[LineLen(s)..], cap))
  }

  lemma {:induction false} AllFitCut(s: seq<byte>, cap: nat)
    ensures AllFit(s, cap) <==> (forall i :: 0 <= i < |Cut(s)| ==> !TooLong(Cut(s)[i], cap))
  {
    if s != [] {
      var k := LineLen(s);
      AllFitCut(s[k..], cap);
      assert Cut(s) == [s[..k]] + Cut(s[k..]);
      assert Cut(s)[0] == s[..k];
      assert forall i :: 0 <= i < |Cut(s[k..])| ==> Cut(s)[i + 1] == Cut(s[k..])[i];
    }
  }
}
