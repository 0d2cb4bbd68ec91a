/** bufio.Reader: buffered reads that must agree with the plain byte stream. */
module Reader {
  import opened Prelude
  import opened Source
  import opened Utf8

  class Reader {
    const buf: array<byte>
    const rd: Source
    var r: nat
    var w: nat
    var err: Option<Error>
    var lastByte: int
    var lastRuneSize: int
    ghost var handed: seq<byte>     // every byte given to the caller and not taken back
    ghost var stream: seq<byte>     // what the caller will be given from now on

    constructor (src: Source, size: nat)
      ensures Valid() && rd == src && fresh(buf)
      ensures stream == src.rest && handed == []
      ensures r == w == 0 && err == None && lastByte == -1 && lastRuneSize == -1
    {
      rd, r, w, err, lastByte, lastRuneSize := src, 0, 0, None, -1, -1;
      handed, stream := [], src.rest;
      buf := new byte[Max(size, 16)];
    }

    ghost predicate Valid()
      reads this, buf, rd
    {
      Sound() && RuneOk()
    }

    /** The buffer and the underlying reader make up the stream. */
    ghost predicate Sound()
      reads this, buf, rd
    {
      && r <= w <= buf.Length && 16 <= buf.Length
      && -1 <= lastByte < 256
      && (err == Some(EOF) ==> rd.rest == [])
      && (err.Some? ==> OwnError(err.value) || err == Some(ErrNoProgress))
      && stream == buf[r..w] + rd.rest
    }

    /** What UnreadRune would take back, as far as it is in the buffer, was handed out last. */
    ghost predicate RuneOk()
      reads this, buf
    {
      lastRuneSize == -1 || (0 < lastRuneSize && Shown(Min(r, lastRuneSize)))
    }

    /** The `k` bytes before the read position are the last that were handed out. */
    ghost predicate Shown(k: int)
      reads this, buf
    {
      && 0 <= k <= r <= buf.Length && k <= |handed|
      && (forall i :: r - k <= i < r ==> buf[i] == handed[|handed| - r + i])
    }

    /** UnreadByte would give back the byte that was handed out last. */
    ghost predicate Fresh()
      reads this
    {
      lastByte >= 0 && handed != [] && handed[|handed| - 1] == lastByte
    }

    /** Between old and new state exactly `out` went from the stream to the caller. */
    twostate predicate Took(out: seq<byte>)
      reads this
    {
      old(stream) == out + stream && handed == old(handed) + out
    }

    /** Slide existing data to the beginning. */
    method Slide()
      requires Sound()
      modifies this`r, this`w, buf
      ensures Sound() && r == 0 && w == old(w) - old(r) && buf[..w] == old(buf[r..w])
    {
      if r > 0 {
        ghost var live := buf[r..w];
        var d, k := r, w - r;
        forall i | 0 <= i < k {
          buf[i] := buf[d + i];
        }
        assert buf[..k] == live;
        w, r := k, 0;
      }
    }

    /** One Read of the underlying reader at the end of the buffer. */
    method Pull() returns (n: nat, e: Option<Error>)
      requires Sound() && r == 0
      modifies this`w, buf, rd
      ensures Sound() && w == old(w) + n && rd.calls == old(rd.calls) + 1
      ensures e.Some? ==> OwnError(e.value)
      ensures e == Some(EOF) ==> rd.rest == []
    {
      ghost var live, ahead := buf[..w], rd.rest;
      n, e := rd.Read(buf, w, buf.Length);
      assert buf[..w] == live;
      assert buf[..w + n] == live + ahead[..n];
      w := w + n;
      assert ahead == ahead[..n] + ahead[n..];
    }

    method Fill()
      requires Sound() && w - r < buf.Length
      modifies this`r, this`w, this`err, buf, rd
      ensures Sound() && r == 0
      ensures w >= old(w) - old(r) && (err == None ==> w > old(w) - old(r))
      ensures w > old(w) - old(r) || err.Some?
      ensures rd.calls <= old(rd.calls) + MAX_EMPTY_READS
      ensures err == Some(ErrNoProgress) && old(err) != err ==>
                rd.calls == old(rd.calls) + MAX_EMPTY_READS && w == old(w) - old(r)
    {
      Slide();
      var k := w;
      var i := MAX_EMPTY_READS;
      while i > 0
        invariant 0 <= i <= MAX_EMPTY_READS && rd.calls == old(rd.calls) + MAX_EMPTY_READS - i
        invariant Sound() && r == 0 && w == k && err == old(err)
      {
        var n, e := Pull();
        if e != None {
          err := e;
          return;
        }
        if n > 0 {
          return;
        }
        i := i - 1;
      }
      err := Some(ErrNoProgress);
    }

    method ReadErr() returns (e: Option<Error>)
      requires Sound()
      modifies this`err
      ensures Sound() && e == old(err) && err == None
    {
      e := err;
      err := None;
    }

    method Peek(n: int) returns (p: seq<byte>, e: Option<Error>)
      requires Valid()
      modifies this, buf, rd
      ensures Valid() && Took([])
      ensures p <= stream
      ensures n < 0 ==> p == [] && e == Some(ErrNegativeCount)
      ensures 0 <= n <= buf.Length ==> (e == None <==> |p| == n) && |p| <= n
      ensures n > buf.Length ==> e == Some(ErrBufferFull)
      ensures n >= 0 ==> lastByte == -1 && lastRuneSize == -1
    {
      if n < 0 {
        return [], Some(ErrNegativeCount);
      }
      lastByte, lastRuneSize := -1, -1;
      FillTo(n);
      if n > buf.Length {
        return buf[r..w], Some(ErrBufferFull);
      }
      var k := n;
      e := None;
      if w - r < n {
        k := w - r;
        e := ReadErr();
        if e == None {
          e := Some(ErrBufferFull);
        }
      }
      return buf[r..r + k], e;
    }

    /** Fill until n bytes are buffered, the buffer is full, or there is an error. */
    method FillTo(n: nat)
      requires Sound()
      modifies this`r, this`w, this`err, buf, rd
      ensures Sound() && (w - r >= n || w - r >= buf.Length || err != None)
    {
      while w - r < n && w - r < buf.Length && err == None
        invariant Sound()
        decreases buf.Length - (w - r), err == None
      {
        Fill();
      }
    }

    /** The next k buffered bytes go to the caller. */
    method Advance(k: nat)
      requires Sound() && r + k <= w
      modifies this`r, this`handed, this`stream
      ensures Sound() && r == old(r) + k && Took(buf[old(r)..r]) && (old(RuneOk()) ==> RuneOk())
    {
      ghost var piece := buf[r..r + k];
      assert buf[r..w] == piece + buf[r + k..w];
      TakeAway(piece, buf[r + k..w], rd.rest);
      handed, stream := handed + piece, stream[k..];
      r := r + k;
    }

    /** One round of Discard. */
    method SkipSome(remain: nat) returns (skip: nat, ghost out: seq<byte>)
      requires Sound() && remain > 0
      modifies this`r, this`w, this`err, this`handed, this`stream, buf, rd
      ensures Sound() && skip == |out| <= remain && Took(out) && (skip > 0 || err != None) && (old(RuneOk()) ==> RuneOk())
      ensures skip > 0 ==> r > 0
      ensures old(w - r) > 0 ==>
                && skip == Min(old(w - r), remain) && r == old(r) + skip
                && w == old(w) && err == old(err) && rd.calls == old(rd.calls) && unchanged(buf)
      ensures old(w - r) == 0 ==> r == skip
      ensures r == w || skip == remain
    {
      if w - r == 0 {
        Fill();
      }
      skip := Min(w - r, remain);
      out := buf[r..r + skip];
      Advance(skip);
    }

    method Discard(n: int) returns (discarded: nat, e: Option<Error>)
      requires Valid()
      modifies this`r, this`w, this`err, this`handed, this`stream, buf, rd
      ensures Valid() && discarded <= Max(n, 0) && discarded <= |old(stream)|
      ensures Took(old(stream)[..discarded])
      ensures n < 0 ==> e == Some(ErrNegativeCount)
      ensures n >= 0 ==> (e == None <==> discarded == n)
      ensures 0 < n && e == None ==> r > 0
      ensures 0 <= n <= old(w - r) ==>
                e == None && r == old(r) + n && w == old(w) && err == old(err) && rd.calls == old(rd.calls) && unchanged(buf)
      ensures n > old(w - r) && e == None ==> r <= n - old(w - r)
    {
      if n < 0 {
        return 0, Some(ErrNegativeCount);
      }
      if n == 0 {
        return 0, None;
      }
      var remain := SkipAll(n);
      if remain == 0 {
        return n, None;
      }
      e := ReadErr();
      return n - remain, e;
    }

    /** The rounds of Discard; `remain` bytes are left to skip when an error ends them early. */
    method SkipAll(n: nat) returns (remain: nat)
      requires Valid() && n > 0
      modifies this`r, this`w, this`err, this`handed, this`stream, buf, rd
      ensures Valid() && remain <= n && n - remain <= |old(stream)| && Took(old(stream)[..n - remain])
      ensures remain > 0 ==> err != None
      ensures remain == 0 ==> r > 0
      ensures n <= old(w - r) ==>
                remain == 0 && r == old(r) + n && w == old(w) && err == old(err) && rd.calls == old(rd.calls) && unchanged(buf)
      ensures n > old(w - r) && remain == 0 ==> r <= n - old(w - r)
    {
      remain := n;
      ghost var all, done: nat := stream, 0;
      assert Moved(all, handed, 0, stream, handed);
      while true
        invariant Valid() && 0 < remain == n - done && Moved(all, old(handed), done, stream, handed)
        invariant remain == n ==>
                    r == old(r) && w == old(w) && err == old(err) && rd.calls == old(rd.calls) && unchanged(buf)
        invariant remain < n ==> r == w && remain <= n - old(w - r)
        decreases remain
      {
        var skip;
        ghost var piece;
        skip, piece := SkipSome(remain);
        MovedOn(all, old(handed), done, piece, stream);
        remain, done := remain - skip, done + skip;
        if remain == 0 || err != None {
          TakeOff(all, done);
          return;
        }
      }
    }

    method Read(p: array<byte>) returns (n: nat, e: Option<Error>)
      requires Valid() && p != buf
      modifies this, buf, rd, p
      ensures Valid() && n <= p.Length && Took(p[..n])
      ensures n > 0 ==> Fresh() && lastRuneSize == -1 && CanUnreadByte()
      ensures e == Some(EOF) ==> stream == []
    {
      n := p.Length;
      if n == 0 {
        if w - r > 0 {
          return 0, None;
        }
        e := ReadErr();
        return 0, e;
      }
      if r == w {
        if err != None {
          e := ReadErr();
          return 0, e;
        }
        if p.Length >= buf.Length {
          n, e := ReadDirect(p);
          return;
        }
        n := PullOnce();
        if n == 0 {
          e := ReadErr();
          return 0, e;
        }
      }
      n := CopyOut(p);
      return n, None;
    }

    /** The one Read that Read allows itself into an empty buffer. */
    method PullOnce() returns (n: nat)
      requires Sound() && r == w
      modifies this`r, this`w, this`err, buf, rd
      ensures Sound() && r == 0 && w == n
    {
      r, w := 0, 0;
      n, err := Pull();
    }

    /** Copy as much as fits from the buffer to `p`. */
    method CopyOut(p: array<byte>) returns (n: nat)
      requires Sound() && p != buf && r < w && p.Length > 0
      modifies this, p
      ensures Sound() && 0 < n <= p.Length && Took(p[..n]) && Fresh() && lastRuneSize == -1 && CanUnreadByte()
    {
      n := Min(p.Length, w - r);
      forall i | 0 <= i < n {
        p[i] := buf[r + i];
      }
      assert p[..n] == buf[r..r + n];
      Advance(n);
      lastByte, lastRuneSize := buf[r - 1], -1;
    }

    /** The large-read path of Read, straight into the caller's slice. */
    method ReadDirect(p: array<byte>) returns (n: nat, e: Option<Error>)
      requires Sound() && p != buf && r == w && err == None && p.Length >= buf.Length
      modifies this, rd, p
      ensures Sound() && n <= p.Length && Took(p[..n]) && err == None && (e == Some(EOF) ==> stream == [])
      ensures n > 0 ==> Fresh() && lastRuneSize == -1 && CanUnreadByte()
      ensures n == 0 ==> lastRuneSize == old(lastRuneSize) && r == old(r) && handed == old(handed)
    {
      ghost var ahead := rd.rest;
      assert stream == ahead;
      n, e := rd.Read(p, 0, p.Length);
      assert p[..n] == ahead[..n];
      TakeOff(ahead, n);
      handed, stream := handed + p[..n], stream[n..];
      if n > 0 {
        lastByte := p[n - 1];
        lastRuneSize := -1;
      } else {
        assert p[..n] == [];
      }
    }

    /** The bytes of the rune that UnreadRune would give back. */
    ghost function LastRune(): seq<byte>
      reads this
      requires 0 < lastRuneSize <= |handed|
    {
      handed[|handed| - lastRuneSize..]
    }

    ghost predicate CanUnreadByte()
      reads this
    {
      lastByte >= 0 && !(r == 0 && w > 0)
    }

    method ReadByte() returns (c: byte, e: Option<Error>)
      requires Valid()
      modifies this, buf, rd
      ensures Valid() && Took(if e == None then [c] else [])
      ensures e == None ==> Fresh() && CanUnreadByte()
      ensures e == Some(EOF) ==> stream == []
    {
      lastRuneSize := -1;
      AwaitData();
      if r == w {
        e := ReadErr();
        return 0, e;
      }
      c, e := buf[r], None;
      Advance(1);
      lastByte := c;
    }

    /** Fill an empty buffer until it holds a byte or there is an error to report. */
    method AwaitData()
      requires Sound()
      modifies this`r, this`w, this`err, buf, rd
      ensures Sound() && (r < w || err != None)
    {
      while r == w && err == None
        invariant Sound()
        decreases w == r, err == None
      {
        Fill();
      }
    }

    /**
     UnreadByte puts lastByte back in front of the stream.  That restores the stream of
     before the last read exactly when lastByte is still the byte handed out last.
     */
    method UnreadByte() returns (e: Option<Error>)
      requires Valid()
      modifies this, buf
      ensures Valid() && (e == None <==> old(CanUnreadByte())) && (e != None ==> e == Some(ErrInvalidUnreadByte))
      ensures e == None ==> stream == [old(lastByte) as byte] + old(stream) && lastByte == -1 && lastRuneSize == -1
      ensures e == None && old(Fresh()) ==> handed == old(handed)[..|old(handed)| - 1] && handed + stream == old(handed + stream)
      ensures e != None ==> Took([])
    {
      if lastByte < 0 || (r == 0 && w > 0) {
        return Some(ErrInvalidUnreadByte);
      }
      PutBack(lastByte);
      return None;
    }

    /** Store `b` in front of the buffered data, and forget what could be unread. */
    method PutBack(b: byte)
      requires Sound() && (r > 0 || w == 0)
      modifies this`r, this`w, this`handed, this`stream, this`lastByte, this`lastRuneSize, buf
      ensures Sound() && lastByte == -1 && lastRuneSize == -1 && stream == [b] + old(stream) && handed == old(handed)[..Max(0, |old(handed)| - 1)]
    {
      ghost var tail := buf[r..w];
      if r > 0 {
        r := r - 1;
      } else {
        w := 1;
      }
      stream, handed := [b] + stream, handed[..Max(0, |handed| - 1)];
      buf[r] := b;
      lastByte, lastRuneSize := -1, -1;
      assert buf[r..w] == [b] + tail;
    }

    /**
     Discard does not touch lastByte, so UnreadByte after it puts back a byte read before the
     discarded ones: the last discarded byte comes back only when the two happen to be equal.
     Without a byte read before, UnreadByte refuses.
     */
    method DiscardThenUnread(n: int) returns (discarded: nat, e: Option<Error>, u: Option<Error>)
      requires Valid() && n > 0
      modifies this, buf, rd
      ensures Valid() && (e == None ==> n <= |old(stream)|)
      ensures e == None ==> (u == None <==> old(lastByte) >= 0) && (u != None ==> u == Some(ErrInvalidUnreadByte))
      ensures e == None && u == None ==> stream == [old(lastByte) as byte] + old(stream)[n..]
      ensures e == None && u == None ==> (stream == old(stream)[n - 1..] <==> old(stream)[n - 1] == old(lastByte))
    {
      ghost var s := stream;
      discarded, e := Discard(n);
      if e != None {
        u := None;
        return;
      }
      DropPrefix(s, n, stream);
      u := UnreadByte();
    }

    /** The buffered bytes from `lo` on are enough to decode, and decode to `c`, `size` bytes long. */
    ghost predicate Decided(lo: int, c: rune, size: nat)
      reads this, buf
    {
      && 0 <= lo < w <= buf.Length && (w - lo >= UTF_MAX || FullRune(buf[lo..w]) || err != None)
      && (c, size) == DecodeRune(buf[lo..w])
    }

    /** Gather enough bytes for ReadRune to decode; none when there are enough. */
    method GatherRune()
      requires Sound()
      modifies this`r, this`w, this`err, buf, rd
      ensures Sound()
      ensures w - r >= UTF_MAX || FullRune(buf[r..w]) || err != None
      ensures old(w - r >= UTF_MAX || FullRune(buf[r..w]) || err != None) ==>
                r == old(r) && w == old(w) && err == old(err) && buf[..] == old(buf[..])
    {
      while r + UTF_MAX > w && !FullRune(buf[r..w]) && err == None && w - r < buf.Length
        invariant Sound()
        invariant old(w - r >= UTF_MAX || FullRune(buf[r..w]) || err != None) ==>
                    r == old(r) && w == old(w) && err == old(err) && buf[..] == old(buf[..])
        decreases buf.Length - (w - r), err == None
      {
        Fill();
      }
    }

    /**
     ReadRune decodes the first rune of the stream; only an error other than EOF in the
     middle of a rune can make it report an ill-formed byte that is not one.
     */
    method ReadRune() returns (c: rune, size: nat, e: Option<Error>)
      requires Valid()
      modifies this, buf, rd
      ensures Valid() && size <= |old(stream)| && Took(old(stream)[..size])
      ensures e == None ==> size > 0 && Fresh() && CanUnreadByte() && 0 < lastRuneSize == size <= r
      ensures e == None ==> (c, size) == DecodeRune(old(stream)) ||
                            ((c, size) == (RUNE_ERROR, 1) && err.Some? && err != Some(EOF))
      ensures e != None ==> size == 0 && lastRuneSize == -1 && (e == Some(EOF) ==> stream == [])
      ensures e == None ==> Decided(r - size, c, size)
      ensures forall d: rune, n: nat :: old(Decided(r, d, n)) ==> e == None && c == d && size == n
    {
      c, size := NextRune();
      if size == 0 {
        e := EndOfInput();
        return;
      }
      TakeRune(size);
      return c, size, None;
    }

    /** The stored error, when no byte is left. */
    method EndOfInput() returns (e: Option<Error>)
      requires Sound() && r == w && err != None
      modifies this`err
      ensures Sound() && Took(old(stream)[..0]) && e != None && (e == Some(EOF) ==> stream == [])
    {
      assert stream[..0] == [];
      e := ReadErr();
    }

    /** Gather and decode, without consuming; size 0 when no byte is left. */
    method NextRune() returns (c: rune, size: nat)
      requires Sound()
      modifies this`r, this`w, this`err, this`lastRuneSize, buf, rd
      ensures Sound() && lastRuneSize == -1 && size <= w - r && (size == 0 <==> r == w) && (size == 0 ==> err != None)
      ensures size > 0 ==> (c, size) == DecodeRune(stream) || ((c, size) == (RUNE_ERROR, 1) && err.Some? && err != Some(EOF))
      ensures size > 0 ==> Decided(r, c, size)
      ensures forall d: rune, n: nat :: old(Decided(r, d, n)) ==> c == d && size == n && n > 0
    {
      GatherRune();
      assert forall d: rune, n: nat :: old(Decided(r, d, n)) ==> buf[r..w] == old(buf[r..w]);
      lastRuneSize := -1;
      if r == w {
        return 0, 0;
      }
      c, size := Decode();
    }

    /** The rune at the head of the buffer, once enough is gathered. */
    method Decode() returns (c: rune, size: nat)
      requires Sound() && r < w && (w - r >= UTF_MAX || FullRune(buf[r..w]) || err != None)
      ensures 0 < size <= w - r
      ensures (c, size) == DecodeRune(stream) || ((c, size) == (RUNE_ERROR, 1) && err.Some? && err != Some(EOF))
      ensures Decided(r, c, size)
    {
      ghost var p, tail := buf[r..w], rd.rest;
      Buffered(p, tail, err);
      c, size := buf[r], 1;
      if c >= RUNE_SELF {
        c, size := DecodeRune(buf[r..w]).0, DecodeRune(buf[r..w]).1;
      }
    }

    method TakeRune(size: nat)
      requires Sound() && 0 < size <= w - r && lastRuneSize == -1
      modifies this
      ensures Sound() && size <= |old(stream)| && Took(old(stream)[..size]) && err == old(err) && r == old(r) + size && w == old(w)
      ensures Fresh() && lastRuneSize == size && CanUnreadByte() && RuneOk()
    {
      ghost var piece, all := buf[r..r + size], stream;
      assert piece == all[..size];
      Advance(size);
      lastByte, lastRuneSize := buf[r - 1], size;
      assert buf[r - size..r] == piece;
    }

    /** What decoding the buffered part of the stream says about the whole. */
    static lemma Buffered(p: seq<byte>, tail: seq<byte>, err: Option<Error>)
      requires p != [] && (|p| >= UTF_MAX || FullRune(p) || err != None) && (err == Some(EOF) ==> tail == [])
      ensures p[0] < RUNE_SELF ==> DecodeRune(p) == (p[0], 1)
      ensures DecodeRune(p) == DecodeRune(p + tail) ||
              (DecodeRune(p) == (RUNE_ERROR, 1) && err.Some? && err != Some(EOF))
    {
      if FullRune(p) {
        FullIsEnough(p, tail);
      } else {
        NotFullContinues(p);
        assert tail == [] ==> p + tail == p;
      }
    }

    /**
     UnreadRune takes back the last lastRuneSize bytes handed out, whatever they are: the stream
     goes back by as many bytes.
     */
    method UnreadRune() returns (e: Option<Error>)
      requires Valid()
      modifies this
      ensures Valid() && (e == None <==> 0 <= old(lastRuneSize) <= old(r)) && (e != None ==> e == Some(ErrInvalidUnreadRune))
      ensures e == None ==> 0 < old(lastRuneSize) <= |old(handed)|
      ensures e == None ==>
                var k := |old(handed)| - old(lastRuneSize);
                handed == old(handed)[..k] && stream == old(handed)[k..] + old(stream)
      ensures e == None ==> r == old(r) - old(lastRuneSize) && w == old(w) && err == old(err)
      ensures e == None ==> lastByte == -1 && lastRuneSize == -1
      ensures e != None ==> Took([])
    {
      if lastRuneSize < 0 || r < lastRuneSize {
        return Some(ErrInvalidUnreadRune);
      }
      var size := lastRuneSize;
      assert buf[r - size..r] == handed[|handed| - size..];
      assert buf[r - size..w] == buf[r - size..r] + buf[r..w];
      stream := buf[r - size..r] + stream;
      handed := handed[..|handed| - size];
      r := r - size;
      lastByte, lastRuneSize := -1, -1;
      return None;
    }

    /**
     Discard does not touch lastRuneSize, so UnreadRune after it succeeds where it promises an
     error, and takes back the last lastRuneSize bytes of the rune and the discarded ones.
     Those are the rune's own bytes only when the two happen to be equal.  It refuses when the
     buffer was refilled and too few bytes were discarded since.
     */
    method DiscardThenUnreadRune(n: int) returns (discarded: nat, e: Option<Error>, u: Option<Error>)
      requires Valid() && n > 0 && 0 < lastRuneSize <= r
      modifies this, buf, rd
      ensures Valid() && old(lastRuneSize) <= |old(handed)|
      ensures n <= old(w - r) ==> e == None && u == None
      ensures e == None && old(w - r) < n < old(w - r) + old(lastRuneSize) ==> u == Some(ErrInvalidUnreadRune)
      ensures e == None ==> n <= |old(stream)| && (u != None ==> u == Some(ErrInvalidUnreadRune) && stream == old(stream)[n..])
      ensures e == None && u == None ==>
                var size, rune := old(lastRuneSize), old(LastRune());
                && stream == (rune + old(stream)[..n])[n..] + old(stream)[n..]
                && (stream == rune + old(stream)[n..] <==> (rune + old(stream)[..n])[n..] == rune)
    {
      ghost var s, h, size := stream, handed, lastRuneSize;
      discarded, e := Discard(n);
      if e != None {
        u := None;
        return;
      }
      TakeTail(s, n, stream);
      u := UnreadRune();
      Rewound(h, s, n, size);
      SameFront((h[|h| - size..] + s[..n])[n..], h[|h| - size..], s[n..]);
    }

    /**
     A rune read, unread and read again is the same, and is consumed once; so also an ill-formed
     byte that a pending error has cut off.
     */
    method ReadRuneTwice() returns (c: rune, size: nat, e: Option<Error>, again: rune, n: nat)
      requires Valid()
      modifies this, buf, rd
      ensures Valid() && size <= |old(stream)| && Took(old(stream)[..size])
      ensures e == None ==> again == c && n == size > 0 && lastRuneSize == size
    {
      ghost var s, h := stream, handed;
      c, size, e := ReadRune();
      again, n := c, size;
      if e != None {
        return;
      }
      ghost var c0, n0 := c, size;
      var u := UnreadRune();
      assert Decided(r, c0, n0) && stream == s && handed == h;
      var e2;
      again, n, e2 := ReadRune();
    }

    /** buf[lo..hi] holds no delim. */
    ghost predicate Clear(lo: int, hi: int, delim: byte)
      reads buf
    {
      0 <= lo <= hi <= buf.Length && forall i :: lo <= i < hi ==> buf[i] != delim
    }

    static ghost predicate NoDelim(p: seq<byte>, delim: byte) {
      forall i :: 0 <= i < |p| ==> p[i] != delim
    }

    /** ReadSlice; the slice of the buffer it returns is given as its value. */
    method ReadSlice(delim: byte) returns (line: seq<byte>, e: Option<Error>)
      requires Valid()
      modifies this, buf, rd
      ensures Valid() && Took(line)
      ensures e == None ==> line != [] && line[|line| - 1] == delim && NoDelim(line[..|line| - 1], delim)
      ensures e != None ==> NoDelim(line, delim)
      ensures e == Some(ErrBufferFull) ==> |line| == buf.Length
      ensures e == Some(EOF) ==> stream == []
      ensures line != [] ==> Fresh() && lastRuneSize == -1
    {
      var k;
      k, e := FindLine(delim);
      line := TakeLine(k);
      if e != None && e != Some(ErrBufferFull) {
        e := ReadErr();
      }
    }

    /** What Search finds is the line. */
    method FindLine(delim: byte) returns (k: nat, e: Option<Error>)
      requires Valid()
      modifies this`r, this`w, this`err, buf, rd
      ensures Valid() && k <= w - r
      ensures var p := buf[r..r + k];
              if e == None then p != [] && p[|p| - 1] == delim && NoDelim(p[..|p| - 1], delim) else NoDelim(p, delim)
      ensures e != None && e != Some(ErrBufferFull) ==> e == err && k == w - r
      ensures e == Some(ErrBufferFull) ==> k == buf.Length
    {
      k, e := Search(delim);
    }

    /** Hand out k buffered bytes and remember the last of them. */
    method TakeLine(k: nat) returns (line: seq<byte>)
      requires Sound() && k <= w - r
      modifies this
      ensures Sound() && Took(line) && line == old(buf[r..r + k]) && r == old(r) + k && w == old(w) && err == old(err)
      ensures line != [] ==> Fresh() && lastRuneSize == -1
      ensures old(RuneOk()) ==> RuneOk()
    {
      line := buf[r..r + k];
      Advance(k);
      if line != [] {
        lastByte, lastRuneSize := line[|line| - 1], -1;
      }
    }

    /** Fill the buffer until it holds delim, the input ends, or it is full; `k` bytes make up the line. */
    method Search(delim: byte) returns (k: nat, e: Option<Error>)
      requires Sound()
      modifies this`r, this`w, this`err, buf, rd
      ensures Sound() && k <= w - r
      ensures e == None ==> k > 0 && buf[r + k - 1] == delim && Clear(r, r + k - 1, delim)
      ensures e != None ==> k == w - r && Clear(r, w, delim)
      ensures e != None && e != Some(ErrBufferFull) ==> e == err
      ensures e == Some(ErrBufferFull) ==> k == buf.Length
      ensures r == 0 || (r == old(r) && forall i :: 0 <= i < r ==> buf[i] == old(buf[i]))
    {
      var s: nat := 0;
      while true
        invariant Sound() && s <= w - r && Clear(r, r + s, delim)
        invariant r == 0 || (r == old(r) && forall i :: 0 <= i < r ==> buf[i] == old(buf[i]))
        decreases buf.Length - (w - r), err == None
      {
        var i := IndexByte(r + s, delim);
        if i < w {
          return i + 1 - r, None;
        }
        if err != None {
          return w - r, err;
        }
        if w - r >= buf.Length {
          return w - r, Some(ErrBufferFull);
        }
        s := w - r;
        FillMore(delim);
      }
    }

    /** Fill, seen from a search that has found no delim so far. */
    method FillMore(ghost delim: byte)
      requires Sound() && w - r < buf.Length && Clear(r, w, delim)
      modifies this`r, this`w, this`err, buf, rd
      ensures Sound() && old(w) - old(r) <= w - r && Clear(r, r + old(w) - old(r), delim)
      ensures (w - r > old(w) - old(r) || err != None) && r == 0
    {
      ghost var live, all, k := buf[r..w], stream, w - r;
      Fill();
      forall i | r <= i < r + k ensures buf[i] != delim {
        assert buf[i] == all[i - r] == live[i - r];
      }
    }

    /** bytes.IndexByte on buf[lo..w], as an index into buf; w when there is none. */
    method IndexByte(lo: nat, delim: byte) returns (i: nat)
      requires Sound() && lo <= w
      ensures lo <= i <= w && Clear(lo, i, delim) && (i < w ==> buf[i] == delim)
    {
      i := lo;
      while i < w && buf[i] != delim
        invariant lo <= i <= w && Clear(lo, i, delim)
      {
        i := i + 1;
      }
    }

    /**
     ReadBytes returns the shortest prefix of the stream that ends in delim, or everything
     up to the error, whatever the size of the buffer.
     */
    method ReadBytes(delim: byte) returns (line: seq<byte>, e: Option<Error>)
      requires Valid()
      modifies this, buf, rd
      ensures Valid() && Took(line)
      ensures e == None ==> line != [] && line[|line| - 1] == delim && NoDelim(line[..|line| - 1], delim)
      ensures e != None ==> NoDelim(line, delim) && e != Some(ErrBufferFull)
      ensures e == Some(EOF) ==> stream == []
    {
      var full: seq<byte> := [];
      var frag;
      ghost var mid;
      while true
        invariant Valid() && Took(full) && NoDelim(full, delim)
        decreases |stream|
      {
        mid := stream;
        frag, e := ReadSlice(delim);
        Chain(old(stream), full, mid, frag, stream);
        Regroup(old(handed), full, frag);
        if e != Some(ErrBufferFull) {
          break;
        }
        full := full + frag;
      }
      line := full + frag;
      if e == None {
        DropLast(full, frag);
      }
    }
  }

  /** Of the stream `s`, `n` bytes have followed `h` to the caller, and `rest` is left. */
  ghost predicate Moved(s: seq<byte>, h: seq<byte>, n: nat, rest: seq<byte>, handed: seq<byte>) {
    n <= |s| && rest == s[n..] && handed == h + s[..n]
  }

  lemma MovedOn(s: seq<byte>, h: seq<byte>, n: nat, piece: seq<byte>, rest: seq<byte>)
    requires n <= |s| && s[n..] == piece + rest
    ensures Moved(s, h, n + |piece|, rest, (h + s[..n]) + piece)
  {
    Onward(s, n, piece, rest);
    Regroup(h, s[..n], piece);
  }

  /** Taking back `size` of the bytes handed out after the first `n` of `s` followed them. */
  lemma Rewound(h: seq<byte>, s: seq<byte>, n: nat, size: nat)
    requires size <= |h| && n <= |s|
    ensures (h + s[..n])[|h| + n - size..] == (h[|h| - size..] + s[..n])[n..]
  {
    assert (h + s[..n])[|h| - size..] == h[|h| - size..] + s[..n];
  }

  lemma SameFront(a: seq<byte>, b: seq<byte>, rest: seq<byte>)
    requires |a| == |b|
    ensures a + rest == b + rest <==> a == b
  {
    if a + rest == b + rest {
      assert a == (a + rest)[..|a|] && b == (b + rest)[..|b|];
    }
  }

  lemma Chain(all: seq<byte>, out: seq<byte>, mid: seq<byte>, piece: seq<byte>, rest: seq<byte>)
    requires all == out + mid && mid == piece + rest
    ensures all == (out + piece) + rest
  {
  }

  lemma DropPrefix(all: seq<byte>, n: nat, rest: seq<byte>)
    requires 0 < n <= |all| && all == all[..n] + rest
    ensures rest == all[n..] && all[n - 1..] == [all[n - 1]] + rest
  {
  }

  lemma TakeAway(a: seq<byte>, b: seq<byte>, c: seq<byte>)
    ensures ((a + b) + c)[|a|..] == b + c && (a + b) + c == a + (b + c)
  {
  }

  lemma TakeTail(all: seq<byte>, n: nat, rest: seq<byte>)
    requires n <= |all| && all == all[..n] + rest
    ensures rest == all[n..]
  {
  }

  lemma DropLast(a: seq<byte>, b: seq<byte>)
    requires b != []
    ensures (a + b)[..|a + b| - 1] == a + b[..|b| - 1]
  {
  }
}
