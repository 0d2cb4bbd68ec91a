/** bufio.Writer: what was accepted is in the sink or in the buffer, in order. */
module Writer {
  import opened Prelude
  import opened Source
  import opened Utf8

  /**
   The io.Writer underneath, as an adversary: it takes a prefix of what it is given, may
   report any error, and may even take less than everything without reporting one, though
   not for ever.
   */
  class Sink {
    var data: seq<byte>
    var patience: nat

    method Write(p: seq<byte>) returns (n: nat, err: Option<Error>)
      modifies this
      ensures n <= |p| && data == old(data) + p[..n] && patience <= old(patience)
      ensures n < |p| && err == None ==> patience < old(patience)
    {
      n :| 0 <= n <= |p|;
      data := data + p[..n];
      err := *;
      if n < |p| && err == None {
        if patience == 0 {
          err := Some(Other(0));
        } else {
          patience := patience - 1;
        }
      }
    }
  }

  class Writer {
    const buf: array<byte>
    const wr: Sink
    var n: nat
    var err: Option<Error>
    ghost var total: seq<byte>      // everything accepted so far

    constructor (sink: Sink, size: int)
      ensures Valid() && wr == sink && fresh(buf) && n == 0 && err == None && total == sink.data
    {
      wr, n, err, total := sink, 0, None, sink.data;
      buf := new byte[if size <= 0 then 4096 else size];
    }

    /** The sink followed by the buffered bytes is exactly what was accepted. */
    ghost predicate Valid()
      reads this, buf, wr
    {
      n <= buf.Length && 0 < buf.Length && total == wr.data + buf[..n]
    }

    /** The call accepted `p`; once an error is recorded nothing more reaches the sink. */
    twostate predicate Accepted(p: seq<byte>)
      reads this, wr
    {
      && total == old(total) + p
      && old(wr.data) <= wr.data
      && (old(err).Some? ==> err == old(err) && wr.data == old(wr.data))
    }

    method Flush() returns (e: Option<Error>)
      requires Valid()
      modifies this`n, this`err, buf, wr
      ensures Valid() && Accepted([]) && e == err && wr.patience <= old(wr.patience)
      ensures e == None ==> n == 0 && wr.data == total
      ensures n <= old(n)
    {
      if err != None {
        return err;
      }
      if n == 0 {
        assert buf[..0] == [];
        return None;
      }
      ghost var b := buf[..n];
      var k;
      k, e := wr.Write(buf[..n]);
      if k < n && e == None {
        e := Some(ErrShortWrite);
      }
      if e != None {
        if 0 < k < n {
          var d := n - k;
          forall i | 0 <= i < d {
            buf[i] := buf[k + i];
          }
        }
        n := n - k;
        assert buf[..n] == b[k..];
        err := e;
        return e;
      }
      n := 0;
      return None;
    }

    /** Copy as much of `p` as fits behind the buffered bytes. */
    method Fit(p: seq<byte>) returns (k: nat)
      requires Valid()
      modifies this`n, this`total, buf
      ensures Valid() && k == Min(|p|, buf.Length - old(n)) && n == old(n) + k && total == old(total) + p[..k]
    {
      k := Min(|p|, buf.Length - n);
      ghost var b := buf[..n];
      forall i | 0 <= i < k {
        buf[n + i] := p[i];
      }
      total := total + p[..k];
      assert buf[..n + k] == b + p[..k];
      n := n + k;
    }

    /** A large write past the empty buffer. */
    method Direct(p: seq<byte>) returns (k: nat)
      requires Valid() && n == 0 && err == None
      modifies this`err, this`total, wr
      ensures Valid() && k <= |p| && Accepted(p[..k]) && wr.patience <= old(wr.patience)
      ensures k == |p| || err != None || wr.patience < old(wr.patience)
    {
      k, err := wr.Write(p);
      total := total + p[..k];
      assert buf[..0] == [];
    }

    method Write(p: seq<byte>) returns (nn: nat, e: Option<Error>)
      requires Valid()
      modifies this, buf, wr
      ensures Valid() && nn <= |p| && Accepted(p[..nn]) && e == err
      ensures e == None ==> nn == |p|
    {
      nn := 0;
      while |p| - nn > buf.Length - n && err == None
        invariant Valid() && nn <= |p| && Accepted(p[..nn])
        decreases err == None, |p| - nn, wr.patience, n
      {
        var k;
        if n == 0 {
          k := Direct(p[nn..]);
        } else {
          k := Fit(p[nn..]);
          var _ := Flush();
        }
        assert p[..nn + k] == p[..nn] + p[nn..][..k];
        nn := nn + k;
      }
      if err != None {
        return nn, err;
      }
      var k := Fit(p[nn..]);
      assert p[..nn + k] == p[..nn] + p[nn..][..k];
      return nn + k, None;
    }

    method WriteByte(c: byte) returns (e: Option<Error>)
      requires Valid()
      modifies this, buf, wr
      ensures Valid() && e == err && Accepted(if e == None then [c] else [])
    {
      if err != None {
        return err;
      }
      if buf.Length - n <= 0 {
        var f := Flush();
        if f != None {
          return err;
        }
      }
      var k := Fit([c]);
      return None;
    }

    method WriteString(s: seq<byte>) returns (nn: nat, e: Option<Error>)
      requires Valid()
      modifies this, buf, wr
      ensures Valid() && nn <= |s| && Accepted(s[..nn]) && e == err
      ensures e == None ==> nn == |s|
    {
      nn := 0;
      while |s| - nn > buf.Length - n && err == None
        invariant Valid() && nn <= |s| && Accepted(s[..nn])
        decreases err == None, |s| - nn, n
      {
        var k := Fit(s[nn..]);
        assert s[..nn + k] == s[..nn] + s[nn..][..k];
        nn := nn + k;
        var _ := Flush();
      }
      if err != None {
        return nn, err;
      }
      var k := Fit(s[nn..]);
      assert s[..nn + k] == s[..nn] + s[nn..][..k];
      return nn + k, None;
    }

    /** What WriteRune appends for `c`: a negative rune is truncated to a byte, as for ASCII. */
    static function RuneBytes(c: int): seq<byte> {
      if c < RUNE_SELF then [c % 256] else EncodeRune(c)
    }

    method WriteRune(c: int) returns (size: nat, e: Option<Error>)
      requires Valid()
      modifies this, buf, wr
      ensures Valid() && e == err && size <= |RuneBytes(c)| && Accepted(RuneBytes(c)[..size])
      ensures e == None ==> size == |RuneBytes(c)|
    {
      if c < RUNE_SELF {
        e := WriteByte(c % 256);
        return if e == None then 1 else 0, e;
      }
      if err != None {
        return 0, err;
      }
      if buf.Length - n < UTF_MAX {
        var _ := Flush();
        if err != None {
          return 0, err;
        }
        if buf.Length - n < UTF_MAX {
          size, e := WriteString(EncodeRune(c));
          return;
        }
      }
      size := Fit(EncodeRune(c));
      return size, None;
    }

    /** One read into the room behind the buffered bytes. */
    method ReadBehind(r: Source) returns (m: nat, e: Option<Error>)
      requires Valid()
      modifies buf, r
      ensures n + m <= buf.Length && m <= |old(r.rest)| && buf[..n] == old(buf[..n])
      ensures buf[n..n + m] == old(r.rest)[..m] && r.rest == old(r.rest)[m..]
      ensures e.Some? ==> OwnError(e.value)
      ensures e == Some(EOF) ==> r.rest == []
    {
      m, e := r.Read(buf, n, buf.Length);
    }

    /** One round of ReadFrom's inner loop: read behind the buffered bytes until something happens. */
    method ReadSome(r: Source) returns (m: nat, e: Option<Error>, stalled: bool, ghost got: seq<byte>)
      requires Valid()
      modifies this`n, this`total, buf, r
      ensures Valid() && total == old(total) + got && |got| == m && n == old(n) + m
      ensures old(r.rest) == got + r.rest
      ensures stalled ==> m == 0 && e == None
      ensures !stalled ==> m > 0 || e != None
      ensures e.Some? ==> OwnError(e.value)
      ensures e == Some(EOF) ==> r.rest == []
    {
      var nr := 0;
      ghost var b, ahead := buf[..n], r.rest;
      m, e, got := 0, None, [];
      while nr < MAX_EMPTY_READS
        invariant Valid() && n == old(n) && total == old(total) && r.rest == ahead && buf[..n] == b
      {
        m, e := ReadBehind(r);
        if m != 0 || e != None {
          got := ahead[..m];
          TakeOff(buf[..n + m], n);
          n, total := n + m, total + got;
          return m, e, false, got;
        }
        nr := nr + 1;
      }
      return 0, None, true, [];
    }

    /** ReadFrom without the shortcut through the underlying writer's own ReadFrom. */
    method ReadFrom(r: Source) returns (count: nat, e: Option<Error>)
      requires Valid()
      modifies this, buf, wr, r
      ensures Valid() && count <= |old(r.rest)| && Accepted(old(r.rest)[..count]) && r.rest == old(r.rest)[count..]
      ensures e == None ==> r.rest == []
    {
      ghost var all := r.rest;
      count := 0;
      while true
        invariant Valid() && count <= |all| && Accepted(all[..count]) && r.rest == all[count..]
        decreases |r.rest|
      {
        if buf.Length - n == 0 {
          e := Flush();
          if e != None {
            return;
          }
        }
        var m, stalled;
        ghost var got;
        m, e, stalled, got := ReadSome(r);
        Onward(all, count, got, r.rest);
        Regroup(old(total), all[..count], got);
        count := count + m;
        if stalled {
          return count, Some(ErrNoProgress);
        }
        if e == Some(EOF) {
          e := None;
          if buf.Length - n == 0 {
            e := Flush();
          }
          return;
        }
        if e != None {
          return;
        }
      }
    }
  }
}
