/**
 * Lazy string concatenation over shared nodes (constant/value.go, stringVal).
 *
 * A node is a string or the sum of two other nodes.  The nodes of a heap form a graph without
 * cycles, in which a node may be part of many sums.  Asking for a node's string collapses it
 * into a leaf in place.
 *
 * Two ghost constants make the graph tractable: the text a node stands for, and a rank that
 * falls from a sum to its parts.  Denoted is defined without them, as the concatenation of the
 * leaves in order, and proved to be the text.
 *
 * The mutex of each node is a flag that must be clear to be taken, so a method that locks its
 * way down the graph is proved never to take a lock twice.  All nodes below the one being
 * rendered are unlocked, which the order of ranks keeps up.
 */
module StringDag {
  import opened Prelude

  function Join(pieces: seq<string>): string {
    if pieces == [] then "" else pieces[0] + Join(pieces[1..])
  }

  function Reversed<T>(s: seq<T>): (r: seq<T>)
    ensures |r| == |s| && forall i :: 0 <= i < |s| ==> r[i] == s[|s| - 1 - i]
  {
    if s == [] then [] else Reversed(s[1..]) + [s[0]]
  }

  lemma {:induction false} JoinConcat(a: seq<string>, b: seq<string>)
    ensures Join(a + b) == Join(a) + Join(b)
  {
    if a == [] {
      assert a + b == b;
    } else {
      JoinConcat(a[1..], b);
      assert (a + b)[1..] == a[1..] + b && (a + b)[0] == a[0];
      Regroup(a[0], Join(a[1..]), Join(b));
    }
  }

  lemma ReversedConcat<T>(a: seq<T>, b: seq<T>)
    ensures Reversed(a + b) == Reversed(b) + Reversed(a)
  {
  }

  /** What a list of pieces in reverse order spells. */
  function Spelled(list: seq<string>): string {
    Join(Reversed(list))
  }

  lemma SpelledConcat(a: seq<string>, b: seq<string>)
    ensures Spelled(a + b) == Spelled(b) + Spelled(a)
  {
    ReversedConcat(a, b);
    JoinConcat(Reversed(b), Reversed(a));
  }

  lemma SpelledOne(s: string)
    ensures Spelled([s]) == s
  {
    assert Reversed([s]) == [s];
    assert Join([s]) == s + Join([]);
  }

  /** Reverses in place. */
  method Reverse(x: array<string>)
    modifies x
    ensures x[..] == Reversed(old(x[..]))
  {
    var n := x.Length;
    var i := 0;
    while i + i < n
      invariant 0 <= i && i + i <= n + 1
      invariant forall k :: 0 <= k < i ==> x[k] == old(x[n - 1 - k]) && x[n - 1 - k] == old(x[k])
      invariant forall k :: i <= k < n - i ==> x[k] == old(x[k])
    {
      x[i], x[n - 1 - i] := x[n - 1 - i], x[i];
      i := i + 1;
    }
  }

  class StringVal {
    var s: string
    var l: StringVal?
    var r: StringVal?
    var locked: bool
    /** The string the node was built to stand for. */
    ghost const text: string
    /** Children have smaller ranks, so the graph has no cycle. */
    ghost const rank: nat

    constructor Leaf(s: string)
      ensures this.s == text == s && l == null && r == null && !locked
    {
      this.s, l, r, locked, text, rank := s, null, null, false, s, 0;
    }

    /** BinaryOp with ADD on two strings: no characters are copied. */
    constructor Concat(x: StringVal, y: StringVal)
      ensures l == x && r == y && !locked
      ensures text == x.text + y.text && rank > x.rank && rank > y.rank
    {
      s, l, r, locked := "", x, y, false;
      text, rank := x.text + y.text, x.rank + y.rank + 1;
    }

    method Lock()
      requires !locked
      modifies this`locked
      ensures locked
    {
      locked := true;
    }

    method Unlock()
      requires locked
      modifies this`locked
      ensures !locked
    {
      locked := false;
    }

    /** A leaf holding its text, or a concatenation of two lower nodes of the heap. */
    ghost predicate Ok(nodes: set<StringVal>)
      reads this`l, this`r, this`s
    {
      if l == null then r == null && s == text
      else r != null && l in nodes && r in nodes && l.rank < rank && r.rank < rank && text == l.text + r.text
    }

    /** Appends the node's pieces in reverse, the right child by recursion and the left spine by a loop. */
    method AppendReverse(nodes: set<StringVal>, list: seq<string>) returns (out: seq<string>)
      requires Dag(nodes) && this in nodes && locked
      requires FreeBelow(nodes, rank)
      modifies nodes`locked
      ensures forall n :: n in nodes ==> n.locked == old(n.locked)
      ensures Spelled(out) == text + Spelled(list)
      decreases rank
    {
      out := list;
      var y := this;
      while y.r != null
        invariant y in nodes && y.rank <= rank && (y != this ==> y.rank < rank)
        invariant forall n :: n in nodes && n != y ==> n.locked == old(n.locked)
        invariant y.locked
        invariant y.text + Spelled(out) == text + Spelled(list)
        decreases y.rank
      {
        assert y.Ok(nodes);
        Regroup(y.l.text, y.r.text, Spelled(out));
        y.r.Lock();
        out := y.r.AppendReverse(nodes, out);
        y.r.Unlock();
        var left := y.l;
        if y != this { y.Unlock(); }
        left.Lock();
        y := left;
      }
      assert y.Ok(nodes);
      var s := y.s;
      if y != this { y.Unlock(); }
      SpelledOne(s);
      SpelledConcat(out, [s]);
      out := out + [s];
    }

    /** Rewrites a locked concatenation as a leaf. */
    method Collapse(nodes: set<StringVal>)
      requires Dag(nodes) && this in nodes && locked && FreeBelow(nodes, rank)
      modifies this, nodes`locked
      ensures locked && forall n :: n in nodes ==> n.locked == old(n.locked)
      ensures s == text && l == null && r == null
      ensures forall n :: n in nodes && n != this ==> n.s == old(n.s) && n.l == old(n.l) && n.r == old(n.r)
    {
      var list := AppendReverse(nodes, []);
      SpelledNone(text);
      var pieces := new string[|list|](i requires 0 <= i < |list| => list[i]);
      assert pieces[..] == list;
      Reverse(pieces);
      s := Join(pieces[..]);
      l := null;
      r := null;
    }

    /** string(): the whole text; the node becomes a leaf and every other node stays as it was. */
    method ToString(nodes: set<StringVal>) returns (res: string)
      requires Dag(nodes) && this in nodes
      requires !locked && FreeBelow(nodes, rank)
      modifies this, nodes`locked
      ensures Dag(nodes)
      ensures forall n :: n in nodes ==> n.locked == old(n.locked)
      ensures res == old(Denoted(nodes, this)) && s == res && l == null && r == null
      ensures forall n :: n in nodes ==> Denoted(nodes, n) == old(Denoted(nodes, n))
      ensures forall n :: n in nodes && n != this ==> n.s == old(n.s) && n.l == old(n.l) && n.r == old(n.r)
    {
      AllDenoteText(nodes);
      Lock();
      assert Ok(nodes);
      if l != null {
        Collapse(nodes);
        StillDag(nodes);
      }
      res := s;
      Unlock();
      AllDenoteText(nodes);
    }

    /** A leaf spelling its text is a proper node, and the others have not changed. */
    twostate lemma StillDag(nodes: set<StringVal>)
      requires old(Dag(nodes)) && this in nodes && l == null && r == null && s == text
      requires forall n :: n in nodes && n != this ==> n.s == old(n.s) && n.l == old(n.l) && n.r == old(n.r)
      ensures Dag(nodes)
    {
      forall n: StringVal | n in nodes
        ensures n.Ok(nodes)
      {
        assert old(n.Ok(nodes));
      }
    }
  }

  lemma SpelledNone(t: string)
    ensures t + Spelled([]) == t
  {
  }

  ghost predicate Dag(nodes: set<StringVal>)
    reads nodes`l, nodes`r, nodes`s
  {
    forall n: StringVal {:trigger n.Ok(nodes)} {:trigger n in nodes} :: n in nodes ==> n.Ok(nodes)
  }

  /** No node of rank below `k` is locked. */
  ghost predicate FreeBelow(nodes: set<StringVal>, k: nat)
    reads nodes`locked
  {
    forall n: StringVal :: n in nodes && n.rank < k ==> !n.locked
  }

  /** The in-order concatenation of the leaves under `x`. */
  ghost function Denoted(nodes: set<StringVal>, x: StringVal): string
    requires Dag(nodes) && x in nodes
    reads nodes
    decreases x.rank
  {
    assert x.Ok(nodes);
    if x.l == null then x.s else Denoted(nodes, x.l) + Denoted(nodes, x.r)
  }

  lemma {:induction false} DenotesText(nodes: set<StringVal>, x: StringVal)
    requires Dag(nodes) && x in nodes
    ensures Denoted(nodes, x) == x.text
    decreases x.rank
  {
    assert x.Ok(nodes);
    if x.l != null {
      DenotesText(nodes, x.l);
      DenotesText(nodes, x.r);
    }
  }

  lemma AllDenoteText(nodes: set<StringVal>)
    requires Dag(nodes)
    ensures forall x :: x in nodes ==> Denoted(nodes, x) == x.text
  {
    forall x | x in nodes
      ensures Denoted(nodes, x) == x.text
    {
      DenotesText(nodes, x);
    }
  }

  /** BinaryOp(x, ADD, y): a new node over the heap, denoting the concatenation; nothing else changes. */
  method Add(nodes: set<StringVal>, x: StringVal, y: StringVal) returns (z: StringVal, more: set<StringVal>)
    requires Dag(nodes) && x in nodes && y in nodes
    ensures fresh(z) && more == nodes + {z} && Dag(more) && !z.locked
    ensures Denoted(more, z) == Denoted(nodes, x) + Denoted(nodes, y)
    ensures forall n :: n in nodes ==> Denoted(more, n) == Denoted(nodes, n)
  {
    AllDenoteText(nodes);
    z := new StringVal.Concat(x, y);
    more := nodes + {z};
    forall n: StringVal | n in more
      ensures n.Ok(more)
    {
      if n in nodes { assert n.Ok(nodes); }
    }
    AllDenoteText(nodes);
    AllDenoteText(more);
  }
}
