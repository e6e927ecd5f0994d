/** The single-producer, single-consumer ring (src/util/ring.hpp): free-running 32-bit counters
    over a fixed buffer, with zero-copy spans on both sides. */
module Ring {
  import opened Bytes

  /** a - b and a + n on the 32-bit counters. */
  function Minus(a: uint32, b: uint32): uint32 { (a - b) % WORD32 }
  function Plus(a: uint32, n: nat): uint32 { (a + n) % WORD32 }

  /** index(): the buffer cell of a counter value; for a power of two the mask is the remainder. */
  function Index(pos: nat, cap: nat): (i: nat)
    requires cap > 0
    ensures i < cap
  {
    pos % cap
  }

  // ---- arithmetic across the counter wrap ----------------------------------------------------------

  lemma DivMod(x: nat, m: nat)
    requires m > 0
    ensures x == m * (x / m) + x % m
  {}

  /** Quotient and remainder are unique. */
  lemma ModUnique(x: nat, m: nat, q: nat, r: nat)
    requires m > 0 && r < m && x == m * q + r
    ensures x % m == r
  {
    var q', r' := x / m, x % m;
    DivMod(x, m);
    ScaleNext(m, q);
    ScaleNext(m, q');
    if q < q' {
      Scale(m, q + 1, q');
    } else if q' < q {
      Scale(m, q' + 1, q);
    }
  }

  lemma Scale(m: nat, a: nat, b: nat)
    requires a <= b
    ensures m * a <= m * b
  {}

  lemma ScaleNext(m: nat, a: nat)
    ensures m * (a + 1) == m * a + m
  {}

  /** Counters keep their cells across the 2^32 wrap exactly when the capacity divides 2^32. */
  lemma OrderSurvivesWrap(cap: nat)
    requires cap > 0
    ensures (forall x: nat :: Index(x % WORD32, cap) == Index(x, cap)) <==> WORD32 % cap == 0
  {
    if WORD32 % cap == 0 {
      forall x: nat
        ensures Index(x % WORD32, cap) == Index(x, cap)
      {
        SameCell(x, cap);
      }
    } else {
      assert Index(WORD32 % WORD32, cap) == 0 != Index(WORD32, cap);
    }
  }

  lemma SameCell(x: nat, cap: nat)
    requires cap > 0 && WORD32 % cap == 0
    ensures Index(x % WORD32, cap) == Index(x, cap)
  {
    var k := WORD32 / cap;
    var q, r := x / WORD32, x % WORD32;
    DivMod(WORD32, cap);
    DivMod(r, cap);
    assert x == WORD32 * q + r;
    Regroup(cap, k, q, r / cap, r % cap);
    ModUnique(x, cap, k * q + r / cap, r % cap);
  }

  lemma Regroup(cap: nat, k: nat, q: nat, s: nat, r: nat)
    ensures (cap * k) * q + (cap * s + r) == cap * (k * q + s) + r
  {
    assert (cap * k) * q == cap * (k * q);
    assert cap * (k * q + s) == cap * (k * q) + cap * s;
  }

  /** Places less than a capacity apart are different cells. */
  lemma CellsApart(a: nat, b: nat, cap: nat)
    requires cap > 0 && a < b < a + cap
    ensures Index(a, cap) != Index(b, cap)
  {
    DivMod(a, cap);
    DivMod(b, cap);
    var p, q := a / cap, b / cap;
    ScaleNext(cap, p);
    if q <= p {
      Scale(cap, q, p);
    } else {
      Scale(cap, p + 1, q);
    }
  }

  /** A contiguous span: the k-th cell behind pos. */
  lemma SpanCell(pos: nat, k: nat, cap: nat)
    requires cap > 0 && Index(pos, cap) + k < cap
    ensures Index(pos + k, cap) == Index(pos, cap) + k
  {
    DivMod(pos, cap);
    ModUnique(pos + k, cap, pos / cap, pos % cap + k);
  }

  lemma CountersWrap(h: nat, t: nat, n: nat)
    requires t <= h < t + WORD32
    ensures Minus(h % WORD32, t % WORD32) == h - t && Plus(h % WORD32, n) == (h + n) % WORD32
  {}

  // ---- the books --------------------------------------------------------------------------------------

  /** From counter value `from` on the buffer holds s. */
  ghost predicate Holds(buf: seq<byte>, from: nat, s: seq<byte>) {
    |buf| > 0 && |s| <= |buf| && forall k :: 0 <= k < |s| ==> buf[Index(from + k, |buf|)] == s[k]
  }

  lemma HoldsDrop(buf: seq<byte>, from: nat, s: seq<byte>, n: nat)
    requires Holds(buf, from, s) && n <= |s|
    ensures Holds(buf, from + n, s[n..])
  {
    forall k | 0 <= k < |s| - n
      ensures buf[Index(from + n + k, |buf|)] == s[n..][k]
    {
      assert from + n + k == from + (n + k);
    }
  }

  /** One more byte behind what is held. */
  lemma HoldsWrite(buf: seq<byte>, from: nat, s: seq<byte>, b: byte)
    requires Holds(buf, from, s) && |s| < |buf|
    ensures Holds(buf[Index(from + |s|, |buf|) := b], from, s + [b])
  {
    var buf', s' := buf[Index(from + |s|, |buf|) := b], s + [b];
    forall k | 0 <= k < |s'|
      ensures buf'[Index(from + k, |buf'|)] == s'[k]
    {
      if k < |s| {
        CellsApart(from + k, from + |s|, |buf|);
      }
    }
  }

  /** The counters, seen from the unbounded counts of everything ever written and read. */
  ghost predicate Books(buf: seq<byte>, head: uint32, tail: uint32, written: nat, read: nat, items: seq<byte>,
                        staged: seq<byte>)
  {
    && 0 < |buf| <= 0x8000_0000 && WORD32 % |buf| == 0
    && head == written % WORD32 && tail == read % WORD32 && written == read + |items|
    && |items| + |staged| <= |buf| && Holds(buf, read, items + staged)
  }

  lemma Sizes(buf: seq<byte>, head: uint32, tail: uint32, written: nat, read: nat, items: seq<byte>, staged: seq<byte>)
    requires Books(buf, head, tail, written, read, items, staged)
    ensures 0 < |buf| && Minus(head, tail) == |items| <= |buf| && |items| + |staged| <= |buf|
  {
    CountersWrap(written, read, 0);
  }

  /** The producer writes the cell behind what is staged. */
  lemma BooksStage(buf: seq<byte>, head: uint32, tail: uint32, written: nat, read: nat, items: seq<byte>,
                   staged: seq<byte>, b: byte)
    requires Books(buf, head, tail, written, read, items, staged) && |items| + |staged| < |buf|
    ensures var i := Index(Plus(head, |staged|), |buf|);
            Books(buf[i := b], head, tail, written, read, items, staged + [b])
  {
    CountersWrap(written, read, |staged|);
    SameCell(written + |staged|, |buf|);
    HoldsWrite(buf, read, items + staged, b);
    hide Holds, Index;
    assert items + staged + [b] == items + (staged + [b]);
    assert read + |items + staged| == written + |staged|;
  }

  lemma BooksCommit(buf: seq<byte>, head: uint32, tail: uint32, written: nat, read: nat, items: seq<byte>,
                    staged: seq<byte>, n: nat)
    requires Books(buf, head, tail, written, read, items, staged) && n <= |staged|
    ensures Books(buf, Plus(head, n), tail, written + n, read, items + staged[..n], staged[n..])
  {
    CountersWrap(written, read, n);
    hide Holds;
    assert items + staged == items + staged[..n] + staged[n..];
  }

  lemma BooksRead(buf: seq<byte>, head: uint32, tail: uint32, written: nat, read: nat, items: seq<byte>,
                  staged: seq<byte>, n: nat)
    requires Books(buf, head, tail, written, read, items, staged) && n <= |items|
    ensures Books(buf, head, Plus(tail, n), written, read + n, items[n..], staged)
  {
    CountersWrap(read, read, n);
    HoldsDrop(buf, read, items + staged, n);
    hide Holds;
    assert (items + staged)[n..] == items[n..] + staged;
  }

  lemma BooksCell(buf: seq<byte>, head: uint32, tail: uint32, written: nat, read: nat, items: seq<byte>,
                  staged: seq<byte>, k: nat)
    requires Books(buf, head, tail, written, read, items, staged) && k < |items|
    ensures buf[Index(Plus(tail, k), |buf|)] == items[k]
  {
    CountersWrap(read, read, k);
    SameCell(read + k, |buf|);
    assert (items + staged)[k] == items[k];
  }

  class Ring {
    const buf: array<byte>
    var head: uint32
    var tail: uint32
    ghost var written: nat
    ghost var read: nat
    ghost var items: seq<byte>             // what the consumer can read
    ghost var staged: seq<byte>            // what the producer has put in place but not committed

    ghost predicate Valid()
      reads this, buf
    {
      Books(buf[..], head, tail, written, read, items, staged)
    }

    constructor (capacity: nat)
      requires 0 < capacity <= 0x8000_0000 && WORD32 % capacity == 0
      ensures Valid() && fresh(buf) && buf.Length == capacity && items == [] && staged == [] && head == tail == 0
    {
      buf := new byte[capacity](_ => 0);
      head, tail, written, read, items, staged := 0, 0, 0, 0, [], [];
    }

    method Clear()
      requires Valid()
      modifies this
      ensures Valid() && items == [] && staged == [] && head == tail == 0
    {
      head, tail := 0, 0;
      written, read, items, staged := 0, 0, [], [];
    }

    method Size() returns (n: nat)
      requires Valid()
      ensures n == |items|
    {
      hide Books;
      Sizes(buf[..], head, tail, written, read, items, staged);
      n := Minus(head, tail);
    }

    method Free() returns (n: nat)
      requires Valid()
      ensures n == buf.Length - |items|
    {
      hide Books;
      Sizes(buf[..], head, tail, written, read, items, staged);
      n := buf.Length - Minus(head, tail);
    }

    /** The longest run of free cells that starts at the write position. */
    method FreeContig() returns (n: nat)
      requires Valid()
      ensures n == Min(buf.Length - |items|, buf.Length - Index(head, buf.Length))
      ensures |items| < buf.Length ==> n > 0
    {
      hide Books;
      Sizes(buf[..], head, tail, written, read, items, staged);
      var f := Free();
      var toWrap := buf.Length - Index(head, buf.Length);
      n := if f < toWrap then f else toWrap;
    }

    /** dst[k] := b on a reserved span, in order. Reads by the consumer in the meantime only make
        more room, so the span never meets an unread byte. */
    method Stage(k: nat, b: byte)
      requires Valid() && k == |staged| && |items| + k < buf.Length && Index(head, buf.Length) + k < buf.Length
      modifies buf, this`staged
      ensures Valid() && staged == old(staged) + [b]
      ensures buf[..] == old(buf[..])[Index(head, buf.Length) + k := b]
    {
      hide Books;
      BooksStage(buf[..], head, tail, written, read, items, staged, b);
      StageCell(buf[..], head, tail, written, read, items, staged);
      buf[Index(head, buf.Length) + k] := b;
      staged := staged + [b];
    }

    method WriteCommit(n: nat)
      requires Valid() && n <= |staged|
      modifies this`head, this`written, this`items, this`staged
      ensures Valid() && items == old(items) + old(staged)[..n] && staged == old(staged)[n..]
      ensures head == Plus(old(head), n)
    {
      hide Books;
      BooksCommit(buf[..], head, tail, written, read, items, staged, n);
      head := Plus(head, n);
      items, staged, written := items + staged[..n], staged[n..], written + n;
    }

    method ReadContig() returns (n: nat)
      requires Valid()
      ensures n == Min(|items|, buf.Length - Index(tail, buf.Length)) && (items != [] ==> n > 0)
    {
      hide Books;
      Sizes(buf[..], head, tail, written, read, items, staged);
      var s := Size();
      var toWrap := buf.Length - Index(tail, buf.Length);
      n := if s < toWrap then s else toWrap;
    }

    /** readPtr()[k] on the readable span. */
    method Peek(k: nat) returns (b: byte)
      requires Valid() && k < |items| && Index(tail, buf.Length) + k < buf.Length
      ensures b == items[k]
    {
      hide Books;
      Sizes(buf[..], head, tail, written, read, items, staged);
      PeekCell(buf[..], head, tail, written, read, items, staged, k);
      b := buf[Index(tail, buf.Length) + k];
    }

    method ReadCommit(n: nat)
      requires Valid() && n <= |items|
      modifies this`tail, this`read, this`items
      ensures Valid() && items == old(items)[n..] && read == old(read) + n && tail == Plus(old(tail), n)
    {
      hide Books;
      BooksRead(buf[..], head, tail, written, read, items, staged, n);
      tail := Plus(tail, n);
      items, read := items[n..], read + n;
    }

    /** push: as much as the free space seen at the start allows. Before every cell is written the
        consumer may read up to takes(i) bytes; the new bytes become visible all at once. */
    method Push(src: seq<byte>, takes: nat -> nat) returns (n: nat, ghost gone: nat)
      requires Valid() && staged == []
      modifies this, buf
      ensures Valid() && staged == [] && n == Min(|src|, buf.Length - |old(items)|)
      ensures gone <= |old(items)| && items == old(items)[gone..] + src[..n]
      ensures (forall i :: takes(i) == 0) ==> gone == 0 && tail == old(tail)
    {
      hide Books;
      n := Free();
      if |src| < n {
        n := |src|;
      }
      gone := CopyIn(src, n, takes);
    }

    /** pushAll: the whole block or nothing. */
    method PushAll(src: seq<byte>, takes: nat -> nat) returns (ok: bool, ghost gone: nat)
      requires Valid() && staged == []
      modifies this, buf
      ensures Valid() && staged == [] && ok == (|src| <= buf.Length - |old(items)|)
      ensures gone <= |old(items)| && items == old(items)[gone..] + if ok then src else []
    {
      hide Books;
      var f := Free();
      if f < |src| {
        gone := 0;
        return false, 0;
      }
      ok := true;
      gone := CopyIn(src, |src|, takes);
      assert src[..|src|] == src;
    }

    method CopyIn(src: seq<byte>, n: nat, takes: nat -> nat) returns (ghost gone: nat)
      requires Valid() && staged == [] && n <= |src| && n <= buf.Length - |items|
      modifies this, buf
      ensures Valid() && staged == []
      ensures gone <= |old(items)| && items == old(items)[gone..] + src[..n]
      ensures (forall i :: takes(i) == 0) ==> gone == 0 && tail == old(tail)
    {
      hide Books, Index;
      gone := 0;
      var h := head;
      var i := 0;
      while i < n
        invariant i <= n && Valid() && head == h && staged == src[..i] && |items| + n <= buf.Length
        invariant gone <= |old(items)| && items == old(items)[gone..]
        invariant (forall j :: takes(j) == 0) ==> gone == 0 && tail == old(tail)
      {
        var available := Size();
        var taken := Min(takes(i), available);
        ReadCommit(taken);
        gone := gone + taken;
        BooksStage(buf[..], head, tail, written, read, items, staged, src[i]);
        buf[Index(Plus(h, i), buf.Length)] := src[i];
        staged := staged + [src[i]];
        i := i + 1;
      }
      assert src[..n][..n] == src[..n] && src[..n][n..] == [];
      WriteCommit(n);
    }

    /** pop: what was readable at the start, up to len bytes. Before every cell is read the
        producer may push more; or it may be in the middle of a reserved span. */
    method Pop(len: nat, writes: nat -> seq<byte>) returns (dst: seq<byte>, ghost added: seq<byte>)
      requires Valid() && (staged == [] || forall i :: writes(i) == [])
      modifies this, buf
      ensures Valid() && staged == old(staged) && dst == old(items)[..Min(len, |old(items)|)]
      ensures items == old(items)[|dst|..] + added
      ensures (forall i :: writes(i) == []) ==> added == [] && head == old(head)
    {
      hide Books, Index;
      var n := Size();
      if len < n {
        n := len;
      }
      var t := tail;
      dst, added := [], [];
      ghost var before := items;
      assert before + [] == before;
      var i := 0;
      while i < n
        invariant i <= n && Valid() && staged == old(staged) && tail == t
        invariant dst == before[..i] && items == before + added
        invariant (forall j :: writes(j) == []) ==> added == [] && head == old(head)
      {
        if writes(i) != [] {
          var k, gone := Push(writes(i), _ => 0);
          assert before + added + writes(i)[..k] == before + (added + writes(i)[..k]);
          added := added + writes(i)[..k];
        }
        Sizes(buf[..], head, tail, written, read, items, staged);
        BooksCell(buf[..], head, tail, written, read, items, staged, i);
        dst := dst + [buf[Index(Plus(t, i), buf.Length)]];
        i := i + 1;
      }
      assert (before + added)[n..] == before[n..] + added;
      ReadCommit(n);
    }
  }

  lemma StageCell(buf: seq<byte>, head: uint32, tail: uint32, written: nat, read: nat, items: seq<byte>,
                  staged: seq<byte>)
    requires Books(buf, head, tail, written, read, items, staged)
    requires Index(head, |buf|) + |staged| < |buf|
    ensures Index(Plus(head, |staged|), |buf|) == Index(head, |buf|) + |staged|
  {
    CountersWrap(written, read, |staged|);
    SameCell(written + |staged|, |buf|);
    SameCell(written, |buf|);
    hide Index;
    SpanCell(written, |staged|, |buf|);
  }

  lemma PeekCell(buf: seq<byte>, head: uint32, tail: uint32, written: nat, read: nat, items: seq<byte>,
                 staged: seq<byte>, k: nat)
    requires Books(buf, head, tail, written, read, items, staged) && k < |items|
    requires Index(tail, |buf|) + k < |buf|
    ensures buf[Index(tail, |buf|) + k] == items[k]
  {
    BooksCell(buf, head, tail, written, read, items, staged, k);
    CountersWrap(read, read, k);
    SameCell(read + k, |buf|);
    SameCell(read, |buf|);
    hide Index;
    SpanCell(read, k, |buf|);
  }
}
