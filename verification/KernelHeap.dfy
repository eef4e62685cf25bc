/**
 The code of kernel/mm/kmalloc.c: a linked list threaded through headers in memory.

 `Heap.mem` holds the header found at an address.  `ListAt` says that following `next` pointers
 visits exactly the blocks of a sequence; every method is proved to take the sequence to the one
 that module `Kmalloc` specifies.
 */
module KernelHeap {
  import opened Kmalloc

  datatype Header = Header(size: nat, free: bool, next: nat)

  type Memory = map<nat, Header>

  /** Following pointers from `p` visits the blocks `bs`, laid out end to end from `at`, then NULL. */
  ghost predicate ListAt(mem: Memory, p: nat, at: nat, bs: seq<Block>)
    decreases bs
  {
    if bs == [] then p == 0 else
    && p == at && p in mem
    && mem[p].size == bs[0].size && mem[p].free == bs[0].free
    && ListAt(mem, mem[p].next, at + Extent(bs[0]), bs[1..])
  }

  ghost predicate SameHeaders(mem: Memory, mem': Memory, lo: nat, hi: nat) {
    forall a :: lo <= a < hi && a in mem ==> a in mem' && mem'[a] == mem[a]
  }

  lemma {:induction false} ListFrame(mem: Memory, mem': Memory, p: nat, at: nat, bs: seq<Block>)
    requires ListAt(mem, p, at, bs) && SameHeaders(mem, mem', at, at + Span(bs))
    ensures ListAt(mem', p, at, bs)
    decreases bs
  {
    if bs != [] {
      ListFrame(mem, mem', mem[p].next, at + Extent(bs[0]), bs[1..]);
    }
  }

  /** Replacing the end of a list, from some block on, keeps the part before it. */
  lemma {:induction false} ListSplice(mem: Memory, mem': Memory, p: nat, at: nat,
                                      pre: seq<Block>, rest: seq<Block>, rest': seq<Block>)
    requires ListAt(mem, p, at, pre + rest) && rest != [] && rest' != []
    requires SameHeaders(mem, mem', at, at + Span(pre))
    requires ListAt(mem', at + Span(pre), at + Span(pre), rest')
    ensures ListAt(mem', p, at, pre + rest')
    decreases pre
  {
    if pre == [] {
      assert pre + rest == rest && pre + rest' == rest';
    } else {
      assert (pre + rest)[1..] == pre[1..] + rest && (pre + rest')[1..] == pre[1..] + rest';
      ListSplice(mem, mem', mem[p].next, at + Extent(pre[0]), pre[1..], rest, rest');
    }
  }

  lemma {:induction false} ListMarkFree(mem: Memory, p: nat, at: nat, bs: seq<Block>, a: Allocation)
    requires ListAt(mem, p, at, bs) && a in Live(bs, at)
    ensures a.header in mem
    ensures ListAt(mem[a.header := mem[a.header].(free := true)], p, at, MarkFree(bs, at, a.header))
    decreases bs
  {
    LiveTail(bs, at);
    var end := at + Extent(bs[0]);
    if at == a.header {
      var mem' := mem[at := mem[at].(free := true)];
      ListFrame(mem, mem', mem[p].next, end, bs[1..]);
      assert MarkFree(bs, at, at)[1..] == bs[1..];
    } else {
      ListMarkFree(mem, mem[p].next, end, bs[1..], a);
      assert MarkFree(bs, at, a.header)[1..] == MarkFree(bs[1..], end, a.header);
    }
  }

  /** Some byte of a header at `x` lies in the payload of a live block. */
  ghost predicate InPayload(bs: seq<Block>, at: nat, x: nat) {
    exists a :: a in Live(bs, at) && a.header < x < a.header + HEADER_SIZE + a.size
  }

  /**
   Stores that clients make inside live payloads, and anywhere below the list, leave the list as
   it is: no byte of a header in the list lies inside a live payload.
   */
  lemma {:induction false} PayloadStoresKeepList(mem: Memory, mem': Memory, p: nat, at: nat, bs: seq<Block>)
    requires ListAt(mem, p, at, bs)
    requires forall x :: x in mem && x >= at && !InPayload(bs, at, x) ==> x in mem' && mem'[x] == mem[x]
    ensures ListAt(mem', p, at, bs)
    decreases bs
  {
    if bs != [] {
      forall a | a in Live(bs, at) ensures a.header >= at {
        LiveRange(bs, at, a);
      }
      PayloadStoresKeepList(mem, mem', mem[p].next, at + Extent(bs[0]), bs[1..]);
    }
  }

  lemma CarvedListAt(mem: Memory, ptr: nat, rest: seq<Block>, n: nat)
    requires rest != [] && ptr in mem && !mem[ptr].free
    requires var c := Carve(rest[0], n);
      && mem[ptr].size == c[0].size
      && var last := ptr + Extent(rest[0]);
      if |c| == 1 then ListAt(mem, mem[ptr].next, last, rest[1..])
      else
        var split := ptr + HEADER_SIZE + n;
        && mem[ptr].next == split && split in mem && mem[split].size == c[1].size && mem[split].free
        && ListAt(mem, mem[split].next, last, rest[1..])
    ensures ListAt(mem, ptr, ptr, Carve(rest[0], n) + rest[1..])
  {
    var c := Carve(rest[0], n);
    var carved := c + rest[1..];
    if |c| == 2 {
      var tail := [c[1]] + rest[1..];
      assert carved[1..] == tail && tail[1..] == rest[1..];
    } else {
      assert carved[1..] == rest[1..];
    }
  }

  lemma CarveSpan(b: Block, n: nat)
    ensures Span(Carve(b, n)) == Extent(b)
  {
    var c := Carve(b, n);
    if |c| == 2 {
      var t := c[1..];
      assert t[0] == c[1] && t[1..] == [];
      assert Span(t) == Extent(c[1]);
    }
  }

  /** The headers after the block at `ptr` is split and taken. */
  function SplitHeaders(mem: Memory, ptr: nat, n: nat): Memory
    requires ptr in mem
  {
    var h, split := mem[ptr], ptr + HEADER_SIZE + n;
    if h.size >= n + HEADER_SIZE + 8
    then mem[split := Header(h.size - n - HEADER_SIZE, true, h.next)][ptr := Header(n, false, split)]
    else mem[ptr := h.(free := false)]
  }

  lemma SplitKeepsList(mem: Memory, head: nat, ptr: nat, pre: seq<Block>, rest: seq<Block>, n: nat)
    requires rest != [] && ListAt(mem, head, HEAP_START, pre + rest)
    requires ListAt(mem, ptr, HEAP_START + Span(pre), rest) && Span(pre) + Span(rest) == HEAP_SIZE
    ensures ptr == HEAP_START + Span(pre) && ptr in mem
    ensures mem[ptr].size == rest[0].size && rest[0].size <= HEAP_SIZE
    ensures var carved := Carve(rest[0], n) + rest[1..];
      ListAt(SplitHeaders(mem, ptr, n), head, HEAP_START, pre + carved) && Span(pre + carved) == HEAP_SIZE
  {
    hide Live, Allocate;
    var mem' := SplitHeaders(mem, ptr, n);
    var carved := Carve(rest[0], n) + rest[1..];
    ListFrame(mem, mem', mem[ptr].next, ptr + Extent(rest[0]), rest[1..]);
    CarvedListAt(mem', ptr, rest, n);
    ListSplice(mem, mem', head, HEAP_START, pre, rest, carved);
    CarveSpan(rest[0], n);
    SpanConcat(Carve(rest[0], n), rest[1..]);
    SpanConcat(pre, carved);
  }

  class Heap {
    var mem: Memory
    var head: nat
    ghost var blocks: seq<Block>

    ghost predicate Valid()
      reads this
    {
      ListAt(mem, head, HEAP_START, blocks) && Span(blocks) == HEAP_SIZE
    }

    constructor Init()
      ensures Valid() && blocks == INITIAL
    {
      head := HEAP_START;
      mem := map[HEAP_START := Header(HEAP_SIZE - HEADER_SIZE, true, 0)];
      blocks := INITIAL;
      new;
      assert INITIAL[1..] == [];
    }

    method Kmalloc(size: nat) returns (p: nat)
      requires Valid() && size < WORD
      modifies this
      ensures Valid() && head == old(head)
      ensures blocks == Malloc(old(blocks), size).0
      ensures p == Malloc(old(blocks), size).1
    {
      hide Live, Carve;
      if size == 0 {
        return 0;
      }
      var n := Align8(size);
      var ptr: nat := head;
      ghost var pre, rest := [], blocks;
      while ptr != 0
        invariant Valid() && head == old(head) && blocks == old(blocks) == pre + rest
        invariant ListAt(mem, ptr, HEAP_START + Span(pre), rest)
        invariant Allocate(blocks, n) == pre + Allocate(rest, n)
        invariant Chosen(blocks, HEAP_START, n) == Chosen(rest, HEAP_START + Span(pre), n)
        decreases |rest|
      {
        if mem[ptr].free && mem[ptr].size >= n {
          SpanConcat(pre, rest);
          SplitAt(pre, rest, ptr, n);
          return ptr + HEADER_SIZE;
        }
        ptr := mem[ptr].next;
        StepOver(pre, rest);
        SkipBlock(pre, rest, n);
        pre, rest := pre + [rest[0]], rest[1..];
      }
      return 0;
    }

    /** The tail of the loop body: split the block at `ptr` if it is large enough, and take it, whatever it is now. */
    method SplitAt(ghost pre: seq<Block>, ghost rest: seq<Block>, ptr: nat, n: nat)
      requires Valid() && blocks == pre + rest && rest != [] && n <= HEAP_SIZE
      requires ListAt(mem, ptr, HEAP_START + Span(pre), rest) && Span(pre) + Span(rest) == HEAP_SIZE
      modifies this
      ensures Valid() && head == old(head) && blocks == pre + (Carve(rest[0], n) + rest[1..])
      ensures blocks == Commit(old(blocks), HEAP_START, ptr, n)
    {
      hide Live, Allocate, Carve, ListAt;
      SplitKeepsList(mem, head, ptr, pre, rest, n);
      ghost var after := SplitHeaders(mem, ptr, n);
      if mem[ptr].size >= (n + HEADER_SIZE + 8) % WORD {
        var split := ptr + HEADER_SIZE + n;
        mem := mem[split := Header(mem[ptr].size - n - HEADER_SIZE, true, mem[ptr].next)];
        mem := mem[ptr := Header(n, mem[ptr].free, split)];
      }
      mem := mem[ptr := mem[ptr].(free := false)];
      assert mem == after;
      CommitAt(pre, HEAP_START, rest, n);
      blocks := pre + (Carve(rest[0], n) + rest[1..]);
    }

    method Kfree(ptr: nat)
      requires Valid() && (ptr == 0 || LivePointer(blocks, ptr))
      modifies this
      ensures Valid() && head == old(head)
      ensures blocks == Free(old(blocks), ptr)
    {
      if ptr == 0 {
        return;
      }
      var b := ptr - HEADER_SIZE;
      ghost var a := AllocationOf(blocks, ptr);
      ListMarkFree(mem, head, HEAP_START, blocks, a);
      MarkFreeLive(blocks, HEAP_START, a);
      mem := mem[b := mem[b].(free := true)];
      blocks := MarkFree(blocks, HEAP_START, b);
      Sweep();
    }

    /** The outer loop of `kfree`: one pass over the list, merging as it goes. */
    method Sweep()
      requires Valid()
      modifies this
      ensures Valid() && head == old(head)
      ensures blocks == Coalesce(old(blocks))
    {
      hide Live, LivePointer, Coalesce, Span;
      var cur: nat := head;
      ghost var pre, rest := [], blocks;
      NoSpan();
      while cur != 0
        invariant Valid() && head == old(head) && blocks == pre + rest
        invariant ListAt(mem, cur, HEAP_START + Span(pre), rest)
        invariant Coalesce(old(blocks)) == pre + Coalesce(rest)
        decreases |rest|
      {
        assert rest != [];
        rest := MergeFrom(pre, rest, cur);
        cur := mem[cur].next;
        SweepStep(pre, rest);
        pre, rest := pre + [rest[0]], rest[1..];
      }
      SweptAll(pre, rest);
    }

    /** The body of the inner loop: absorb the free block after the one at `cur`. */
    method MergeOne(ghost pre: seq<Block>, ghost rest: seq<Block>, cur: nat)
      requires Valid() && blocks == pre + rest && |rest| >= 2 && rest[0].free && rest[1].free
      requires ListAt(mem, cur, HEAP_START + Span(pre), rest)
      modifies this
      ensures Valid() && head == old(head)
      ensures var merged := [Merge(rest[0], rest[1])] + rest[2..];
        blocks == pre + merged && ListAt(mem, cur, HEAP_START + Span(pre), merged)
    {
      hide Live, LivePointer, Coalesce;
      ghost var before := mem;
      var next := mem[cur].next;
      mem := mem[cur := mem[cur].(size := mem[cur].size + HEADER_SIZE + mem[next].size)];
      mem := mem[cur := mem[cur].(next := mem[next].next)];
      ghost var merged := [Merge(rest[0], rest[1])] + rest[2..];
      assert rest[1..][1..] == rest[2..] && merged[1..] == rest[2..];
      ListFrame(before, mem, before[next].next, cur + Extent(merged[0]), rest[2..]);
      ListSplice(before, mem, head, HEAP_START, pre, rest, merged);
      SpanConcat(pre, rest);
      SpanConcat(pre, merged);
      MergeFacts(rest, cur);
      blocks := pre + merged;
    }

    /** The inner loop: absorb into the block at `cur` every free block that follows it. */
    method MergeFrom(ghost pre: seq<Block>, ghost start: seq<Block>, cur: nat) returns (ghost rest: seq<Block>)
      requires Valid() && blocks == pre + start && start != []
      requires ListAt(mem, cur, HEAP_START + Span(pre), start)
      modifies this
      ensures Valid() && head == old(head) && blocks == pre + rest
      ensures rest != [] && |rest| <= |start|
      ensures ListAt(mem, cur, HEAP_START + Span(pre), rest)
      ensures Coalesce(start) == Coalesce(rest) == [rest[0]] + Coalesce(rest[1..])
    {
      hide Live, LivePointer;
      rest := start;
      while mem[cur].free && mem[cur].next != 0 && mem[mem[cur].next].free
        invariant Valid() && head == old(head) && blocks == pre + rest
        invariant rest != [] && |rest| <= |start|
        invariant ListAt(mem, cur, HEAP_START + Span(pre), rest)
        invariant Coalesce(start) == Coalesce(rest)
        decreases |rest|
      {
        MergeOne(pre, rest, cur);
        rest := [Merge(rest[0], rest[1])] + rest[2..];
      }
      assert |rest| == 1 ==> rest == [rest[0]] + [];
    }
  }

  lemma {:induction false} StepOver(pre: seq<Block>, rest: seq<Block>)
    requires rest != []
    ensures pre + rest == (pre + [rest[0]]) + rest[1..]
    ensures Span(pre + [rest[0]]) == Span(pre) + Extent(rest[0])
  {
    var one := [rest[0]];
    assert one[1..] == [];
    SpanConcat(pre, one);
  }

  lemma NoSpan()
    ensures Span([]) == 0
  {
  }

  lemma SweepStep(pre: seq<Block>, rest: seq<Block>)
    requires rest != []
    ensures pre + ([rest[0]] + Coalesce(rest[1..])) == (pre + [rest[0]]) + Coalesce(rest[1..])
    ensures pre + rest == (pre + [rest[0]]) + rest[1..]
    ensures Span(pre + [rest[0]]) == Span(pre) + Extent(rest[0])
  {
    hide Coalesce;
    StepOver(pre, rest);
  }

  lemma SweptAll(pre: seq<Block>, rest: seq<Block>)
    requires rest == []
    ensures pre + Coalesce(rest) == pre + rest
  {
  }

  lemma {:induction false} SkipBlock(pre: seq<Block>, rest: seq<Block>, n: nat)
    requires rest != [] && !Fits(rest[0], n)
    ensures pre + Allocate(rest, n) == (pre + [rest[0]]) + Allocate(rest[1..], n)
    ensures Chosen(rest, HEAP_START + Span(pre), n) ==
            Chosen(rest[1..], HEAP_START + Span(pre + [rest[0]]), n)
  {
    StepOver(pre, rest);
    var tail := Allocate(rest[1..], n);
    assert pre + ([rest[0]] + tail) == (pre + [rest[0]]) + tail;
  }
}
