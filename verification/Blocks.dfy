/** Lists cut into blocks by a separator, and the values their elements give; used by the stream reader. */
module Blocks {
  import opened Bags

  /** The elements after the last separator. */
  function OpenBlock<T(==)>(items: seq<T>, stop: T): seq<T>
  {
    if items == [] || items[|items| - 1] == stop then []
    else OpenBlock(items[..|items| - 1], stop) + [items[|items| - 1]]
  }

  /** The blocks that a separator ends, in order. */
  function ClosedBlocks<T(==)>(items: seq<T>, stop: T): seq<seq<T>>
  {
    if items == [] then []
    else
      var before := items[..|items| - 1];
      if items[|items| - 1] == stop then ClosedBlocks(before, stop) + [OpenBlock(before, stop)] else ClosedBlocks(before, stop)
  }

  lemma BlockSnoc<T>(items: seq<T>, stop: T, x: T)
    ensures OpenBlock(items + [x], stop) == if x == stop then [] else OpenBlock(items, stop) + [x]
    ensures ClosedBlocks(items + [x], stop)
         == if x == stop then ClosedBlocks(items, stop) + [OpenBlock(items, stop)] else ClosedBlocks(items, stop)
  {
    assert (items + [x])[..|items|] == items;
  }

  lemma {:induction false} BlockAppend<T>(items: seq<T>, stop: T, block: seq<T>)
    requires stop !in block
    ensures OpenBlock(items + block, stop) == OpenBlock(items, stop) + block
    ensures ClosedBlocks(items + block, stop) == ClosedBlocks(items, stop)
    decreases |block|
  {
    if block == [] {
      assert items + block == items;
    } else {
      var more := items + [block[0]];
      BlockSnoc(items, stop, block[0]);
      BlockAppend(more, stop, block[1..]);
      assert more + block[1..] == items + block;
      assert OpenBlock(items, stop) + block == (OpenBlock(items, stop) + [block[0]]) + block[1..];
    }
  }

  /** A block written after a separator, and its own separator. */
  lemma BlockCloses<T>(items: seq<T>, stop: T, block: seq<T>)
    requires OpenBlock(items, stop) == [] && stop !in block
    ensures OpenBlock(items + (block + [stop]), stop) == []
    ensures ClosedBlocks(items + (block + [stop]), stop) == ClosedBlocks(items, stop) + [block]
  {
    BlockAppend(items, stop, block);
    assert [] + block == block;
    BlockSnoc(items + block, stop, stop);
    assert items + (block + [stop]) == (items + block) + [stop];
  }

  /** The values the elements give, in order. */
  function Collect<T, V>(items: seq<T>, f: T -> Option<V>): seq<V>
  {
    if items == [] then []
    else
      var v := f(items[|items| - 1]);
      if v.Some? then Collect(items[..|items| - 1], f) + [v.value] else Collect(items[..|items| - 1], f)
  }

  lemma CollectSnoc<T, V>(items: seq<T>, x: T, f: T -> Option<V>)
    ensures Collect(items + [x], f) == if f(x).Some? then Collect(items, f) + [f(x).value] else Collect(items, f)
  {
    assert (items + [x])[..|items|] == items;
  }

  lemma {:induction false} CollectConcat<T, V>(a: seq<T>, b: seq<T>, f: T -> Option<V>)
    ensures Collect(a + b, f) == Collect(a, f) + Collect(b, f)
  {
    if b == [] {
      assert a + b == a;
    } else {
      var before, x := b[..|b| - 1], b[|b| - 1];
      assert a + b == (a + before) + [x];
      CollectConcat(a, before, f);
      CollectSnoc(a + before, x, f);
    }
  }

  lemma {:induction false} CollectAll<T, V>(items: seq<T>, f: T -> Option<V>, vs: seq<V>)
    requires |items| == |vs| && forall i :: 0 <= i < |vs| ==> f(items[i]) == Some(vs[i])
    ensures Collect(items, f) == vs
  {
    if vs != [] {
      var n := |vs| - 1;
      CollectAll(items[..n], f, vs[..n]);
      assert vs == vs[..n] + [vs[n]];
    }
  }

  lemma {:induction false} CollectNone<T, V>(items: seq<T>, f: T -> Option<V>)
    requires forall i :: 0 <= i < |items| ==> f(items[i]) == None
    ensures Collect(items, f) == []
  {
    if items != [] { CollectNone(items[..|items| - 1], f); }
  }
}
