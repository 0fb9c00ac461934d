/** Facts about concatenated blocks that the reading loops need. */
module Reads {
  import opened Bytes
  import opened Directory
  import opened Disk
  import opened Inode
  import opened Extents
  import opened Volume

  lemma {:induction false} ConcatAppend(d: Disk, a: seq<nat>, b: seq<nat>)
    ensures Concat(d, a + b) == Concat(d, a) + Concat(d, b)
  {
    hide Blk;
    if b == [] {
      assert a + b == a;
    } else {
      var n := |b| - 1;
      assert (a + b)[..|a + b| - 1] == a + b[..n];
      ConcatAppend(d, a, b[..n]);
    }
  }

  lemma {:induction false} ListingsAppend(d: Disk, a: seq<nat>, b: seq<nat>)
    ensures Listings(d, a + b) == Listings(d, a) + Listings(d, b)
  {
    hide Blk, Parse;
    if b == [] {
      assert a + b == a;
    } else {
      var n := |b| - 1;
      assert (a + b)[..|a + b| - 1] == a + b[..n];
      ListingsAppend(d, a, b[..n]);
    }
  }

  lemma ConcatOne(d: Disk, a: seq<nat>, b: nat)
    ensures Concat(d, a + [b]) == Concat(d, a) + Blk(d, b)
    ensures Listings(d, a + [b]) == Listings(d, a) + Parse(Blk(d, b), d.g.blockSize)
  {
    hide Blk, Parse;
    assert (a + [b])[..|a|] == a;
  }

  /** Once enough blocks are read, more blocks do not change the truncated data. */
  lemma TakeEnough(d: Disk, a: seq<nat>, b: seq<nat>, size: nat)
    requires size <= |Concat(d, a)|
    ensures Take(Concat(d, a + b), size) == Take(Concat(d, a), size)
  {
    hide Concat;
    ConcatAppend(d, a, b);
  }

  lemma RunsOne(es: seq<Extent>, k: nat)
    requires k < |es|
    ensures Runs(es[..k + 1]) == Runs(es[..k]) + Run(es[k])
  {
    hide Run;
    assert es[..k + 1][..k] == es[..k];
  }

  lemma {:induction false} RunsAppend(a: seq<Extent>, b: seq<Extent>)
    ensures Runs(a + b) == Runs(a) + Runs(b)
  {
    hide Run;
    if b == [] {
      assert a + b == a;
    } else {
      var n := |b| - 1;
      assert (a + b)[..|a + b| - 1] == a + b[..n];
      RunsAppend(a, b[..n]);
    }
  }

  lemma RunsSplit(es: seq<Extent>, k: nat)
    requires k <= |es|
    ensures Runs(es) == Runs(es[..k]) + Runs(es[k..])
  {
    assert es == es[..k] + es[k..];
    RunsAppend(es[..k], es[k..]);
  }

  /** The blocks of one extent are among the blocks of all. */
  lemma RunWithin(es: seq<Extent>, k: nat)
    requires k < |es|
    ensures forall b :: b in Run(es[k]) ==> b in Runs(es)
  {
    hide Run;
    RunsOne(es, k);
    RunsSplit(es, k + 1);
  }

  /** The blocks read after `i` turns of the inner loop. */
  function Done(before: seq<nat>, e: Extent, i: nat): seq<nat>
    requires i <= e.length
  {
    before + Run(e)[..i]
  }

  lemma DoneEnds(before: seq<nat>, e: Extent)
    ensures Done(before, e, 0) == before && Done(before, e, e.length) == before + Run(e)
  {
    assert Run(e)[..e.length] == Run(e);
  }

  lemma DoneStep(d: Disk, before: seq<nat>, e: Extent, i: nat)
    requires i < e.length
    ensures e.physical + i in Run(e)
    ensures Concat(d, Done(before, e, i + 1)) == Concat(d, Done(before, e, i)) + Blk(d, e.physical + i)
    ensures Listings(d, Done(before, e, i + 1))
         == Listings(d, Done(before, e, i)) + Parse(Blk(d, e.physical + i), d.g.blockSize)
  {
    hide Concat, Listings, Blk, Parse;
    assert Run(e)[i] == e.physical + i;
    assert Done(before, e, i + 1) == Done(before, e, i) + [e.physical + i];
    ConcatOne(d, Done(before, e, i), e.physical + i);
  }

  lemma DoneEnough(d: Disk, before: seq<nat>, e: Extent, i: nat, size: nat)
    requires i <= e.length && size <= |Concat(d, Done(before, e, i))|
    ensures var all := Concat(d, before + Run(e));
            size <= |all| && Take(all, size) == Concat(d, Done(before, e, i))[..size]
  {
    hide Concat, Run;
    assert before + Run(e) == Done(before, e, i) + Run(e)[i..];
    TakeEnough(d, Done(before, e, i), Run(e)[i..], size);
    ConcatAppend(d, Done(before, e, i), Run(e)[i..]);
  }

  /** The contents of whole blocks, block by block. */
  lemma {:induction false} ConcatSlice(d: Disk, blocks: seq<nat>, bs: nat, j: nat)
    requires forall b :: b in blocks ==> |Blk(d, b)| == bs
    requires j < |blocks|
    ensures |Concat(d, blocks)| == |blocks| * bs && j * bs + bs <= |Concat(d, blocks)|
    ensures Concat(d, blocks)[j * bs..j * bs + bs] == Blk(d, blocks[j])
  {
    hide Blk;
    var n := |blocks| - 1;
    ConcatLength(d, blocks, bs);
    ConcatLength(d, blocks[..n], bs);
    MulNext(j, |blocks|, bs);
    if j < n {
      MulNext(j, n, bs);
      ConcatSlice(d, blocks[..n], bs, j);
      var all, most := Concat(d, blocks), Concat(d, blocks[..n]);
      assert all[..|most|] == most;
      SliceAgrees(all, most, |most|, j * bs, j * bs + bs);
    }
  }

  lemma {:induction false} ConcatLength(d: Disk, blocks: seq<nat>, bs: nat)
    requires forall b :: b in blocks ==> |Blk(d, b)| == bs
    ensures |Concat(d, blocks)| == |blocks| * bs
  {
    hide Blk;
    if blocks != [] {
      var n := |blocks| - 1;
      ConcatLength(d, blocks[..n], bs);
      assert n * bs + bs == |blocks| * bs;
    }
  }
}
