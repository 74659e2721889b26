/** The block index tree, its skip list and the active chain (src/chain.cpp, src/chain.h). */
module Chains {
  import opened Powers

  // ---- Heights to skip to ----

  /** Bitwise and. */
  function And(a: nat, b: nat): nat {
    if a == 0 then 0 else a % 2 * (b % 2) + 2 * And(a / 2, b / 2)
  }

  /** n & (n - 1) */
  function InvertLowestOne(n: nat): nat {
    if n == 0 then 0 else And(n, n - 1)
  }

  lemma {:induction false} AndBelow(a: nat, b: nat)
    ensures And(a, b) <= b
  {
    if a != 0 { AndBelow(a / 2, b / 2); }
  }

  function GetSkipHeight(height: nat): nat {
    if height < 2 then 0
    else if height % 2 == 1 then InvertLowestOne(InvertLowestOne(height - 1)) + 1
    else InvertLowestOne(height)
  }

  lemma {:induction false} SkipBelow(height: nat)
    requires height > 0
    ensures GetSkipHeight(height) < height
  {
    if height >= 2 {
      var n := if height % 2 == 1 then height - 1 else height;
      AndBelow(n, n - 1);
      var m := InvertLowestOne(n);
      if m > 0 { AndBelow(m, m - 1); }
    }
  }

  // ---- The tree ----

  class BlockIndex {
    const pprev: BlockIndex?
    const nHeight: nat
    var pskip: BlockIndex?

    constructor Genesis()
      ensures pprev == null && nHeight == 0 && pskip == null
    {
      pprev, nHeight, pskip := null, 0, null;
    }

    constructor Child(prev: BlockIndex)
      ensures pprev == prev && nHeight == prev.nHeight + 1 && pskip == null
    {
      pprev, nHeight, pskip := prev, prev.nHeight + 1, null;
    }
  }

  /** Heights count the steps to the genesis block. */
  ghost predicate InTree(b: BlockIndex)
    decreases b.nHeight
  {
    if b.pprev == null then b.nHeight == 0 else b.nHeight == b.pprev.nHeight + 1 && InTree(b.pprev)
  }

  /** A block and the blocks before it. */
  ghost function Line(b: BlockIndex): set<BlockIndex>
    requires InTree(b)
    decreases b.nHeight
  {
    {b} + if b.pprev == null then {} else Line(b.pprev)
  }

  /** The plain walk back. */
  ghost function AncestorAt(b: BlockIndex, height: nat): (r: BlockIndex)
    requires InTree(b) && height <= b.nHeight
    ensures InTree(r) && r.nHeight == height && r in Line(b)
    decreases b.nHeight
  {
    if height == b.nHeight then b else AncestorAt(b.pprev, height)
  }

  lemma {:induction false} AncestorOfAncestor(b: BlockIndex, h: nat, g: nat)
    requires InTree(b) && g <= h <= b.nHeight
    ensures AncestorAt(AncestorAt(b, h), g) == AncestorAt(b, g)
    decreases b.nHeight
  {
    if h != b.nHeight { AncestorOfAncestor(b.pprev, h, g); }
  }

  /** A block's line consists of its ancestors, one per height. */
  lemma {:induction false} InLine(b: BlockIndex, x: BlockIndex)
    requires InTree(b)
    ensures x in Line(b) <==> x.nHeight <= b.nHeight && AncestorAt(b, x.nHeight) == x
    ensures x in Line(b) ==> InTree(x) && Line(x) <= Line(b)
    decreases b.nHeight
  {
    if b.pprev != null { InLine(b.pprev, x); }
  }

  ghost predicate SkipTo(b: BlockIndex, target: BlockIndex?)
    requires InTree(b)
  {
    target != null ==>
        b.nHeight > 0 && GetSkipHeight(b.nHeight) <= b.nHeight && target == AncestorAt(b, GetSkipHeight(b.nHeight))
  }

  ghost predicate SkipOk(b: BlockIndex)
    requires InTree(b)
    reads b
  {
    SkipTo(b, b.pskip)
  }

  /** A set of blocks with their ancestors, whose skip pointers lead to the ancestors they are
      meant to. */
  ghost predicate TreeOk(tree: set<BlockIndex>)
    reads tree
  {
    forall x {:trigger InTree(x)} :: x in tree ==> InTree(x) && Line(x) <= tree && SkipOk(x)
  }

  lemma {:induction false} AncestorInTree(tree: set<BlockIndex>, b: BlockIndex, h: nat)
    requires TreeOk(tree) && b in tree && InTree(b) && h <= b.nHeight
    ensures AncestorAt(b, h) in tree
  {
  }

  /** The ancestor at a height, by skip pointers where they help. */
  method GetAncestor(b: BlockIndex, height: int, ghost tree: set<BlockIndex>) returns (r: BlockIndex?)
    requires TreeOk(tree) && b in tree && InTree(b)
    ensures r == if 0 <= height <= b.nHeight then AncestorAt(b, height) else null
    ensures r != null ==> r in tree
  {
    if height > b.nHeight || height < 0 { return null; }
    var walk: BlockIndex, heightWalk := b, b.nHeight;
    while heightWalk > height
      invariant walk in tree && InTree(walk) && walk.nHeight == heightWalk >= height
      invariant AncestorAt(walk, height) == AncestorAt(b, height)
      decreases heightWalk
    {
      SkipBelow(heightWalk);
      var heightSkip := GetSkipHeight(heightWalk);
      var heightSkipPrev := GetSkipHeight(heightWalk - 1);
      if walk.pskip != null && (heightSkip == height
          || (heightSkip > height && !(heightSkipPrev < heightSkip - 2 && heightSkipPrev >= height))) {
        AncestorOfAncestor(walk, heightSkip, height);
        AncestorInTree(tree, walk, heightSkip);
        walk := walk.pskip;
        heightWalk := heightSkip;
      } else {
        AncestorInTree(tree, walk, heightWalk - 1);
        walk := walk.pprev;
        heightWalk := heightWalk - 1;
      }
    }
    r := walk;
  }

  /** Set the skip pointer of a block of the tree. */
  method BuildSkip(b: BlockIndex, ghost tree: set<BlockIndex>)
    requires TreeOk(tree) && b in tree && InTree(b)
    modifies b`pskip
    ensures TreeOk(tree)
    ensures b.pprev != null ==>
            GetSkipHeight(b.nHeight) <= b.nHeight && b.pskip == AncestorAt(b, GetSkipHeight(b.nHeight))
  {
    if b.pprev != null {
      SkipBelow(b.nHeight);
      AncestorInTree(tree, b, b.nHeight - 1);
      var skip := GetAncestor(b.pprev, GetSkipHeight(b.nHeight), tree);
      b.pskip := skip;
    }
  }

  /** A new block on top of another, with its skip pointer. */
  method AddBlock(prev: BlockIndex, ghost tree: set<BlockIndex>) returns (b: BlockIndex)
    requires TreeOk(tree) && prev in tree
    ensures fresh(b) && InTree(b) && b.pprev == prev && TreeOk(tree + {b}) && b.pskip != null
  {
    assert InTree(prev);
    b := new BlockIndex.Child(prev);
    assert Line(b) == {b} + Line(prev);
    forall x | x in tree + {b} ensures InTree(x) && Line(x) <= tree + {b} && SkipOk(x) {
      if x != b { assert old(SkipOk(x)); }
    }
    BuildSkip(b, tree + {b});
  }

  // ---- Common ancestors ----

  ghost predicate CommonAncestor(a: BlockIndex, b: BlockIndex, x: BlockIndex)
    requires InTree(a) && InTree(b)
  {
    x in Line(a) && x in Line(b)
  }

  /** The highest common ancestor, or null if there is none. */
  method LastCommonAncestor(a: BlockIndex, b: BlockIndex, ghost tree: set<BlockIndex>) returns (r: BlockIndex?)
    requires TreeOk(tree) && a in tree && b in tree && InTree(a) && InTree(b)
    ensures r != null ==> CommonAncestor(a, b, r)
    ensures forall x :: x in Line(a) && x in Line(b) ==> r != null && x.nHeight <= r.nHeight
    ensures AncestorAt(a, 0) == AncestorAt(b, 0) ==> r != null
  {
    var pa: BlockIndex?, pb: BlockIndex? := a, b;
    if a.nHeight > b.nHeight {
      pa := GetAncestor(a, b.nHeight, tree);
    } else if b.nHeight > a.nHeight {
      pb := GetAncestor(b, a.nHeight, tree);
    }
    forall x | x in Line(a) && x in Line(b) ensures x.nHeight <= a.nHeight && x.nHeight <= b.nHeight {
      InLine(a, x);
      InLine(b, x);
    }
    while pa != pb && pa != null && pb != null
      invariant (pa == null) == (pb == null)
      invariant pa != null && pb != null ==>
              InTree(pa) && InTree(pb) && pa.nHeight == pb.nHeight && pa in Line(a) && pb in Line(b)
      invariant forall x :: x in Line(a) && x in Line(b) ==> pa != null && pb != null && x.nHeight <= pa.nHeight
      decreases if pa == null then 0 else pa.nHeight + 1
    {
      LowerCommon(a, b, pa, pb);
      pa := pa.pprev;
      pb := pb.pprev;
    }
    r := pa;
    assert AncestorAt(a, 0) in Line(a) && AncestorAt(b, 0) in Line(b);
  }

  /** Different blocks of one height: common ancestors are lower. */
  lemma {:induction false} LowerCommon(a: BlockIndex, b: BlockIndex, pa: BlockIndex, pb: BlockIndex)
    requires InTree(a) && InTree(b) && pa in Line(a) && pb in Line(b) && pa != pb && pa.nHeight == pb.nHeight
    ensures InTree(pa) && InTree(pb) && (pa.pprev == null <==> pb.pprev == null)
    ensures pa.pprev != null && pb.pprev != null ==> pa.pprev in Line(a) && pb.pprev in Line(b)
    ensures forall x :: x in Line(a) && x in Line(b) && x.nHeight <= pa.nHeight ==>
            pa.pprev != null && x.nHeight < pa.nHeight
  {
    InLine(a, pa);
    InLine(b, pb);
    forall x | x in Line(a) && x in Line(b) && x.nHeight <= pa.nHeight ensures pa.pprev != null
        && x.nHeight < pa.nHeight {
      InLine(a, x);
      InLine(b, x);
    }
    if pa.pprev != null && pb.pprev != null {
      assert pa.pprev in Line(pa) && pb.pprev in Line(pb);
    }
  }

  // ---- The active chain ----

  class Chain {
    var vChain: seq<BlockIndex?>

    constructor ()
      ensures Valid() && vChain == []
    {
      vChain := [];
    }

    /** Entry i is the tip's ancestor at height i. */
    ghost predicate Valid()
      reads this
    {
      vChain != [] ==> ConsistsOf(vChain, vChain[|vChain| - 1])
    }

    function Tip(): BlockIndex?
      reads this
    {
      if |vChain| > 0 then vChain[|vChain| - 1] else null
    }

    function At(height: int): BlockIndex?
      reads this
    {
      if height < 0 || height >= |vChain| then null else vChain[height]
    }

    predicate Contains(b: BlockIndex)
      reads this
    {
      At(b.nHeight) == b
    }

    function Height(): int
      reads this
    {
      |vChain| - 1
    }

    /** Make `block` the tip, rewriting entries only until one is right already. */
    method SetTip(block: BlockIndex)
      requires Valid() && InTree(block)
      modifies this
      ensures Valid() && Tip() == block && ConsistsOf(vChain, block)
    {
      ghost var before := vChain;
      var n := block.nHeight + 1;
      vChain := if n <= |vChain| then vChain[..n] else vChain + seq(n - |vChain|, _ => null);
      var index: BlockIndex? := block;
      while index != null && vChain[index.nHeight] != index
        invariant |vChain| == n
        invariant (index != null ==> InTree(index) && index.nHeight < n && index == AncestorAt(block, index.nHeight))
        invariant forall i {:trigger vChain[i]} :: (if index == null then 0 else index.nHeight + 1) <= i < n ==>
                vChain[i] == AncestorAt(block, i)
        invariant forall i {:trigger vChain[i]} :: 0 <= i < n && index != null && i <= index.nHeight ==>
                vChain[i] == if i < |before| then before[i] else null
        decreases if index == null then 0 else index.nHeight + 1
      {
        var h := index.nHeight;
        if index.pprev != null { AncestorOfAncestor(block, h, h - 1); }
        vChain := vChain[h := index];
        index := index.pprev;
      }
      if index != null {
        var h := index.nHeight;
        forall i | 0 <= i <= h ensures vChain[i] == AncestorAt(block, i) {
          OldEntries(before, h, i);
          AncestorOfAncestor(block, h, i);
        }
      }
    }

    /** The last block of the chain that is an ancestor of `b`, or null if none is. */
    method FindFork(b: BlockIndex?, ghost tree: set<BlockIndex>) returns (r: BlockIndex?)
      requires Valid() && TreeOk(tree) && (b != null ==> b in tree && InTree(b))
      ensures r != null ==> b != null && r in Line(b) && Contains(r)
      ensures b != null ==> forall x :: x in Line(b) && Contains(x) ==> r != null && x.nHeight <= r.nHeight
    {
      if b == null { return null; }
      r := b;
      if b.nHeight > Height() { r := GetAncestor(b, Height(), tree); }
      forall x | x in Line(b) ensures x.nHeight <= b.nHeight { InLine(b, x); }
      while r != null && !Contains(r)
        invariant r != null ==> r in Line(b) && InTree(r)
        invariant forall x :: x in Line(b) && Contains(x) ==> r != null && x.nHeight <= r.nHeight
        decreases if r == null then 0 else r.nHeight + 1
      {
        StepBack(b, r);
        r := r.pprev;
      }
    }

    /** Only the block of a line at a given height can be in the chain at that height. */
    lemma {:induction false} StepBack(b: BlockIndex, r: BlockIndex)
      requires InTree(b) && r in Line(b) && !Contains(r)
      ensures forall x :: x in Line(b) && Contains(x) && x.nHeight <= r.nHeight ==>
              r.pprev != null && x.nHeight <= r.pprev.nHeight
      ensures InTree(r) && (r.pprev != null ==> r.pprev in Line(b) && InTree(r.pprev))
    {
      InLine(b, r);
      if r.pprev != null { assert r.pprev in Line(r); }
      forall x | x in Line(b) && Contains(x) && x.nHeight <= r.nHeight ensures r.pprev != null
          && x.nHeight <= r.pprev.nHeight {
        InLine(b, x);
      }
    }
  }

  ghost predicate ConsistsOf(entries: seq<BlockIndex?>, tip: BlockIndex?) {
    tip != null && InTree(tip) && |entries| == tip.nHeight + 1
        && forall i {:trigger entries[i]} :: 0 <= i < |entries| ==> entries[i] == AncestorAt(tip, i)
  }

  /** Below a block of the old chain, the old entries are its ancestors. */
  lemma {:induction false} OldEntries(before: seq<BlockIndex?>, h: nat, i: nat)
    requires before != [] ==> ConsistsOf(before, before[|before| - 1])
    requires i <= h < |before|
    ensures before[h] != null && InTree(before[h]) && before[h].nHeight == h && before[i] == AncestorAt(before[h], i)
  {
    AncestorOfAncestor(before[|before| - 1], h, i);
  }

  // ---- Locators ----

  ghost function Heights(bs: seq<BlockIndex>): (hs: seq<nat>)
    reads bs
    ensures |hs| == |bs|
  {
    seq(|bs|, i requires 0 <= i < |bs| reads bs => bs[i].nHeight)
  }

  /** The heights of a locator from height `h` down, after `count` others: one step at a time for the
      first ten, then steps that double. */
  ghost function LocatorHeights(h: nat, step: nat, count: nat): seq<nat>
    requires step >= 1
  {
    if h == 0 then [0]
        else [h] + LocatorHeights(if h > step then h - step else 0, if count >= 10 then 2 * step else step, count + 1)
  }

  lemma {:induction false} DoublingShort(h: nat, step: nat, count: nat, n: nat)
    requires count >= 10 && step >= 1 && h < step * Pow2(n)
    ensures |LocatorHeights(h, step, count)| <= n + 2
    decreases h
  {
    if h > step {
      assert n > 0 && 2 * step * Pow2(n - 1) == step * Pow2(n);
      DoublingShort(h - step, 2 * step, count + 1, n - 1);
    }
  }

  /** A locator is logarithmic in the height: below 2^n it has at most n + 12 entries. */
  lemma {:induction false} LocatorShort(h: nat, count: nat, n: nat)
    requires h < Pow2(n) && count <= 10
    ensures |LocatorHeights(h, 1, count)| <= n + 2 + (10 - count)
    decreases h
  {
    if count == 10 {
      DoublingShort(h, 1, count, n);
    } else if h > 0 {
      LocatorShort(h - 1, count + 1, n);
    }
  }

  /** The blocks of a locator: the block itself, then ancestors at exponentially growing distance,
      down to the genesis block. */
  method LocatorEntries(b: BlockIndex, ghost tree: set<BlockIndex>) returns (have: seq<BlockIndex>)
    requires TreeOk(tree) && b in tree && InTree(b)
    ensures have != [] && have[0] == b && have[|have| - 1].nHeight == 0
    ensures forall i :: 0 <= i < |have| ==> have[i] in Line(b)
    ensures forall i, j :: 0 <= i < j < |have| ==> have[i].nHeight > have[j].nHeight
    ensures Heights(have) == LocatorHeights(b.nHeight, 1, 0)
  {
    hide LocatorHeights, TreeOk, AncestorAt;
    var step := 1;
    var index: BlockIndex := b;
    have := [b];
    ghost var hs: seq<nat> := [];
    while index.nHeight != 0
      invariant step >= 1 && index in tree && InTree(index) && index in Line(b) && have != [] && have[0] == b
      invariant have[|have| - 1] == index
      invariant |hs| == |have| - 1 && hs + LocatorHeights(index.nHeight, step, |hs|) == LocatorHeights(b.nHeight, 1, 0)
      invariant forall i {:trigger hs[i]} :: 0 <= i < |hs| ==> have[i].nHeight == hs[i]
      invariant forall i :: 0 <= i < |have| ==> have[i] in Line(b)
      invariant forall i, j :: 0 <= i < j < |have| ==> have[i].nHeight > have[j].nHeight
      decreases index.nHeight
    {
      var height := if index.nHeight > step then index.nHeight - step else 0;
      var next := GetAncestor(index, height, tree);
      InLine(b, index);
      LocatorStep(hs, index.nHeight, step);
      hs := hs + [index.nHeight];
      index := next;
      if |have| > 10 { step := step * 2; }
      have := have + [index];
    }
    LocatorEnd(step, |hs|);
    assert Heights(have) == hs + [0];
  }

  lemma {:induction false} LocatorEnd(step: nat, count: nat)
    requires step >= 1
    ensures LocatorHeights(0, step, count) == [0]
  {
  }

  lemma {:induction false} LocatorStep(hs: seq<nat>, h: nat, step: nat)
    requires h > 0 && step >= 1
    ensures hs + LocatorHeights(h, step, |hs|)
            == (hs + [h])
               + LocatorHeights(if h > step then h - step else 0, if |hs| >= 10 then 2 * step else step, |hs| + 1)
  {
  }
}
