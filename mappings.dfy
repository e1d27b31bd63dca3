/**
  What `processMappings` offers its processor: the stored pairs, leaf by
  leaf in depth-first order, each leaf's pairs in slot order, until the
  processor refuses one.

  The processor is a callback the tree cannot see into; it is modelled by
  its answers, a function `accept` from a pair to "go on", and its calls
  are recorded as the sequence of pairs it was given.
*/
module Mappings {
  import opened Wrappers
  import opened Words
  import opened Pages
  import opened HashLeaf
  import opened Shapes

  type Pair = (int, int)

  // ---------------------------------------------------------------------------
  // The processor protocol

  /**
    Offering `pairs` in order to `accept`: whether none was refused, and
    the calls made.
  */
  function Visit(pairs: seq<Pair>, accept: (int, int) -> bool): (r: (bool, seq<Pair>))
    ensures |r.1| <= |pairs|
  {
    if |pairs| == 0 then (true, [])
    else if !accept(pairs[0].0, pairs[0].1) then (false, [pairs[0]])
    else
      var r := Visit(pairs[1..], accept);
      (r.0, [pairs[0]] + r.1)
  }

  /**
    What `Visit` means: the calls are the pairs up to and including the
    first refused one, all of them when none is refused.
  */
  lemma {:induction false} VisitMeaning(pairs: seq<Pair>, accept: (int, int) -> bool)
    ensures var r := Visit(pairs, accept);
      && r.1 == pairs[..|r.1|]
      && (r.0 <==> forall i :: 0 <= i < |pairs| ==> accept(pairs[i].0, pairs[i].1))
      && (r.0 ==> r.1 == pairs)
      && (!r.0 ==> |r.1| > 0 && !accept(r.1[|r.1| - 1].0, r.1[|r.1| - 1].1))
      && forall i :: 0 <= i < |r.1| - 1 ==> accept(r.1[i].0, r.1[i].1)
  {
    if |pairs| > 0 && accept(pairs[0].0, pairs[0].1) {
      VisitMeaning(pairs[1..], accept);
      var r := Visit(pairs[1..], accept);
      assert pairs == [pairs[0]] + pairs[1..];
      forall i | 1 <= i < |pairs| && !accept(pairs[i].0, pairs[i].1)
        ensures !r.0
      {
        assert pairs[1..][i - 1] == pairs[i];
      }
    }
  }

  /** Offering `xs + ys` is offering `xs`, then, when none of them was refused, `ys`. */
  lemma {:induction false} VisitAppend(xs: seq<Pair>, ys: seq<Pair>, accept: (int, int) -> bool)
    ensures Visit(xs + ys, accept) ==
            if Visit(xs, accept).0 then (Visit(ys, accept).0, xs + Visit(ys, accept).1) else Visit(xs, accept)
  {
    if |xs| == 0 {
      assert xs + ys == ys && xs + Visit(ys, accept).1 == Visit(ys, accept).1;
      assert Visit(xs, accept) == (true, []);
    } else if accept(xs[0].0, xs[0].1) {
      assert (xs + ys)[0] == xs[0] && (xs + ys)[1..] == xs[1..] + ys;
      VisitAppend(xs[1..], ys, accept);
      if Visit(xs[1..], accept).0 {
        assert [xs[0]] + (xs[1..] + Visit(ys, accept).1) == xs + Visit(ys, accept).1;
      }
    } else {
      assert (xs + ys)[0] == xs[0];
    }
  }

  /** Offering `rest` after the calls `calls`, none of them refused. */
  function Resume(calls: seq<Pair>, rest: seq<Pair>, accept: (int, int) -> bool): (r: (bool, seq<Pair>))
    ensures |calls| <= |r.1| <= |calls| + |rest| && r.1[..|calls|] == calls
  {
    var r := Visit(rest, accept);
    assert (calls + r.1)[..|calls|] == calls;
    (r.0, calls + r.1)
  }

  /** Before any call, resuming is offering everything. */
  lemma ResumeStart(pairs: seq<Pair>, accept: (int, int) -> bool)
    ensures Resume([], pairs, accept) == Visit(pairs, accept)
  {
    assert [] + Visit(pairs, accept).1 == Visit(pairs, accept).1;
  }

  /** With nothing left, the calls made are all there are, none refused. */
  lemma ResumeEnd(calls: seq<Pair>, accept: (int, int) -> bool)
    ensures Resume(calls, [], accept) == (true, calls)
  {
    assert calls + [] == calls;
  }

  /** One more pair offered: a refusal ends the calls with it; otherwise it joins the calls. */
  lemma ResumeStep(calls: seq<Pair>, p: Pair, rest: seq<Pair>, accept: (int, int) -> bool)
    ensures Resume(calls, [p] + rest, accept) ==
            if accept(p.0, p.1) then Resume(calls + [p], rest, accept) else (false, calls + [p])
  {
    assert ([p] + rest)[0] == p && ([p] + rest)[1..] == rest;
    assert calls + ([p] + Visit(rest, accept).1) == calls + [p] + Visit(rest, accept).1;
  }

  /** A block of pairs offered: its calls join the calls, and a refusal among them ends the calls. */
  lemma ResumeAppend(calls: seq<Pair>, xs: seq<Pair>, ys: seq<Pair>, accept: (int, int) -> bool)
    ensures var r := Visit(xs, accept);
      Resume(calls, xs + ys, accept) == if r.0 then Resume(calls + r.1, ys, accept) else (false, calls + r.1)
  {
    VisitAppend(xs, ys, accept);
    VisitMeaning(xs, accept);
    assert calls + (xs + Visit(ys, accept).1) == calls + xs + Visit(ys, accept).1;
  }

  // ---------------------------------------------------------------------------
  // The pairs of a leaf and of a tree

  /** The (key, value) pairs of the hash slots `i` to the capacity that are not free, in slot order. */
  function LivePairsFrom(cfg: Config, page: seq<int>, i: int): (ps: seq<Pair>)
    requires TableOk(cfg, page) && 0 <= i <= cfg.hashPageCapacity
    ensures |ps| <= cfg.hashPageCapacity - i
    decreases cfg.hashPageCapacity - i
  {
    if i == cfg.hashPageCapacity then []
    else
      var rest := LivePairsFrom(cfg, page, i + 1);
      if KeyAt(page, i) != HASH_FREE then [(KeyAt(page, i), AddressAt(page, i))] + rest else rest
  }

  /** The pairs of the table from slot `i` on are those of its slots from `i` on that are not free. */
  lemma {:induction false} LivePairsMember(cfg: Config, page: seq<int>, i: int)
    requires TableOk(cfg, page) && 0 <= i <= cfg.hashPageCapacity
    ensures forall p :: p in LivePairsFrom(cfg, page, i) ==>
              exists s :: i <= s < cfg.hashPageCapacity && KeyAt(page, s) == p.0 && p.0 != HASH_FREE && AddressAt(page, s) == p.1
    ensures forall s :: i <= s < cfg.hashPageCapacity && KeyAt(page, s) != HASH_FREE ==>
              (KeyAt(page, s), AddressAt(page, s)) in LivePairsFrom(cfg, page, i)
    decreases cfg.hashPageCapacity - i
  {
    if i < cfg.hashPageCapacity {
      LivePairsMember(cfg, page, i + 1);
    }
  }

  /** The (key, value) pairs of slots `i` to `n` of a sorted page, in slot order. */
  function SlotPairsFrom(page: seq<int>, i: int, n: int): (ps: seq<Pair>)
    requires 0 <= i <= n && 2 * n + 1 < |page|
    ensures |ps| == n - i
    decreases n - i
  {
    if i == n then [] else [(KeyAt(page, i), AddressAt(page, i))] + SlotPairsFrom(page, i + 1, n)
  }

  /** Whether a page's count leaves room for that many slots. */
  predicate CountFits(page: seq<int>)
    requires |page| > 0 && IsInt32(page[0])
  {
    0 <= Count(page) && 2 * Count(page) + 1 < |page|
  }

  /** The pairs the view's `processMappings` visits on a leaf page: its table, or its sorted slots when it is not hashed. */
  function LeafPairs(cfg: Config, page: seq<int>): seq<Pair>
    requires TableOk(cfg, page)
  {
    if IsHashedLeaf(page) then LivePairsFrom(cfg, page, 0)
    else if CountFits(page) then SlotPairsFrom(page, 0, Count(page))
    else []
  }

  /** The pairs `processLeafPages` visits under `s`: each leaf's, children left to right. */
  ghost function TreePairs(cfg: Cfg, s: Shape, file: File): seq<Pair>
    decreases s
  {
    if s.addr !in file || !TableOk(cfg, file[s.addr]) then []
    else match s
      case Leaf(a) => LeafPairs(cfg, file[a])
      case Node(_, kids) => KidsPairs(cfg, kids, file)
  }

  /** The pairs under the children `kids`, left to right. */
  ghost function KidsPairs(cfg: Cfg, kids: seq<Shape>, file: File): seq<Pair>
    decreases kids
  {
    if |kids| == 0 then [] else TreePairs(cfg, kids[0], file) + KidsPairs(cfg, kids[1..], file)
  }

  // ---------------------------------------------------------------------------
  // The visited pairs are the stored map

  /** A pair is under some child exactly when it is under the children. */
  lemma {:induction false} KidsPairsMember(cfg: Cfg, kids: seq<Shape>, file: File, p: Pair)
    ensures p in KidsPairs(cfg, kids, file) <==> exists i :: 0 <= i < |kids| && p in TreePairs(cfg, kids[i], file)
    decreases |kids|
  {
    if |kids| > 0 {
      KidsPairsMember(cfg, kids[1..], file, p);
      if p in KidsPairs(cfg, kids[1..], file) {
        var i :| 0 <= i < |kids[1..]| && p in TreePairs(cfg, kids[1..][i], file);
        assert p in TreePairs(cfg, kids[i + 1], file);
      }
      forall i | 0 <= i < |kids| && p in TreePairs(cfg, kids[i], file)
        ensures p in KidsPairs(cfg, kids, file)
      {
        if i > 0 {
          assert kids[1..][i - 1] == kids[i];
        }
      }
    }
  }

  /** The pairs a leaf visits are what the leaf maps. */
  lemma LeafPairsAreStored(cfg: Cfg, page: seq<int>, lo: int, hi: int)
    requires TableOk(cfg, page) && LeafOk(cfg, page, lo, hi)
    ensures forall p :: p in LeafPairs(cfg, page) ==> p.0 != HASH_FREE && lo <= p.0 < hi && LeafGet(cfg, page, p.0) == Some(p.1)
    ensures forall k :: LeafGet(cfg, page, k).Some? ==> (k, LeafGet(cfg, page, k).value) in LeafPairs(cfg, page)
  {
    if IsHashedLeaf(page) {
      LivePairsMember(cfg, page, 0);
      forall p | p in LeafPairs(cfg, page)
        ensures lo <= p.0 < hi && LeafGet(cfg, page, p.0) == Some(p.1)
      {
        var s :| 0 <= s < cfg.hashPageCapacity && KeyAt(page, s) == p.0 && p.0 != HASH_FREE && AddressAt(page, s) == p.1;
        HashGetSlot(cfg, page, s);
      }
    }
  }

  /**
    The pairs `processLeafPages` visits under a well-formed shape are
    exactly the pairs its lookup maps: each visited pair is stored, and
    each stored pair is visited.
  */
  lemma {:induction false} TreePairsAreStored(cfg: Cfg, s: Shape, file: File, lo: int, hi: int, d: nat)
    requires Wf(cfg, s, file, lo, hi, d)
    ensures forall p :: p in TreePairs(cfg, s, file) ==> p.0 != HASH_FREE && lo <= p.0 < hi && Get(cfg, s, file, p.0) == Some(p.1)
    ensures forall k :: Get(cfg, s, file, k).Some? ==> (k, Get(cfg, s, file, k).value) in TreePairs(cfg, s, file)
    decreases s
  {
    var page := file[s.addr];
    match s
    case Leaf(a) =>
      LeafPairsAreStored(cfg, page, lo, hi);
    case Node(a, kids) =>
      NodeParts(cfg, s, file, lo, hi, d);
      var n := Count(page);
      forall i | 0 <= i < |kids|
        ensures forall p :: p in TreePairs(cfg, kids[i], file) ==> p.0 != HASH_FREE && lo <= p.0 < hi && Get(cfg, s, file, p.0) == Some(p.1)
      {
        TreePairsAreStored(cfg, kids[i], file, KidLo(page, i, lo), KidHi(page, n, i, hi), d - 1);
        KidBoundsNested(cfg, page, |kids|, lo, hi, i);
        forall p | p in TreePairs(cfg, kids[i], file)
          ensures Get(cfg, s, file, p.0) == Some(p.1)
        {
          ChildInRange(page, n, p.0, i, lo, hi);
          GetKid(cfg, a, kids, file, p.0, i);
        }
      }
      forall p | p in TreePairs(cfg, s, file)
        ensures p.0 != HASH_FREE && lo <= p.0 < hi && Get(cfg, s, file, p.0) == Some(p.1)
      {
        KidsPairsMember(cfg, kids, file, p);
      }
      forall k | Get(cfg, s, file, k).Some?
        ensures (k, Get(cfg, s, file, k).value) in TreePairs(cfg, s, file)
      {
        var c := ChildIndex(page, n, k);
        GetKid(cfg, a, kids, file, k, c);
        TreePairsAreStored(cfg, kids[c], file, KidLo(page, c, lo), KidHi(page, n, c, hi), d - 1);
        KidsPairsMember(cfg, kids, file, (k, Get(cfg, s, file, k).value));
      }
  }
}
