/** Lost clusters: those that are not free and in no object's chain, and which writes lose how many. */
module FatLosses {
  import opened Outcome
  import opened Bytes
  import opened FatVolume
  import opened FatObjects

  function Elems(s: seq<nat>): set<nat> {
    set c | c in s
  }

  ghost function Owned(g: Objs): set<nat> {
    set k, c | k in g && c in g[k].chain :: c
  }

  /** The clusters that are neither free nor anybody's. */
  ghost function Lost(v: Vol, g: Objs): set<nat> {
    Clusters(v.fat) - FreeSet(v.fat) - Owned(g)
  }

  /** What lies behind the first `n` clusters of a chain. */
  function CutTail(ch: seq<nat>, n: nat): set<nat> {
    if n < |ch| then Elems(ch[n..]) else {}
  }

  // ---- one write --------------------------------------------------------------------------

  lemma ChainInClusters(fat: seq<nat>, ch: seq<nat>)
    requires |fat| <= MAX_CELLS && (ch == [] || IsChain(fat, ch))
    ensures Elems(ch) <= Clusters(fat) - FreeSet(fat)
  {
    forall c | c in ch ensures c in Clusters(fat) && c !in FreeSet(fat) {
      ChainNotFree(fat, ch, c);
      var i :| 0 <= i < |ch| && ch[i] == c;
      assert InRange(fat, ch[i]);
    }
  }

  /** A write takes what it grows by from the free clusters and frees none. */
  lemma WroteFree(v: Vol, v': Vol, ch: seq<nat>, ch': seq<nat>, data: seq<byte>, size: nat)
    requires |v.fat| <= MAX_CELLS && Wrote(v, v', ch, ch', data, size)
    ensures FreeSet(v'.fat) == FreeSet(v.fat) - Elems(ch')
  {
    ChainInClusters(v'.fat, ch');
  }

  lemma GrewFree(v: Vol, v': Vol, ch: seq<nat>, ch': seq<nat>, data: seq<byte>, size: nat)
    requires |v.fat| <= MAX_CELLS && Grew(v, v', ch, ch', data, size)
    ensures FreeSet(v'.fat) == FreeSet(v.fat) - Elems(ch')
  {
    ChainInClusters(v'.fat, ch');
  }

  /** What a write cuts off its chain is the part behind the clusters the data needs. */
  lemma WroteCuts(v: Vol, v': Vol, ch: seq<nat>, ch': seq<nat>, data: seq<byte>, size: nat)
    requires |v.fat| <= MAX_CELLS && Wrote(v, v', ch, ch', data, size) && (ch == [] || IsChain(v.fat, ch))
    ensures Elems(ch) - Elems(ch') == CutTail(ch, CeilDiv(|data|, size))
  {
    var n := CeilDiv(|data|, size);
    if ch != [] {
      ChainDistinct(v.fat, ch);
    }
    forall c: nat ensures c in Elems(ch) - Elems(ch') <==> c in CutTail(ch, n) {
      if c in ch && c !in ch' {
        var i :| 0 <= i < |ch| && ch[i] == c;
        assert i >= n && ch[n..][i - n] == c;
      }
      if c in CutTail(ch, n) {
        var i :| n <= i < |ch| && ch[i] == c;
        CutIsGone(ch, ch', i);
      }
    }
  }

  lemma CutIsGone(ch: seq<nat>, ch': seq<nat>, i: nat)
    requires |ch'| <= i < |ch| && Distinct(ch) && forall k :: 0 <= k < |ch'| && k < |ch| ==> ch'[k] == ch[k]
    ensures ch[i] !in ch'
  {
  }

  /**
    A write loses clusters, still marked as used and in no chain, exactly when the data needs
    fewer clusters than the file had.
   */
  lemma ShrinkLoses(v: Vol, v': Vol, ch: seq<nat>, ch': seq<nat>, data: seq<byte>, size: nat)
    requires VolOk(v, size) && Wrote(v, v', ch, ch', data, size) && (ch == [] || IsChain(v.fat, ch))
    ensures (exists c :: c in ch && c !in ch' && c < |v'.fat| && v'.fat[c] != FREE) <==> CeilDiv(|data|, size) < |ch|
  {
    var n := CeilDiv(|data|, size);
    WroteCuts(v, v', ch, ch', data, size);
    ChainInClusters(v.fat, ch);
    if n < |ch| {
      var c := ch[n];
      assert ch[n..][0] == c;
      assert c in CutTail(ch, n);
      assert c in Elems(ch) && c !in FreeSet(v.fat);
      assert c in ch && c !in ch' && v'.fat[c] == v.fat[c];
    } else {
      assert Elems(ch) - Elems(ch') == {};
      forall c | c in ch ensures c in ch' {
        assert c in Elems(ch);
      }
    }
  }

  // ---- objects ----------------------------------------------------------------------------

  lemma WFChains(v: Vol, g: Objs, root: nat, size: nat, hole: Hole)
    requires WF(v, g, root, size, hole)
    ensures Owned(g) <= Clusters(v.fat) - FreeSet(v.fat) && |v.fat| <= MAX_CELLS
    ensures forall l, m :: l in g && m in g && l != m ==> Apart(g[l].chain, g[m].chain)
    ensures forall l :: l in g ==> IsChain(v.fat, g[l].chain)
  {
    forall k, c | k in g && c in g[k].chain ensures c in Clusters(v.fat) && c !in FreeSet(v.fat) {
      assert ObjOk(v, k, g[k]);
      ChainInClusters(v.fat, g[k].chain);
      assert c in Elems(g[k].chain);
    }
    forall l | l in g ensures IsChain(v.fat, g[l].chain) {
      assert ObjOk(v, l, g[l]);
    }
  }

  lemma OwnedReplaced(g: Objs, k: nat, o: Obj)
    requires forall l, m :: l in g && m in g && l != m ==> Apart(g[l].chain, g[m].chain)
    ensures Owned(g[k := o]) == Owned(g) - Elems(ChainNow(g, k)) + Elems(o.chain)
  {
    var g' := g[k := o];
    forall c: nat ensures c in Owned(g') <==> c in Owned(g) - Elems(ChainNow(g, k)) + Elems(o.chain) {
      if c in Owned(g') {
        var l :| l in g' && c in g'[l].chain;
        if l != k && k in g {
          assert Apart(g[l].chain, g[k].chain);
        }
      }
      if c in Owned(g) && c !in Elems(ChainNow(g, k)) {
        var l :| l in g && c in g[l].chain;
        assert l in g' && c in g'[l].chain;
      }
      if c in o.chain {
        assert k in g' && c in g'[k].chain;
      }
    }
  }

  lemma OwnedWithout(g: Objs, k: nat)
    requires k in g && forall l, m :: l in g && m in g && l != m ==> Apart(g[l].chain, g[m].chain)
    ensures Owned(g - {k}) == Owned(g) - Elems(g[k].chain)
  {
    var g' := g - {k};
    forall c: nat ensures c in Owned(g') <==> c in Owned(g) - Elems(g[k].chain) {
      if c in Owned(g') {
        var l :| l in g' && c in g'[l].chain;
        assert Apart(g[l].chain, g[k].chain) && l in g;
      }
      if c in Owned(g) && c !in Elems(g[k].chain) {
        var l :| l in g && c in g[l].chain;
        assert l in g' && c in g'[l].chain;
      }
    }
  }

  /** Writing an object's chain, or a new object's: what is cut off is lost. */
  lemma LostWhenWritten(v: Vol, v': Vol, g: Objs, root: nat, size: nat, hole: Hole, k: nat, o: Obj, data: seq<byte>)
    requires WF(v, g, root, size, hole) && Wrote(v, v', ChainNow(g, k), o.chain, data, size)
    ensures Lost(v', g[k := o]) == Lost(v, g) + CutTail(ChainNow(g, k), CeilDiv(|data|, size))
    ensures FreeSet(v'.fat) == FreeSet(v.fat) - Elems(o.chain)
  {
    hide WF, Wrote, IsChain, Owned, CutTail, FreeSet, Apart, CeilDiv;
    WFChains(v, g, root, size, hole);
    var ch := ChainNow(g, k);
    WroteFree(v, v', ch, o.chain, data, size);
    WroteCuts(v, v', ch, o.chain, data, size);
    WroteTakesFree(v, v', ch, o.chain, data, size);
    OwnedReplaced(g, k, o);
    ChainHeld(g, k);
    assert Clusters(v'.fat) == Clusters(v.fat);
    LostAlgebra(Clusters(v.fat), FreeSet(v.fat), Owned(g), Elems(ch), Elems(o.chain));
  }

  /** The sets of one write: all clusters, the free and the owned ones, the chain before and after. */
  lemma LostAlgebra(all: set<nat>, free: set<nat>, owned: set<nat>, before: set<nat>, after: set<nat>)
    requires before <= owned <= all - free && after <= before + free
    ensures all - (free - after) - (owned - before + after) == all - free - owned + (before - after)
  {
  }

  lemma WroteTakesFree(v: Vol, v': Vol, ch: seq<nat>, ch': seq<nat>, data: seq<byte>, size: nat)
    requires |v.fat| <= MAX_CELLS && Wrote(v, v', ch, ch', data, size)
    ensures Elems(ch') <= Elems(ch) + FreeSet(v.fat) && |v'.fat| == |v.fat|
  {
    ChainInClusters(v'.fat, ch');
    forall c | c in ch' ensures c in Elems(ch) + FreeSet(v.fat) {
      var i :| 0 <= i < |ch'| && ch'[i] == c;
      assert InRange(v'.fat, ch'[i]);
      if i < |ch| {
        assert ch[i] == c;
      }
    }
  }

  lemma ChainHeld(g: Objs, k: nat)
    ensures Elems(ChainNow(g, k)) <= Owned(g)
  {
  }

  /** Rewriting a directory at its length loses nothing. */
  lemma LostWhenRewritten(v: Vol, v': Vol, g: Objs, root: nat, size: nat, hole: Hole, d: nat, ch: seq<nat>, data: seq<byte>)
    requires WF(v, g, root, size, hole) && d in g
    requires Wrote(v, v', ChainOf(v.fat, d), ch, data, size) && |data| == |ReadFrom(v, d)|
    ensures Lost(v', g) == Lost(v, g) && FreeSet(v'.fat) == FreeSet(v.fat)
  {
    ObjRead(v, g, root, size, hole, d);
    WFChains(v, g, root, size, hole);
    WholeExact(data, size, |g[d].chain|);
    SameChain(v, v', g[d].chain, ch, data, size);
    var o := g[d];
    assert g[d := o] == g && ChainNow(g, d) == g[d].chain;
    ChainInClusters(v.fat, ch);
    hide WF, Wrote, IsChain, ReadFrom, ChainOf, Whole;
    LostWhenWritten(v, v', g, root, size, hole, d, o, data);
  }

  /** A chain rewritten at its length stays the same. */
  lemma SameChain(v: Vol, v': Vol, ch: seq<nat>, ch': seq<nat>, data: seq<byte>, size: nat)
    requires Wrote(v, v', ch, ch', data, size) && CeilDiv(|data|, size) == |ch|
    ensures ch' == ch
  {
  }

  /** Running out of clusters while writing an object's chain loses nothing: what was taken belongs to it. */
  lemma LostWhenGrown(v: Vol, v': Vol, g: Objs, root: nat, size: nat, hole: Hole, k: nat, ch: seq<nat>, data: seq<byte>)
    requires WF(v, g, root, size, hole) && k in g && Grew(v, v', g[k].chain, ch, data, size)
    ensures Lost(v', g[k := g[k].(chain := ch)]) == Lost(v, g) && FreeSet(v'.fat) == FreeSet(v.fat) - Elems(ch)
  {
    WFChains(v, g, root, size, hole);
    GrewFree(v, v', g[k].chain, ch, data, size);
    GrewTakesFree(v, v', g[k].chain, ch, data, size);
    OwnedReplaced(g, k, g[k].(chain := ch));
    ChainHeld(g, k);
    hide WF, Grew, IsChain, Owned, FreeSet, Apart;
    assert Clusters(v'.fat) == Clusters(v.fat);
  }

  lemma GrewTakesFree(v: Vol, v': Vol, ch: seq<nat>, ch': seq<nat>, data: seq<byte>, size: nat)
    requires |v.fat| <= MAX_CELLS && Grew(v, v', ch, ch', data, size)
    ensures Elems(ch) <= Elems(ch') <= Elems(ch) + FreeSet(v.fat) && |v'.fat| == |v.fat|
  {
    ChainInClusters(v'.fat, ch');
    forall i | 0 <= i < |ch| ensures ch[i] in ch' {
      assert ch'[..|ch|][i] == ch'[i];
    }
    forall c | c in ch' ensures c in Elems(ch) + FreeSet(v.fat) {
      var i :| 0 <= i < |ch'| && ch'[i] == c;
      assert InRange(v'.fat, ch'[i]);
      if i < |ch| {
        assert ch'[..|ch|][i] == c;
      }
    }
  }

  /** A chain taken for a file that had none, before the write failed, is lost. */
  lemma LostWhenUnowned(v: Vol, v': Vol, g: Objs, root: nat, size: nat, hole: Hole, ch: seq<nat>, data: seq<byte>)
    requires WF(v, g, root, size, hole) && Grew(v, v', [], ch, data, size)
    ensures Lost(v', g) == Lost(v, g) + Elems(ch) && FreeSet(v'.fat) == FreeSet(v.fat) - Elems(ch)
    ensures Elems(ch) <= FreeSet(v.fat)
  {
    WFChains(v, g, root, size, hole);
    GrewFree(v, v', [], ch, data, size);
    GrewTakesFree(v, v', [], ch, data, size);
    hide WF, Grew, IsChain, Owned, FreeSet, Apart;
    assert Elems([]) == {};
    FreeInClusters(v.fat);
    assert Clusters(v'.fat) == Clusters(v.fat);
  }

  lemma FreeInClusters(fat: seq<nat>)
    ensures FreeSet(fat) <= Clusters(fat)
  {
  }

  /** Freeing an object loses nothing. */
  lemma LostWhenFreed(v: Vol, v': Vol, g: Objs, root: nat, size: nat, k: nat)
    requires WF(v, g, root, size, None) && k in g && Freed(v, v', k)
    ensures Lost(v', g - {k}) == Lost(v, g) && FreeSet(v'.fat) == FreeSet(v.fat) + Elems(g[k].chain)
  {
    WFChains(v, g, root, size, None);
    ObjRead(v, g, root, size, None, k);
    OwnedWithout(g, k);
    ChainInClusters(v.fat, g[k].chain);
    ChainHeld(g, k);
    FreedFree(v, v', k);
    hide WF, IsChain, Owned, FreeSet, Apart, Freed, ChainOf;
    assert Clusters(v'.fat) == Clusters(v.fat);
  }

  lemma FreedFree(v: Vol, v': Vol, k: nat)
    requires Freed(v, v', k) && Elems(ChainOf(v.fat, k)) <= Clusters(v.fat)
    ensures FreeSet(v'.fat) == FreeSet(v.fat) + Elems(ChainOf(v.fat, k)) && |v'.fat| == |v.fat|
  {
    hide ChainOf;
    forall c: nat ensures c in FreeSet(v'.fat) <==> c in FreeSet(v.fat) + Elems(ChainOf(v.fat, k)) {
      if c in ChainOf(v.fat, k) {
        assert c in Elems(ChainOf(v.fat, k));
      }
    }
  }

  /** A free cluster taken, that nothing refers to, is lost until an object has it. */
  lemma LostWhenTaken(v: Vol, v': Vol, g: Objs, root: nat, size: nat, c: nat)
    requires WF(v, g, root, size, None) && InRange(v.fat, c) && v.fat[c] == FREE && v'.fat == v.fat[c := EOC]
    ensures FreeSet(v'.fat) == FreeSet(v.fat) - {c} && Lost(v', g) == Lost(v, g) + {c}
    ensures c in FreeSet(v.fat) && c !in Lost(v, g)
  {
    WFChains(v, g, root, size, None);
    hide WF, Owned;
    assert FreeSet(v'.fat) == FreeSet(v.fat) - {c};
    assert Clusters(v'.fat) == Clusters(v.fat);
  }

  lemma LostUntilOwned(v: Vol, g: Objs, c: nat, o: Obj)
    requires c !in g && o.chain == [c] && forall l, m :: l in g && m in g && l != m ==> Apart(g[l].chain, g[m].chain)
    ensures Lost(v, g[c := o]) == Lost(v, g) - {c}
  {
    OwnedReplaced(g, c, o);
    assert Elems([c]) == {c} && Elems([]) == {};
  }
}
