/** What the registration pass discovers: the modules each component pattern
    may scan, and the (key, class) pairs the scan collaborator returns, layer
    by layer and pattern by pattern. */
module Discovery {
  import opened Types
  import opened Seqs

  /** `get_all_interfaces_and_realizations(app_modules, name_pattern, superclass)`:
      the dependency keys it finds mapped to their realizing classes, in the
      iteration order of the dictionary it returns. */
  type Scanner = (seq<Module>, string, ClassName) -> seq<(Key, ClassName)>

  /** The modules that do not ignore pattern `p`, in their original order. */
  function Unignored(modules: seq<Module>, p: Pattern): seq<Module>
  {
    if modules == [] then []
    else
      var last := modules[|modules| - 1];
      Unignored(modules[..|modules| - 1], p) + (if p in last.ignore then [] else [last])
  }

  /** A module is kept exactly when it is one of `modules` and does not ignore `p`. */
  lemma {:induction false} UnignoredMembers(modules: seq<Module>, p: Pattern, m: Module)
    ensures m in Unignored(modules, p) <==> m in modules && p !in m.ignore
  {
    if modules != [] {
      var init := modules[..|modules| - 1];
      UnignoredMembers(init, p, m);
      assert modules == init + [modules[|modules| - 1]];
    }
  }

  /** The positions Unignored keeps: the result is `modules` at those
      positions, taken in increasing order, so it is an order-preserving
      subsequence of `modules`. */
  function KeptIndices(modules: seq<Module>, p: Pattern): (idx: seq<nat>)
    ensures |idx| == |Unignored(modules, p)|
    ensures forall i :: 0 <= i < |idx| ==> idx[i] < |modules| && Unignored(modules, p)[i] == modules[idx[i]]
    ensures forall i, j :: 0 <= i < j < |idx| ==> idx[i] < idx[j]
  {
    if modules == [] then []
    else
      var n := |modules| - 1;
      var init := modules[..n];
      var prev := KeptIndices(init, p);
      assert forall i :: 0 <= i < |prev| ==> modules[prev[i]] == init[prev[i]];
      if p in modules[n].ignore then prev else prev + [n]
  }

  /** The positions kept are exactly those whose module does not ignore `p`. */
  lemma {:induction false} KeptIndicesExact(modules: seq<Module>, p: Pattern, j: nat)
    requires j < |modules|
    ensures j in KeptIndices(modules, p) <==> p !in modules[j].ignore
  {
    var n := |modules| - 1;
    var init := modules[..n];
    if j < n {
      KeptIndicesExact(init, p, j);
      assert init[j] == modules[j];
      assert forall i :: 0 <= i < |KeptIndices(init, p)| ==> KeptIndices(init, p)[i] < n;
    }
  }

  /** What one component pattern discovers: the scan of the modules that do not ignore it. */
  function PatternItems(modules: seq<Module>, scan: Scanner, p: Pattern): seq<(Key, ClassName)>
  {
    scan(Unignored(modules, p), p.moduleNameRegex, p.superclass)
  }

  /** What a sequence of component patterns discovers, pattern after pattern. */
  function GroupsItems(modules: seq<Module>, scan: Scanner, groups: seq<Pattern>): seq<(Key, ClassName)>
  {
    if groups == [] then []
    else GroupsItems(modules, scan, groups[..|groups| - 1]) + PatternItems(modules, scan, groups[|groups| - 1])
  }

  /** What one layer discovers: nothing unless it passes the Layer check. */
  function LayerItems(modules: seq<Module>, scan: Scanner, layer: Layer): seq<(Key, ClassName)>
  {
    if layer.isLayer then GroupsItems(modules, scan, layer.componentGroups) else []
  }

  /** What the registration pass discovers, layer after layer. */
  function LayersItems(modules: seq<Module>, scan: Scanner, layers: seq<Layer>): seq<(Key, ClassName)>
  {
    if layers == [] then []
    else LayersItems(modules, scan, layers[..|layers| - 1]) + LayerItems(modules, scan, layers[|layers| - 1])
  }

  lemma GroupsItemsSnoc(modules: seq<Module>, scan: Scanner, groups: seq<Pattern>, g: Pattern)
    ensures GroupsItems(modules, scan, groups + [g]) == GroupsItems(modules, scan, groups) + PatternItems(modules, scan, g)
  {
    assert (groups + [g])[..|groups|] == groups;
  }

  lemma LayersItemsSnoc(modules: seq<Module>, scan: Scanner, layers: seq<Layer>, l: Layer)
    ensures LayersItems(modules, scan, layers + [l]) == LayersItems(modules, scan, layers) + LayerItems(modules, scan, l)
  {
    assert (layers + [l])[..|layers|] == layers;
  }

  lemma {:induction false} GroupsItemsAppend(modules: seq<Module>, scan: Scanner, a: seq<Pattern>, b: seq<Pattern>)
    ensures GroupsItems(modules, scan, a + b) == GroupsItems(modules, scan, a) + GroupsItems(modules, scan, b)
    decreases |b|
  {
    if b == [] {
      assert a + b == a;
    } else {
      var init := b[..|b| - 1];
      var last := b[|b| - 1];
      assert b == init + [last];
      assert a + b == (a + init) + [last];
      GroupsItemsAppend(modules, scan, a, init);
      GroupsItemsSnoc(modules, scan, a + init, last);
      GroupsItemsSnoc(modules, scan, init, last);
      Assoc(GroupsItems(modules, scan, a), GroupsItems(modules, scan, init), PatternItems(modules, scan, last));
    }
  }

  lemma {:induction false} LayersItemsAppend(modules: seq<Module>, scan: Scanner, a: seq<Layer>, b: seq<Layer>)
    ensures LayersItems(modules, scan, a + b) == LayersItems(modules, scan, a) + LayersItems(modules, scan, b)
    decreases |b|
  {
    if b == [] {
      assert a + b == a;
    } else {
      var init := b[..|b| - 1];
      var last := b[|b| - 1];
      assert b == init + [last];
      assert a + b == (a + init) + [last];
      LayersItemsAppend(modules, scan, a, init);
      LayersItemsSnoc(modules, scan, a + init, last);
      LayersItemsSnoc(modules, scan, init, last);
      Assoc(LayersItems(modules, scan, a), LayersItems(modules, scan, init), LayerItems(modules, scan, last));
    }
  }

  /** What the layers up to and including layer `i` discover. */
  lemma LayersItemsStepAt(modules: seq<Module>, scan: Scanner, layers: seq<Layer>, i: nat)
    requires i < |layers|
    ensures LayersItems(modules, scan, layers[..i + 1])
         == LayersItems(modules, scan, layers[..i]) + LayerItems(modules, scan, layers[i])
  {
    assert layers[..i + 1][..i] == layers[..i];
  }

  /** What the patterns up to and including pattern `j` discover, after `before`. */
  lemma GroupsItemsStepAt(modules: seq<Module>, scan: Scanner, before: seq<(Key, ClassName)>, groups: seq<Pattern>, j: nat)
    requires j < |groups|
    ensures before + GroupsItems(modules, scan, groups[..j + 1])
         == (before + GroupsItems(modules, scan, groups[..j])) + PatternItems(modules, scan, groups[j])
  {
    assert groups[..j + 1][..j] == groups[..j];
  }

  /** What the layers from layer `i` on discover follows what the earlier ones discover. */
  lemma LayersItemsSplit(modules: seq<Module>, scan: Scanner, layers: seq<Layer>, i: nat)
    requires i <= |layers|
    ensures LayersItems(modules, scan, layers)
         == LayersItems(modules, scan, layers[..i]) + LayersItems(modules, scan, layers[i..])
  {
    assert layers == layers[..i] + layers[i..];
    LayersItemsAppend(modules, scan, layers[..i], layers[i..]);
  }

  /** What the patterns from pattern `j` on discover follows what the earlier ones discover. */
  lemma GroupsItemsSplit(modules: seq<Module>, scan: Scanner, before: seq<(Key, ClassName)>, groups: seq<Pattern>, j: nat)
    requires j <= |groups|
    ensures before + GroupsItems(modules, scan, groups)
         == (before + GroupsItems(modules, scan, groups[..j])) + GroupsItems(modules, scan, groups[j..])
  {
    assert groups == groups[..j] + groups[j..];
    GroupsItemsAppend(modules, scan, groups[..j], groups[j..]);
  }

  /** A discovered pair comes from some pattern of some layer that passes the
      Layer check, and every pair such a pattern's scan returns is discovered:
      layers that fail the check contribute nothing. */
  lemma {:induction false} LayersItemsMembers(modules: seq<Module>, scan: Scanner, layers: seq<Layer>, item: (Key, ClassName))
    ensures item in LayersItems(modules, scan, layers)
        <==> exists i, j :: 0 <= i < |layers| && layers[i].isLayer && 0 <= j < |layers[i].componentGroups|
                         && item in PatternItems(modules, scan, layers[i].componentGroups[j])
  {
    LayersItemsHas(modules, scan, layers, item);
    if item in LayersItems(modules, scan, layers) {
      var i :| 0 <= i < |layers| && item in LayerItems(modules, scan, layers[i]);
      GroupsItemsMembers(modules, scan, layers[i].componentGroups, item);
      var j :| 0 <= j < |layers[i].componentGroups| && item in PatternItems(modules, scan, layers[i].componentGroups[j]);
    }
    if exists i, j :: 0 <= i < |layers| && layers[i].isLayer && 0 <= j < |layers[i].componentGroups|
                    && item in PatternItems(modules, scan, layers[i].componentGroups[j]) {
      var i, j :| 0 <= i < |layers| && layers[i].isLayer && 0 <= j < |layers[i].componentGroups|
               && item in PatternItems(modules, scan, layers[i].componentGroups[j]);
      GroupsItemsMembers(modules, scan, layers[i].componentGroups, item);
      assert item in LayerItems(modules, scan, layers[i]);
    }
  }

  lemma {:induction false} LayersItemsHas(modules: seq<Module>, scan: Scanner, layers: seq<Layer>, item: (Key, ClassName))
    ensures item in LayersItems(modules, scan, layers)
        <==> exists i :: 0 <= i < |layers| && item in LayerItems(modules, scan, layers[i])
    decreases |layers|
  {
    if layers != [] {
      var n := |layers| - 1;
      var init := layers[..n];
      assert layers == init + [layers[n]];
      LayersItemsSnoc(modules, scan, init, layers[n]);
      LayersItemsHas(modules, scan, init, item);
      if item in LayersItems(modules, scan, init) {
        var i :| 0 <= i < |init| && item in LayerItems(modules, scan, init[i]);
        assert layers[i] == init[i];
      }
      if exists i :: 0 <= i < n && item in LayerItems(modules, scan, layers[i]) {
        var i :| 0 <= i < n && item in LayerItems(modules, scan, layers[i]);
        assert init[i] == layers[i];
      }
    }
  }

  lemma {:induction false} GroupsItemsMembers(modules: seq<Module>, scan: Scanner, groups: seq<Pattern>, item: (Key, ClassName))
    ensures item in GroupsItems(modules, scan, groups)
        <==> exists j :: 0 <= j < |groups| && item in PatternItems(modules, scan, groups[j])
    decreases |groups|
  {
    if groups != [] {
      var n := |groups| - 1;
      var init := groups[..n];
      assert groups == init + [groups[n]];
      GroupsItemsSnoc(modules, scan, init, groups[n]);
      GroupsItemsMembers(modules, scan, init, item);
      if item in GroupsItems(modules, scan, init) {
        var j :| 0 <= j < |init| && item in PatternItems(modules, scan, init[j]);
        assert groups[j] == init[j];
      }
      if exists j :: 0 <= j < n && item in PatternItems(modules, scan, groups[j]) {
        var j :| 0 <= j < n && item in PatternItems(modules, scan, groups[j]);
        assert init[j] == groups[j];
      }
    }
  }
}
