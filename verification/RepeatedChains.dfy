/** The single chain of repeated fields that the paths of one index definition may go through. */
module RepeatedChains {
  import opened Results
  import opened FieldPaths

  /** Every key path runs along the chain, and some key path runs along all of it. */
  ghost predicate ChainOf(d: Descriptor, keys: seq<Path>, chain: seq<Path>) {
    && (forall k :: 0 <= k < |keys| ==> AllAncestors(d, keys[k]) <= chain)
    && (chain == [] || exists k :: 0 <= k < |keys| && AllAncestors(d, keys[k]) == chain)
  }

  ghost predicate AllAccepted(d: Descriptor, paths: seq<Path>) {
    forall k :: 0 <= k < |paths| ==> Accepted(d, paths[k])
  }

  /** The path enters no repeated field outside the chain. */
  ghost predicate Covered(d: Descriptor, chain: seq<Path>, path: Path) {
    forall k :: 0 <= k < |AllAncestors(d, path)| ==> AllAncestors(d, path)[k] in chain
  }

  ghost predicate AllCovered(d: Descriptor, chain: seq<Path>, paths: seq<Path>) {
    forall k :: 0 <= k < |paths| ==> Covered(d, chain, paths[k])
  }

  /** The definition is usable, and this is its chain. */
  ghost predicate HasChain(d: Descriptor, keys: seq<Path>, orders: seq<Path>, chain: seq<Path>) {
    AllAccepted(d, keys) && ChainOf(d, keys, chain) && AllAccepted(d, orders) && AllCovered(d, chain, orders)
  }

  lemma ChainIsUnique(d: Descriptor, keys: seq<Path>, a: seq<Path>, b: seq<Path>)
    requires ChainOf(d, keys, a) && ChainOf(d, keys, b)
    ensures a == b
  {
    assert a <= b && b <= a;
  }

  /** Each element of a chain is a path whose own ancestors are the chain up to it. */
  lemma ChainElement(d: Descriptor, keys: seq<Path>, chain: seq<Path>, j: nat)
    requires ChainOf(d, keys, chain) && j < |chain|
    ensures chain[j] != [] && Ancestors(d, chain[j], |chain[j]|) == chain[..j + 1]
  {
    hide Ancestors;
    var k :| 0 <= k < |keys| && AllAncestors(d, keys[k]) == chain;
    AncestorIs(d, keys[k], RealLength(keys[k]), j);
  }

  /** Chain elements get longer and longer, so they are all different. */
  lemma ChainGrows(d: Descriptor, keys: seq<Path>, chain: seq<Path>, i: nat, j: nat)
    requires ChainOf(d, keys, chain) && i < j < |chain|
    ensures chain[i] != chain[j]
  {
    ChainElement(d, keys, chain, i);
    ChainElement(d, keys, chain, j);
    assert |chain[..i + 1]| != |chain[..j + 1]|;
  }

  /** A path that stays inside the chain runs along it from the start. */
  lemma CoveredIsPrefix(d: Descriptor, keys: seq<Path>, chain: seq<Path>, path: Path)
    requires ChainOf(d, keys, chain) && Covered(d, chain, path)
    ensures AllAncestors(d, path) <= chain
  {
    hide Ancestors;
    var own := AllAncestors(d, path);
    if own != [] {
      var last := |own| - 1;
      AncestorIs(d, path, RealLength(path), last);
      assert own[last] in chain;
      var j :| 0 <= j < |chain| && chain[j] == own[last];
      ChainElement(d, keys, chain, j);
      assert own[..last + 1] == own;
      assert own == chain[..j + 1];
    }
  }

  // -------------------------------------------------------------------------
  // The analysis
  // -------------------------------------------------------------------------

  method ExtractRepeatedAncestors(d: Descriptor, path: Path, segs: seq<Segment>) returns (ancestors: seq<Path>)
    requires Accepted(d, path) && segs == Segments(d, path, |path|)
    ensures ancestors == AllAncestors(d, path)
  {
    hide FieldAt, TypeAt;
    ancestors := [];
    var prefix: Path := [];
    for i := 0 to |segs|
      invariant i <= RealLength(path) && prefix == path[..i] && ancestors == Ancestors(d, path, i)
    {
      if segs[i].VirtualIndex? {
        assert i == RealLength(path);
        break;
      }
      assert i < RealLength(path) && Usable(d, path, i);
      prefix := prefix + [path[i]];
      assert path[..i + 1] == prefix;
      if segs[i].field.repeated {
        ancestors := ancestors + [prefix];
      }
    }
  }

  /** The chain after one more key path; the two must not branch. */
  method MergeAncestors(chain: seq<Path>, ancestors: seq<Path>) returns (r: Result<seq<Path>>)
    ensures match r
            case Ok(c) => chain <= c && ancestors <= c && (c == chain || c == ancestors)
            case Err(s) => s == InvalidArgument && !(chain <= ancestors) && !(ancestors <= chain)
  {
    var c := chain;
    for i := 0 to |ancestors|
      invariant chain <= c && ancestors[..i] <= c
      invariant c == if i <= |chain| then chain else ancestors[..i]
    {
      assert ancestors[..i + 1] == ancestors[..i] + [ancestors[i]];
      if i < |c| {
        if c[i] != ancestors[i] {
          assert chain[i] != ancestors[i];
          return Err(InvalidArgument);
        }
        assert c[..i + 1] == ancestors[..i + 1];
      } else {
        c := c + [ancestors[i]];
      }
    }
    assert ancestors[..|ancestors|] == ancestors;
    return Ok(c);
  }

  method FindInChain(chain: seq<Path>, prefix: Path) returns (pos: Option<nat>)
    ensures match pos
            case Some(j) => j < |chain| && chain[j] == prefix && forall i :: 0 <= i < j ==> chain[i] != prefix
            case None => prefix !in chain
  {
    for i := 0 to |chain|
      invariant forall j :: 0 <= j < i ==> chain[j] != prefix
    {
      if chain[i] == prefix {
        return Some(i);
      }
    }
    return None;
  }

  /** The number of repeated fields above a path; negative if one of them is not in the chain. */
  method ComputeFieldDepth(d: Descriptor, path: Path, segs: seq<Segment>, chain: seq<Path>, ghost keys: seq<Path>)
    returns (depth: int)
    requires Accepted(d, path) && segs == Segments(d, path, |path|) && ChainOf(d, keys, chain)
    ensures depth == if Covered(d, chain, path) then |AllAncestors(d, path)| else -1
  {
    hide FieldAt, TypeAt, Ancestors;
    var ancestors := ExtractRepeatedAncestors(d, path, segs);
    if Covered(d, chain, path) {
      CoveredIsPrefix(d, keys, chain, path);
    }
    if segs[|segs| - 1].VirtualIndex? {
      VirtualHasParent(d, path);
      if ancestors == [] {
        return -1;
      }
      var last := ancestors[|ancestors| - 1];
      var pos := FindInChain(chain, last);
      if pos.None? {
        return -1;
      }
      LastDecides(d, keys, chain, path, pos.value);
      return pos.value + 1;
    }
    depth := 0;
    for k := 0 to |ancestors|
      invariant forall i :: 0 <= i < k ==> ancestors[i] in chain
      invariant Covered(d, chain, path) ==> depth == k
    {
      var pos := FindInChain(chain, ancestors[k]);
      if pos.None? {
        return -1;
      }
      if Covered(d, chain, path) {
        assert chain[k] == ancestors[k];
        SamePosition(d, keys, chain, k, pos.value);
      }
      depth := pos.value + 1;
    }
  }

  lemma SamePosition(d: Descriptor, keys: seq<Path>, chain: seq<Path>, i: nat, j: nat)
    requires ChainOf(d, keys, chain) && i < |chain| && j < |chain| && chain[i] == chain[j]
    ensures i == j
  {
    if i < j {
      ChainGrows(d, keys, chain, i, j);
    }
    if j < i {
      ChainGrows(d, keys, chain, j, i);
    }
  }

  lemma VirtualHasParent(d: Descriptor, path: Path)
    requires Accepted(d, path) && IsVirtual(path)
    ensures AllAncestors(d, path) != [] && AllAncestors(d, path)[|AllAncestors(d, path)| - 1] == path[..|path| - 1]
  {
  }

  lemma LastDecides(d: Descriptor, keys: seq<Path>, chain: seq<Path>, path: Path, j: nat)
    requires ChainOf(d, keys, chain) && AllAncestors(d, path) != [] && j < |chain|
    requires chain[j] == AllAncestors(d, path)[|AllAncestors(d, path)| - 1]
    ensures Covered(d, chain, path) && |AllAncestors(d, path)| == j + 1
  {
    hide Ancestors;
    var own := AllAncestors(d, path);
    AncestorIs(d, path, RealLength(path), |own| - 1);
    ChainElement(d, keys, chain, j);
    assert own[..|own| - 1 + 1] == own;
    assert own == chain[..j + 1];
    forall k | 0 <= k < |own|
      ensures own[k] in chain
    {
      assert own[k] == chain[k];
    }
  }

  datatype Analysis = Analysis(chain: seq<Path>, depth: map<Path, nat>)

  ghost predicate DepthsOk(d: Descriptor, depth: map<Path, nat>, paths: seq<Path>) {
    forall k :: 0 <= k < |paths| ==> paths[k] in depth && depth[paths[k]] == |AllAncestors(d, paths[k])|
  }

  /** Phase 1: the chain of the key paths. */
  method BuildChain(d: Descriptor, keys: seq<Path>) returns (r: Result<seq<Path>>)
    ensures match r
            case Ok(chain) => AllAccepted(d, keys) && ChainOf(d, keys, chain)
            case Err(s) => s == InvalidArgument && forall chain :: !(AllAccepted(d, keys) && ChainOf(d, keys, chain))
  {
    hide Accepted, AllAncestors;
    var chain: seq<Path> := [];
    for k := 0 to |keys|
      invariant AllAccepted(d, keys[..k]) && ChainOf(d, keys[..k], chain)
    {
      var segs := ResolveIndexFieldPath(d, keys[k]);
      if segs.Err? {
        return Err(InvalidArgument);
      }
      var ancestors := ExtractRepeatedAncestors(d, keys[k], segs.value);
      var merged := MergeAncestors(chain, ancestors);
      assert keys[..k + 1] == keys[..k] + [keys[k]];
      if merged.Err? {
        forall c | ChainOf(d, keys, c)
          ensures false
        {
          Branching(d, keys, k, chain, c);
        }
        return Err(InvalidArgument);
      }
      ChainExtends(d, keys[..k], keys[k], chain, merged.value);
      chain := merged.value;
    }
    assert keys[..|keys|] == keys;
    return Ok(chain);
  }

  lemma ChainExtends(d: Descriptor, keys: seq<Path>, key: Path, chain: seq<Path>, c: seq<Path>)
    requires ChainOf(d, keys, chain) && chain <= c && AllAncestors(d, key) <= c
      && (c == chain || c == AllAncestors(d, key))
    ensures ChainOf(d, keys + [key], c)
  {
    hide AllAncestors;
    var keys' := keys + [key];
    assert keys'[|keys|] == key;
    forall k | 0 <= k < |keys'|
      ensures AllAncestors(d, keys'[k]) <= c
    {
      if k < |keys| {
        assert AllAncestors(d, keys[k]) <= chain;
      }
    }
    if c == chain && c != [] {
      var k :| 0 <= k < |keys| && AllAncestors(d, keys[k]) == chain;
      assert AllAncestors(d, keys'[k]) == c;
    }
  }

  lemma Branching(d: Descriptor, keys: seq<Path>, k: nat, chain: seq<Path>, c: seq<Path>)
    requires k < |keys| && ChainOf(d, keys[..k], chain) && ChainOf(d, keys, c)
    ensures chain <= AllAncestors(d, keys[k]) || AllAncestors(d, keys[k]) <= chain
  {
    hide AllAncestors;
    assert AllAncestors(d, keys[k]) <= c;
    if chain != [] {
      var j :| 0 <= j < k && AllAncestors(d, keys[..k][j]) == chain;
      assert AllAncestors(d, keys[j]) <= c;
    }
  }

  /** Phases 2 and 3: every path must stay inside the chain. */
  method AssignDepths(d: Descriptor, paths: seq<Path>, chain: seq<Path>, depth: map<Path, nat>, ghost keys: seq<Path>)
    returns (r: Result<map<Path, nat>>)
    requires ChainOf(d, keys, chain)
    ensures match r
            case Ok(depth') =>
              && AllAccepted(d, paths) && AllCovered(d, chain, paths) && DepthsOk(d, depth', paths)
              && forall done :: DepthsOk(d, depth, done) ==> DepthsOk(d, depth', done)
            case Err(s) => s == InvalidArgument && !(AllAccepted(d, paths) && AllCovered(d, chain, paths))
  {
    hide Accepted, AllAncestors, Covered, ChainOf;
    var depth': map<Path, nat> := depth;
    for k := 0 to |paths|
      invariant AllAccepted(d, paths[..k]) && AllCovered(d, chain, paths[..k]) && DepthsOk(d, depth', paths[..k])
      invariant forall done :: DepthsOk(d, depth, done) ==> DepthsOk(d, depth', done)
    {
      var segs := ResolveIndexFieldPath(d, paths[k]);
      if segs.Err? {
        return Err(InvalidArgument);
      }
      var n := ComputeFieldDepth(d, paths[k], segs.value, chain, keys);
      if n < 0 {
        return Err(InvalidArgument);
      }
      assert paths[..k + 1] == paths[..k] + [paths[k]];
      depth' := depth'[paths[k] := n];
    }
    assert paths[..|paths|] == paths;
    return Ok(depth');
  }

  /** Succeeds exactly when the definition has a chain, and then finds that chain and every path's depth. */
  method AnalyzeRepeatedChain(d: Descriptor, keys: seq<Path>, orders: seq<Path>) returns (r: Result<Analysis>)
    ensures match r
            case Ok(a) => HasChain(d, keys, orders, a.chain) && DepthsOk(d, a.depth, keys)
              && DepthsOk(d, a.depth, orders)
            case Err(s) => s == InvalidArgument && forall chain :: !HasChain(d, keys, orders, chain)
  {
    hide ChainOf, AllAccepted, AllCovered, DepthsOk;
    var chain := BuildChain(d, keys);
    if chain.Err? {
      return Err(InvalidArgument);
    }
    KeysAreCovered(d, keys, chain.value);
    forall c | ChainOf(d, keys, c)
      ensures c == chain.value
    {
      ChainIsUnique(d, keys, c, chain.value);
    }
    // Key paths run along the chain by construction, so their depths are always found.
    var keyDepths := AssignDepths(d, keys, chain.value, map[], keys);
    var depths := AssignDepths(d, orders, chain.value, keyDepths.value, keys);
    if depths.Err? {
      return Err(InvalidArgument);
    }
    return Ok(Analysis(chain.value, depths.value));
  }

  lemma KeysAreCovered(d: Descriptor, keys: seq<Path>, chain: seq<Path>)
    requires ChainOf(d, keys, chain)
    ensures AllCovered(d, chain, keys)
  {
  }
}
