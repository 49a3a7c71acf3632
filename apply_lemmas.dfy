/** What the apply pass promises, stated over its specification functions in module ApplySpecs
    (which the imperative methods of module ApplyPass are proved to compute). */
module ApplyLemmas {
  import opened Wrappers
  import opened NormalizedNodes
  import opened TreeNodes
  import opened Modifications
  import opened Strategies
  import opened ApplySpecs

  /** The staged child with identifier k, the first in order. */
  function FindStaged(cs: seq<ModifiedNode>, k: PathArg): (r: Option<ModifiedNode>)
    ensures r.Some? ==> r.value in cs && r.value.identifier == k
    ensures r.None? <==> forall j :: 0 <= j < |cs| ==> cs[j].identifier != k
  {
    if |cs| == 0 then None
    else if cs[0].identifier == k then Some(cs[0])
    else
      assert forall j :: 1 <= j < |cs| ==> cs[1..][j - 1] == cs[j];
      FindStaged(cs[1..], k)
  }

  /** Reference definition, one identifier at a time, of the child nodes a parent has once mod's
      staged children are applied over the child nodes meta: under k, the node the staged child
      with identifier k leaves behind, or meta's own node when no child is staged under k. */
  ghost function Expected(s: Strategy, mod: ModifiedNode, meta: map<PathArg, TreeNode>, version: Version, k: PathArg)
    : Option<TreeNode>
    requires mod.Valid()
  {
    match FindStaged(mod.children, k)
    case None => Lookup(meta, k)
    case Some(c) =>
      match ChildResult(s, c, Lookup(meta, c.identifier), version)
      case Applied(n, _) => n
      case Defect => None
  }

  /** A modification that resolves to UNMODIFIED leaves the current node, or its absence, as it was. */
  lemma UnmodifiedKeepsCurrent(s: Strategy, mod: ModifiedNode, current: Option<TreeNode>, version: Version)
    requires mod.Valid()
    ensures var a := ApplySpec(s, mod, current, version);
      a.Applied? && a.resolved == Unmodified ==> a.node == current
  {
  }

  /** The node a modification leaves behind carries the modification's identifier. */
  lemma AppliedIdentifier(s: Strategy, mod: ModifiedNode, current: Option<TreeNode>, version: Version)
    requires mod.Valid()
    requires current.Some? ==> current.value.Identifier() == mod.identifier
    ensures var a := ApplySpec(s, mod, current, version);
      a.Applied? && a.node.Some? ==> a.node.value.Identifier() == mod.identifier
  {
    match mod.operation
    case NoOp =>
    case DeleteOp =>
    case WriteOp =>
      WriteIdentifier(s, mod, version);
    case MergeOp =>
      if current.None? || s.LeafStrategy? {
        WriteIdentifier(s, mod, version);
      } else {
        TouchIdentifier(s, mod, current.value, version);
      }
    case TouchOp =>
      if current.Some? && s.NodeContainerStrategy? {
        TouchIdentifier(s, mod, current.value, version);
      }
  }

  lemma WriteIdentifier(s: Strategy, mod: ModifiedNode, version: Version)
    requires mod.Valid() && mod.writtenValue.Some?
    ensures var a := WriteApplied(s, mod, version);
      a.Applied? && a.node.Some? ==> a.node.value.Identifier() == mod.identifier
  {
    var w := mod.writtenValue.value;
    assert CreateTreeNode(w, version).data == w;
    if s.NodeContainerStrategy? && |mod.children| != 0 && w.Container? {
      var acc := Staged(CreateTreeNode(w, version).children, w.children, [], []);
      match MutateSpec(s, mod, 0, acc, version)
      case None =>
      case Some(st) =>
        assert CreateTreeNode(Container(w.id, w.nodeClass, st.data), version).data.id == w.id;
    }
  }

  lemma TouchIdentifier(s: Strategy, mod: ModifiedNode, current: TreeNode, version: Version)
    requires mod.Valid() && s.NodeContainerStrategy?
    ensures var a := TouchSpec(s, mod, current, version);
      a.Applied? ==> a.node.Some? && a.node.value.Identifier() == current.Identifier()
  {
  }

  /** One step of mutateChildren's loop keeps the child nodes filed under their identifiers and
      changes them only under the staged child's identifier. */
  lemma StepKeyed(s: Strategy, mod: ModifiedNode, i: nat, acc: Staged, version: Version)
    requires mod.Valid() && i < |mod.children| && KeyedById(acc.meta)
    requires ChildResult(s, mod.children[i], Lookup(acc.meta, mod.children[i].identifier), version).Applied?
    ensures var c := mod.children[i];
      var a := ChildResult(s, c, Lookup(acc.meta, c.identifier), version);
      var next := Step(acc, c.identifier, a.node, a.resolved);
      && KeyedById(next.meta)
      && Lookup(next.meta, c.identifier) == a.node
      && FindChild(next.data, c.identifier) == DataOf(a.node)
  {
    var c := mod.children[i];
    AppliedIdentifier(s.GetChild(c.identifier).value, c, Lookup(acc.meta, c.identifier), version);
  }

  /** ... and leaves every other identifier's child node and data child alone. */
  lemma StepElsewhere(s: Strategy, mod: ModifiedNode, i: nat, acc: Staged, version: Version, k: PathArg)
    requires mod.Valid() && i < |mod.children| && KeyedById(acc.meta) && k != mod.children[i].identifier
    requires ChildResult(s, mod.children[i], Lookup(acc.meta, mod.children[i].identifier), version).Applied?
    ensures var c := mod.children[i];
      var a := ChildResult(s, c, Lookup(acc.meta, c.identifier), version);
      var next := Step(acc, c.identifier, a.node, a.resolved);
      Lookup(next.meta, k) == Lookup(acc.meta, k) && FindChild(next.data, k) == FindChild(acc.data, k)
  {
    var c := mod.children[i];
    AppliedIdentifier(s.GetChild(c.identifier).value, c, Lookup(acc.meta, c.identifier), version);
  }

  /** mutateChildren's loop, one identifier at a time: under an identifier no remaining child is
      staged for, the child node and the data child stay as they were; under a staged child's
      identifier, both become what that child's own apply leaves behind, computed against the
      child node the loop started from. */
  lemma {:induction false} MutateSpecAt(s: Strategy, mod: ModifiedNode, i: nat, acc: Staged, version: Version, k: PathArg)
    requires mod.Valid() && s.NodeContainerStrategy? && i <= |mod.children|
    requires KeyedById(acc.meta)
    requires MutateSpec(s, mod, i, acc, version).Some?
    ensures var st := MutateSpec(s, mod, i, acc, version).value;
      && KeyedById(st.meta)
      && match FindStaged(mod.children[i..], k)
         case None => Lookup(st.meta, k) == Lookup(acc.meta, k) && FindChild(st.data, k) == FindChild(acc.data, k)
         case Some(c) =>
           && ChildResult(s, c, Lookup(acc.meta, c.identifier), version).Applied?
           && Lookup(st.meta, k) == ChildResult(s, c, Lookup(acc.meta, c.identifier), version).node
           && FindChild(st.data, k) == DataOf(ChildResult(s, c, Lookup(acc.meta, c.identifier), version).node)
    decreases |mod.children| - i
  {
    if i < |mod.children| {
      var c := mod.children[i];
      var a := ChildResult(s, c, Lookup(acc.meta, c.identifier), version);
      var next := Step(acc, c.identifier, a.node, a.resolved);
      assert MutateSpec(s, mod, i, acc, version) == MutateSpec(s, mod, i + 1, next, version);
      StepKeyed(s, mod, i, acc, version);
      if k != c.identifier {
        StepElsewhere(s, mod, i, acc, version, k);
      }
      MutateSpecAt(s, mod, i + 1, next, version, k);
      assert mod.children[i..][1..] == mod.children[i + 1..];
      if c.identifier == k {
        assert forall j :: i + 1 <= j < |mod.children| ==> mod.children[j].identifier != mod.children[i].identifier;
        assert FindStaged(mod.children[i + 1..], k).None?;
      }
    }
  }

  /** The first step of mutateChildren's loop records the type the first remaining staged child
      resolves to. */
  lemma MutateSpecTypeFirst(s: Strategy, mod: ModifiedNode, i: nat, acc: Staged, version: Version)
    requires mod.Valid() && s.NodeContainerStrategy? && i < |mod.children|
    requires MutateSpec(s, mod, i, acc, version).Some?
    ensures ChildResult(s, mod.children[i], Lookup(acc.meta, mod.children[i].identifier), version).Applied?
    ensures MutateSpec(s, mod, i, acc, version).value.types[|acc.types|]
              == ChildResult(s, mod.children[i], Lookup(acc.meta, mod.children[i].identifier), version).resolved
  {
    var c := mod.children[i];
    var a := ChildResult(s, c, Lookup(acc.meta, c.identifier), version);
    var next := Step(acc, c.identifier, a.node, a.resolved);
    MutateSpecUnfold(s, mod, i, acc, version);
    var st := MutateSpec(s, mod, i, acc, version).value;
    assert st.types[|acc.types|] == next.types[|acc.types|];
  }

  /** A loop run that succeeds from child i is that child's step followed by the run from i + 1. */
  lemma MutateSpecUnfold(s: Strategy, mod: ModifiedNode, i: nat, acc: Staged, version: Version)
    requires mod.Valid() && s.NodeContainerStrategy? && i < |mod.children|
    requires MutateSpec(s, mod, i, acc, version).Some?
    ensures var c := mod.children[i];
      var a := ChildResult(s, c, Lookup(acc.meta, c.identifier), version);
      && a.Applied?
      && MutateSpec(s, mod, i, acc, version) == MutateSpec(s, mod, i + 1, Step(acc, c.identifier, a.node, a.resolved), version)
  {
  }

  /** One step of mutateChildren's loop does not change what a later staged child does. */
  lemma StepLaterChild(s: Strategy, mod: ModifiedNode, i: nat, acc: Staged, version: Version, j: nat)
    requires mod.Valid() && i < j < |mod.children| && KeyedById(acc.meta)
    requires ChildResult(s, mod.children[i], Lookup(acc.meta, mod.children[i].identifier), version).Applied?
    ensures var c := mod.children[i];
      var a := ChildResult(s, c, Lookup(acc.meta, c.identifier), version);
      var next := Step(acc, c.identifier, a.node, a.resolved);
      && KeyedById(next.meta) && |next.types| == |acc.types| + 1
      && ChildResult(s, mod.children[j], Lookup(next.meta, mod.children[j].identifier), version)
         == ChildResult(s, mod.children[j], Lookup(acc.meta, mod.children[j].identifier), version)
  {
    assert mod.children[j].identifier != mod.children[i].identifier;
    StepKeyed(s, mod, i, acc, version);
    StepElsewhere(s, mod, i, acc, version, mod.children[j].identifier);
  }

  /** mutateChildren's loop records, in order, the type each remaining staged child resolves to
      against the child node the loop started from: the j-th staged child's at position j. */
  lemma {:induction false} MutateSpecTypeAt(s: Strategy, mod: ModifiedNode, i: nat, acc: Staged, version: Version, j: nat)
    requires mod.Valid() && s.NodeContainerStrategy? && i <= j < |mod.children|
    requires KeyedById(acc.meta)
    requires MutateSpec(s, mod, i, acc, version).Some?
    ensures ChildResult(s, mod.children[j], Lookup(acc.meta, mod.children[j].identifier), version).Applied?
    ensures MutateSpec(s, mod, i, acc, version).value.types[|acc.types| + j - i]
              == ChildResult(s, mod.children[j], Lookup(acc.meta, mod.children[j].identifier), version).resolved
    decreases j - i
  {
    if j == i {
      MutateSpecTypeFirst(s, mod, i, acc, version);
    } else {
      var c := mod.children[i];
      var a := ChildResult(s, c, Lookup(acc.meta, c.identifier), version);
      var next := Step(acc, c.identifier, a.node, a.resolved);
      MutateSpecUnfold(s, mod, i, acc, version);
      StepLaterChild(s, mod, i, acc, version, j);
      MutateSpecTypeAt(s, mod, i + 1, next, version, j);
      var q := |acc.types| + j - i;
      assert |next.types| + j - (i + 1) == q;
      assert MutateSpec(s, mod, i, acc, version).value.types[q] == MutateSpec(s, mod, i + 1, next, version).value.types[q];
    }
  }

  /** applyTouch's children: under every identifier the touched node holds, as a child node and
      as a data child, exactly what the reference definition Expected gives over the current
      node's children, whether the node resolves to UNMODIFIED or SUBTREE_MODIFIED. */
  lemma TouchSpecChildren(s: Strategy, mod: ModifiedNode, current: TreeNode, version: Version, k: PathArg)
    requires mod.Valid() && s.NodeContainerStrategy?
    requires current.data.Container? && Mirrors(current.children, current.data.children)
    requires TouchSpec(s, mod, current, version).Applied?
    ensures var a := TouchSpec(s, mod, current, version);
      && a.node.Some? && a.node.value.data.Container?
      && a.node.value.GetChild(k) == Expected(s, mod, current.children, version, k)
      && FindChild(a.node.value.data.children, k) == DataOf(Expected(s, mod, current.children, version, k))
  {
    assert DataOf(Lookup(current.children, k)) == FindChild(current.data.children, k);
    if |mod.children| != 0 {
      var acc := Staged(current.children, current.data.children, [], []);
      var st := MutateSpec(s, mod, 0, acc, version).value;
      MirrorsKeyed(current.children, current.data.children);
      MutateSpecAt(s, mod, 0, acc, version, k);
      assert mod.children[0..] == mod.children;
      if AllUnmodified(st.types) {
        match FindStaged(mod.children, k)
        case None =>
        case Some(c) =>
          var j :| 0 <= j < |mod.children| && mod.children[j] == c;
          MutateSpecTypeAt(s, mod, 0, acc, version, j);
          assert st.types[j] == Unmodified;
          UnmodifiedKeepsCurrent(s.GetChild(c.identifier).value, c, Lookup(current.children, k), version);
      }
    }
  }

  /** applyTouch's resolution: UNMODIFIED exactly when every staged child resolves to UNMODIFIED,
      and then the current node itself is the result; otherwise SUBTREE_MODIFIED, with the current
      node's identity and own version and the new subtree version. */
  lemma TouchResolution(s: Strategy, mod: ModifiedNode, current: TreeNode, version: Version)
    requires mod.Valid() && s.NodeContainerStrategy?
    requires current.data.Container? && KeyedById(current.children)
    requires TouchSpec(s, mod, current, version).Applied?
    ensures var a := TouchSpec(s, mod, current, version);
      && (a.resolved == Unmodified <==>
            forall j :: 0 <= j < |mod.children| ==>
              var r := ChildResult(s, mod.children[j], Lookup(current.children, mod.children[j].identifier), version);
              r.Applied? && r.resolved == Unmodified)
      && (a.resolved == Unmodified ==> a.node == Some(current))
      && (a.resolved != Unmodified ==>
            && a.resolved == SubtreeModified && a.node.Some?
            && a.node.value.Identifier() == current.Identifier()
            && a.node.value.data.nodeClass == current.data.nodeClass
            && a.node.value.version == current.version
            && a.node.value.subtreeVersion == version)
  {
    if |mod.children| != 0 {
      MutateSpecTypes(s, mod, Staged(current.children, current.data.children, [], []), version);
    }
  }

  /** The loop records, for each staged child in order, the type that child resolves to against
      the child node with its identifier among the child nodes the loop started from. */
  lemma MutateSpecTypes(s: Strategy, mod: ModifiedNode, acc: Staged, version: Version)
    requires mod.Valid() && s.NodeContainerStrategy? && KeyedById(acc.meta) && acc.types == []
    requires MutateSpec(s, mod, 0, acc, version).Some?
    ensures forall j :: 0 <= j < |mod.children| ==>
      && ChildResult(s, mod.children[j], Lookup(acc.meta, mod.children[j].identifier), version).Applied?
      && MutateSpec(s, mod, 0, acc, version).value.types[j]
         == ChildResult(s, mod.children[j], Lookup(acc.meta, mod.children[j].identifier), version).resolved
  {
    forall j | 0 <= j < |mod.children|
      ensures ChildResult(s, mod.children[j], Lookup(acc.meta, mod.children[j].identifier), version).Applied?
      ensures MutateSpec(s, mod, 0, acc, version).value.types[j]
              == ChildResult(s, mod.children[j], Lookup(acc.meta, mod.children[j].identifier), version).resolved
    {
      MutateSpecTypeAt(s, mod, 0, acc, version, j);
    }
  }

  /** Staged children that carry the types the loop recorded for them carry the types they
      resolve to against the child nodes the loop started from. */
  lemma ResolvedAsRecorded(s: Strategy, mod: ModifiedNode, meta: map<PathArg, TreeNode>, data: seq<NormalizedNode>, version: Version)
    requires mod.Valid() && s.NodeContainerStrategy? && KeyedById(meta)
    requires MutateSpec(s, mod, 0, Staged(meta, data, [], []), version).Some?
    requires forall j :: 0 <= j < |mod.children| ==>
      mod.children[j].modificationType == Some(MutateSpec(s, mod, 0, Staged(meta, data, [], []), version).value.types[j])
    ensures ChildrenResolved(s, mod, meta, version)
  {
    MutateSpecTypes(s, mod, Staged(meta, data, [], []), version);
  }


  /** When every staged child resolves to UNMODIFIED, the loop leaves the child nodes and the
      child list exactly as they were, in order. */
  lemma {:induction false} UnmodifiedChildrenKeepStaging(s: Strategy, mod: ModifiedNode, i: nat, acc: Staged, version: Version)
    requires mod.Valid() && s.NodeContainerStrategy? && i <= |mod.children|
    requires Mirrors(acc.meta, acc.data)
    requires MutateSpec(s, mod, i, acc, version).Some?
    requires AllUnmodified(MutateSpec(s, mod, i, acc, version).value.types[|acc.types|..])
    ensures MutateSpec(s, mod, i, acc, version).value.meta == acc.meta
    ensures MutateSpec(s, mod, i, acc, version).value.data == acc.data
    decreases |mod.children| - i
  {
    if i < |mod.children| {
      var c := mod.children[i];
      var a := ChildResult(s, c, Lookup(acc.meta, c.identifier), version);
      var next := Step(acc, c.identifier, a.node, a.resolved);
      var st := MutateSpec(s, mod, i, acc, version).value;
      assert MutateSpec(s, mod, i, acc, version) == MutateSpec(s, mod, i + 1, next, version);
      assert st.types[..|next.types|] == next.types;
      assert st.types[|acc.types|..][0] == a.resolved;
      UnmodifiedKeepsCurrent(s.GetChild(c.identifier).value, c, Lookup(acc.meta, c.identifier), version);
      UnmodifiedStep(acc, c.identifier, a.node, a.resolved);
      assert forall j :: 0 <= j < |st.types[|next.types|..]| ==> st.types[|next.types|..][j] == st.types[|acc.types|..][j + 1];
      UnmodifiedChildrenKeepStaging(s, mod, i + 1, next, version);
    }
  }

  /** A step that puts back the child node already under the identifier, or removes one that is
      not there, changes neither the child nodes nor the child list. */
  lemma UnmodifiedStep(acc: Staged, id: PathArg, node: Option<TreeNode>, t: ModificationType)
    requires Mirrors(acc.meta, acc.data) && node == Lookup(acc.meta, id)
    ensures Step(acc, id, node, t).meta == acc.meta && Step(acc, id, node, t).data == acc.data
  {
    assert DataOf(Lookup(acc.meta, id)) == FindChild(acc.data, id);
    match node
    case Some(tn) =>
      MirrorsKeyed(acc.meta, acc.data);
      WithPresentChild(acc.data, tn.data);
    case None =>
      WithoutAbsentChild(acc.data, id);
  }

  /** Returning the current node when a touch resolves to UNMODIFIED loses nothing: the node the
      loop sealed differs from it only in its subtree version. */
  lemma UnmodifiedTouchLosesNothing(s: Strategy, mod: ModifiedNode, current: TreeNode, version: Version)
    requires mod.Valid() && s.NodeContainerStrategy?
    requires current.data.Container? && Mirrors(current.children, current.data.children)
    requires |mod.children| != 0
    requires MutateSpec(s, mod, 0, Staged(current.children, current.data.children, [], []), version).Some?
    requires AllUnmodified(MutateSpec(s, mod, 0, Staged(current.children, current.data.children, [], []), version).value.types)
    ensures var st := MutateSpec(s, mod, 0, Staged(current.children, current.data.children, [], []), version).value;
      Touched(current, st, version) == current.(subtreeVersion := version)
  {
    var acc := Staged(current.children, current.data.children, [], []);
    var st := MutateSpec(s, mod, 0, acc, version).value;
    assert st.types[|acc.types|..] == st.types;
    UnmodifiedChildrenKeepStaging(s, mod, 0, acc, version);
  }

  /** applyWrite on a container: the result is the written value, with each staged child's result
      overlaid on the written children, materialised afresh at the write's version. */
  lemma WriteSpecChildren(s: Strategy, mod: ModifiedNode, version: Version, k: PathArg)
    requires mod.Valid() && mod.writtenValue.Some? && s.NodeContainerStrategy?
    requires WriteSpec(s, mod, version).Some?
    ensures var t := WriteSpec(s, mod, version).value;
      var w := mod.writtenValue.value;
      && t.data.id == w.id == mod.identifier && t.data.nodeClass == w.nodeClass
      && StampedAt(t, version)
      && DataOf(t.GetChild(k)) ==
           if w.Container? then DataOf(Expected(s, mod, CreateTreeNode(w, version).children, version, k)) else None
  {
    var w := mod.writtenValue.value;
    var base := CreateTreeNode(w, version);
    var t := WriteSpec(s, mod, version).value;
    assert DataOf(base.GetChild(k)) == if w.Container? then FindChild(w.children, k) else None;
    if |mod.children| == 0 {
      CreateTreeNodeStamped(w, version);
    } else {
      var acc := Staged(base.children, w.children, [], []);
      var st := MutateSpec(s, mod, 0, acc, version).value;
      assert Mirrors(base.children, w.children) by {
        forall j ensures DataOf(Lookup(base.children, j)) == FindChild(w.children, j) {
          assert DataOf(base.GetChild(j)) == FindChild(w.children, j);
        }
      }
      MirrorsKeyed(base.children, w.children);
      MutateSpecAt(s, mod, 0, acc, version, k);
      assert mod.children[0..] == mod.children;
      CreateTreeNodeStamped(Container(w.id, w.nodeClass, st.data), version);
      assert DataOf(t.GetChild(k)) == FindChild(st.data, k);
    }
  }

  /** Every value written anywhere in the staged subtree is well formed. */
  ghost predicate WrittenWellFormed(mod: ModifiedNode)
    requires mod.Valid()
    decreases mod.Repr
  {
    && (mod.writtenValue.Some? ==> WellFormed(mod.writtenValue.value))
    && forall j :: 0 <= j < |mod.children| ==> WrittenWellFormed(mod.children[j])
  }

  lemma CoherentChildrenWellFormed(meta: map<PathArg, TreeNode>, data: seq<NormalizedNode>)
    requires CoherentChildren(meta, data)
    ensures forall x | x in data :: WellFormed(x)
  {
    forall x | x in data
      ensures WellFormed(x)
    {
      FindMember(data, x);
      assert DataOf(Lookup(meta, x.id)) == Some(x);
      CoherentWellFormed(meta[x.id]);
    }
  }

  /** The apply pass keeps the metadata tree in step with the data tree: applied to a coherent
      node (or to none) with well-formed written values, its result is coherent. */
  lemma {:induction false} ApplyCoherent(s: Strategy, mod: ModifiedNode, current: Option<TreeNode>, version: Version)
    requires mod.Valid() && WrittenWellFormed(mod)
    requires current.Some? ==> Coherent(current.value)
    requires ApplySpec(s, mod, current, version).Applied?
    ensures var a := ApplySpec(s, mod, current, version);
      a.node.Some? ==> Coherent(a.node.value)
    decreases mod.Repr, 4
  {
    match mod.operation
    case NoOp =>
    case DeleteOp =>
    case WriteOp =>
      WriteCoherent(s, mod, version);
    case MergeOp =>
      if current.None? || s.LeafStrategy? {
        WriteCoherent(s, mod, version);
      } else {
        TouchCoherent(s, mod, current.value, version);
      }
    case TouchOp =>
      if s.NodeContainerStrategy? {
        TouchCoherent(s, mod, current.value, version);
      }
  }

  lemma {:induction false} WriteCoherent(s: Strategy, mod: ModifiedNode, version: Version)
    requires mod.Valid() && WrittenWellFormed(mod) && mod.writtenValue.Some?
    requires WriteApplied(s, mod, version).Applied?
    ensures Coherent(WriteApplied(s, mod, version).node.value)
    decreases mod.Repr, 3
  {
    var w := mod.writtenValue.value;
    CreateTreeNodeCoherent(w, version);
    if s.NodeContainerStrategy? && |mod.children| != 0 {
      var base := CreateTreeNode(w, version);
      ChildrenOfCoherent(base);
      var acc := Staged(base.children, w.children, [], []);
      MutateCoherent(s, mod, 0, acc, version);
      var st := MutateSpec(s, mod, 0, acc, version).value;
      CoherentChildrenWellFormed(st.meta, st.data);
      CreateTreeNodeCoherent(Container(w.id, w.nodeClass, st.data), version);
    }
  }

  lemma {:induction false} TouchCoherent(s: Strategy, mod: ModifiedNode, current: TreeNode, version: Version)
    requires mod.Valid() && WrittenWellFormed(mod) && s.NodeContainerStrategy? && Coherent(current)
    requires TouchSpec(s, mod, current, version).Applied?
    ensures Coherent(TouchSpec(s, mod, current, version).node.value)
    decreases mod.Repr, 2
  {
    if |mod.children| != 0 {
      ChildrenOfCoherent(current);
      var acc := Staged(current.children, current.data.children, [], []);
      MutateCoherent(s, mod, 0, acc, version);
      var st := MutateSpec(s, mod, 0, acc, version).value;
      SealedCoherent(Touched(current, st, version));
    }
  }

  lemma {:induction false} MutateCoherent(s: Strategy, mod: ModifiedNode, i: nat, acc: Staged, version: Version)
    requires mod.Valid() && WrittenWellFormed(mod) && s.NodeContainerStrategy? && i <= |mod.children|
    requires CoherentChildren(acc.meta, acc.data)
    requires MutateSpec(s, mod, i, acc, version).Some?
    ensures CoherentChildren(MutateSpec(s, mod, i, acc, version).value.meta, MutateSpec(s, mod, i, acc, version).value.data)
    decreases mod.Repr, 1, |mod.children| - i
  {
    if i < |mod.children| {
      var c := mod.children[i];
      var a := ChildResult(s, c, Lookup(acc.meta, c.identifier), version);
      var next := Step(acc, c.identifier, a.node, a.resolved);
      assert MutateSpec(s, mod, i, acc, version) == MutateSpec(s, mod, i + 1, next, version);
      ApplyCoherent(s.GetChild(c.identifier).value, c, Lookup(acc.meta, c.identifier), version);
      StepCoherent(acc, c.identifier, a.node, a.resolved);
      MutateCoherent(s, mod, i + 1, next, version);
    }
  }

  /** One step of mutateChildren's loop with a coherent result keeps the children coherent. */
  lemma StepCoherent(acc: Staged, id: PathArg, node: Option<TreeNode>, t: ModificationType)
    requires CoherentChildren(acc.meta, acc.data)
    requires node.Some? ==> Coherent(node.value)
    ensures CoherentChildren(Step(acc, id, node, t).meta, Step(acc, id, node, t).data)
  {
  }
}
