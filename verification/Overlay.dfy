/** The sparse configuration file: a document is pruned to what differs from the
    defaults, and read back by merging it onto them.

    A dotted key is the list of its segments; no segment holds a dot. */
module Overlay {
  import opened Wrappers

  type Path = seq<string>

  datatype Node = Scalar(text: string) | List(items: seq<Node>) | Mapping(entries: seq<Entry>)
  datatype Entry = Entry(name: string, node: Node)

  function Find(entries: seq<Entry>, name: string): Option<Node> {
    if entries == [] then None
    else if entries[|entries| - 1].name == name then Some(entries[|entries| - 1].node)
    else Find(entries[..|entries| - 1], name)
  }

  /** The scalar or list a path leads to. */
  function LeafAt(node: Node, p: Path): Option<Node>
    decreases |p|
  {
    if p == [] then (if node.Mapping? then None else Some(node))
    else if !node.Mapping? then None
    else
      var child := Find(node.entries, p[0]);
      if child.None? then None else LeafAt(child.value, p[1..])
  }

  ghost predicate DistinctNames(entries: seq<Entry>) {
    forall i, j :: 0 <= i < j < |entries| ==> entries[i].name != entries[j].name
  }

  /** Two renderings of one document type: the same names in the same places. */
  ghost predicate SameShape(a: Node, b: Node)
    decreases a
  {
    if a.Mapping? && b.Mapping? then
      && |a.entries| == |b.entries| && DistinctNames(a.entries)
      && forall i :: 0 <= i < |a.entries| ==>
           a.entries[i].name == b.entries[i].name && SameShape(a.entries[i].node, b.entries[i].node)
    else !a.Mapping? && !b.Mapping?
  }

  // ----------------------------------------------------------------- pruning

  /** Drops every entry that leads to no kept leaf. */
  function Pruned(node: Node, prefix: Path, keep: set<Path>): (r: Node)
    ensures r.Mapping? <==> node.Mapping?
    decreases node, 1
  {
    if node.Mapping? then Mapping(PrunedEntries(node.entries, prefix, keep)) else node
  }

  function PrunedEntries(entries: seq<Entry>, prefix: Path, keep: set<Path>): seq<Entry>
    decreases entries, 0
  {
    if entries == [] then []
    else
      var last := |entries| - 1;
      PrunedEntries(entries[..last], prefix, keep)
      + PrunedEntry(entries[last].name, Pruned(entries[last].node, prefix + [entries[last].name], keep),
                    prefix + [entries[last].name] in keep)
  }

  /** What remains of one entry, given what remains of its value. */
  function PrunedEntry(name: string, value: Node, kept: bool): seq<Entry> {
    if value.Mapping? then (if value.entries == [] then [] else [Entry(name, value)])
    else if kept then [Entry(name, value)] else []
  }

  method Prune(node: Node, prefix: Path, keep: set<Path>) returns (r: Node)
    ensures r == Pruned(node, prefix, keep)
    decreases node
  {
    if !node.Mapping? {
      return node;
    }
    var kept: seq<Entry> := [];
    var i := 0;
    while i < |node.entries|
      invariant i <= |node.entries|
      invariant kept == PrunedEntries(node.entries[..i], prefix, keep)
    {
      var name, value := node.entries[i].name, node.entries[i].node;
      var path := prefix + [name];
      assert node.entries[..i + 1][..i] == node.entries[..i];
      if value.Mapping? {
        var pruned := Prune(value, path, keep);
        if |pruned.entries| > 0 {
          kept := kept + [Entry(name, pruned)];
        }
      } else if path in keep {
        kept := kept + [Entry(name, value)];
      }
      i := i + 1;
    }
    assert node.entries[..i] == node.entries;
    return Mapping(kept);
  }

  // --------------------------------------------------- what is worth keeping

  /** The paths of the leaves on which two documents disagree. */
  function Differing(def: Node, data: Node, prefix: Path): set<Path>
    decreases data, 1
  {
    if def.Mapping? && data.Mapping? then DifferingEntries(def, data.entries, prefix)
    else if def == data then {} else {prefix}
  }

  function DifferingEntries(def: Node, entries: seq<Entry>, prefix: Path): set<Path>
    requires def.Mapping?
    decreases entries, 0
  {
    if entries == [] then {}
    else
      var last := entries[|entries| - 1];
      var was := Find(def.entries, last.name);
      DifferingEntries(def, entries[..|entries| - 1], prefix)
      + (if was.None? then {} else Differing(was.value, last.node, prefix + [last.name]))
  }

  function BuildOverlay(data: Node, def: Node): Node {
    Pruned(data, [], Differing(def, data, []))
  }

  /** Reading an overlay onto a document: a scalar or list it names replaces the one
      there, a mapping is descended into, and what it does not name stays. */
  function Merge(base: Node, over: Node): Node
    decreases base
  {
    if base.Mapping? && over.Mapping? then
      Mapping(seq(|base.entries|, i requires 0 <= i < |base.entries| =>
        var e := base.entries[i];
        var o := Find(over.entries, e.name);
        if o.None? then e else Entry(e.name, Merge(e.node, o.value))))
    else if !base.Mapping? && !over.Mapping? then over
    else base
  }

  // -------------------------------------------------------------- the proofs

  lemma {:induction false} FindAt(entries: seq<Entry>, i: nat)
    requires DistinctNames(entries) && i < |entries|
    ensures Find(entries, entries[i].name) == Some(entries[i].node)
  {
    var last := |entries| - 1;
    if i < last {
      FindAt(entries[..last], i);
    }
  }

  lemma {:induction false} FindMeans(entries: seq<Entry>, name: string)
    ensures match Find(entries, name)
            case None => forall i :: 0 <= i < |entries| ==> entries[i].name != name
            case Some(n) => exists i :: 0 <= i < |entries| && entries[i] == Entry(name, n)
  {
    if entries != [] {
      var last := |entries| - 1;
      FindMeans(entries[..last], name);
      if entries[last].name == name {
        assert entries[last] == Entry(name, entries[last].node);
      }
    }
  }

  lemma {:induction false} FindSplit(a: seq<Entry>, b: seq<Entry>, name: string)
    requires |b| <= 1
    ensures Find(a + b, name) == if b != [] && b[0].name == name then Some(b[0].node) else Find(a, name)
  {
    if b == [] {
      assert a + b == a;
    } else {
      assert (a + b)[..|a|] == a;
    }
  }

  /** A name is found in what remains exactly when its own entry remains. */
  lemma {:induction false} FindPruned(entries: seq<Entry>, prefix: Path, keep: set<Path>, i: nat)
    requires DistinctNames(entries) && i < |entries|
    ensures var e := entries[i];
            var rest := PrunedEntry(e.name, Pruned(e.node, prefix + [e.name], keep), prefix + [e.name] in keep);
            Find(PrunedEntries(entries, prefix, keep), e.name) == if rest == [] then None else Some(rest[0].node)
  {
    var last := |entries| - 1;
    var front, e := entries[..last], entries[last];
    var rest := PrunedEntry(e.name, Pruned(e.node, prefix + [e.name], keep), prefix + [e.name] in keep);
    FindSplit(PrunedEntries(front, prefix, keep), rest, entries[i].name);
    if i < last {
      FindPruned(front, prefix, keep, i);
    } else {
      NameIsGone(front, prefix, keep, e.name);
    }
  }

  lemma {:induction false} NameIsGone(entries: seq<Entry>, prefix: Path, keep: set<Path>, name: string)
    requires forall i :: 0 <= i < |entries| ==> entries[i].name != name
    ensures Find(PrunedEntries(entries, prefix, keep), name) == None
  {
    if entries != [] {
      var last := |entries| - 1;
      var e := entries[last];
      NameIsGone(entries[..last], prefix, keep, name);
      FindSplit(PrunedEntries(entries[..last], prefix, keep),
                PrunedEntry(e.name, Pruned(e.node, prefix + [e.name], keep), prefix + [e.name] in keep), name);
    }
  }

  /** `keep` names, under `prefix`, exactly the leaves on which the two disagree. */
  ghost predicate KeepsDifferences(def: Node, data: Node, prefix: Path, keep: set<Path>) {
    forall p: Path :: prefix + p in keep <==> LeafAt(data, p).Some? && LeafAt(def, p) != LeafAt(data, p)
  }

  lemma ChildKeeps(def: Node, data: Node, prefix: Path, keep: set<Path>, i: nat)
    requires data.Mapping? && SameShape(def, data) && KeepsDifferences(def, data, prefix, keep) && i < |data.entries|
    ensures KeepsDifferences(def.entries[i].node, data.entries[i].node, prefix + [data.entries[i].name], keep)
    ensures DistinctNames(data.entries)
  {
    var name := data.entries[i].name;
    FindAt(def.entries, i);
    FindAt(data.entries, i);
    forall p: Path
      ensures prefix + [name] + p in keep <==>
        LeafAt(data.entries[i].node, p).Some? && LeafAt(def.entries[i].node, p) != LeafAt(data.entries[i].node, p)
    {
      var q := [name] + p;
      assert q[1..] == p && prefix + q == prefix + [name] + p;
      assert LeafAt(data, q) == LeafAt(data.entries[i].node, p);
      assert LeafAt(def, q) == LeafAt(def.entries[i].node, p);
    }
  }

  /** Merging what was pruned gives the document back. */
  lemma {:induction false} MergePruned(def: Node, data: Node, prefix: Path, keep: set<Path>)
    requires data.Mapping? && SameShape(def, data) && KeepsDifferences(def, data, prefix, keep)
    ensures Merge(def, Pruned(data, prefix, keep)) == data
    decreases data, 1
  {
    var merged := Merge(def, Pruned(data, prefix, keep));
    forall i | 0 <= i < |data.entries| ensures merged.entries[i] == data.entries[i] {
      MergePrunedEntry(def, data, prefix, keep, i);
    }
    assert merged.entries == data.entries;
  }

  lemma {:induction false} MergePrunedEntry(def: Node, data: Node, prefix: Path, keep: set<Path>, i: nat)
    requires data.Mapping? && SameShape(def, data) && KeepsDifferences(def, data, prefix, keep)
    requires i < |data.entries|
    ensures var e, was := data.entries[i], def.entries[i].node;
            var o := Find(PrunedEntries(data.entries, prefix, keep), e.name);
            e.node == if o.None? then was else Merge(was, o.value)
    decreases data, 0
  {
    var e, was := data.entries[i], def.entries[i].node;
    var path := prefix + [e.name];
    ChildKeeps(def, data, prefix, keep, i);
    FindPruned(data.entries, prefix, keep, i);
    assert SameShape(was, e.node);
    if e.node.Mapping? {
      MergePruned(was, e.node, path, keep);
      MergeNothing(was);
      assert Pruned(e.node, path, keep).entries == [] ==> Pruned(e.node, path, keep) == Mapping([]);
    } else {
      assert path + [] == path;
      assert path in keep <==> LeafAt(was, []) != LeafAt(e.node, []);
    }
  }

  lemma MergeNothing(base: Node)
    requires base.Mapping?
    ensures Merge(base, Mapping([])) == base
  {
    assert Merge(base, Mapping([])).entries == base.entries;
  }

  /** What is left holds exactly the leaves that differ, with their own values. */
  lemma {:induction false} PrunedLeaves(def: Node, data: Node, prefix: Path, keep: set<Path>, p: Path)
    requires data.Mapping? && SameShape(def, data) && KeepsDifferences(def, data, prefix, keep)
    ensures LeafAt(Pruned(data, prefix, keep), p)
         == if LeafAt(def, p) != LeafAt(data, p) then LeafAt(data, p) else None
    decreases |p|, 1
  {
    if p != [] {
      FindMeans(data.entries, p[0]);
      SameNames(def, data, p[0]);
      if Find(data.entries, p[0]).None? {
        NameIsGone(data.entries, prefix, keep, p[0]);
      } else {
        var i :| 0 <= i < |data.entries| && data.entries[i] == Entry(p[0], Find(data.entries, p[0]).value);
        PrunedLeavesThrough(def, data, prefix, keep, p, i);
      }
    }
  }

  lemma {:induction false} PrunedLeavesThrough(def: Node, data: Node, prefix: Path, keep: set<Path>, p: Path, i: nat)
    requires data.Mapping? && SameShape(def, data) && KeepsDifferences(def, data, prefix, keep)
    requires p != [] && i < |data.entries| && data.entries[i].name == p[0]
    ensures LeafAt(Pruned(data, prefix, keep), p)
         == if LeafAt(def, p) != LeafAt(data, p) then LeafAt(data, p) else None
    decreases |p|, 0
  {
    var e, was := data.entries[i], def.entries[i].node;
    ChildKeeps(def, data, prefix, keep, i);
    FindPruned(data.entries, prefix, keep, i);
    FindAt(def.entries, i);
    FindAt(data.entries, i);
    if e.node.Mapping? {
      PrunedLeaves(was, e.node, prefix + [e.name], keep, p[1..]);
    } else {
      assert prefix + [e.name] + [] == prefix + [e.name];
      assert prefix + [e.name] in keep <==> LeafAt(was, []) != LeafAt(e.node, []);
    }
  }

  lemma SameNames(def: Node, data: Node, name: string)
    requires data.Mapping? && SameShape(def, data)
    ensures Find(data.entries, name).None? ==> Find(def.entries, name).None?
  {
    FindMeans(data.entries, name);
    FindMeans(def.entries, name);
  }

  ghost predicate NoEmptyMapping(entries: seq<Entry>) {
    forall i :: 0 <= i < |entries| ==>
      entries[i].node.Mapping? ==> entries[i].node.entries != [] && NoEmptyMapping(entries[i].node.entries)
  }

  lemma {:induction false} PrunedHasNoEmptyMapping(entries: seq<Entry>, prefix: Path, keep: set<Path>)
    ensures NoEmptyMapping(PrunedEntries(entries, prefix, keep))
    decreases entries
  {
    if entries != [] {
      var last := |entries| - 1;
      var e := entries[last];
      PrunedHasNoEmptyMapping(entries[..last], prefix, keep);
      if e.node.Mapping? {
        PrunedHasNoEmptyMapping(e.node.entries, prefix + [e.name], keep);
      }
    }
  }

  // ------------------------------------------------------- the differences

  lemma {:induction false} DifferingUnderPrefix(def: Node, data: Node, prefix: Path, path: Path)
    requires path in Differing(def, data, prefix)
    ensures prefix <= path && (data.Mapping? && def.Mapping? ==> |path| > |prefix|)
    decreases data, 1
  {
    if def.Mapping? && data.Mapping? {
      DifferingEntriesUnderPrefix(def, data.entries, prefix, path);
    }
  }

  lemma {:induction false} DifferingEntriesUnderPrefix(def: Node, entries: seq<Entry>, prefix: Path, path: Path)
    requires def.Mapping? && path in DifferingEntries(def, entries, prefix)
    ensures prefix <= path && |path| > |prefix| && Find(entries, path[|prefix|]).Some?
    decreases entries, 0
  {
    var last := entries[|entries| - 1];
    if path in DifferingEntries(def, entries[..|entries| - 1], prefix) {
      DifferingEntriesUnderPrefix(def, entries[..|entries| - 1], prefix, path);
    } else {
      DifferingUnderPrefix(Find(def.entries, last.name).value, last.node, prefix + [last.name], path);
      assert path[|prefix|] == last.name && path[..|prefix|] == prefix;
    }
  }

  /** Of the paths collected from the entries of a mapping, those that go through a
      name are the ones collected below the entry of that name. */
  lemma {:induction false} DifferingThrough(def: Node, entries: seq<Entry>, prefix: Path, name: string, path: Path)
    requires def.Mapping? && DistinctNames(entries) && |path| > |prefix| && path[|prefix|] == name
    ensures path in DifferingEntries(def, entries, prefix) <==>
      Find(entries, name).Some? && Find(def.entries, name).Some?
      && path in Differing(Find(def.entries, name).value, Find(entries, name).value, prefix + [name])
    decreases entries
  {
    if entries != [] {
      var front, last := entries[..|entries| - 1], entries[|entries| - 1];
      DifferingThrough(def, front, prefix, name, path);
      if last.name == name {
        FindMeans(front, name);
        if path in DifferingEntries(def, front, prefix) {
          DifferingEntriesUnderPrefix(def, front, prefix, path);
        }
      } else {
        var was := Find(def.entries, last.name);
        if was.Some? && path in Differing(was.value, last.node, prefix + [last.name]) {
          DifferingUnderPrefix(was.value, last.node, prefix + [last.name], path);
        }
      }
    }
  }

  lemma {:induction false} DifferingIsExact(def: Node, data: Node, prefix: Path, p: Path)
    requires SameShape(def, data)
    ensures prefix + p in Differing(def, data, prefix) <==> LeafAt(data, p).Some? && LeafAt(def, p) != LeafAt(data, p)
    decreases |p|
  {
    if !data.Mapping? {
      assert prefix + [] == prefix;
      assert p != [] ==> prefix + p != prefix;
    } else if p == [] {
      if prefix + p in Differing(def, data, prefix) {
        DifferingUnderPrefix(def, data, prefix, prefix + p);
      }
    } else {
      var name := p[0];
      assert prefix + p == prefix + [name] + p[1..];
      SameDistinct(def, data);
      DifferingThrough(def, data.entries, prefix, name, prefix + p);
      SameNames(def, data, name);
      FindMeans(data.entries, name);
      if Find(data.entries, name).Some? {
        var i :| 0 <= i < |data.entries| && data.entries[i] == Entry(name, Find(data.entries, name).value);
        FindAt(def.entries, i);
        DifferingIsExact(def.entries[i].node, data.entries[i].node, prefix + [name], p[1..]);
      }
    }
  }

  lemma SameDistinct(def: Node, data: Node)
    requires data.Mapping? && SameShape(def, data)
    ensures DistinctNames(data.entries)
  {
    forall i, j | 0 <= i < j < |data.entries| ensures data.entries[i].name != data.entries[j].name {
      assert def.entries[i].name == data.entries[i].name && def.entries[j].name == data.entries[j].name;
    }
  }

  /** The overlay of a document holds exactly the leaves and lists that differ from
      the defaults, at any depth, and no empty mapping; and merging it onto the
      defaults gives the document back. */
  lemma OverlayRoundTrip(data: Node, def: Node)
    requires data.Mapping? && SameShape(def, data)
    ensures var overlay := BuildOverlay(data, def);
            && Merge(def, overlay) == data
            && NoEmptyMapping(overlay.entries)
            && forall p :: LeafAt(overlay, p) == if LeafAt(def, p) != LeafAt(data, p) then LeafAt(data, p) else None
  {
    var keep := Differing(def, data, []);
    forall p: Path ensures [] + p in keep <==> LeafAt(data, p).Some? && LeafAt(def, p) != LeafAt(data, p) {
      DifferingIsExact(def, data, [], p);
    }
    MergePruned(def, data, [], keep);
    PrunedHasNoEmptyMapping(data.entries, [], keep);
    forall p ensures LeafAt(BuildOverlay(data, def), p)
                  == if LeafAt(def, p) != LeafAt(data, p) then LeafAt(data, p) else None {
      PrunedLeaves(def, data, [], keep, p);
    }
  }

  /** A setting put back to its default leaves the file: the defaults themselves are
      saved as an empty overlay. */
  lemma DefaultsSaveNothing(def: Node)
    requires def.Mapping? && SameShape(def, def)
    ensures BuildOverlay(def, def) == Mapping([])
  {
    OverlayRoundTrip(def, def);
    var entries := BuildOverlay(def, def).entries;
    if entries != [] {
      var p := SomeLeaf(entries);
    }
  }

  lemma {:induction false} SomeLeaf(entries: seq<Entry>) returns (p: Path)
    requires entries != [] && NoEmptyMapping(entries)
    ensures LeafAt(Mapping(entries), p).Some?
    decreases entries
  {
    var last := entries[|entries| - 1];
    var rest: Path := [];
    if last.node.Mapping? {
      rest := SomeLeaf(last.node.entries);
    }
    p := [last.name] + rest;
    assert p[1..] == rest && Find(entries, last.name) == Some(last.node);
    assert last.node.Mapping? ==> last.node == Mapping(last.node.entries);
  }
}
