/** The decoder's witness: which keys must stay unhashed so that deletions can be replayed. */
module DeleteWitness {
  import opened Wrappers
  import opened Nibbles
  import opened PartialTrie
  import opened TrieOps
  import opened InsertContent
  import opened DeleteContent
  import opened TrieHashing
  import opened TrieSubsets
  import opened Replay
  import opened SpecialQuery

  /** Compares the path of the deleted key before and after: shorter means that a branch collapsed,
      and the new path spells the key of the child that is left. */
  function CollapseReport(oldPath: seq<Segment>, newPath: seq<Segment>): Option<Key> {
    if |oldPath| < 2 || |oldPath| <= |newPath| then None else Some(IntoKey(newPath))
  }

  /** Deletes a key and reports the key of the remaining child if a branch collapsed. */
  function DeleteAndReport(t: Node, k: Key, s: OnOrphanedHashNode): (r: Result<(Node, Option<Key>), TrieError>)
    requires t.Wf()
    ensures r.Ok? ==> r.value.0.Wf()
  {
    var oldPath := Path(t, k, true);
    var res :- Delete(t, k, s);
    var after := if res.None? then t else res.value.0;
    Ok((after, CollapseReport(oldPath, Path(after, k, true))))
  }

  // ---------------------------------------------------------------------------------------------
  // The path gets shorter exactly when a branch collapses
  // ---------------------------------------------------------------------------------------------

  lemma IntoKeyCons(seg: Segment, path: seq<Segment>)
    ensures IntoKey([seg] + path) == SegmentKey(seg) + IntoKey(path)
  {
    assert ([seg] + path)[1..] == path;
  }

  lemma OneSegment(seg: Segment)
    ensures IntoKey([seg]) == SegmentKey(seg)
  {
    assert [seg][1..] == [];
  }

  /** A node that sends the key elsewhere: its path is its own nibbles only. */
  predicate Diverts(t: Node, k: Key) {
    t.Leaf? || (t.Extension? && !Agree(k, t.nibbles))
  }

  lemma DivertedPath(t: Node, k: Key)
    requires t.Wf() && Diverts(t, k)
    ensures |Path(t, k, true)| == 1 && IntoKey(Path(t, k, true)) == t.nibbles
  {
    OneSegment(Path(t, k, true)[0]);
  }

  /** How the path of a deleted key changes, for the node after its final merge. */
  ghost predicate PathChange(t: Node, k: Key, u: Node, merged: Node)
    requires t.Wf() && merged.Wf()
  {
    match CollapseKey(t, k)
    case None => |Path(merged, k, true)| == |Path(t, k, true)| && (t.Branch? ==> u.Branch?)
    case Some(r) =>
      && |Path(merged, k, true)| < |Path(t, k, true)| && |Path(t, k, true)| >= 2
      && IntoKey(Path(merged, k, true)) == r
      && (t.Branch? && u.Extension? ==> Diverts(merged, k))
  }

  lemma MergedDiverts(x: Node, j: Nibble, k: Key, s: OnOrphanedHashNode)
    requires x.Wf() && Canonical(x) && !x.Empty? && k != [] && j != k[0]
    requires CollapseExt([j], x, [], s).Ok?
    ensures var merged := CollapseExt([j], x, [], s).value;
      Diverts(merged, k) && merged.nibbles == [j] + OwnNibbles(x)
  {
  }

  lemma {:induction false} DeletePathChange(t: Node, k: Key, s: OnOrphanedHashNode)
    requires Canonical(t) && t.Wf() && SafeDelete(t, k) && !EndsInsideExtension(t, k)
    requires DeleteIntern(t, k, s).Ok? && DeleteIntern(t, k, s).value.Some?
    requires TryCollapse(DeleteIntern(t, k, s).value.value.0, [], s).Ok?
    ensures var u := DeleteIntern(t, k, s).value.value.0;
      PathChange(t, k, u, TryCollapse(u, [], s).value)
    decreases t
  {
    DeleteInternCorrect(t, k, s, []);
    match t
    case Branch(children, value) =>
      if k != [] { BranchPathChange(children, value, k, s); }
    case Extension(n, child) =>
      ExtensionPathChange(n, child, k, s);
    case _ =>
  }

  /** The branch itself collapses onto the child that is left. */
  lemma CollapsePathChange(children: seq<Node>, value: Bytes, k: Key, s: OnOrphanedHashNode)
    requires var t := Branch(children, value); Canonical(t) && t.Wf() && SafeDelete(t, k) && k != []
    requires DeleteIntern(children[k[0]], k[1..], s).Ok? && DeleteIntern(children[k[0]], k[1..], s).value.Some?
    requires DeleteIntern(children[k[0]], k[1..], s).value.value.0.Empty? && |UsedSlots(children)| <= 2
    requires OtherSlot(children, k[0]).Some?
    requires var j := OtherSlot(children, k[0]).value; TryCollapse(Extension([j], children[j]), [], s).Ok?
    ensures var j := OtherSlot(children, k[0]).value; var u := Extension([j], children[j]);
      PathChange(Branch(children, value), k, u, TryCollapse(u, [], s).value)
  {
    var j := OtherSlot(children, k[0]).value;
    DeleteInternCorrect(children[k[0]], k[1..], s, []);
    MergedDiverts(children[j], j, k, s);
    DivertedPath(TryCollapse(Extension([j], children[j]), [], s).value, k);
  }

  /** The change of the path in a child is the change in the branch around it. */
  lemma PathChangeBelow(children: seq<Node>, value: Bytes, k: Key, v: Node, merged: Node)
    requires Branch(children, value).Wf() && merged.Wf() && k != []
    requires !(children[k[0]].Leaf? && children[k[0]].nibbles == k[1..]) || |UsedSlots(children)| > 2
    requires children[k[0]].Leaf? && children[k[0]].nibbles == k[1..] ==> CollapseKey(children[k[0]], k[1..]).None?
    requires PathChange(children[k[0]], k[1..], v, merged)
    ensures var u := Branch(WithSlot(children, k[0], merged), value); PathChange(Branch(children, value), k, u, u)
  {
    IntoKeyCons(BranchSeg(k[0]), Path(merged, k[1..], true));
  }

  lemma {:induction false} BranchPathChange(children: seq<Node>, value: Bytes, k: Key, s: OnOrphanedHashNode)
    requires var t := Branch(children, value);
      && Canonical(t) && t.Wf() && SafeDelete(t, k) && !EndsInsideExtension(t, k) && k != []
      && DeleteIntern(t, k, s).Ok? && DeleteIntern(t, k, s).value.Some?
      && TryCollapse(DeleteIntern(t, k, s).value.value.0, [], s).Ok?
    ensures var t := Branch(children, value); var u := DeleteIntern(t, k, s).value.value.0;
      PathChange(t, k, u, TryCollapse(u, [], s).value)
    decreases Branch(children, value), 0
  {
    var t := Branch(children, value);
    var nib, rest := k[0], k[1..];
    var c := children[nib];
    var v := DeleteIntern(c, rest, s).value.value.0;
    DeleteInternCorrect(c, rest, s, []);
    if v.Empty? && |UsedSlots(children)| <= 2 {
      CollapsePathChange(children, value, k, s);
    } else {
      var merged := TryCollapse(v, rest, s).value;
      assert TryCollapse(v, [], s) == Ok(merged);
      assert c < t;
      DeletePathChange(c, rest, s);
      PathChangeBelow(children, value, k, v, merged);
    }
  }

  lemma MergedNibbles(n: Key, x: Node, s: OnOrphanedHashNode)
    requires x.Wf() && CollapseExt(n, x, [], s).Ok?
    ensures var r := CollapseExt(n, x, [], s).value;
      (r.Leaf? || r.Extension?) && r.nibbles == n + OwnNibbles(x) && (r.Leaf? <==> x.Leaf?)
  {
  }

  lemma TryIsCollapse(n: Key, x: Node, s: OnOrphanedHashNode)
    requires Extension(n, x).Wf()
    ensures TryCollapse(Extension(n, x), [], s) == CollapseExt(n, x, [], s)
  {
  }

  lemma MergedParts(n: Key, m: Key, x: Node, s: OnOrphanedHashNode, below: Node, merged: Node)
    requires x.Wf() && CollapseExt(m, x, [], s) == Ok(below) && CollapseExt(n + m, x, [], s) == Ok(merged)
    ensures MergedThrough(n, below, merged)
  {
    ConcatAssoc(n, m, OwnNibbles(x));
    MergedNibbles(m, x, s);
    MergedNibbles(n + m, x, s);
  }

  /** Merging through an outer extension puts its nibbles in front. */
  lemma MergeTwice(n: Key, v: Node, s: OnOrphanedHashNode)
    requires v.Extension? && v.Wf() && CollapseExt(n, v, [], s).Ok?
    requires TryCollapse(v, [], s).Ok? && TryCollapse(CollapseExt(n, v, [], s).value, [], s).Ok?
    ensures MergedThrough(n, TryCollapse(v, [], s).value, TryCollapse(CollapseExt(n, v, [], s).value, [], s).value)
  {
    var m, x := v.nibbles, v.child;
    TryIsCollapse(m, x, s);
    TryIsCollapse(n + m, x, s);
    MergedParts(n, m, x, s, TryCollapse(v, [], s).value, TryCollapse(Extension(n + m, x), [], s).value);
  }

  predicate MergedThrough(n: Key, below: Node, merged: Node) {
    && (below.Leaf? || below.Extension?) && (merged.Leaf? || merged.Extension?)
    && merged.nibbles == n + below.nibbles && (merged.Leaf? <==> below.Leaf?)
  }

  lemma StillDiverts(n: Key, k: Key, below: Node, merged: Node)
    requires n <= k && below.Wf() && merged.Wf() && Diverts(below, k[|n|..])
    requires (merged.Leaf? || merged.Extension?) && merged.nibbles == n + below.nibbles && (merged.Leaf? <==> below.Leaf?)
    ensures Diverts(merged, k)
    ensures |Path(merged, k, true)| == 1 && IntoKey(Path(merged, k, true)) == n + below.nibbles
    ensures |Path(below, k[|n|..], true)| == 1 && IntoKey(Path(below, k[|n|..], true)) == below.nibbles
  {
    PrefixSplit(n, k);
    assert Agree(k, merged.nibbles) ==> Agree(k[|n|..], below.nibbles) by {
      if k <= merged.nibbles { assert merged.nibbles[|n|..] == below.nibbles; }
      PrefixIff(n, below.nibbles, k);
    }
    DivertedPath(below, k[|n|..]);
    DivertedPath(merged, k);
  }

  lemma {:induction false} ExtensionPathChange(n: Key, child: Node, k: Key, s: OnOrphanedHashNode)
    requires var t := Extension(n, child);
      && Canonical(t) && t.Wf() && SafeDelete(t, k) && !EndsInsideExtension(t, k)
      && DeleteIntern(t, k, s).Ok? && DeleteIntern(t, k, s).value.Some?
      && TryCollapse(DeleteIntern(t, k, s).value.value.0, [], s).Ok?
    ensures var t := Extension(n, child); var u := DeleteIntern(t, k, s).value.value.0;
      PathChange(t, k, u, TryCollapse(u, [], s).value)
    decreases Extension(n, child), 0
  {
    var t := Extension(n, child);
    var rest := k[|n|..];
    PrefixSplit(n, k);
    var v := DeleteIntern(child, rest, s).value.value.0;
    var u := DeleteIntern(t, k, s).value.value.0;
    DeleteInternCorrect(child, rest, s, []);
    DeletePathChange(child, rest, s);
    if v.Branch? {
      IntoKeyCons(ExtensionSeg(n), Path(v, rest, true));
    } else {
      MergeTwice(n, v, s);
      StillDiverts(n, k, TryCollapse(v, [], s).value, TryCollapse(u, [], s).value);
    }
  }

  lemma {:induction false} AbsentKeyCollapsesNothing(t: Node, k: Key, s: OnOrphanedHashNode)
    requires t.Wf() && DeleteIntern(t, k, s).Ok? && DeleteIntern(t, k, s).value.None?
    ensures CollapseKey(t, k).None?
    decreases t
  {
    match t
    case Branch(children, _) => if k != [] { AbsentKeyCollapsesNothing(children[k[0]], k[1..], s); }
    case Extension(n, child) => if n <= k { AbsentKeyCollapsesNothing(child, k[|n|..], s); }
    case _ =>
  }

  /** The path of the deleted key gets shorter exactly when a branch collapsed, and the report is
      then the key of the child that is left. */
  lemma ReportIsCollapseKey(t: Node, k: Key, s: OnOrphanedHashNode)
    requires Canonical(t) && t.Wf() && SafeDelete(t, k) && !EndsInsideExtension(t, k) && Delete(t, k, s).Ok?
    ensures DeleteAndReport(t, k, s) == Ok((After(t, k, s), CollapseKey(t, k)))
  {
    if DeleteIntern(t, k, s).value.None? {
      AbsentKeyCollapsesNothing(t, k, s);
    } else {
      DeletePathChange(t, k, s);
    }
  }

  // ---------------------------------------------------------------------------------------------
  // One deletion
  // ---------------------------------------------------------------------------------------------

  lemma {:induction false} MarkSucceeds(t: Node, m: Marks, k: Key)
    requires t.Wf() && Fits(t, m) && !MeetsHash(t, k) && !EndsInsideExtension(t, k)
    ensures Mark(t, m, k).Ok?
    decreases t
  {
    match t
    case Branch(children, _) => if k != [] { MarkSucceeds(children[k[0]], m.kids[k[0]], k[1..]); }
    case Extension(n, child) => if n <= k { MarkSucceeds(child, m.kids[0], k[|n|..]); }
    case _ =>
  }

  lemma MarkOwnNibbles(x: Node, m: Marks)
    requires x.Wf() && Canonical(x) && Fits(x, m)
    ensures Mark(x, m, OwnNibbles(x)).Ok?
  {
  }

  lemma {:induction false} MarkCollapseKey(t: Node, m: Marks, k: Key)
    requires t.Wf() && Canonical(t) && Fits(t, m) && CollapseKey(t, k).Some?
    ensures Mark(t, m, CollapseKey(t, k).value).Ok?
    decreases t
  {
    match t
    case Branch(children, _) =>
      var c, rest := children[k[0]], k[1..];
      if c.Leaf? && c.nibbles == rest {
        var j := OtherSlot(children, k[0]).value;
        assert ([j] + OwnNibbles(children[j]))[1..] == OwnNibbles(children[j]);
        MarkOwnNibbles(children[j], m.kids[j]);
      } else {
        MarkCollapseKey(c, m.kids[k[0]], rest);
        var r := CollapseKey(c, rest).value;
        assert ([k[0]] + r)[1..] == r;
      }
    case Extension(n, child) =>
      MarkCollapseKey(child, m.kids[0], k[|n|..]);
      var r := CollapseKey(child, k[|n|..]).value;
      assert (n + r)[|n|..] == r;
  }

  /** The deleted key and what the deletion reports. */
  function WitnessKeys(k: Key, report: Option<Key>): seq<Key> {
    [k] + if report.Some? then [report.value] else []
  }

  lemma DeleteNeedsNoHash(t: Node, k: Key, s: OnOrphanedHashNode)
    requires t.Wf() && Delete(t, k, s).Ok?
    ensures !MeetsHash(t, k)
  {
    if MeetsHash(t, k) { HashStopsDelete(t, k, s); }
  }

  lemma {:induction false} HashStopsDelete(t: Node, k: Key, s: OnOrphanedHashNode)
    requires t.Wf() && MeetsHash(t, k)
    ensures DeleteIntern(t, k, s).Err?
    decreases t
  {
    match t
    case Branch(children, _) => HashStopsDelete(children[k[0]], k[1..], s);
    case Extension(n, child) => HashStopsDelete(child, DropClamped(k, |n|), s);
    case _ =>
  }

  /** Whenever a deletion succeeds on a trie, the subset of that trie for the deleted key and the
      reported key can be built, the same deletion succeeds on it, and the roots agree. */
  lemma WitnessSuffices(t: Node, k: Key, s: OnOrphanedHashNode, keccak: Hasher)
    requires Canonical(t) && t.Wf() && SafeDelete(t, k) && !EndsInsideExtension(t, k)
    requires DeleteAndReport(t, k, s).Ok?
    ensures var keys := WitnessKeys(k, DeleteAndReport(t, k, s).value.1);
      && CreateSubset(t, keys, keccak).Ok?
      && var p := CreateSubset(t, keys, keccak).value;
      && Delete(p, k, s).Ok?
      && RootHash(p, keccak) == RootHash(t, keccak)
      && RootHash(After(p, k, s), keccak) == RootHash(After(t, k, s), keccak)
  {
    ReportIsCollapseKey(t, k, s);
    DeleteNeedsNoHash(t, k, s);
    WitnessMarks(t, k);
    ReplayDelete(t, k, s, WitnessKeys(k, CollapseKey(t, k)), keccak);
  }

  lemma MarkOne(t: Node, m: Marks, k: Key)
    requires t.Wf() && Fits(t, m) && Mark(t, m, k).Ok?
    ensures MarkAll(t, m, [k]) == Mark(t, m, k)
  {
    var none: seq<Key> := [k][1..];
    assert none == [];
  }

  lemma WitnessMarks(t: Node, k: Key)
    requires t.Wf() && Canonical(t) && !MeetsHash(t, k) && !EndsInsideExtension(t, k)
    ensures MarkAll(t, Fresh(t), WitnessKeys(k, CollapseKey(t, k))).Ok?
  {
    MarkSucceeds(t, Fresh(t), k);
    var report := CollapseKey(t, k);
    if report.None? {
      assert WitnessKeys(k, report) == [k];
      MarkOne(t, Fresh(t), k);
    } else {
      var m := Mark(t, Fresh(t), k).value;
      MarkCollapseKey(t, m, k);
      MarkOne(t, m, report.value);
      assert WitnessKeys(k, report) == [k, report.value] && [k, report.value][1..] == [report.value];
    }
  }

  /** Everything left without a flag after marking the keys. */
  ghost function HiddenAfter(t: Node, keys: seq<Key>): (hid: Hidden)
    requires t.Wf() && Canonical(t) && MarkAll(t, Fresh(t), keys).Ok?
    ensures forall i :: 0 <= i < |keys| ==> Clear(keys[i], hid)
  {
    var m := MarkAll(t, Fresh(t), keys).value;
    var hid := iset e: (Key, Node) | HiddenAt(t, m, e.0, e.1);
    assert forall i :: 0 <= i < |keys| ==> Clear(keys[i], hid) by {
      forall i, q, x | 0 <= i < |keys| && (q, x) in hid ensures !Reached(keys[i], q, x) {
        MarkAllReaches(t, Fresh(t), keys, q, x);
      }
    }
    hid
  }

  lemma SubsetStandsFor(t: Node, keys: seq<Key>, keccak: Hasher)
    requires t.Wf() && Canonical(t) && CreateSubset(t, keys, keccak).Ok?
    ensures StandsFor(CreateSubset(t, keys, keccak).value, t, HiddenAfter(t, keys), keccak)
  {
    var m := MarkAll(t, Fresh(t), keys).value;
    var hid := HiddenAfter(t, keys);
    BuildStandsFor(t, m, hid, keccak);
  }

  lemma ReplayDelete(t: Node, k: Key, s: OnOrphanedHashNode, keys: seq<Key>, keccak: Hasher)
    requires Canonical(t) && t.Wf() && SafeDelete(t, k) && !EndsInsideExtension(t, k) && Delete(t, k, s).Ok?
    requires CreateSubset(t, keys, keccak).Ok? && keys == WitnessKeys(k, CollapseKey(t, k))
    ensures var p := CreateSubset(t, keys, keccak).value;
      && Delete(p, k, s).Ok?
      && RootHash(p, keccak) == RootHash(t, keccak)
      && RootHash(After(p, k, s), keccak) == RootHash(After(t, k, s), keccak)
  {
    var p := CreateSubset(t, keys, keccak).value;
    var hid := HiddenAfter(t, keys);
    SubsetStandsFor(t, keys, keccak);
    assert Clear(keys[0], hid) && (CollapseKey(t, k).Some? ==> Clear(keys[1], hid));
    ReplayOn(p, t, k, s, hid, keccak);
  }

  lemma ReplayOn(p: Node, t: Node, k: Key, s: OnOrphanedHashNode, hid: Hidden, keccak: Hasher)
    requires p.Wf() && Canonical(t) && t.Wf() && StandsFor(p, t, hid, keccak)
    requires SafeDelete(t, k) && !EndsInsideExtension(t, k) && Delete(t, k, s).Ok? && Clear(k, hid) && CollapseClear(t, k, hid)
    ensures Delete(p, k, s).Ok? && RootHash(p, keccak) == RootHash(t, keccak)
    ensures RootHash(After(p, k, s), keccak) == RootHash(After(t, k, s), keccak)
  {
    DeleteStandsFor(p, t, hid, k, s, keccak);
    StandsForSameEncoding(p, t, hid, keccak);
    StandsForSameEncoding(After(p, k, s), After(t, k, s), hid, keccak);
  }
}
