/** The tracked trie: nodes with a `touched` flag that marking sets and resetting clears in place. */
module TrackedTrie {
  import opened Wrappers
  import opened Nibbles
  import opened PartialTrie
  import opened TrieHashing
  import opened TrieSubsets

  /** What a reset leaves: every flag below is cleared, but that of a branch or extension itself stays. */
  function ResetMarks(t: Node, m: Marks): (r: Marks)
    requires Fits(t, m)
    ensures Fits(t, r)
    decreases t
  {
    var c := Children(t);
    if t.Branch? || t.Extension? then
      Marks(m.touched, seq(|c|, i requires 0 <= i < |c| => ResetMarks(c[i], m.kids[i]).(touched := false)))
    else m.(touched := false)
  }

  /** The flags of the children after a reset. */
  function ResetKidMarks(t: Node, m: Marks): (r: seq<Marks>)
    requires Fits(t, m)
    ensures |r| == |Children(t)|
  {
    var c := Children(t);
    seq(|c|, i requires 0 <= i < |c| => ResetMarks(c[i], m.kids[i]).(touched := false))
  }

  lemma ResetFromKids(t: Node, m: Marks)
    requires Fits(t, m) && (t.Branch? || t.Extension?)
    ensures ResetMarks(t, m) == Marks(m.touched, ResetKidMarks(t, m))
  {
    assert ResetMarks(t, m).kids == ResetKidMarks(t, m);
  }

  lemma ResetKidAt(t: Node, m: Marks, i: nat)
    requires Fits(t, m) && i < |Children(t)|
    ensures Fits(Children(t)[i], m.kids[i]) && ResetKidMarks(t, m)[i] == ResetMarks(Children(t)[i], m.kids[i]).(touched := false)
  {
  }

  class TrackedNode {
    const underlying: Node
    const kids: seq<TrackedNode>
    var touched: bool
    ghost const repr: set<TrackedNode>

    /** The nodes form a tree over the underlying trie; nothing in it ever changes but the flags. */
    ghost predicate Shape()
      decreases underlying
    {
      && this in repr && underlying.Wf()
      && |kids| == |Children(underlying)|
      && (forall i :: 0 <= i < |kids| ==>
            && kids[i].underlying == Children(underlying)[i]
            && kids[i].Shape() && kids[i].repr <= repr && this !in kids[i].repr)
      && (forall i, j :: 0 <= i < j < |kids| ==> kids[i].repr !! kids[j].repr)
    }

    /** The flags, as laid over the underlying trie. */
    ghost function View(): (m: Marks)
      requires Shape()
      reads repr
      ensures Fits(underlying, m)
      decreases underlying
    {
      Marks(touched, seq(|kids|, i requires 0 <= i < |kids| reads repr => kids[i].View()))
    }

    constructor (t: Node)
      requires t.Wf()
      ensures Shape() && fresh(repr) && underlying == t && View() == Fresh(t)
      decreases t
    {
      var c := Children(t);
      var made: seq<TrackedNode> := [];
      ghost var owned: set<TrackedNode> := {};
      for i := 0 to |c|
        invariant |made| == i && fresh(owned)
        invariant forall j :: 0 <= j < i ==>
          made[j].underlying == c[j] && made[j].Shape() && made[j].repr <= owned && made[j].View() == Fresh(c[j])
        invariant forall j, l :: 0 <= j < l < i ==> made[j].repr !! made[l].repr
      {
        var kid := new TrackedNode(c[i]);
        made := made + [kid];
        owned := owned + kid.repr;
      }
      underlying, kids, touched := t, made, false;
      repr := {this} + owned;
    }

    /** Only this node's own flag has been set or cleared. */
    twostate lemma OnlyOwnFlag()
      requires Shape()
      requires unchanged(repr - {this})
      ensures View() == old(View()).(touched := touched)
    {
      assert View().kids == old(View()).kids;
    }

    /** Nothing but this node's flag and one child's subtree has changed. */
    twostate lemma OneKidChanged(i: nat)
      requires Shape() && i < |kids|
      requires unchanged(repr - {this} - kids[i].repr)
      ensures View() == Marks(touched, old(View()).kids[i := kids[i].View()])
    {
      assert View().kids == old(View()).kids[i := kids[i].View()];
    }

    /** Marks the nodes that the key needs; an error leaves the flags half set and is final. */
    method Mark(k: Key) returns (err: Option<SubsetError>)
      requires Shape()
      modifies repr
      ensures match TrieSubsets.Mark(underlying, old(View()), k)
        case Ok(m) => err.None? && View() == m
        case Err(e) => err == Some(e)
      decreases underlying
    {
      err := None;
      match underlying {
        case Empty =>
          touched := true;
          OnlyOwnFlag();
        case Hash(_) =>
          if k != [] { return Some(HashNodeOnPath); }
          touched := true;
          OnlyOwnFlag();
        case Branch(children, _) =>
          touched := true;
          if k == [] {
            OnlyOwnFlag();
            return;
          }
          err := kids[k[0]].Mark(k[1..]);
          OneKidChanged(k[0]);
        case Extension(n, child) =>
          if k == [] { return; }
          touched := true;
          OnlyOwnFlag();
          if !Agree(n, k) { return; }
          if |k| < |n| { return Some(PoppedTooMuch); }
          err := kids[0].Mark(k[|n|..]);
          OneKidChanged(0);
        case Leaf(_, _) =>
          touched := true;
          OnlyOwnFlag();
      }
    }

    /** The children lie over the children of the underlying node, and carry their flags. */
    lemma KidsLieOver(j: nat)
      requires Shape() && j < |kids|
      ensures View().kids[j] == kids[j].View() && kids[j].underlying == Children(underlying)[j]
      ensures Fits(Children(underlying)[j], View().kids[j])
    {
    }

    /** Resets one child. */
    method ResetKid(i: nat)
      requires Shape() && i < |kids|
      modifies kids[i].repr
      ensures View() == old(View()).(kids := old(View()).kids[i := ResetKidMarks(underlying, old(View()))[i]])
      decreases underlying, 0
    {
      KidsLieOver(i);
      ResetKidAt(underlying, View(), i);
      kids[i].ClearAndReset();
      OneKidChanged(i);
    }

    /** Clears the flags below, and its own only when it has no children. */
    method Reset()
      requires Shape()
      modifies repr
      ensures View() == ResetMarks(underlying, old(View()))
      decreases underlying, 1
    {
      if underlying.Branch? || underlying.Extension? {
        ghost var before := View();
        for i := 0 to |kids|
          invariant ResetUpTo(before, i)
        {
          ResetKid(i);
        }
        ResetFromKids(underlying, before);
        assert View().kids == ResetKidMarks(underlying, before);
      } else {
        touched := false;
        OnlyOwnFlag();
      }
    }

    /** The first i children are reset, the others are as they were. */
    ghost predicate ResetUpTo(before: Marks, i: nat)
      requires Shape() && Fits(underlying, before)
      reads repr
    {
      && View().touched == before.touched && |View().kids| == |kids|
      && forall j :: 0 <= j < |kids| ==> View().kids[j] == if j < i then ResetKidMarks(underlying, before)[j] else before.kids[j]
    }

    /** What the parent does to a child: its flag is cleared before it is reset. */
    method ClearAndReset()
      requires Shape()
      modifies repr
      ensures View() == ResetMarks(underlying, old(View())).(touched := false)
      decreases underlying, 2
    {
      ghost var was := View();
      touched := false;
      OnlyOwnFlag();
      Reset();
      ResetIgnoresRoot(underlying, was, false);
    }

    /** Builds the subset trie that the flags ask for. */
    method Subset(keccak: Hasher) returns (p: Node)
      requires Shape()
      ensures p == Build(underlying, View(), keccak)
      decreases underlying, 2
    {
      if !touched {
        var encoded := Encode(underlying, keccak);
        if encoded.Hashed? { return Hash(encoded.hash); }
      }
      match underlying {
        case Branch(children, value) =>
          var built := SubsetKids(keccak);
          p := Branch(built, value);
          BuildFromKids(underlying, View(), keccak);
        case Extension(n, child) =>
          var built := SubsetKids(keccak);
          p := Extension(n, built[0]);
          BuildFromKids(underlying, View(), keccak);
        case _ => p := underlying;
      }
    }

    method SubsetKids(keccak: Hasher) returns (built: seq<Node>)
      requires Shape()
      ensures built == BuildKids(underlying, View(), keccak)
      decreases underlying, 1
    {
      ghost var want := BuildKids(underlying, View(), keccak);
      built := [];
      for i := 0 to |kids|
        invariant |want| == |kids| && |built| == i
        invariant forall j :: 0 <= j < i ==> built[j] == want[j]
      {
        var kid := SubsetKid(i, keccak);
        built := built + [kid];
      }
    }

    method SubsetKid(i: nat, keccak: Hasher) returns (kid: Node)
      requires Shape() && i < |kids|
      ensures kid == BuildKids(underlying, View(), keccak)[i]
      decreases underlying, 0
    {
      KidsLieOver(i);
      BuildKidsAt(underlying, View(), i, keccak);
      kid := kids[i].Subset(keccak);
    }
  }

  /** The subsets of the children. */
  function BuildKids(t: Node, m: Marks, keccak: Hasher): (s: seq<Node>)
    requires Fits(t, m)
    ensures |s| == |Children(t)|
  {
    var c := Children(t);
    seq(|c|, i requires 0 <= i < |c| => Build(c[i], m.kids[i], keccak))
  }

  lemma BuildKidsAt(t: Node, m: Marks, i: nat, keccak: Hasher)
    requires Fits(t, m) && i < |Children(t)|
    ensures Fits(Children(t)[i], m.kids[i]) && BuildKids(t, m, keccak)[i] == Build(Children(t)[i], m.kids[i], keccak)
  {
  }

  lemma BuildFromKids(t: Node, m: Marks, keccak: Hasher)
    requires Fits(t, m) && (m.touched || Encode(t, keccak).Raw?)
    ensures t.Branch? ==> Build(t, m, keccak) == Branch(BuildKids(t, m, keccak), t.value)
    ensures t.Extension? ==> Build(t, m, keccak) == Extension(t.nibbles, BuildKids(t, m, keccak)[0])
  {
    if t.Branch? { assert Build(t, m, keccak).children == BuildKids(t, m, keccak); }
  }

  /** A reset does not look at the flag of the node it clears. */
  lemma ResetIgnoresRoot(t: Node, m: Marks, flag: bool)
    requires Fits(t, m)
    ensures Fits(t, m.(touched := flag))
    ensures ResetMarks(t, m.(touched := flag)).(touched := false) == ResetMarks(t, m).(touched := false)
  {
  }

  /** After a reset only the flag of a branching root can still be set. */
  lemma {:induction false} ResetIsFresh(t: Node, m: Marks)
    requires Fits(t, m)
    ensures ResetMarks(t, m) == Fresh(t).(touched := m.touched && (t.Branch? || t.Extension?))
    decreases t
  {
    var c := Children(t);
    forall i | 0 <= i < |c| ensures ResetMarks(c[i], m.kids[i]).(touched := false) == Fresh(c[i]) {
      ResetIsFresh(c[i], m.kids[i]);
    }
    assert ResetMarks(t, m).kids == Fresh(t).kids;
  }

  // ---------------------------------------------------------------------------------------------
  // Several subsets from one tracked trie
  // ---------------------------------------------------------------------------------------------

  /** One subset per key set, all from one tracked trie that is reset in between. */
  function SharedSubsets(t: Node, m: Marks, keySets: seq<seq<Key>>, keccak: Hasher): Result<seq<Node>, SubsetError>
    requires t.Wf() && Fits(t, m)
    decreases |keySets|
  {
    if keySets == [] then Ok([])
    else
      var marked :- MarkAll(t, m, keySets[0]);
      var rest :- SharedSubsets(t, ResetMarks(t, marked), keySets[1..], keccak);
      Ok([Build(t, marked, keccak)] + rest)
  }

  /** One subset per key set, each from a tracked trie of its own. */
  function SeparateSubsets(t: Node, keySets: seq<seq<Key>>, keccak: Hasher): Result<seq<Node>, SubsetError>
    requires t.Wf()
    decreases |keySets|
  {
    if keySets == [] then Ok([])
    else
      var p :- CreateSubset(t, keySets[0], keccak);
      var rest :- SeparateSubsets(t, keySets[1..], keccak);
      Ok([p] + rest)
  }

  method CreateTrieSubset(tracked: TrackedNode, keys: seq<Key>, keccak: Hasher) returns (r: Result<Node, SubsetError>)
    requires tracked.Shape()
    modifies tracked.repr
    ensures match MarkAll(tracked.underlying, old(tracked.View()), keys)
      case Ok(m) => tracked.View() == m && r == Ok(Build(tracked.underlying, m, keccak))
      case Err(e) => r == Err(e)
    ensures old(tracked.View()) == Fresh(tracked.underlying) ==> r == CreateSubset(tracked.underlying, keys, keccak)
  {
    ghost var goal := MarkAll(tracked.underlying, tracked.View(), keys);
    assert keys[0..] == keys;
    for i := 0 to |keys|
      invariant MarkAll(tracked.underlying, tracked.View(), keys[i..]) == goal
    {
      assert keys[i..][0] == keys[i] && keys[i..][1..] == keys[i + 1..];
      var err := tracked.Mark(keys[i]);
      if err.Some? { return Err(err.value); }
    }
    var p := tracked.Subset(keccak);
    r := Ok(p);
  }

  /** The subsets made so far in front of those still to come. */
  ghost function Prepend(made: seq<Node>, rest: Result<seq<Node>, SubsetError>): Result<seq<Node>, SubsetError> {
    if rest.Ok? then Ok(made + rest.value) else rest
  }

  lemma PrependStep(made: seq<Node>, p: Node, rest: Result<seq<Node>, SubsetError>)
    ensures Prepend(made + [p], rest) == Prepend(made, if rest.Ok? then Ok([p] + rest.value) else rest)
  {
    if rest.Ok? { assert made + [p] + rest.value == made + ([p] + rest.value); }
  }

  method CreateTrieSubsets(t: Node, keySets: seq<seq<Key>>, keccak: Hasher) returns (r: Result<seq<Node>, SubsetError>)
    requires t.Wf()
    ensures r == SharedSubsets(t, Fresh(t), keySets, keccak)
  {
    var tracked := new TrackedNode(t);
    var made: seq<Node> := [];
    ghost var goal := SharedSubsets(t, Fresh(t), keySets, keccak);
    assert keySets[0..] == keySets && (goal.Ok? ==> [] + goal.value == goal.value);
    for i := 0 to |keySets|
      invariant tracked.Shape() && fresh(tracked.repr) && tracked.underlying == t
      invariant Prepend(made, SharedSubsets(t, tracked.View(), keySets[i..], keccak)) == goal
    {
      assert keySets[i..][0] == keySets[i] && keySets[i..][1..] == keySets[i + 1..];
      var p := CreateTrieSubset(tracked, keySets[i], keccak);
      if p.Err? { return Err(p.error); }
      tracked.Reset();
      PrependStep(made, p.value, SharedSubsets(t, tracked.View(), keySets[i + 1..], keccak));
      made := made + [p.value];
    }
    assert keySets[|keySets|..] == [] && made + [] == made;
    r := Ok(made);
  }

  /** Some key of the set flags the root. */
  predicate TouchesRoot(t: Node, keys: seq<Key>) {
    exists i :: 0 <= i < |keys| && (t.Extension? ==> keys[i] != [])
  }

  /** A flag already set on the root changes nothing else. */
  lemma MarkWithRoot(t: Node, m: Marks, k: Key, flag: bool)
    requires t.Wf() && Fits(t, m)
    ensures Fits(t, m.(touched := m.touched || flag))
    ensures match (Mark(t, m, k), Mark(t, m.(touched := m.touched || flag), k))
      case (Ok(a), Ok(b)) => b == a.(touched := a.touched || flag)
      case (Err(e), Err(f)) => e == f
      case _ => false
    ensures Mark(t, m, k).Ok? ==>
      Mark(t, m, k).value.touched == (m.touched || !t.Extension? || k != [])
  {
  }

  lemma {:induction false} MarkAllWithRoot(t: Node, m: Marks, keys: seq<Key>, flag: bool)
    requires t.Wf() && Fits(t, m)
    ensures Fits(t, m.(touched := m.touched || flag))
    ensures match (MarkAll(t, m, keys), MarkAll(t, m.(touched := m.touched || flag), keys))
      case (Ok(a), Ok(b)) => b == a.(touched := a.touched || flag)
      case (Err(e), Err(f)) => e == f
      case _ => false
    ensures MarkAll(t, m, keys).Ok? ==>
      (MarkAll(t, m, keys).value.touched <==> m.touched || TouchesRoot(t, keys))
    decreases |keys|
  {
    if keys != [] {
      MarkWithRoot(t, m, keys[0], flag);
      if Mark(t, m, keys[0]).Ok? {
        MarkAllWithRoot(t, Mark(t, m, keys[0]).value, keys[1..], flag);
        assert TouchesRoot(t, keys) <==> TouchesRoot(t, [keys[0]]) || TouchesRoot(t, keys[1..]) by {
          assert keys == [keys[0]] + keys[1..];
          assert forall i :: 0 < i < |keys| ==> keys[i] == keys[1..][i - 1];
          assert [keys[0]][0] == keys[0];
        }
        assert TouchesRoot(t, [keys[0]]) <==> (t.Extension? ==> keys[0] != []) by {
          assert [keys[0]][0] == keys[0];
        }
      }
    }
  }

  /** Every set either flags the root itself, or comes before any that left a flag on a branching
      root, or the root is too small to be hashed anyway. */
  predicate Undisturbed(t: Node, keySets: seq<seq<Key>>, stale: bool, keccak: Hasher)
    decreases |keySets|
  {
    keySets == [] ||
    (&& (stale ==> TouchesRoot(t, keySets[0]) || Encode(t, keccak).Raw?)
     && Undisturbed(t, keySets[1..], (t.Branch? || t.Extension?) && (stale || TouchesRoot(t, keySets[0])), keccak))
  }

  /** Sharing one tracked trie gives the separate results exactly when no set is disturbed by a flag
      that an earlier one left on the root. */
  lemma {:induction false} SharedIsSeparate(t: Node, keySets: seq<seq<Key>>, stale: bool, keccak: Hasher)
    requires t.Wf() && (stale ==> t.Branch? || t.Extension?) && SeparateSubsets(t, keySets, keccak).Ok?
    ensures SharedSubsets(t, Fresh(t).(touched := stale), keySets, keccak).Ok?
    ensures SharedSubsets(t, Fresh(t).(touched := stale), keySets, keccak) == SeparateSubsets(t, keySets, keccak)
      <==> Undisturbed(t, keySets, stale, keccak)
    decreases |keySets|
  {
    if keySets != [] {
      var keys := keySets[0];
      MarkAllWithRoot(t, Fresh(t), keys, stale);
      var own := MarkAll(t, Fresh(t), keys).value;
      var shared := MarkAll(t, Fresh(t).(touched := stale), keys).value;
      ResetIsFresh(t, shared);
      SharedIsSeparate(t, keySets[1..], shared.touched && (t.Branch? || t.Extension?), keccak);
      BuildRoot(t, own, stale, keccak);
      var a := SharedSubsets(t, ResetMarks(t, shared), keySets[1..], keccak).value;
      var b := SeparateSubsets(t, keySets[1..], keccak).value;
      var x, y := Build(t, shared, keccak), Build(t, own, keccak);
      assert ([x] + a)[0] == x && ([x] + a)[1..] == a && ([y] + b)[0] == y && ([y] + b)[1..] == b;
    }
  }

  lemma BuildRoot(t: Node, m: Marks, flag: bool, keccak: Hasher)
    requires Fits(t, m) && (flag ==> t.Branch? || t.Extension?)
    ensures Build(t, m.(touched := m.touched || flag), keccak) == Build(t, m, keccak)
      <==> (flag ==> m.touched || Encode(t, keccak).Raw?)
  {
  }

  /** With key sets that all flag the root, the results are always the separate ones. */
  lemma {:induction false} NonEmptySetsAreSeparate(t: Node, keySets: seq<seq<Key>>, stale: bool, keccak: Hasher)
    requires t.Wf() && forall i :: 0 <= i < |keySets| ==> TouchesRoot(t, keySets[i])
    ensures SharedSubsets(t, Fresh(t).(touched := stale), keySets, keccak) == SeparateSubsets(t, keySets, keccak)
    decreases |keySets|
  {
    if keySets != [] {
      var keys := keySets[0];
      MarkAllWithRoot(t, Fresh(t), keys, stale);
      if MarkAll(t, Fresh(t), keys).Ok? {
        ResetIsFresh(t, MarkAll(t, Fresh(t), keys).value);
        NonEmptySetsAreSeparate(t, keySets[1..], t.Branch? || t.Extension?, keccak);
      }
    }
  }
}
