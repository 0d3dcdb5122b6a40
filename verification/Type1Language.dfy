/** Which instruction streams the stack machine accepts, and with which result. */
module Type1Language {
  import opened Wrappers
  import opened Arithmetic
  import opened Nibbles
  import opened Type1

  /** An instruction with the defaulted fields of an account leaf written out. */
  function Normal(i: Instruction): Instruction {
    if i.AccountLeaf? then
      i.(nonce := if i.nonce.None? then Some(0) else i.nonce, balance := if i.balance.None? then Some(0) else i.balance)
    else i
  }

  function Normals(input: seq<Instruction>): (r: seq<Instruction>)
    ensures |r| == |input| && forall k :: 0 <= k < |r| ==> r[k] == Normal(input[k])
  {
    if input == [] then [] else [Normal(input[0])] + Normals(input[1..])
  }

  ghost predicate AllWf(nodes: seq<Node>) {
    forall k :: 0 <= k < |nodes| ==> Wf(nodes[k])
  }

  ghost function EmitAll(nodes: seq<Node>): seq<Instruction>
    requires AllWf(nodes)
  {
    if nodes == [] then [] else EmitAll(nodes[..|nodes| - 1]) + Emit(nodes[|nodes| - 1])
  }

  /** Each trie followed by `NewTrie`. */
  ghost function EmitTries(nodes: seq<Node>): seq<Instruction>
    requires AllWf(nodes)
  {
    if nodes == [] then [] else EmitTries(nodes[..|nodes| - 1]) + Emit(nodes[|nodes| - 1]) + [NewTrie]
  }

  /** The tries of a stream, joined by `NewTrie`. */
  ghost function Printed(tries: seq<Node>): seq<Instruction>
    requires AllWf(tries) && tries != []
  {
    EmitTries(tries[..|tries| - 1]) + Emit(tries[|tries| - 1])
  }

  ghost predicate StateWf(s: State) {
    AllWf(s.witnesses) && AllWf(s.stack)
  }

  /** What has been read to get to a state. */
  ghost function History(s: State): seq<Instruction>
    requires StateWf(s)
  {
    EmitTries(s.witnesses) + EmitAll(s.stack)
  }

  // ---------------------------------------------------------------------------------------------
  // Popping a branch
  // ---------------------------------------------------------------------------------------------

  function Low(n: nat): nat {
    if n < 16 then n else 16
  }

  lemma {:induction false} TakeGives(stack: seq<Node>, mask: U64, n: nat, acc: seq<Option<Node>>,
                                     children: seq<Option<Node>>, rest: seq<Node>)
    requires n <= 64 && |acc| == 16 && TakeChildren(stack, mask, n, acc) == Ok((children, rest))
    requires forall i :: 0 <= i < Low(n) ==> acc[i] == None
    ensures |children| == 16 && forall i :: Low(n) <= i < 16 ==> children[i] == acc[i]
    ensures forall i: nat :: i < n ==> (Bit(mask, i) <==> i < 16 && children[i].Some?)
    ensures stack == rest + Present(children, Low(n))
    decreases n
  {
    if n > 0 {
      if Bit(mask, n - 1) {
        TakeGives(stack[..|stack| - 1], mask, n - 1, acc[n - 1 := Some(stack[|stack| - 1])], children, rest);
        assert stack == stack[..|stack| - 1] + [stack[|stack| - 1]];
        assert rest + Present(children, n - 1) + [stack[|stack| - 1]] == rest + Present(children, n);
      } else {
        TakeGives(stack, mask, n - 1, acc, children, rest);
        if n <= 16 { assert Present(children, n) == Present(children, n - 1); }
      }
    }
  }

  /** The popped branch prints with the mask it was read with. */
  lemma BranchGives(stack: seq<Node>, mask: U64, children: seq<Option<Node>>, rest: seq<Node>)
    requires TakeChildren(stack, mask, 64, NO_CHILDREN) == Ok((children, rest))
    ensures |children| == 16 && stack == rest + Present(children, 16) && Mask16(children) == mask
  {
    TakeGives(stack, mask, 64, NO_CHILDREN, children, rest);
    MaskBound();
    SmallMod(mask, Pow2(64));
    NoHighBits(mask, 16, 64);
    MaskFromBits(mask, children, 16);
  }

  lemma {:induction false} PresentAt(children: seq<Option<Node>>, n: nat, i: nat)
    requires i < n <= |children| && children[i].Some?
    ensures |Present(children, i)| < |Present(children, n)| && Present(children, n)[|Present(children, i)|] == children[i].value
    decreases n
  {
    if i < n - 1 { PresentAt(children, n - 1, i); }
  }

  function Filled(children: seq<Option<Node>>, n: nat): set<nat>
    requires n <= |children|
  {
    set j: nat | j < n && children[j].Some?
  }

  lemma FilledStep(children: seq<Option<Node>>, n: nat)
    requires n < |children|
    ensures |Filled(children, n + 1)| == |Filled(children, n)| + if children[n].Some? then 1 else 0
  {
    assert Filled(children, n + 1) == Filled(children, n) + if children[n].Some? then {n} else {};
  }

  lemma {:induction false} PresentCount(children: seq<Option<Node>>, n: nat)
    requires n <= |children|
    ensures |Present(children, n)| == |Filled(children, n)|
    decreases n
  {
    if n > 0 {
      PresentCount(children, n - 1);
      FilledStep(children, n - 1);
    }
  }

  lemma CountsAlike(mask: U64, children: seq<Option<Node>>, n: nat)
    requires n <= 16 <= |children| && forall i: nat :: i < 16 ==> (Bit(mask, i) <==> children[i].Some?)
    ensures |Filled(children, n)| == |set j: nat | j < n && Bit(mask, j)|
  {
    assert Filled(children, n) == (set j: nat | j < n && Bit(mask, j));
  }

  /** A branch takes one node for each bit of its mask, and the node for bit i comes after those for the lower
      bits: the highest bit takes the top of the stack. */
  lemma BranchSlots(stack: seq<Node>, mask: U64, children: seq<Option<Node>>, rest: seq<Node>, i: nat)
    requires TakeChildren(stack, mask, 64, NO_CHILDREN) == Ok((children, rest)) && i < 16
    ensures |rest| <= |stack| && rest == stack[..|rest|] && |stack| == |rest| + |set j: nat | j < 16 && Bit(mask, j)|
    ensures children[i] ==
      if Bit(mask, i) then
        var at := |rest| + |set j: nat | j < i && Bit(mask, j)|;
        if at < |stack| then Some(stack[at]) else None
      else None
    ensures Bit(mask, i) ==> children[i].Some?
  {
    TakeGives(stack, mask, 64, NO_CHILDREN, children, rest);
    PresentCount(children, 16);
    PresentCount(children, i);
    CountsAlike(mask, children, 16);
    CountsAlike(mask, children, i);
    if children[i].Some? { PresentAt(children, 16, i); }
  }

  lemma EmitLast(nodes: seq<Node>, n: Node)
    requires AllWf(nodes) && Wf(n)
    ensures AllWf(nodes + [n]) && EmitAll(nodes + [n]) == EmitAll(nodes) + Emit(n)
  {
    assert (nodes + [n])[..|nodes|] == nodes && (nodes + [n])[|nodes|] == n;
  }

  lemma LastApart(a: seq<Node>, b: seq<Node>)
    requires b != []
    ensures b == b[..|b| - 1] + [b[|b| - 1]] && a + b == (a + b[..|b| - 1]) + [b[|b| - 1]]
  {
  }

  lemma {:induction false} EmitAllConcat(a: seq<Node>, b: seq<Node>)
    requires AllWf(a) && AllWf(b)
    ensures AllWf(a + b) && EmitAll(a + b) == EmitAll(a) + EmitAll(b)
    decreases |b|
  {
    if b == [] {
      assert a + b == a && EmitAll(a) + [] == EmitAll(a);
    } else {
      var init, n := b[..|b| - 1], b[|b| - 1];
      LastApart(a, b);
      EmitAllConcat(a, init);
      EmitLast(a + init, n);
      EmitLast(init, n);
      ConcatAssoc(EmitAll(a), EmitAll(init), Emit(n));
    }
  }

  lemma EmitOne(n: Node)
    requires Wf(n)
    ensures AllWf([n]) && EmitAll([n]) == Emit(n)
  {
    assert [n][..0] == [];
  }

  lemma {:induction false} WfPresent(children: seq<Option<Node>>, k: nat)
    requires |children| == 16 && k <= 16
    ensures AllWf(Present(children, k)) <==> forall i :: 0 <= i < k && children[i].Some? ==> Wf(children[i].value)
    decreases k
  {
    if k > 0 {
      WfPresent(children, k - 1);
      var p := Present(children, k);
      if children[k - 1].Some? {
        assert p[|p| - 1] == children[k - 1].value && p[..|p| - 1] == Present(children, k - 1);
        assert forall i :: 0 <= i < |p| - 1 ==> p[i] == p[..|p| - 1][i];
      } else {
        assert p == Present(children, k - 1);
      }
    }
  }

  lemma {:induction false} EmitPresent(n: Node, k: nat)
    requires Wf(n) && n.BranchNode? && k <= 16
    ensures AllWf(Present(n.children, k)) && EmitAll(Present(n.children, k)) == EmitChildren(n, k)
    decreases k
  {
    forall i | 0 <= i < k && n.children[i].Some? ensures Wf(n.children[i].value) {
      assert SlotWf(n, i);
    }
    WfPresent(n.children, k);
    if k > 0 {
      EmitPresent(n, k - 1);
      var p := Present(n.children, k);
      if n.children[k - 1].Some? {
        assert p[..|p| - 1] == Present(n.children, k - 1);
      } else {
        assert p == Present(n.children, k - 1);
      }
    }
  }

  // ---------------------------------------------------------------------------------------------
  // One step
  // ---------------------------------------------------------------------------------------------

  /** The machine moved as an emission says: some nodes off the stack, one on. */
  lemma Replaced(s: State, rest: seq<Node>, taken: seq<Node>, n: Node, i: Instruction)
    requires StateWf(s) && s.stack == rest + taken && Wf(n)
    requires AllWf(rest) && AllWf(taken) && Emit(n) == EmitAll(taken) + [i]
    ensures StateWf(s.(stack := rest + [n]))
    ensures History(s.(stack := rest + [n])) == History(s) + [i]
  {
    EmitAllConcat(rest, taken);
    EmitOne(n);
    EmitAllConcat(rest, [n]);
  }

  lemma Taken(s: State, m: nat)
    requires StateWf(s) && m <= |s.stack|
    ensures s.stack == s.stack[..m] + s.stack[m..] && AllWf(s.stack[..m]) && AllWf(s.stack[m..])
  {
  }

  lemma PushStep(s: State, n: Node, i: Instruction)
    requires StateWf(s) && Wf(n) && Emit(n) == [i]
    ensures StateWf(Push(s, [n])) && History(Push(s, [n])) == History(s) + [i]
  {
    assert s.stack == s.stack + [];
    assert EmitAll([]) + [i] == [i];
    Replaced(s, s.stack, [], n, i);
  }

  lemma ExtensionStep(s: State, key: Key)
    requires StateWf(s) && s.stack != []
    ensures var s' := Step(s, Extension(key)).value; StateWf(s') && History(s') == History(s) + [Extension(key)]
  {
    var m := |s.stack| - 1;
    Taken(s, m);
    assert s.stack[m..] == [s.stack[m]];
    EmitOne(s.stack[m]);
    Replaced(s, s.stack[..m], s.stack[m..], ExtensionNode(key, s.stack[m]), Extension(key));
  }

  lemma AccountGives(stack: seq<Node>, a: Account, rest: seq<Node>, hasCode: bool, hasStorage: bool)
    requires TakeAccount(stack, a.nonce, a.balance, hasCode, hasStorage) == Ok((a, rest))
    ensures stack == rest + (CodeNodes(a.code) + StorageNodes(a.storage))
    ensures a.code.Some? == hasCode && a.storage.Some? == hasStorage
  {
  }

  lemma EmitCodeNodes(code: Option<CodeRef>)
    ensures AllWf(CodeNodes(code)) && EmitAll(CodeNodes(code)) == EmitCode(code)
  {
    if code.Some? { EmitOne(CodeNodes(code)[0]); }
  }

  lemma EmitStorageNodes(storage: Option<Node>)
    requires storage.Some? ==> Wf(storage.value)
    ensures AllWf(StorageNodes(storage)) && EmitAll(StorageNodes(storage)) == EmitStorage(storage)
  {
    if storage.Some? { EmitOne(storage.value); }
  }

  /** What an account takes off the stack is what its leaf prints in front. */
  lemma EmitAccountNodes(a: Account)
    requires a.storage.Some? ==> Wf(a.storage.value)
    ensures AllWf(CodeNodes(a.code) + StorageNodes(a.storage))
    ensures EmitAll(CodeNodes(a.code) + StorageNodes(a.storage)) == EmitCode(a.code) + EmitStorage(a.storage)
  {
    EmitCodeNodes(a.code);
    EmitStorageNodes(a.storage);
    EmitAllConcat(CodeNodes(a.code), StorageNodes(a.storage));
  }

  lemma AccountTaken(s: State, a: Account, rest: seq<Node>)
    requires StateWf(s) && s.stack == rest + (CodeNodes(a.code) + StorageNodes(a.storage))
    ensures AllWf(rest) && (a.storage.Some? ==> Wf(a.storage.value))
  {
    var off := CodeNodes(a.code) + StorageNodes(a.storage);
    assert forall k :: 0 <= k < |rest| ==> s.stack[k] == rest[k];
    if a.storage.Some? { assert s.stack[|s.stack| - 1] == off[|off| - 1] == a.storage.value; }
  }

  lemma AccountStep(s: State, i: Instruction)
    requires StateWf(s) && i.AccountLeaf? && Step(s, i).Ok?
    ensures var s' := Step(s, i).value; StateWf(s') && History(s') == History(s) + [Normal(i)]
  {
    var taken := TakeAccount(s.stack, OrZero64(i.nonce), OrZero(i.balance), i.hasCode, i.hasStorage).value;
    var a, rest := taken.0, taken.1;
    AccountGives(s.stack, a, rest, i.hasCode, i.hasStorage);
    AccountTaken(s, a, rest);
    EmitAccountNodes(a);
    Replaced(s, rest, CodeNodes(a.code) + StorageNodes(a.storage), LeafNode(i.key, AccountValue(a)), Normal(i));
  }

  /** An account leaf takes the storage from the top of the stack and the code from below it, each only if it
      has one; a missing nonce or balance is 0. */
  lemma AccountIsRead(ws: seq<Node>, rest: seq<Node>, key: Key, nonce: Option<U64>, balance: Option<nat>,
                      n: U64, b: nat, storage: Node, code: Bytes)
    requires (nonce == None && n == 0) || nonce == Some(n)
    requires (balance == None && b == 0) || balance == Some(b)
    ensures Step(State(ws, rest), AccountLeaf(key, nonce, balance, false, false))
         == Ok(State(ws, rest + [LeafNode(key, AccountValue(Account(n, b, None, None)))]))
    ensures Step(State(ws, rest + [storage]), AccountLeaf(key, nonce, balance, false, true))
         == Ok(State(ws, rest + [LeafNode(key, AccountValue(Account(n, b, Some(storage), None)))]))
    ensures Step(State(ws, rest + [HashNode(code)]), AccountLeaf(key, nonce, balance, true, false))
         == Ok(State(ws, rest + [LeafNode(key, AccountValue(Account(n, b, None, Some(CodeHash(code)))))]))
    ensures Step(State(ws, rest + [CodeNode(code), storage]), AccountLeaf(key, nonce, balance, true, true))
         == Ok(State(ws, rest + [LeafNode(key, AccountValue(Account(n, b, Some(storage), Some(CodeText(code)))))]))
  {
    assert (rest + [storage])[..|rest|] == rest && (rest + [HashNode(code)])[..|rest|] == rest;
    assert (rest + [CodeNode(code), storage])[..|rest|] == rest;
  }

  lemma BranchStep(s: State, mask: U64)
    requires StateWf(s) && Step(s, Branch(mask)).Ok?
    ensures var s' := Step(s, Branch(mask)).value; StateWf(s') && History(s') == History(s) + [Branch(mask)]
  {
    var taken := TakeChildren(s.stack, mask, 64, NO_CHILDREN).value;
    var children, rest := taken.0, taken.1;
    BranchGives(s.stack, mask, children, rest);
    Taken(s, |rest|);
    assert s.stack[..|rest|] == rest && s.stack[|rest|..] == Present(children, 16);
    WfPresent(children, 16);
    var n := BranchNode(children);
    assert forall i :: 0 <= i < 16 ==> SlotWf(n, i);
    EmitPresent(n, 16);
    Replaced(s, rest, Present(children, 16), n, Branch(mask));
  }

  lemma NewTrieStep(s: State)
    requires StateWf(s) && Step(s, NewTrie).Ok?
    ensures var s' := Step(s, NewTrie).value; StateWf(s') && History(s') == History(s) + [NewTrie]
  {
    var w := s.stack[0];
    assert s.stack == [w];
    EmitOne(w);
    TriesLast(s.witnesses, w);
    EmptyStack(EmitTries(s.witnesses + [w]));
  }

  lemma TriesLast(ws: seq<Node>, w: Node)
    requires AllWf(ws) && Wf(w)
    ensures AllWf(ws + [w]) && EmitTries(ws + [w]) == EmitTries(ws) + Emit(w) + [NewTrie]
  {
    var all := ws + [w];
    assert all[..|all| - 1] == ws && all[|all| - 1] == w;
  }

  lemma EmptyStack(before: seq<Instruction>)
    ensures before + EmitAll([]) == before
  {
  }

  /** Every step that succeeds adds its instruction to the history. */
  lemma StepHistory(s: State, i: Instruction)
    requires StateWf(s) && Step(s, i).Ok?
    ensures var s' := Step(s, i).value; StateWf(s') && History(s') == History(s) + [Normal(i)]
  {
    match i
    case EmptyRoot => PushStep(s, EmptyNode, i);
    case Hash(h) => PushStep(s, HashNode(h), i);
    case Code(c) => PushStep(s, CodeNode(c), i);
    case Leaf(key, value) => PushStep(s, LeafNode(key, Value(value)), i);
    case Extension(key) => ExtensionStep(s, key);
    case AccountLeaf(_, _, _, _, _) => AccountStep(s, i);
    case Branch(mask) => BranchStep(s, mask);
    case NewTrie => NewTrieStep(s);
  }

  // ---------------------------------------------------------------------------------------------
  // Whole streams
  // ---------------------------------------------------------------------------------------------

  lemma {:induction false} RunHistory(s: State, input: seq<Instruction>)
    requires StateWf(s) && Run(s, input).Ok?
    ensures var s' := Run(s, input).value; StateWf(s') && History(s') == History(s) + Normals(input)
    decreases |input|
  {
    if input != [] {
      var s1 := Step(s, input[0]).value;
      StepHistory(s, input[0]);
      RunHistory(s1, input[1..]);
      assert Run(s, input) == Run(s1, input[1..]);
      ConcatAssoc(History(s), [Normal(input[0])], Normals(input[1..]));
    }
  }

  ghost predicate Tries(tries: seq<Node>) {
    tries != [] && AllWf(tries) && forall k :: 0 <= k < |tries| ==> !tries[k].HashNode? && !tries[k].CodeNode?
  }

  predicate AllTerminal(tries: seq<Node>) {
    forall k :: 0 <= k < |tries| ==> Terminal(tries[k])
  }

  lemma {:induction false} RunTerminal(s: State, input: seq<Instruction>)
    requires AllTerminal(s.witnesses) && Run(s, input).Ok?
    ensures AllTerminal(Run(s, input).value.witnesses)
    decreases |input|
  {
    if input != [] { RunTerminal(Step(s, input[0]).value, input[1..]); }
  }

  lemma FinishedTries(ws: seq<Node>, w: Node)
    requires AllWf(ws) && Wf(w) && AllTerminal(ws) && Terminal(w)
    ensures Tries(ws + [w]) && Printed(ws + [w]) == EmitTries(ws) + Emit(w)
  {
    assert (ws + [w])[..|ws|] == ws;
  }

  /** A stream that is read to its end is the printed form of what was read. */
  lemma ReadIsPrinted(input: seq<Instruction>)
    requires Executed(input).Ok?
    ensures Tries(Executed(input).value) && Normals(input) == Printed(Executed(input).value)
  {
    var start := State([], []);
    RunHistory(start, input);
    RunTerminal(start, input);
    var s := Run(start, input).value;
    assert s.stack == [s.stack[0]];
    EmitOne(s.stack[0]);
    FinishedTries(s.witnesses, s.stack[0]);
    assert History(start) == [];
  }

  lemma SkipTrie(ws: seq<Node>, n: Node, rest: seq<Instruction>)
    requires Wf(n) && Terminal(n)
    ensures Run(State(ws, []), Emit(n) + [NewTrie] + rest) == Run(State(ws + [n], []), rest)
  {
    ConcatAssoc(Emit(n), [NewTrie], rest);
    EmittedIsPushed(State(ws, []), n, [NewTrie] + rest);
    RunOne(Push(State(ws, []), [n]), NewTrie, rest);
  }

  lemma LastTrieApart(tries: seq<Node>, rest: seq<Instruction>)
    requires AllWf(tries) && tries != []
    ensures EmitTries(tries) + rest
         == EmitTries(tries[..|tries| - 1]) + (Emit(tries[|tries| - 1]) + [NewTrie] + rest)
  {
    var before, last := EmitTries(tries[..|tries| - 1]), Emit(tries[|tries| - 1]);
    ConcatAssoc(before, last, [NewTrie]);
    ConcatAssoc(before, last + [NewTrie], rest);
  }

  lemma {:induction false} TriesAreRead(tries: seq<Node>, rest: seq<Instruction>)
    requires AllWf(tries) && AllTerminal(tries)
    ensures Run(State([], []), EmitTries(tries) + rest) == Run(State(tries, []), rest)
    decreases |tries|
  {
    if tries == [] {
      assert [] + rest == rest;
    } else {
      var init, n := tries[..|tries| - 1], tries[|tries| - 1];
      assert init + [n] == tries;
      LastTrieApart(tries, rest);
      TriesAreRead(init, Emit(n) + [NewTrie] + rest);
      SkipTrie(init, n, rest);
    }
  }

  /** What is printed for tries is read back as those tries. */
  lemma PrintedIsRead(tries: seq<Node>)
    requires Tries(tries)
    ensures Executed(Printed(tries)) == Ok(tries)
  {
    var init, n := tries[..|tries| - 1], tries[|tries| - 1];
    TriesApart(tries);
    TriesAreRead(init, Emit(n));
    LastTrieRead(init, n);
    Finished(EmitTries(init) + Emit(n), init, n);
  }

  lemma TriesApart(tries: seq<Node>)
    requires Tries(tries)
    ensures var init, n := tries[..|tries| - 1], tries[|tries| - 1];
      AllWf(init) && AllTerminal(init) && Wf(n) && Terminal(n) && init + [n] == tries
  {
  }

  lemma Finished(input: seq<Instruction>, init: seq<Node>, n: Node)
    requires Run(State([], []), input) == Ok(State(init, [n])) && Terminal(n)
    ensures Executed(input) == Ok(init + [n])
  {
  }

  /** The last trie is left on the stack. */
  lemma LastTrieRead(init: seq<Node>, n: Node)
    requires Wf(n)
    ensures Run(State(init, []), Emit(n)) == Ok(State(init, [n]))
  {
    assert Emit(n) + [] == Emit(n) && [] + [n] == [n];
    EmittedIsPushed(State(init, []), n, []);
  }

  /** Reading is not changed by writing every missing nonce and balance as 0. */
  lemma {:induction false} DefaultsDoNotMatter(s: State, input: seq<Instruction>)
    ensures Run(s, input) == Run(s, Normals(input))
    decreases |input|
  {
    if input != [] {
      assert Step(s, Normal(input[0])) == Step(s, input[0]);
      assert Normals(input)[1..] == Normals(input[1..]);
      if Step(s, input[0]).Ok? { DefaultsDoNotMatter(Step(s, input[0]).value, input[1..]); }
    }
  }

  lemma DefaultsAreZero(input: seq<Instruction>)
    ensures Executed(input) == Executed(Normals(input))
    ensures forall k :: 0 <= k < |input| && input[k].AccountLeaf? ==>
      && Normals(input)[k].AccountLeaf?
      && Normals(input)[k].nonce == (if input[k].nonce.Some? then input[k].nonce else Some(0))
      && Normals(input)[k].balance == (if input[k].balance.Some? then input[k].balance else Some(0))
  {
    DefaultsDoNotMatter(State([], []), input);
  }

  /** The accepted streams are exactly the printed tries, up to defaulted nonces and balances. */
  lemma AcceptedExactly(input: seq<Instruction>, tries: seq<Node>)
    ensures Executed(input) == Ok(tries) <==> Tries(tries) && Normals(input) == Printed(tries)
  {
    if Executed(input) == Ok(tries) { ReadIsPrinted(input); }
    if Tries(tries) && Normals(input) == Printed(tries) {
      PrintedIsRead(tries);
      DefaultsDoNotMatter(State([], []), input);
    }
  }
}
