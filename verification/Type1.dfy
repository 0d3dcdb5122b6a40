/** The type-1 witness format: a stack machine that builds node trees, and the printer it inverts. */
module Type1 {
  import opened Wrappers
  import opened Arithmetic
  import opened Nibbles

  type U64 = x: nat | x < 0x1_0000_0000_0000_0000

  datatype Instruction =
    | Leaf(key: Key, value: Bytes)
    | Extension(key: Key)
    | Branch(mask: U64)
    | Hash(rawHash: Bytes)
    | Code(rawCode: Bytes)
    | AccountLeaf(key: Key, nonce: Option<U64>, balance: Option<nat>, hasCode: bool, hasStorage: bool)
    | SmtLeaf
    | EmptyRoot
    | NewTrie

  datatype CodeRef = CodeHash(rawHash: Bytes) | CodeText(code: Bytes)

  datatype Account = Account(nonce: U64, balance: nat, storage: Option<Node>, code: Option<CodeRef>)

  datatype LeafValue = Value(rawValue: Bytes) | AccountValue(account: Account)

  datatype Node =
    | HashNode(rawHash: Bytes)
    | LeafNode(key: Key, value: LeafValue)
    | ExtensionNode(key: Key, child: Node)
    | BranchNode(children: seq<Option<Node>>)
    | CodeNode(code: Bytes)
    | EmptyNode

  datatype ExecError =
    | NoNodeForExtension
    | NoNodeForAccountLeaf
    | ExpectedCodeOrHash
    | NoNodeForBranch
    | OobMaskBit
    | UnexpectedSmtLeaf
    | NotSingleElement(n: nat)
    | NotTerminal

  /** The machine: finished tries, and the stack of the one being read. */
  datatype State = State(witnesses: seq<Node>, stack: seq<Node>)

  // ---------------------------------------------------------------------------------------------
  // One instruction
  // ---------------------------------------------------------------------------------------------

  function OrZero(x: Option<nat>): nat {
    if x.Some? then x.value else 0
  }

  function OrZero64(x: Option<U64>): U64 {
    if x.Some? then x.value else 0
  }

  function AsCode(n: Node): Option<CodeRef> {
    match n
    case HashNode(h) => Some(CodeHash(h))
    case CodeNode(c) => Some(CodeText(c))
    case _ => None
  }

  /** The account that an account leaf takes from the stack, and what is left. */
  function TakeAccount(stack: seq<Node>, nonce: U64, balance: nat, hasCode: bool, hasStorage: bool)
      : (r: Result<(Account, seq<Node>), ExecError>)
  {
    var n := |stack|;
    if hasCode && hasStorage then
      if n < 2 || AsCode(stack[n - 2]).None? then Err(ExpectedCodeOrHash)
      else Ok((Account(nonce, balance, Some(stack[n - 1]), AsCode(stack[n - 2])), stack[..n - 2]))
    else if hasStorage then
      if n == 0 then Err(NoNodeForAccountLeaf)
      else Ok((Account(nonce, balance, Some(stack[n - 1]), None), stack[..n - 1]))
    else if hasCode then
      if n == 0 || AsCode(stack[n - 1]).None? then Err(ExpectedCodeOrHash)
      else Ok((Account(nonce, balance, None, AsCode(stack[n - 1])), stack[..n - 1]))
    else Ok((Account(nonce, balance, None, None), stack))
  }

  /** Pops a node for every mask bit below n, the highest bit first. */
  function TakeChildren(stack: seq<Node>, mask: U64, n: nat, children: seq<Option<Node>>)
      : (r: Result<(seq<Option<Node>>, seq<Node>), ExecError>)
    requires n <= 64 && |children| == 16
    ensures r.Ok? ==> |r.value.0| == 16
    decreases n
  {
    if n == 0 then Ok((children, stack))
    else if !Bit(mask, n - 1) then TakeChildren(stack, mask, n - 1, children)
    else if stack == [] then Err(NoNodeForBranch)
    else if n > 16 then Err(OobMaskBit)
    else TakeChildren(stack[..|stack| - 1], mask, n - 1, children[n - 1 := Some(stack[|stack| - 1])])
  }

  const NO_CHILDREN: seq<Option<Node>> :=
    [None, None, None, None, None, None, None, None, None, None, None, None, None, None, None, None]

  predicate Terminal(n: Node) {
    n.LeafNode? || n.ExtensionNode? || n.BranchNode? || n.EmptyNode?
  }

  function FinishStack(stack: seq<Node>): Result<Node, ExecError> {
    if |stack| != 1 then Err(NotSingleElement(|stack|))
    else if Terminal(stack[0]) then Ok(stack[0])
    else Err(NotTerminal)
  }

  function Step(s: State, i: Instruction): Result<State, ExecError> {
    match i
    case EmptyRoot => Ok(s.(stack := s.stack + [EmptyNode]))
    case Hash(h) => Ok(s.(stack := s.stack + [HashNode(h)]))
    case Code(c) => Ok(s.(stack := s.stack + [CodeNode(c)]))
    case Leaf(key, value) => Ok(s.(stack := s.stack + [LeafNode(key, Value(value))]))
    case Extension(key) =>
      if s.stack == [] then Err(NoNodeForExtension)
      else Ok(s.(stack := s.stack[..|s.stack| - 1] + [ExtensionNode(key, s.stack[|s.stack| - 1])]))
    case AccountLeaf(key, nonce, balance, hasCode, hasStorage) =>
      var taken :- TakeAccount(s.stack, OrZero64(nonce), OrZero(balance), hasCode, hasStorage);
      Ok(s.(stack := taken.1 + [LeafNode(key, AccountValue(taken.0))]))
    case Branch(mask) =>
      var taken :- TakeChildren(s.stack, mask, 64, NO_CHILDREN);
      Ok(s.(stack := taken.1 + [BranchNode(taken.0)]))
    case NewTrie =>
      var w :- FinishStack(s.stack);
      Ok(State(s.witnesses + [w], []))
    case SmtLeaf => Err(UnexpectedSmtLeaf)
  }

  function Run(s: State, input: seq<Instruction>): Result<State, ExecError>
    decreases |input|
  {
    if input == [] then Ok(s)
    else
      var s' :- Step(s, input[0]);
      Run(s', input[1..])
  }

  /** All tries of an instruction stream. */
  function Executed(input: seq<Instruction>): Result<seq<Node>, ExecError> {
    var s :- Run(State([], []), input);
    var w :- FinishStack(s.stack);
    Ok(s.witnesses + [w])
  }

  // ---------------------------------------------------------------------------------------------
  // The machine
  // ---------------------------------------------------------------------------------------------

  method PopChildren(stack: seq<Node>, mask: U64) returns (r: Result<(seq<Option<Node>>, seq<Node>), ExecError>)
    ensures r == TakeChildren(stack, mask, 64, NO_CHILDREN)
  {
    var children := new Option<Node>[16](_ => None);
    var rest := stack;
    var ix := 64;
    assert children[..] == NO_CHILDREN;
    while ix > 0
      invariant 0 <= ix <= 64
      invariant TakeChildren(stack, mask, 64, NO_CHILDREN) == TakeChildren(rest, mask, ix, children[..])
    {
      ix := ix - 1;
      if Bit(mask, ix) {
        if rest == [] { return Err(NoNodeForBranch); }
        if ix >= 16 { return Err(OobMaskBit); }
        ghost var before := children[..];
        children[ix] := Some(rest[|rest| - 1]);
        assert children[..] == before[ix := Some(rest[|rest| - 1])];
        rest := rest[..|rest| - 1];
      }
    }
    r := Ok((children[..], rest));
  }

  /** Reads the stream with one stack, as the specification function says. */
  method Execute(input: seq<Instruction>) returns (r: Result<seq<Node>, ExecError>)
    ensures r == Executed(input)
  {
    var witnesses: seq<Node>, stack: seq<Node> := [], [];
    for ix := 0 to |input|
      invariant Run(State([], []), input) == Run(State(witnesses, stack), input[ix..])
    {
      ghost var before := State(witnesses, stack);
      var i := input[ix];
      assert input[ix..][1..] == input[ix + 1..];
      match i
      case EmptyRoot => stack := stack + [EmptyNode];
      case Hash(h) => stack := stack + [HashNode(h)];
      case Code(c) => stack := stack + [CodeNode(c)];
      case Leaf(key, value) => stack := stack + [LeafNode(key, Value(value))];
      case Extension(key) =>
        if stack == [] { return Err(NoNodeForExtension); }
        stack := stack[..|stack| - 1] + [ExtensionNode(key, stack[|stack| - 1])];
      case AccountLeaf(key, nonce, balance, hasCode, hasStorage) =>
        var taken := TakeAccount(stack, OrZero64(nonce), OrZero(balance), hasCode, hasStorage);
        if taken.Err? { return Err(taken.error); }
        stack := taken.value.1 + [LeafNode(key, AccountValue(taken.value.0))];
      case Branch(mask) =>
        var taken := PopChildren(stack, mask);
        if taken.Err? { return Err(taken.error); }
        stack := taken.value.1 + [BranchNode(taken.value.0)];
      case NewTrie =>
        var w := FinishStack(stack);
        if w.Err? { return Err(w.error); }
        witnesses, stack := witnesses + [w.value], [];
      case SmtLeaf => return Err(UnexpectedSmtLeaf);
    }
    var w := FinishStack(stack);
    r := if w.Err? then Err(w.error) else Ok(witnesses + [w.value]);
  }

  // ---------------------------------------------------------------------------------------------
  // The printer
  // ---------------------------------------------------------------------------------------------

  /** Trees the machine can hold: a branch has sixteen slots. */
  predicate Wf(n: Node) {
    if n.BranchNode? then
      |n.children| == 16 && forall i :: 0 <= i < 16 ==> SlotWf(n, i)
    else if n.ExtensionNode? then Wf(n.child)
    else if n.LeafNode? && n.value.AccountValue? && n.value.account.storage.Some? then Wf(n.value.account.storage.value)
    else true
  }

  predicate SlotWf(n: Node, i: nat)
    requires n.BranchNode? && i < |n.children|
  {
    n.children[i].Some? ==> Wf(n.children[i].value)
  }

  /** The mask of the first n slots. */
  function MaskOf(children: seq<Option<Node>>, n: nat): (m: nat)
    requires n <= |children|
    ensures m < Pow2(n)
  {
    if n == 0 then 0 else MaskOf(children, n - 1) + if children[n - 1].Some? then Pow2(n - 1) else 0
  }

  function EmitCode(code: Option<CodeRef>): seq<Instruction> {
    if code.None? then []
    else if code.value.CodeHash? then [Hash(code.value.rawHash)]
    else [Code(code.value.code)]
  }

  lemma MaskBound()
    ensures Pow2(16) == 65536 && Pow2(64) == 0x1_0000_0000_0000_0000
  {
    assert Pow2(8) == 256;
    Pow2Add(8, 8);
    Pow2Add(16, 16);
    Pow2Add(32, 32);
  }

  function Mask16(children: seq<Option<Node>>): U64
    requires |children| == 16
  {
    MaskBound();
    MaskOf(children, 16)
  }

  /** The instructions for a tree, children before parents and in the order of their slots. */
  function Emit(n: Node): seq<Instruction>
    requires Wf(n)
    decreases n, 17
  {
    match n
    case HashNode(h) => [Hash(h)]
    case CodeNode(c) => [Code(c)]
    case EmptyNode => [EmptyRoot]
    case LeafNode(key, value) =>
      if value.Value? then [Leaf(key, value.rawValue)]
      else EmitAccount(n) + [AccountLeaf(key, Some(value.account.nonce), Some(value.account.balance),
                                         value.account.code.Some?, value.account.storage.Some?)]
    case ExtensionNode(key, child) => Emit(child) + [Extension(key)]
    case BranchNode(children) => EmitChildren(n, 16) + [Branch(Mask16(children))]
  }

  /** What an account leaf takes from the stack: the code, then the storage. */
  function EmitAccount(n: Node): seq<Instruction>
    requires Wf(n) && n.LeafNode? && n.value.AccountValue?
    decreases n, 0
  {
    var a := n.value.account;
    EmitCode(a.code) + EmitStorage(a.storage)
  }

  function EmitStorage(storage: Option<Node>): seq<Instruction>
    requires storage.Some? ==> Wf(storage.value)
    decreases storage, 18
  {
    if storage.Some? then Emit(storage.value) else []
  }

  function EmitChildren(n: Node, k: nat): seq<Instruction>
    requires Wf(n) && n.BranchNode? && k <= 16
    decreases n, k
  {
    if k == 0 then []
    else
      assert SlotWf(n, k - 1);
      EmitChildren(n, k - 1) + EmitSlot(n, k - 1)
  }

  function EmitSlot(n: Node, i: nat): seq<Instruction>
    requires n.BranchNode? && i < |n.children| && SlotWf(n, i)
    decreases n, 0
  {
    if n.children[i].Some? then Emit(n.children[i].value) else []
  }

  // ---------------------------------------------------------------------------------------------
  // Branch masks
  // ---------------------------------------------------------------------------------------------

  lemma AddEven(m: nat, p: nat, e: nat)
    requires p > 0
    ensures (m + 2 * e * p) / p % 2 == m / p % 2
  {
    DivMod(m, p);
    Shifted(m, p, m / p, m % p, 2 * e);
  }

  lemma Shifted(m: nat, p: nat, q: nat, r: nat, d: nat)
    requires m == q * p + r && r < p
    ensures (m + d * p) / p == q + d
  {
    assert (q + d) * p == q * p + d * p;
    RemainderUnique(m + d * p, p, q + d, r);
  }

  lemma EvenProduct(e: nat, p: nat)
    ensures e * (2 * p) == 2 * e * p
  {
  }

  lemma LowBit(m: nat, n: nat, i: nat)
    requires i < n
    ensures Bit(m + Pow2(n), i) <==> Bit(m, i)
  {
    var e, p := Pow2(n - i - 1), Pow2(i);
    Pow2Add(n - i - 1, i + 1);
    EvenProduct(e, p);
    AddEven(m, p, e);
  }

  lemma Quotients(m: nat, d: nat)
    requires m < d
    ensures m / d == 0 && (m + d) / d == 1
  {
    RemainderUnique(m, d, 0, m);
    RemainderUnique(m + d, d, 1, m);
  }

  lemma HighBit(m: nat, n: nat, i: nat)
    requires m < Pow2(n) && i >= n
    ensures !Bit(m, i) && (Bit(m + Pow2(n), i) <==> i == n)
  {
    Pow2Monotone(n, i);
    NoBit(m, i);
    if i > n {
      Pow2Monotone(n + 1, i);
      NoBit(m + Pow2(n), i);
    } else {
      Quotients(m, Pow2(i));
    }
  }

  lemma NoBit(m: nat, i: nat)
    requires m < Pow2(i)
    ensures !Bit(m, i)
  {
    Quotients(m, Pow2(i));
  }

  lemma {:induction false} MaskBits(children: seq<Option<Node>>, n: nat, i: nat)
    requires n <= |children|
    ensures Bit(MaskOf(children, n), i) <==> i < n && children[i].Some?
    decreases n
  {
    if n == 0 {
      RemainderUnique(0, Pow2(i), 0, 0);
    } else {
      MaskBits(children, n - 1, i);
      MaskStep(MaskOf(children, n - 1), n - 1, i, children[n - 1].Some?);
    }
  }

  lemma MaskStep(m: nat, n: nat, i: nat, present: bool)
    requires m < Pow2(n)
    ensures Bit(m + if present then Pow2(n) else 0, i) <==> if i == n then present else Bit(m, i)
  {
    if i < n { LowBit(m, n, i); } else { HighBit(m, n, i); }
  }

  /** A mask is known by its bits. */
  lemma {:induction false} MaskFromBits(mask: nat, children: seq<Option<Node>>, n: nat)
    requires n <= |children| && forall i: nat :: i < n ==> (Bit(mask, i) <==> children[i].Some?)
    ensures mask % Pow2(n) == MaskOf(children, n)
    decreases n
  {
    if n > 0 {
      MaskFromBits(mask, children, n - 1);
      ModStep(mask, n - 1);
    }
  }

  lemma {:induction false} NoHighBits(mask: nat, m: nat, n: nat)
    requires m <= n && forall i: nat :: m <= i < n ==> !Bit(mask, i)
    ensures mask % Pow2(n) == mask % Pow2(m)
    decreases n
  {
    if m < n {
      NoHighBits(mask, m, n - 1);
      ModStep(mask, n - 1);
    }
  }

  // ---------------------------------------------------------------------------------------------
  // Printed trees are read back
  // ---------------------------------------------------------------------------------------------

  /** The nodes in the first k slots. */
  function Present(children: seq<Option<Node>>, k: nat): seq<Node>
    requires k <= |children|
  {
    if k == 0 then [] else Present(children, k - 1) + if children[k - 1].Some? then [children[k - 1].value] else []
  }

  lemma {:induction false} SkipHighBits(stack: seq<Node>, mask: U64, n: nat, acc: seq<Option<Node>>)
    requires 16 <= n <= 64 && |acc| == 16 && forall i: nat :: i >= 16 ==> !Bit(mask, i)
    ensures TakeChildren(stack, mask, n, acc) == TakeChildren(stack, mask, 16, acc)
    decreases n
  {
    if n > 16 { SkipHighBits(stack, mask, n - 1, acc); }
  }

  lemma {:induction false} TakePresent(rest: seq<Node>, children: seq<Option<Node>>, mask: U64, k: nat, acc: seq<Option<Node>>)
    requires |children| == 16 && |acc| == 16 && k <= 16
    requires forall i: nat :: i < 16 ==> (Bit(mask, i) <==> children[i].Some?)
    requires forall i: nat :: i < k ==> acc[i] == None
    requires forall i: nat :: k <= i < 16 ==> acc[i] == children[i]
    ensures TakeChildren(rest + Present(children, k), mask, k, acc) == Ok((children, rest))
    decreases k
  {
    if k == 0 {
      assert acc == children;
      assert rest + [] == rest;
    } else if children[k - 1].Some? {
      var stack := rest + Present(children, k);
      assert stack[..|stack| - 1] == rest + Present(children, k - 1);
      TakePresent(rest, children, mask, k - 1, acc[k - 1 := children[k - 1]]);
    } else {
      assert rest + Present(children, k) == rest + Present(children, k - 1);
      TakePresent(rest, children, mask, k - 1, acc);
    }
  }

  lemma TakeBranch(rest: seq<Node>, children: seq<Option<Node>>)
    requires |children| == 16
    ensures TakeChildren(rest + Present(children, 16), Mask16(children), 64, NO_CHILDREN) == Ok((children, rest))
  {
    var mask := Mask16(children);
    forall i: nat ensures Bit(mask, i) <==> i < 16 && children[i].Some? { MaskBits(children, 16, i); }
    SkipHighBits(rest + Present(children, 16), mask, 64, NO_CHILDREN);
    TakePresent(rest, children, mask, 16, NO_CHILDREN);
  }

  function Push(s: State, ns: seq<Node>): State {
    s.(stack := s.stack + ns)
  }

  lemma RunOne(s: State, i: Instruction, rest: seq<Instruction>)
    requires Step(s, i).Ok?
    ensures Run(s, [i] + rest) == Run(Step(s, i).value, rest)
  {
    assert ([i] + rest)[0] == i && ([i] + rest)[1..] == rest;
  }

  /** Running what is printed for a tree pushes that tree, whatever comes before and after. */
  lemma {:induction false} EmittedIsPushed(s: State, n: Node, rest: seq<Instruction>)
    requires Wf(n)
    ensures Run(s, Emit(n) + rest) == Run(Push(s, [n]), rest)
    decreases n, 17
  {
    match n
    case HashNode(h) => RunOne(s, Hash(h), rest);
    case CodeNode(c) => RunOne(s, Code(c), rest);
    case EmptyNode => RunOne(s, EmptyRoot, rest);
    case LeafNode(key, value) =>
      if value.Value? {
        RunOne(s, Leaf(key, value.rawValue), rest);
      } else {
        EmittedAccount(s, n, rest);
      }
    case ExtensionNode(key, child) =>
      ConcatAssoc(Emit(child), [Extension(key)], rest);
      EmittedIsPushed(s, child, [Extension(key)] + rest);
      assert (s.stack + [child])[..|s.stack|] == s.stack;
      RunOne(Push(s, [child]), Extension(key), rest);
    case BranchNode(children) =>
      var i := Branch(Mask16(children));
      ConcatAssoc(EmitChildren(n, 16), [i], rest);
      EmittedChildren(s, n, 16, [i] + rest);
      TakeBranch(s.stack, children);
      RunOne(Push(s, Present(children, 16)), i, rest);
  }

  lemma {:induction false} EmittedChildren(s: State, n: Node, k: nat, rest: seq<Instruction>)
    requires Wf(n) && n.BranchNode? && k <= 16
    ensures Run(s, EmitChildren(n, k) + rest) == Run(Push(s, Present(n.children, k)), rest)
    decreases n, k
  {
    if k == 0 {
      assert s.stack + [] == s.stack && [] + rest == rest;
    } else {
      assert SlotWf(n, k - 1);
      var slot := EmitSlot(n, k - 1);
      ConcatAssoc(EmitChildren(n, k - 1), slot, rest);
      EmittedChildren(s, n, k - 1, slot + rest);
      var s' := Push(s, Present(n.children, k - 1));
      if n.children[k - 1].Some? {
        EmittedIsPushed(s', n.children[k - 1].value, rest);
        assert Push(s', [n.children[k - 1].value]) == Push(s, Present(n.children, k));
      } else {
        assert slot + rest == rest && Present(n.children, k) == Present(n.children, k - 1);
      }
    }
  }

  function CodeNodes(code: Option<CodeRef>): seq<Node> {
    if code.None? then [] else if code.value.CodeHash? then [HashNode(code.value.rawHash)] else [CodeNode(code.value.code)]
  }

  function StorageNodes(storage: Option<Node>): seq<Node> {
    if storage.Some? then [storage.value] else []
  }

  lemma EmittedCode(s: State, code: Option<CodeRef>, rest: seq<Instruction>)
    ensures Run(s, EmitCode(code) + rest) == Run(Push(s, CodeNodes(code)), rest)
  {
    if code.None? {
      assert [] + rest == rest && s.stack + [] == s.stack;
    } else if code.value.CodeHash? {
      RunOne(s, Hash(code.value.rawHash), rest);
    } else {
      RunOne(s, Code(code.value.code), rest);
    }
  }

  lemma {:induction false} EmittedAccount(s: State, n: Node, rest: seq<Instruction>)
    requires Wf(n) && n.LeafNode? && n.value.AccountValue?
    ensures Run(s, Emit(n) + rest) == Run(Push(s, [n]), rest)
    decreases n, 0
  {
    var a := n.value.account;
    var i := AccountLeaf(n.key, Some(a.nonce), Some(a.balance), a.code.Some?, a.storage.Some?);
    var s1 := Push(s, CodeNodes(a.code));
    var s2 := Push(s1, StorageNodes(a.storage));
    assert Emit(n) == EmitAccount(n) + [i];
    ConcatAssoc(EmitAccount(n), [i], rest);
    ConcatAssoc(EmitCode(a.code), EmitStorage(a.storage), [i] + rest);
    EmittedCode(s, a.code, EmitStorage(a.storage) + ([i] + rest));
    if a.storage.Some? {
      EmittedIsPushed(s1, a.storage.value, [i] + rest);
    } else {
      assert EmitStorage(a.storage) + ([i] + rest) == [i] + rest && s2.stack == s1.stack;
    }
    AccountStep(s, n);
    RunOne(s2, i, rest);
  }

  lemma AccountStep(s: State, n: Node)
    requires n.LeafNode? && n.value.AccountValue?
    ensures var a := n.value.account;
      Step(Push(Push(s, CodeNodes(a.code)), StorageNodes(a.storage)),
           AccountLeaf(n.key, Some(a.nonce), Some(a.balance), a.code.Some?, a.storage.Some?)) == Ok(Push(s, [n]))
  {
    TakesBack(s.stack, n.value.account);
  }

  lemma TakesBack(stack: seq<Node>, a: Account)
    ensures TakeAccount(stack + CodeNodes(a.code) + StorageNodes(a.storage), a.nonce, a.balance, a.code.Some?, a.storage.Some?)
         == Ok((a, stack))
  {
    var full := stack + CodeNodes(a.code) + StorageNodes(a.storage);
    assert full[..|stack|] == stack;
  }
}
