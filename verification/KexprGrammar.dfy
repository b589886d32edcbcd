/** The grammar of the expressions of klib/kexpr.c, one level after another, and what the parser makes
    of it. The order of the operators is written out here, and not taken from the parser's table. */
module KexprGrammar {
  import opened Kexpr

  const UNARY: set<Op> := {Pos, Neg, BNot, LNot}

  /** The binary operators, those that bind most tightly first. */
  const ORDER: seq<set<Op>> :=
    [{Pow}, {Mul, Div, IDiv, Mod}, {Add, Sub}, {Lsh, Rsh}, {Lt, Le, Gt, Ge}, {Eq, Ne}, {BAnd}, {BXor}, {BOr}, {LAnd}, {LOr}]

  const TOP: nat := 12

  /** How an operator is written: + and - are the same signs before a value and between two. */
  lemma Spelling<V>(op: Op)
    ensures Spell<V>(op) == if op == Add || op == Pos then Plus else if op == Sub || op == Neg then Minus else Sym(op)
  {
  }

  /** Where an operator stands in the order. */
  lemma InOrder(op: Op, i: nat)
    requires i < |ORDER|
    ensures op in ORDER[i] <==> op !in UNARY && Prec(op) == i + 2
    ensures op in ORDER[i] ==> (Right(op) <==> i == 0)
    ensures Unary(op) <==> op in UNARY
    ensures op in UNARY ==> Prec(op) == 1 && Right(op)
  {
  }

  lemma SomeLevel(op: Op)
    ensures Unary(op) <==> op in UNARY
    ensures !Unary(op) ==> 2 <= Prec(op) <= TOP && op in ORDER[Prec(op) - 2]
  {
  }

  /** s is an expression of level n: a value, a call or parentheses at level 0, a unary operator at
      level 1, and above that one set of binary operators for each level. The power associates to the
      right, all others to the left. */
  predicate Derived<V>(n: nat, s: Src<V>)
    decreases s, n
  {
    if n == 0 then
      match s
      case Lit(_) => true
      case Group(a) => Derived(TOP, a)
      case Call(_, a) => ArgsDerived(a)
      case _ => false
    else
      || Derived(n - 1, s)
      || match s
         case Un(op, a) => n == 1 && op in UNARY && Derived(1, a)
         case Bin(op, l, r) =>
           && 2 <= n <= TOP && op in ORDER[n - 2]
           && (if n == 2 then Derived(1, l) && Derived(2, r) else Derived(n, l) && Derived(n - 1, r))
         case _ => false
  }

  predicate ArgsDerived<V>(a: Args<V>) {
    Derived(TOP, a.s) && (a.More? ==> ArgsDerived(a.rest))
  }

  /** The grammar gives the expressions that have parentheses wherever the table asks for them. */
  lemma {:induction false} DerivedIsGrouped<V>(n: nat, s: Src<V>)
    requires n <= TOP
    ensures Derived(n, s) <==> Grouped(s) && Level(s) <= n
    decreases s, n
  {
    if n > 0 { DerivedIsGrouped(n - 1, s); }
    match s
    case Lit(_) =>
    case Group(a) => DerivedIsGrouped(TOP, a); LevelMost(a);
    case Call(_, a) => ArgsDerivedIsGrouped(a);
    case Un(op, a) => SomeLevel(op); InOrder(op, 0); DerivedIsGrouped(1, a);
    case Bin(op, l, r) => if n >= 2 { BinDerived(n, op, l, r); } else { BinLevel(op, l, r); }
  }

  lemma LevelMost<V>(s: Src<V>)
    ensures Grouped(s) ==> Level(s) <= TOP
  {
    if s.Bin? { SomeLevel(s.op); }
  }

  lemma BinLevel<V>(op: Op, l: Src<V>, r: Src<V>)
    ensures Grouped(Bin(op, l, r)) ==> Level(Bin(op, l, r)) >= 2
  {
    SomeLevel(op);
  }

  lemma {:induction false} BinDerived<V>(n: nat, op: Op, l: Src<V>, r: Src<V>)
    requires 2 <= n <= TOP && (Derived(n - 1, Bin(op, l, r)) <==> Grouped(Bin(op, l, r)) && Level(Bin(op, l, r)) <= n - 1)
    ensures Derived(n, Bin(op, l, r)) <==> Grouped(Bin(op, l, r)) && Level(Bin(op, l, r)) <= n
    decreases Bin(op, l, r), n, 0
  {
    InOrder(op, n - 2);
    DerivedIsGrouped(n, l);
    DerivedIsGrouped(n - 1, l);
    DerivedIsGrouped(n, r);
    DerivedIsGrouped(n - 1, r);
  }

  lemma {:induction false} ArgsDerivedIsGrouped<V>(a: Args<V>)
    ensures ArgsDerived(a) <==> ArgsGrouped(a)
  {
    DerivedIsGrouped(TOP, a.s);
    LevelMost(a.s);
    if a.More? { ArgsDerivedIsGrouped(a.rest); }
  }

  /** Every text of the grammar is compiled to the post-order of its derivation, if no argument after a
      comma begins with a sign; otherwise it is an error. */
  lemma GrammarParsed<V>(s: Src<V>)
    requires Derived(TOP, s)
    ensures Clean(s) ==> Parse(Tokens(s)) == Ok(Post(s))
    ensures !Clean(s) ==> Parse(Tokens(s)).Err?
  {
    DerivedIsGrouped(TOP, s);
    ParseCorrect(s);
  }

  // ------------------------------------------------------------------
  // The order, on the shortest texts that show it
  // ------------------------------------------------------------------

  /** Three values and two binary operators: the left one goes first if it stands earlier in the order,
      or in the same set, unless that is the power. */
  lemma BinaryOrder<V>(a: Op, b: Op, i: nat, j: nat, x: V, y: V, z: V)
    requires i < |ORDER| && j < |ORDER| && a in ORDER[i] && b in ORDER[j]
    ensures Parse([Val(x), Spell(a), Val(y), Spell(b), Val(z)]) ==
            if i < j || (i == j && i > 0) then Ok([Value(x), Value(y), Oper(a), Value(z), Oper(b)])
            else Ok([Value(x), Value(y), Value(z), Oper(b), Oper(a)])
  {
    InOrder(a, i);
    InOrder(b, j);
    if i < j || (i == j && i > 0) {
      LeftFirst(a, b, x, y, z);
    } else {
      RightFirst(a, b, x, y, z);
    }
  }

  lemma LeftFirst<V>(a: Op, b: Op, x: V, y: V, z: V)
    requires !Unary(a) && !Unary(b) && (Prec(a) < Prec(b) || (Prec(a) == Prec(b) && !Right(b)))
    requires Prec(a) > 0 && Prec(b) > 0
    ensures Parse([Val(x), Spell(a), Val(y), Spell(b), Val(z)]) == Ok([Value(x), Value(y), Oper(a), Value(z), Oper(b)])
  {
    var l: Src<V> := Bin(a, Lit(x), Lit(y));
    var s := Bin(b, l, Lit(z));
    PairParts(a, x, y);
    assert Grouped(s) && Clean(s);
    assert Tokens<V>(Lit(z)) == [Val(z)] && Post<V>(Lit(z)) == [Value(z)];
    assert Tokens(s) == [Val(x), Spell(a), Val(y)] + [Spell(b)] + [Val(z)] == [Val(x), Spell(a), Val(y), Spell(b), Val(z)];
    assert Post(s) == [Value(x), Value(y), Oper(a)] + [Value(z)] + [Oper(b)] == [Value(x), Value(y), Oper(a), Value(z), Oper(b)];
    hide *;
    ParseCorrect(s);
  }

  lemma RightFirst<V>(a: Op, b: Op, x: V, y: V, z: V)
    requires !Unary(a) && !Unary(b) && (Prec(b) < Prec(a) || (Prec(a) == Prec(b) && Right(a)))
    requires Prec(a) > 0 && Prec(b) > 0
    ensures Parse([Val(x), Spell(a), Val(y), Spell(b), Val(z)]) == Ok([Value(x), Value(y), Value(z), Oper(b), Oper(a)])
  {
    var r: Src<V> := Bin(b, Lit(y), Lit(z));
    var s := Bin(a, Lit(x), r);
    PairParts(b, y, z);
    assert Grouped(s) && Clean(s);
    assert Tokens<V>(Lit(x)) == [Val(x)] && Post<V>(Lit(x)) == [Value(x)];
    assert Tokens(s) == [Val(x)] + [Spell(a)] + [Val(y), Spell(b), Val(z)] == [Val(x), Spell(a), Val(y), Spell(b), Val(z)];
    assert Post(s) == [Value(x)] + [Value(y), Value(z), Oper(b)] + [Oper(a)] == [Value(x), Value(y), Value(z), Oper(b), Oper(a)];
    hide *;
    ParseCorrect(s);
  }

  lemma PairParts<V>(op: Op, x: V, y: V)
    requires !Unary(op) && Prec(op) > 0
    ensures var s: Src<V> := Bin(op, Lit(x), Lit(y));
            Grouped(s) && Clean(s) && Tokens(s) == [Val(x), Spell(op), Val(y)] && Post(s) == [Value(x), Value(y), Oper(op)]
  {
    assert Tokens<V>(Lit(x)) == [Val(x)] && Tokens<V>(Lit(y)) == [Val(y)];
    assert Post<V>(Lit(x)) == [Value(x)] && Post<V>(Lit(y)) == [Value(y)];
  }

  /** A unary operator goes before every binary one. */
  lemma UnaryFirst<V>(u: Op, b: Op, i: nat, x: V, y: V)
    requires i < |ORDER| && u in UNARY && b in ORDER[i]
    ensures Parse([Spell(u), Val(x), Spell(b), Val(y)]) == Ok([Value(x), Oper(u), Value(y), Oper(b)])
  {
    InOrder(u, i);
    InOrder(b, i);
    UnaryThenBinary(u, b, x, y);
  }

  lemma UnaryThenBinary<V>(u: Op, b: Op, x: V, y: V)
    requires Unary(u) && Prec(u) == 1 && !Unary(b) && Prec(b) > 1
    ensures Parse([Spell(u), Val(x), Spell(b), Val(y)]) == Ok([Value(x), Oper(u), Value(y), Oper(b)])
  {
    var l: Src<V> := Un(u, Lit(x));
    var s := Bin(b, l, Lit(y));
    UnaryParts(u, x);
    assert Grouped(s) && Clean(s);
    assert Tokens<V>(Lit(y)) == [Val(y)] && Post<V>(Lit(y)) == [Value(y)];
    assert Tokens(s) == [Spell(u), Val(x)] + [Spell(b)] + [Val(y)] == [Spell(u), Val(x), Spell(b), Val(y)];
    assert Post(s) == [Value(x), Oper(u)] + [Value(y)] + [Oper(b)] == [Value(x), Oper(u), Value(y), Oper(b)];
    hide *;
    ParseCorrect(s);
  }

  lemma UnaryParts<V>(u: Op, x: V)
    requires Unary(u) && Prec(u) == 1
    ensures var s: Src<V> := Un(u, Lit(x)); Grouped(s) && Clean(s) && Tokens(s) == [Spell(u), Val(x)] && Post(s) == [Value(x), Oper(u)]
  {
    assert Tokens<V>(Lit(x)) == [Val(x)] && Post<V>(Lit(x)) == [Value(x)];
  }

  // ------------------------------------------------------------------
  // Parentheses
  // ------------------------------------------------------------------

  /** Nothing is put into parentheses that the grammar gives without. */
  lemma {:induction false} MinimalFixed<V>(s: Src<V>)
    requires Grouped(s)
    ensures Minimal(s) == s
  {
    match s
    case Lit(_) =>
    case Un(_, a) => MinimalFixed(a);
    case Bin(_, l, r) => MinimalFixed(l); MinimalFixed(r);
    case Group(a) => MinimalFixed(a);
    case Call(_, a) => ArgsMinimalFixed(a);
  }

  lemma {:induction false} ArgsMinimalFixed<V>(a: Args<V>)
    requires ArgsGrouped(a)
    ensures ArgsMinimal(a) == a
  {
    MinimalFixed(a.s);
    if a.More? { ArgsMinimalFixed(a.rest); }
  }

  /** The compiler on any tree: its text with the parentheses it needs is in the grammar, and is
      compiled to a program that leaves exactly the value of the tree. */
  lemma GrammarCompiled<V>(s: Src<V>, sem: Sem<V>)
    requires Kinds(s)
    ensures Derived(TOP, Minimal(s)) && (Derived(TOP, s) ==> Minimal(s) == s)
    ensures Clean(s) ==>
              var p := Parse(Tokens(Minimal(s)));
              p.Ok? && p.value == Post(s) && Safe(p.value, 0) && Exec(p.value, [], sem) == [Meaning(s, sem)]
    ensures !Clean(s) ==> Parse(Tokens(Minimal(s))).Err?
  {
    hide *;
    MinimalSame(s);
    LevelMost(Minimal(s));
    DerivedIsGrouped(TOP, Minimal(s));
    DerivedIsGrouped(TOP, s);
    if Derived(TOP, s) { MinimalFixed(s); }
    CompilerCorrect(s, sem);
  }
}
