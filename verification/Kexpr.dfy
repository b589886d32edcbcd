/** The expression compiler and stack machine of klib/kexpr.c: a shunting-yard parser whose
    output is evaluated on a stack. */
module Kexpr {
  import opened Sequences

  // ------------------------------------------------------------------
  // Operators
  // ------------------------------------------------------------------

  datatype Op = Pos | Neg | BNot | LNot | Pow | Mul | Div | IDiv | Mod | Add | Sub | Lsh | Rsh
              | Lt | Le | Gt | Ge | Eq | Ne | BAnd | BXor | BOr | LAnd | LOr

  /** The table ke_op: twice the level, plus one if the operator associates to the right. */
  function KeOp(op: Op): nat {
    match op
    case Pos => 3 case Neg => 3 case BNot => 3 case LNot => 3
    case Pow => 5
    case Mul => 6 case Div => 6 case IDiv => 6 case Mod => 6
    case Add => 8 case Sub => 8
    case Lsh => 10 case Rsh => 10
    case Lt => 12 case Le => 12 case Gt => 12 case Ge => 12
    case Eq => 14 case Ne => 14
    case BAnd => 16
    case BXor => 18
    case BOr => 20
    case LAnd => 22
    case LOr => 24
  }

  function Prec(op: Op): nat { KeOp(op) / 2 }
  predicate Right(op: Op) { KeOp(op) % 2 == 1 }
  predicate Unary(op: Op) { op in {Pos, Neg, BNot, LNot} }

  /** An arriving operator sends the one on top of the stack to the output. */
  predicate Pops(arriving: Op, top: Op) {
    !((Right(arriving) && Prec(arriving) <= Prec(top)) || (!Right(arriving) && Prec(arriving) < Prec(top)))
  }

  // ------------------------------------------------------------------
  // Tokens, and the parser's two stacks
  // ------------------------------------------------------------------

  /** A token of the text. Plus and Minus do not say yet whether they are unary or binary. A name
      is a Name token when a parenthesis follows. */
  datatype Lex<V> = Val(x: V) | Name(f: string) | Plus | Minus | Sym(op: Op) | LPar | RPar | Comma

  /** An element of the compiled expression. */
  datatype Item<V> = Value(x: V) | Oper(op: Op) | Func(f: string, nArgs: nat)

  /** An element of the operator stack. */
  datatype Entry = Paren | Pending(op: Op) | Callee(f: string, nArgs: nat)

  datatype Error = ExtraRightParen | UnmatchedLeftParen | CommaOutsideCall | WrongArgs
  datatype Result<T> = Ok(value: T) | Err(error: Error)

  datatype State<V> = State(out: seq<Item<V>>, ops: seq<Entry>, lastIsVal: bool)

  function ItemOf<V>(e: Entry): Item<V>
    requires !e.Paren?
  {
    if e.Pending? then Oper(e.op) else Func(e.f, e.nArgs)
  }

  function Top(ops: seq<Entry>): Entry requires ops != [] { ops[|ops| - 1] }
  function Rest(ops: seq<Entry>): seq<Entry> requires ops != [] { ops[..|ops| - 1] }

  /** Move entries to the output until a left parenthesis is on top. */
  function Flush<V>(out: seq<Item<V>>, ops: seq<Entry>): (r: (seq<Item<V>>, seq<Entry>))
    ensures |r.1| <= |ops| && (r.1 == [] || Top(r.1).Paren?)
    decreases |ops|
  {
    if ops == [] || Top(ops).Paren? then (out, ops) else Flush(out + [ItemOf(Top(ops))], Rest(ops))
  }

  /** Move to the output the operators that op pops. */
  function Reduce<V>(out: seq<Item<V>>, ops: seq<Entry>, op: Op): (seq<Item<V>>, seq<Entry>)
    decreases |ops|
  {
    if ops == [] || !Top(ops).Pending? || !Pops(op, Top(ops).op) then (out, ops)
    else Reduce(out + [ItemOf(Top(ops))], Rest(ops), op)
  }

  /** What an operator token stands for after a value or not. */
  function Resolve<V>(t: Lex<V>, lastIsVal: bool): Op
    requires t.Plus? || t.Minus? || t.Sym?
  {
    match t
    case Plus => if lastIsVal then Add else Pos
    case Minus => if lastIsVal then Sub else Neg
    case Sym(op) => op
  }

  function OnOp<V>(st: State<V>, op: Op): State<V> {
    var (out, ops) := Reduce(st.out, st.ops, op);
    State(out, ops + [Pending(op)], false)
  }

  function OnRPar<V>(st: State<V>): Result<State<V>> {
    var (out, ops) := Flush(st.out, st.ops);
    if ops == [] then Err(ExtraRightParen)
    else
      var ops' := Rest(ops);
      if ops' != [] && Top(ops').Callee? then Ok(State(out + [ItemOf(Top(ops'))], Rest(ops'), st.lastIsVal))
      else Ok(State(out, ops', st.lastIsVal))
  }

  /** The comma counts an argument, and leaves lastIsVal alone. */
  function OnComma<V>(st: State<V>): Result<State<V>> {
    var (out, ops) := Flush(st.out, st.ops);
    var n := |ops|;
    if n < 2 || !ops[n - 2].Callee? then Err(CommaOutsideCall)
    else Ok(State(out, ops[n - 2 := Callee(ops[n - 2].f, ops[n - 2].nArgs + 1)], st.lastIsVal))
  }

  function Step<V>(st: State<V>, t: Lex<V>): Result<State<V>> {
    match t
    case LPar => Ok(st.(ops := st.ops + [Paren]))
    case RPar => OnRPar(st)
    case Comma => OnComma(st)
    case Val(x) => Ok(st.(out := st.out + [Value(x)], lastIsVal := true))
    case Name(f) => Ok(st.(ops := st.ops + [Callee(f, 1)], lastIsVal := false))
    case _ => Ok(OnOp(st, Resolve(t, st.lastIsVal)))
  }

  function Run<V>(ts: seq<Lex<V>>, st: State<V>): Result<State<V>> {
    if ts == [] then Ok(st)
    else match Step(st, ts[0])
      case Ok(st') => Run(ts[1..], st')
      case Err(e) => Err(e)
  }

  /** What an element adds to the number of values on the evaluation stack. */
  function Net<V>(e: Item<V>): int {
    match e
    case Value(_) => 1
    case Oper(op) => if Unary(op) then 0 else -1
    case Func(_, n) => 1 - n
  }

  function Nets<V>(out: seq<Item<V>>): int {
    if out == [] then 0 else Nets(out[..|out| - 1]) + Net(out[|out| - 1])
  }

  /** The end of the text: empty the operator stack, and count the values. */
  function Finish<V>(st: State<V>): Result<seq<Item<V>>> {
    var (out, ops) := Flush(st.out, st.ops);
    if ops != [] then Err(UnmatchedLeftParen)
    else if Nets(out) != 1 then Err(WrongArgs)
    else Ok(out)
  }

  function Parse<V>(ts: seq<Lex<V>>): Result<seq<Item<V>>> {
    match Run(ts, State([], [], false))
    case Ok(st) => Finish(st)
    case Err(e) => Err(e)
  }

  // ------------------------------------------------------------------
  // The parser itself
  // ------------------------------------------------------------------

  /** The inner loops for `)` and `,` and the one at the end. */
  method FlushOps<V>(out0: seq<Item<V>>, ops0: seq<Entry>) returns (out: seq<Item<V>>, ops: seq<Entry>)
    ensures (out, ops) == Flush(out0, ops0)
  {
    out, ops := out0, ops0;
    while |ops| > 0 && !ops[|ops| - 1].Paren?
      invariant Flush(out, ops) == Flush(out0, ops0)
    {
      out, ops := out + [ItemOf(ops[|ops| - 1])], ops[..|ops| - 1];
    }
  }

  /** The inner loop for an operator. */
  method ReduceOps<V>(out0: seq<Item<V>>, ops0: seq<Entry>, op: Op) returns (out: seq<Item<V>>, ops: seq<Entry>)
    ensures (out, ops) == Reduce(out0, ops0, op)
  {
    out, ops := out0, ops0;
    while |ops| > 0 && ops[|ops| - 1].Pending?
      invariant Reduce(out, ops, op) == Reduce(out0, ops0, op)
    {
      var top := ops[|ops| - 1].op;
      if (Right(op) && Prec(op) <= Prec(top)) || (!Right(op) && Prec(op) < Prec(top)) { break; }
      out, ops := out + [Oper(top)], ops[..|ops| - 1];
    }
  }

  method CountNets<V>(out: seq<Item<V>>) returns (n: int)
    ensures n == Nets(out)
  {
    n := 0;
    for i := 0 to |out|
      invariant n == Nets(out[..i])
    {
      assert out[..i + 1][..i] == out[..i];
      n := n + Net(out[i]);
    }
    assert out[..|out|] == out;
  }

  /** `ke_parse_core` on the tokens of a text. */
  method ParseCore<V>(ts: seq<Lex<V>>) returns (r: Result<seq<Item<V>>>)
    ensures r == Parse(ts)
  {
    var out: seq<Item<V>>, ops: seq<Entry>, lastIsVal := [], [], false;
    var i := 0;
    while i < |ts|
      invariant i <= |ts| && Run(ts, State([], [], false)) == Run(ts[i..], State(out, ops, lastIsVal))
    {
      var t := ts[i];
      assert ts[i..][1..] == ts[i + 1..];
      match t {
        case LPar => ops := ops + [Paren];
        case RPar =>
          out, ops := FlushOps(out, ops);
          if |ops| == 0 { return Err(ExtraRightParen); }
          ops := ops[..|ops| - 1];
          if |ops| > 0 && ops[|ops| - 1].Callee? {
            out, ops := out + [ItemOf(ops[|ops| - 1])], ops[..|ops| - 1];
          }
        case Comma =>
          out, ops := FlushOps(out, ops);
          var n := |ops|;
          if n < 2 || !ops[n - 2].Callee? { return Err(CommaOutsideCall); }
          ops := ops[n - 2 := Callee(ops[n - 2].f, ops[n - 2].nArgs + 1)];
        case Val(x) => out, lastIsVal := out + [Value(x)], true;
        case Name(f) => ops, lastIsVal := ops + [Callee(f, 1)], false;
        case _ =>
          var op := Resolve(t, lastIsVal);
          out, ops := ReduceOps(out, ops, op);
          ops, lastIsVal := ops + [Pending(op)], false;
      }
      i := i + 1;
    }
    out, ops := FlushOps(out, ops);
    if |ops| > 0 { return Err(UnmatchedLeftParen); }
    var n := CountNets(out);
    r := if n != 1 then Err(WrongArgs) else Ok(out);
  }

  // ------------------------------------------------------------------
  // What the text of an expression means
  // ------------------------------------------------------------------

  /** An expression as it is written; Group is a pair of parentheses. */
  datatype Src<V> = Lit(x: V) | Un(op: Op, arg: Src) | Bin(op: Op, l: Src, r: Src) | Group(s: Src)
                  | Call(f: string, args: Args)
  datatype Args<V> = One(s: Src) | More(s: Src, rest: Args)

  function Spell<V>(op: Op): Lex<V> {
    match op
    case Pos => Plus case Add => Plus
    case Neg => Minus case Sub => Minus
    case _ => Sym(op)
  }

  function Tokens<V>(s: Src<V>): seq<Lex<V>> {
    match s
    case Lit(x) => [Val(x)]
    case Un(op, a) => [Spell(op)] + Tokens(a)
    case Bin(op, l, r) => Tokens(l) + [Spell(op)] + Tokens(r)
    case Group(a) => [LPar] + Tokens(a) + [RPar]
    case Call(f, a) => [Name(f), LPar] + ArgTokens(a) + [RPar]
  }

  function ArgTokens<V>(a: Args<V>): seq<Lex<V>> {
    match a
    case One(s) => Tokens(s)
    case More(s, rest) => Tokens(s) + [Comma] + ArgTokens(rest)
  }

  function ArgCount<V>(a: Args<V>): (n: nat)
    ensures n >= 1
  {
    if a.One? then 1 else 1 + ArgCount(a.rest)
  }

  /** The post-order of the tree: operands, then operator. */
  function Post<V>(s: Src<V>): seq<Item<V>> {
    match s
    case Lit(x) => [Value(x)]
    case Un(op, a) => Post(a) + [Oper(op)]
    case Bin(op, l, r) => Post(l) + Post(r) + [Oper(op)]
    case Group(a) => Post(a)
    case Call(f, a) => ArgPost(a) + [Func(f, ArgCount(a))]
  }

  function ArgPost<V>(a: Args<V>): seq<Item<V>> {
    match a
    case One(s) => Post(s)
    case More(s, rest) => Post(s) + ArgPost(rest)
  }

  /** How tightly the outermost operator binds; 0 for what cannot be taken apart. */
  function Level<V>(s: Src<V>): nat {
    match s
    case Un(_, _) => 1
    case Bin(op, _, _) => Prec(op)
    case _ => 0
  }

  predicate LeftOk<V>(op: Op, l: Src<V>) { Level(l) < Prec(op) || (Level(l) == Prec(op) && !Right(op)) }
  predicate RightOk<V>(op: Op, r: Src<V>) { Level(r) < Prec(op) || (Level(r) == Prec(op) && Right(op)) }

  /** Parentheses stand wherever precedence or associativity asks for them. */
  predicate Grouped<V>(s: Src<V>) {
    match s
    case Lit(_) => true
    case Un(op, a) => Unary(op) && RightOk(op, a) && Grouped(a)
    case Bin(op, l, r) => !Unary(op) && LeftOk(op, l) && RightOk(op, r) && Grouped(l) && Grouped(r)
    case Group(a) => Grouped(a)
    case Call(_, a) => ArgsGrouped(a)
  }

  predicate ArgsGrouped<V>(a: Args<V>) {
    Grouped(a.s) && (a.More? ==> ArgsGrouped(a.rest))
  }

  /** The text begins with + or -, perhaps inside parentheses. */
  predicate Signed<V>(s: Src<V>) {
    match s
    case Un(op, _) => op == Pos || op == Neg
    case Bin(_, l, _) => Signed(l)
    case Group(a) => Signed(a)
    case _ => false
  }

  /** No argument after a comma begins with a sign. */
  predicate Clean<V>(s: Src<V>) {
    match s
    case Lit(_) => true
    case Un(_, a) => Clean(a)
    case Bin(_, l, r) => Clean(l) && Clean(r)
    case Group(a) => Clean(a)
    case Call(_, a) => ArgsClean(a)
  }

  predicate ArgsClean<V>(a: Args<V>) {
    Clean(a.s) && (a.More? ==> !Signed(a.rest.s) && ArgsClean(a.rest))
  }

  // ------------------------------------------------------------------
  // Reading an expression
  // ------------------------------------------------------------------

  /** The part of the post-order that has been output when the last token of s has been read. */
  function Out<V>(s: Src<V>): seq<Item<V>> {
    match s
    case Un(_, a) => Out(a)
    case Bin(_, l, r) => Post(l) + Out(r)
    case _ => Post(s)
  }

  /** The operators that are then still on the stack. */
  function Pend<V>(s: Src<V>): seq<Entry> {
    match s
    case Un(op, a) => [Pending(op)] + Pend(a)
    case Bin(op, _, r) => [Pending(op)] + Pend(r)
    case _ => []
  }

  /** All of them are operators, of level p at most. */
  predicate Within(es: seq<Entry>, p: nat) {
    forall i :: 0 <= i < |es| ==> es[i].Pending? && Prec(es[i].op) <= p
  }

  function Unstack<V>(es: seq<Entry>): seq<Item<V>>
    requires forall i :: 0 <= i < |es| ==> es[i].Pending?
  {
    if es == [] then [] else [ItemOf(es[|es| - 1])] + Unstack(es[..|es| - 1])
  }

  lemma {:induction false} UnstackFirst<V>(e: Entry, es: seq<Entry>)
    requires e.Pending? && forall i :: 0 <= i < |es| ==> es[i].Pending?
    ensures Unstack<V>([e] + es) == Unstack<V>(es) + [ItemOf(e)]
  {
    if es == [] {
      assert [e] + es == [e] && [e][..0] == [];
    } else {
      var es' := es[..|es| - 1];
      UnstackFirst<V>(e, es');
      UnstackLast<V>([e] + es', es[|es| - 1]);
      UnstackLast<V>(es', es[|es| - 1]);
      assert [e] + es == [e] + es' + [es[|es| - 1]] && es == es' + [es[|es| - 1]];
      hide *;
      Assoc<Item<V>>([ItemOf(es[|es| - 1])], Unstack(es'), [ItemOf(e)]);
    }
  }

  lemma UnstackLast<V>(es: seq<Entry>, e: Entry)
    requires e.Pending? && forall i :: 0 <= i < |es| ==> es[i].Pending?
    ensures Unstack<V>(es + [e]) == [ItemOf(e)] + Unstack<V>(es)
  {
    assert (es + [e])[..|es|] == es;
  }

  /** The operators on the stack bind at least as tightly as the outermost one. */
  lemma {:induction false} PendLevel<V>(s: Src<V>)
    requires Grouped(s)
    ensures Within(Pend(s), Level(s))
  {
    match s
    case Un(_, a) => PendLevel(a);
    case Bin(_, _, r) => PendLevel(r);
    case _ =>
  }

  lemma {:induction false} OutPend<V>(s: Src<V>)
    requires Grouped(s)
    ensures Within(Pend(s), Level(s)) && Post(s) == Out(s) + Unstack(Pend(s))
  {
    PendLevel(s);
    match s
    case Un(op, a) =>
      OutPend(a);
      UnstackFirst<V>(Pending(op), Pend(a));
    case Bin(op, l, r) =>
      OutPend(r);
      UnstackFirst<V>(Pending(op), Pend(r));
    case _ =>
  }

  lemma {:induction false} FlushAll<V>(out: seq<Item<V>>, ops: seq<Entry>, es: seq<Entry>)
    requires forall i :: 0 <= i < |es| ==> es[i].Pending?
    requires ops == [] || Top(ops).Paren?
    ensures Flush(out, ops + es) == (out + Unstack(es), ops)
    decreases |es|
  {
    if es == [] {
      assert ops + es == ops && out + Unstack<V>(es) == out;
    } else {
      var es' := es[..|es| - 1];
      assert (ops + es)[..|ops + es| - 1] == ops + es';
      FlushAll(out + [ItemOf(es[|es| - 1])], ops, es');
      Assoc(out, [ItemOf(es[|es| - 1])], Unstack(es'));
    }
  }

  lemma {:induction false} ReduceAll<V>(out: seq<Item<V>>, ops: seq<Entry>, es: seq<Entry>, op: Op)
    requires forall i :: 0 <= i < |es| ==> es[i].Pending? && Pops(op, es[i].op)
    requires ops != [] && Top(ops).Pending? ==> !Pops(op, Top(ops).op)
    ensures Reduce(out, ops + es, op) == (out + Unstack(es), ops)
    decreases |es|
  {
    if es == [] {
      assert ops + es == ops && out + Unstack<V>(es) == out;
    } else {
      var es' := es[..|es| - 1];
      assert (ops + es)[..|ops + es| - 1] == ops + es';
      ReduceAll(out + [ItemOf(es[|es| - 1])], ops, es', op);
      Assoc(out, [ItemOf(es[|es| - 1])], Unstack(es'));
    }
  }

  lemma {:induction false} RunAppend<V>(a: seq<Lex<V>>, b: seq<Lex<V>>, st: State<V>, st': State<V>)
    requires Run(a, st) == Ok(st')
    ensures Run(a + b, st) == Run(b, st')
  {
    if a == [] {
      assert a + b == b;
    } else {
      assert (a + b)[1..] == a[1..] + b;
      RunAppend(a[1..], b, Step(st, a[0]).value, st');
    }
  }

  lemma StepThen<V>(t: Lex<V>, b: seq<Lex<V>>, st: State<V>, st': State<V>)
    requires Step(st, t) == Ok(st')
    ensures Run([t] + b, st) == Run(b, st')
  {
    hide Step;
    assert ([t] + b)[1..] == b;
  }

  /** Reading s does not disturb what is on the stack below it. */
  predicate Fits<V>(s: Src<V>, ops: seq<Entry>) {
    ops == [] || (Top(ops).Paren? || (Top(ops).Pending? && RightOk(Top(ops).op, s)))
  }

  ghost predicate Reads<V>(s: Src<V>, st: State<V>) {
    Run(Tokens(s), st) == Ok(State(st.out + Out(s), st.ops + Pend(s), true))
  }

  lemma ReadsIf<V>(s: Src<V>, st: State<V>, out: seq<Item<V>>, ops: seq<Entry>)
    requires Run(Tokens(s), st) == Ok(State(out, ops, true))
    requires out == st.out + Out(s) && ops == st.ops + Pend(s)
    ensures Reads(s, st)
  {
  }

  /** The parser takes in any well-grouped expression, provided that a sign at its beginning does
      not stand where a value has just been read. */
  lemma {:induction false} ReadsAll<V>(s: Src<V>, st: State<V>)
    requires Grouped(s) && Clean(s) && Fits(s, st.ops) && !(st.lastIsVal && Signed(s))
    ensures Reads(s, st)
    decreases s, 1
  {
    hide Reads;
    match s
    case Lit(x) => ReadsLit(x, st);
    case Un(op, a) => ReadsUn(op, a, st);
    case Bin(op, l, r) => ReadsBin(op, l, r, st);
    case Group(a) => ReadsGroup(a, st);
    case Call(f, a) => ReadsCall(f, a, st);
  }

  lemma ReadsLit<V>(x: V, st: State<V>)
    ensures Reads(Lit(x), st)
  {
    StepThen(Val(x), [], st, State(st.out + [Value(x)], st.ops, true));
    assert st.ops + [] == st.ops && [Val(x)] + [] == [Val(x)];
  }

  /** A prefix operator pops nothing. */
  lemma PrefixArrives<V>(op: Op, st: State<V>)
    requires Unary(op) && !(st.lastIsVal && (op == Pos || op == Neg))
    ensures Step(st, Spell(op)) == Ok(State(st.out, st.ops + [Pending(op)], false))
  {
    assert Resolve<V>(Spell(op), st.lastIsVal) == op;
    if st.ops != [] && Top(st.ops).Pending? { assert Prec(Top(st.ops).op) >= 1; }
  }

  lemma {:induction false} ReadsUn<V>(op: Op, a: Src<V>, st: State<V>)
    requires Unary(op) && RightOk(op, a) && Grouped(a) && Clean(a) && !(st.lastIsVal && (op == Pos || op == Neg))
    ensures Reads(Un(op, a), st)
    decreases a, 2
  {
    var st1 := State(st.out, st.ops + [Pending(op)], false);
    PrefixArrives(op, st);
    assert Fits(a, st1.ops);
    hide Step, Run, Fits, Grouped, Clean, RightOk, Spell;
    StepThen(Spell(op), Tokens(a), st, st1);
    ReadsAll(a, st1);
    ReadsIf(Un(op, a), st, st1.out + Out(a), st1.ops + Pend(a));
  }

  /** An operator finds the operands before it complete, and pops just their operators. */
  lemma OpArrives<V>(op: Op, l: Src<V>, r: Src<V>, st: State<V>)
    requires Grouped(Bin(op, l, r)) && Fits(Bin(op, l, r), st.ops)
    ensures Step(State(st.out + Out(l), st.ops + Pend(l), true), Spell(op))
            == Ok(State(st.out + Post(l), st.ops + [Pending(op)], false))
  {
    PendPopped(op, l);
    OutPend(l);
    TopStays(op, l, r, st.ops);
    assert Resolve<V>(Spell(op), true) == op;
    hide Out, Pend, Post, Unstack, Fits, Grouped, Pops, Reduce, Resolve;
    ReduceAll(st.out + Out(l), st.ops, Pend(l), op);
    Assoc(st.out, Out(l), Unstack(Pend(l)));
  }

  lemma PendPopped<V>(op: Op, l: Src<V>)
    requires Grouped(l) && LeftOk(op, l)
    ensures var es := Pend(l); forall i :: 0 <= i < |es| ==> es[i].Pending? && Pops(op, es[i].op)
  {
    PendLevel(l);
    var es := Pend(l);
    forall i | 0 <= i < |es| ensures es[i].Pending? && Pops(op, es[i].op) { SameLevel(op, es[i].op); }
  }

  lemma TopStays<V>(op: Op, l: Src<V>, r: Src<V>, ops: seq<Entry>)
    requires Fits(Bin(op, l, r), ops)
    ensures ops != [] && Top(ops).Pending? ==> !Pops(op, Top(ops).op)
  {
    if ops != [] && Top(ops).Pending? { SameLevel(op, Top(ops).op); }
  }

  /** Operators of one level associate alike. */
  lemma SameLevel(a: Op, b: Op)
    ensures Prec(a) == Prec(b) ==> Right(a) == Right(b)
  {
  }

  /** Both operands may be read where the whole may. */
  lemma OperandsFit<V>(op: Op, l: Src<V>, r: Src<V>, ops: seq<Entry>)
    requires Grouped(Bin(op, l, r)) && Fits(Bin(op, l, r), ops)
    ensures Fits(l, ops) && Fits(r, ops + [Pending(op)])
  {
    if ops != [] && Top(ops).Pending? { SameLevel(op, Top(ops).op); }
  }

  lemma {:induction false} ReadsBin<V>(op: Op, l: Src<V>, r: Src<V>, st: State<V>)
    requires Grouped(Bin(op, l, r)) && Clean(l) && Clean(r) && Fits(Bin(op, l, r), st.ops) && !(st.lastIsVal && Signed(l))
    ensures Reads(Bin(op, l, r), st)
    decreases Bin(op, l, r), 0
  {
    assert Grouped(l) && Grouped(r);
    hide *;
    var st1 := State(st.out + Out(l), st.ops + Pend(l), true);
    var st2 := State(st.out + Post(l), st.ops + [Pending(op)], false);
    OperandsFit(op, l, r, st.ops);
    OpArrives(op, l, r, st);
    ReadsAll(l, st);
    ReadsAll(r, st2);
    WhatReads(l, st);
    WhatReads(r, st2);
    StepThen(Spell(op), Tokens(r), st1, st2);
    RunAppend(Tokens(l), [Spell(op)] + Tokens(r), st, st1);
    BinParts(op, l, r, st);
    ReadsIf(Bin(op, l, r), st, st2.out + Out(r), st2.ops + Pend(r));
  }

  lemma WhatReads<V>(s: Src<V>, st: State<V>)
    requires Reads(s, st)
    ensures Run(Tokens(s), st) == Ok(State(st.out + Out(s), st.ops + Pend(s), true))
  {
  }

  lemma BinParts<V>(op: Op, l: Src<V>, r: Src<V>, st: State<V>)
    ensures var b := Bin(op, l, r);
            && Tokens(b) == Tokens(l) + ([Spell(op)] + Tokens(r))
            && st.out + Post(l) + Out(r) == st.out + Out(b)
            && st.ops + [Pending(op)] + Pend(r) == st.ops + Pend(b)
  {
    Assoc(Tokens(l), [Spell(op)], Tokens(r));
    Assoc(st.out, Post(l), Out(r));
    Assoc(st.ops, [Pending(op)], Pend(r));
  }

  /** A right parenthesis completes what was read since the left one. */
  lemma Closes<V>(s: Src<V>, out: seq<Item<V>>, ops: seq<Entry>)
    requires Grouped(s) && ops != [] && Top(ops).Paren?
    ensures Flush(out + Out(s), ops + Pend(s)) == (out + Post(s), ops)
  {
    OutPend(s);
    hide Flush, Out, Pend, Post, Grouped, Unstack;
    FlushAll(out + Out(s), ops, Pend(s));
    Assoc(out, Out(s), Unstack(Pend(s)));
  }

  lemma GroupEnds<V>(a: Src<V>, st: State<V>)
    requires Grouped(a) && Fits(Group(a), st.ops)
    ensures Step(State(st.out + Out(a), st.ops + [Paren] + Pend(a), true), RPar) == Ok(State(st.out + Post(a), st.ops, true))
  {
    assert st.ops == [] || !Top(st.ops).Callee?;
    assert Rest(st.ops + [Paren]) == st.ops;
    hide Flush, Out, Pend, Post, Grouped, Fits;
    Closes(a, st.out, st.ops + [Paren]);
  }

  lemma {:induction false} ReadsGroup<V>(a: Src<V>, st: State<V>)
    requires Grouped(a) && Clean(a) && Fits(Group(a), st.ops) && !(st.lastIsVal && Signed(a))
    ensures Reads(Group(a), st)
    decreases a, 2
  {
    var st1 := st.(ops := st.ops + [Paren]);
    var st2 := State(st.out + Out(a), st1.ops + Pend(a), true);
    var st3 := State(st.out + Post(a), st.ops, true);
    GroupEnds(a, st);
    assert Step(st, LPar) == Ok(st1) && Fits(a, st1.ops);
    hide Step, Run, Fits, Clean, Grouped, Signed;
    ReadsAll(a, st1);
    StepThen(RPar, [], st2, st3);
    RunAppend(Tokens(a), [RPar] + [], st1, st2);
    StepThen(LPar, Tokens(a) + ([RPar] + []), st, st1);
    assert Tokens(Group(a)) == [LPar] + (Tokens(a) + ([RPar] + []));
    RunNone(st3);
    ReadsIf(Group(a), st, st3.out, st3.ops);
  }

  lemma RunNone<V>(st: State<V>)
    ensures Run([], st) == Ok(st)
  {
  }

  lemma {:induction false} ReadsCall<V>(f: string, a: Args<V>, st: State<V>)
    requires ArgsGrouped(a) && ArgsClean(a)
    ensures Reads(Call(f, a), st)
    decreases a, 1
  {
    var st1 := State(st.out, st.ops + [Callee(f, 1)], false);
    var st2 := State(st.out, st.ops + [Callee(f, 1), Paren], false);
    assert st1.ops + [Paren] == st2.ops;
    assert Step(st, Name(f)) == Ok(st1) && Step(st1, LPar) == Ok(st2);
    hide *;
    CallParts(f, a, st);
    ReadsArgs(f, 1, a, st.out, st.ops, false);
    StepThen(LPar, ArgTokens(a) + [RPar], st1, st2);
    StepThen(Name(f), [LPar] + (ArgTokens(a) + [RPar]), st, st1);
    ReadsIf(Call(f, a), st, st.out + ArgPost(a) + [Func(f, ArgCount(a))], st.ops);
  }

  lemma CallParts<V>(f: string, a: Args<V>, st: State<V>)
    ensures var c := Call(f, a);
            && Tokens(c) == [Name(f)] + ([LPar] + (ArgTokens(a) + [RPar]))
            && st.out + ArgPost(a) + [Func(f, ArgCount(a))] == st.out + Out(c) && st.ops == st.ops + Pend(c)
  {
    Assoc(st.out, ArgPost(a), [Func(f, ArgCount(a))]);
  }

  /** The parenthesis after the last argument: the function follows its arguments. */
  lemma LastArgEnds<V>(f: string, n: nat, s: Src<V>, out: seq<Item<V>>, ops: seq<Entry>)
    requires Grouped(s)
    ensures Step(State(out + Out(s), ops + [Callee(f, n), Paren] + Pend(s), true), RPar)
            == Ok(State(out + Post(s) + [Func(f, n)], ops, true))
  {
    var ops' := ops + [Callee(f, n), Paren];
    assert Rest(ops') == ops + [Callee(f, n)] && Rest(ops + [Callee(f, n)]) == ops;
    hide Flush, Out, Pend, Post, Grouped;
    Closes(s, out, ops');
  }

  /** A comma: one more argument is counted. */
  lemma ArgEnds<V>(f: string, n: nat, s: Src<V>, out: seq<Item<V>>, ops: seq<Entry>)
    requires Grouped(s)
    ensures Step(State(out + Out(s), ops + [Callee(f, n), Paren] + Pend(s), true), Comma)
            == Ok(State(out + Post(s), ops + [Callee(f, n + 1), Paren], true))
  {
    var ops' := ops + [Callee(f, n), Paren];
    hide Flush, Out, Pend, Post, Grouped;
    Closes(s, out, ops');
    assert ops'[|ops'| - 2 := Callee(f, n + 1)] == ops + [Callee(f, n + 1), Paren];
  }

  /** The arguments of a call, from one of them on, and the parenthesis that ends it. */
  lemma {:induction false} ReadsArgs<V>(f: string, n: nat, a: Args<V>, out: seq<Item<V>>, ops: seq<Entry>, last: bool)
    requires ArgsGrouped(a) && ArgsClean(a) && !(last && Signed(a.s))
    ensures Run(ArgTokens(a) + [RPar], State(out, ops + [Callee(f, n), Paren], last))
            == Ok(State(out + ArgPost(a) + [Func(f, n + ArgCount(a) - 1)], ops, true))
    decreases a, 0
  {
    var st := State(out, ops + [Callee(f, n), Paren], last);
    var st1 := State(out + Out(a.s), st.ops + Pend(a.s), true);
    assert Fits(a.s, st.ops) && Grouped(a.s) && Clean(a.s);
    assert a.More? ==> ArgsGrouped(a.rest) && ArgsClean(a.rest) && !Signed(a.rest.s);
    hide *;
    ReadsAll(a.s, st);
    WhatReads(a.s, st);
    ArgParts(a, out);
    if a.One? {
      var st2 := State(out + Post(a.s) + [Func(f, n)], ops, true);
      LastArgEnds(f, n, a.s, out, ops);
      StepThen(RPar, [], st1, st2);
      RunNone(st2);
      RunAppend(Tokens(a.s), [RPar] + [], st, st1);
    } else {
      var st2 := State(out + Post(a.s), ops + [Callee(f, n + 1), Paren], true);
      var rest := ArgTokens(a.rest) + [RPar];
      ArgEnds(f, n, a.s, out, ops);
      ReadsArgs(f, n + 1, a.rest, out + Post(a.s), ops, true);
      StepThen(Comma, rest, st1, st2);
      RunAppend(Tokens(a.s), [Comma] + rest, st, st1);
    }
  }

  lemma ArgParts<V>(a: Args<V>, out: seq<Item<V>>)
    ensures a.One? ==> ArgTokens(a) + [RPar] == Tokens(a.s) + ([RPar] + []) && ArgPost(a) == Post(a.s) && ArgCount(a) == 1
    ensures a.More? ==>
              && ArgTokens(a) + [RPar] == Tokens(a.s) + ([Comma] + (ArgTokens(a.rest) + [RPar]))
              && out + Post(a.s) + ArgPost(a.rest) == out + ArgPost(a) && ArgCount(a) == 1 + ArgCount(a.rest)
  {
  }

  // ------------------------------------------------------------------
  // Counting values
  // ------------------------------------------------------------------

  lemma {:induction false} NetsAppend<V>(a: seq<Item<V>>, b: seq<Item<V>>)
    ensures Nets(a + b) == Nets(a) + Nets(b)
  {
    if b == [] {
      assert a + b == a;
    } else {
      NetsAppend(a, b[..|b| - 1]);
      assert (a + b)[..|a + b| - 1] == a + b[..|b| - 1];
    }
  }

  lemma NetsOne<V>(e: Item<V>)
    ensures Nets([e]) == Net(e)
  {
    assert [e][..0] == [];
  }

  /** A complete expression leaves one value more. */
  lemma {:induction false} NetsPost<V>(s: Src<V>)
    requires Grouped(s)
    ensures Nets(Post(s)) == 1
  {
    match s
    case Lit(x) => NetsOne(Value(x));
    case Un(op, a) =>
      NetsPost(a);
      NetsAppend(Post(a), [Oper(op)]);
      NetsOne<V>(Oper(op));
    case Bin(op, l, r) =>
      NetsPost(l);
      NetsPost(r);
      NetsAppend(Post(l), Post(r));
      NetsAppend(Post(l) + Post(r), [Oper(op)]);
      NetsOne<V>(Oper(op));
    case Group(a) => NetsPost(a);
    case Call(f, a) =>
      NetsArgs(a);
      NetsAppend(ArgPost(a), [Func(f, ArgCount(a))]);
      NetsOne<V>(Func(f, ArgCount(a)));
  }

  lemma {:induction false} NetsArgs<V>(a: Args<V>)
    requires ArgsGrouped(a)
    ensures Nets(ArgPost(a)) == ArgCount(a)
  {
    NetsPost(a.s);
    if a.More? {
      NetsArgs(a.rest);
      NetsAppend(Post(a.s), ArgPost(a.rest));
    }
  }

  /** What the entries of the operator stack will add. */
  function EntryNets(ops: seq<Entry>): int {
    if ops == [] then 0
    else EntryNets(ops[..|ops| - 1]) + (if Top(ops).Paren? then 0 else Net<int>(ItemOf(Top(ops))))
  }

  function Total<V>(st: State<V>): int { Nets(st.out) + EntryNets(st.ops) }

  lemma EntryPush(ops: seq<Entry>, e: Entry)
    ensures EntryNets(ops + [e]) == EntryNets(ops) + (if e.Paren? then 0 else Net<int>(ItemOf(e)))
  {
    assert (ops + [e])[..|ops|] == ops;
  }

  /** Moving the top entry to the output changes no total. */
  lemma MoveTop<V>(out: seq<Item<V>>, ops: seq<Entry>)
    requires ops != [] && !Top(ops).Paren?
    ensures Nets(out + [ItemOf(Top(ops))]) + EntryNets(Rest(ops)) == Nets(out) + EntryNets(ops)
  {
    NetsAppend(out, [ItemOf(Top(ops))]);
    NetsOne<V>(ItemOf(Top(ops)));
  }

  lemma {:induction false} FlushTotal<V>(out: seq<Item<V>>, ops: seq<Entry>)
    ensures var (out', ops') := Flush(out, ops); Nets(out') + EntryNets(ops') == Nets(out) + EntryNets(ops)
    decreases |ops|
  {
    if ops != [] && !Top(ops).Paren? {
      MoveTop(out, ops);
      FlushTotal(out + [ItemOf(Top(ops))], Rest(ops));
    }
  }

  lemma {:induction false} ReduceTotal<V>(out: seq<Item<V>>, ops: seq<Entry>, op: Op)
    ensures var (out', ops') := Reduce(out, ops, op); Nets(out') + EntryNets(ops') == Nets(out) + EntryNets(ops)
    decreases |ops|
  {
    if ops != [] && Top(ops).Pending? && Pops(op, Top(ops).op) {
      MoveTop(out, ops);
      ReduceTotal(out + [ItemOf(Top(ops))], Rest(ops), op);
    }
  }

  /** What reading a token adds to the total, and whether a value has been read last after it. */
  function Weight<V>(t: Lex<V>, last: bool): int {
    match t
    case Val(_) => 1
    case Name(_) => 0
    case LPar => 0
    case RPar => 0
    case Comma => -1
    case _ => if Unary(Resolve(t, last)) then 0 else -1
  }

  predicate LastAfter<V>(t: Lex<V>, last: bool) {
    match t
    case Val(_) => true
    case LPar => last
    case RPar => last
    case Comma => last
    case _ => false
  }

  lemma StepTotal<V>(st: State<V>, t: Lex<V>)
    requires Step(st, t).Ok?
    ensures Total(Step(st, t).value) == Total(st) + Weight(t, st.lastIsVal)
    ensures Step(st, t).value.lastIsVal == LastAfter(t, st.lastIsVal)
  {
    hide Nets, EntryNets, Reduce, Flush, OnRPar, OnComma;
    match t
    case LPar => EntryPush(st.ops, Paren);
    case RPar => RParTotal(st);
    case Comma => CommaTotal(st);
    case Val(x) =>
      NetsAppend(st.out, [Value(x)]);
      NetsOne(Value(x));
    case Name(f) => EntryPush(st.ops, Callee(f, 1));
    case _ =>
      var op := Resolve(t, st.lastIsVal);
      ReduceTotal(st.out, st.ops, op);
      EntryPush(Reduce(st.out, st.ops, op).1, Pending(op));
  }

  lemma RParTotal<V>(st: State<V>)
    requires OnRPar(st).Ok?
    ensures Total(OnRPar(st).value) == Total(st) && OnRPar(st).value.lastIsVal == st.lastIsVal
  {
    FlushTotal(st.out, st.ops);
    var (out, ops) := Flush(st.out, st.ops);
    var ops' := Rest(ops);
    if ops' != [] && Top(ops').Callee? { MoveTop(out, ops'); }
  }

  lemma CommaTotal<V>(st: State<V>)
    requires OnComma(st).Ok?
    ensures Total(OnComma(st).value) == Total(st) - 1 && OnComma(st).value.lastIsVal == st.lastIsVal
  {
    FlushTotal(st.out, st.ops);
    var ops := Flush(st.out, st.ops).1;
    var n := |ops|;
    var e := Callee(ops[n - 2].f, ops[n - 2].nArgs + 1);
    var base := ops[..n - 2];
    assert ops == base + [ops[n - 2]] + [Paren];
    assert ops[n - 2 := e] == base + [e] + [Paren];
    EntryPush(base, ops[n - 2]);
    EntryPush(base + [ops[n - 2]], Paren);
    EntryPush(base, e);
    EntryPush(base + [e], Paren);
  }

  function Weights<V>(ts: seq<Lex<V>>, last: bool): int {
    if ts == [] then 0 else Weight(ts[0], last) + Weights(ts[1..], LastAfter(ts[0], last))
  }

  predicate LastAfterAll<V>(ts: seq<Lex<V>>, last: bool) {
    if ts == [] then last else LastAfterAll(ts[1..], LastAfter(ts[0], last))
  }

  lemma {:induction false} RunTotal<V>(ts: seq<Lex<V>>, st: State<V>)
    requires Run(ts, st).Ok?
    ensures Total(Run(ts, st).value) == Total(st) + Weights(ts, st.lastIsVal)
  {
    if ts != [] {
      StepTotal(st, ts[0]);
      hide Step, Total;
      RunTotal(ts[1..], Step(st, ts[0]).value);
    }
  }

  lemma {:induction false} WeightsAppend<V>(a: seq<Lex<V>>, b: seq<Lex<V>>, last: bool)
    ensures Weights(a + b, last) == Weights(a, last) + Weights(b, LastAfterAll(a, last))
    ensures LastAfterAll(a + b, last) == LastAfterAll(b, LastAfterAll(a, last))
  {
    if a == [] {
      assert a + b == b;
    } else {
      assert (a + b)[1..] == a[1..] + b;
      WeightsAppend(a[1..], b, LastAfter(a[0], last));
    }
  }

  lemma WeightsOne<V>(t: Lex<V>, last: bool)
    ensures Weights([t], last) == Weight(t, last) && LastAfterAll([t], last) == LastAfter(t, last)
  {
    assert [t][1..] == [];
    assert Weights<V>([], LastAfter(t, last)) == 0;
  }

  /** How many signs are taken for binary operators though they are not. */
  function Misread<V>(s: Src<V>, last: bool): nat {
    match s
    case Lit(_) => 0
    case Un(op, a) => (if last && (op == Pos || op == Neg) then 1 else 0) + Misread(a, false)
    case Bin(_, l, r) => Misread(l, last) + Misread(r, false)
    case Group(a) => Misread(a, last)
    case Call(_, a) => ArgsMisread(a, false)
  }

  function ArgsMisread<V>(a: Args<V>, last: bool): nat {
    Misread(a.s, last) + (if a.More? then ArgsMisread(a.rest, true) else 0)
  }

  lemma {:induction false} MisreadWhen<V>(s: Src<V>, last: bool)
    ensures Misread(s, last) == 0 <==> Clean(s) && !(last && Signed(s))
  {
    match s
    case Lit(_) =>
    case Un(_, a) => MisreadWhen(a, false);
    case Bin(_, l, r) => MisreadWhen(l, last); MisreadWhen(r, false);
    case Group(a) => MisreadWhen(a, last);
    case Call(_, a) => ArgsMisreadWhen(a, false);
  }

  lemma {:induction false} ArgsMisreadWhen<V>(a: Args<V>, last: bool)
    ensures ArgsMisread(a, last) == 0 <==> ArgsClean(a) && !(last && Signed(a.s))
  {
    MisreadWhen(a.s, last);
    if a.More? { ArgsMisreadWhen(a.rest, true); }
  }

  lemma SpellWeight<V>(op: Op, last: bool)
    ensures !LastAfter<V>(Spell(op), last)
    ensures Unary(op) ==> Weight<V>(Spell(op), last) == -(if last && (op == Pos || op == Neg) then 1 else 0)
    ensures !Unary(op) && last ==> Weight<V>(Spell(op), last) == -1
  {
  }

  /** Each misread sign takes one value too many. */
  lemma {:induction false} TokensWeight<V>(s: Src<V>, last: bool)
    requires Grouped(s)
    ensures Weights(Tokens(s), last) == 1 - Misread(s, last) && LastAfterAll(Tokens(s), last)
  {
    match s
    case Lit(x) => WeightsOne(Val(x), last);
    case Un(op, a) =>
      TokensWeight(a, false);
      WeightsOne<V>(Spell(op), last);
      SpellWeight<V>(op, last);
      WeightsAppend([Spell(op)], Tokens(a), last);
    case Bin(op, l, r) =>
      TokensWeight(l, last);
      TokensWeight(r, false);
      WeightsOne<V>(Spell(op), true);
      SpellWeight<V>(op, true);
      WeightsAppend(Tokens(l), [Spell(op)], last);
      WeightsAppend(Tokens(l) + [Spell(op)], Tokens(r), last);
    case Group(a) =>
      TokensWeight(a, last);
      WeightsOne<V>(LPar, last);
      WeightsOne<V>(RPar, true);
      WeightsAppend([LPar], Tokens(a), last);
      WeightsAppend([LPar] + Tokens(a), [RPar], last);
    case Call(f, a) => CallWeight(f, a, last);
  }

  lemma {:induction false} CallWeight<V>(f: string, a: Args<V>, last: bool)
    requires ArgsGrouped(a)
    ensures Weights(Tokens(Call(f, a)), last) == 1 - ArgsMisread(a, false) && LastAfterAll(Tokens(Call(f, a)), last)
    decreases a, 1
  {
    ArgTokensWeight(a, false);
    WeightsOne<V>(Name(f), last);
    WeightsOne<V>(LPar, false);
    WeightsOne<V>(RPar, true);
    var open: seq<Lex<V>> := [Name(f), LPar];
    assert open == [Name(f)] + [LPar];
    WeightsAppend<V>([Name(f)], [LPar], last);
    WeightsAppend(open, ArgTokens(a), last);
    WeightsAppend(open + ArgTokens(a), [RPar], last);
  }

  lemma {:induction false} ArgTokensWeight<V>(a: Args<V>, last: bool)
    requires ArgsGrouped(a)
    ensures Weights(ArgTokens(a), last) == 1 - ArgsMisread(a, last) && LastAfterAll(ArgTokens(a), last)
    decreases a, 0
  {
    TokensWeight(a.s, last);
    if a.More? {
      ArgTokensWeight(a.rest, true);
      WeightsOne<V>(Comma, true);
      WeightsAppend(Tokens(a.s), [Comma], last);
      WeightsAppend(Tokens(a.s) + [Comma], ArgTokens(a.rest), last);
    }
  }

  // ------------------------------------------------------------------
  // When the parser is right
  // ------------------------------------------------------------------

  lemma ParseOkTotal<V>(ts: seq<Lex<V>>)
    requires Parse(ts).Ok?
    ensures Weights(ts, false) == 1
  {
    var st := Run(ts, State([], [], false)).value;
    RunTotal(ts, State([], [], false));
    FlushTotal(st.out, st.ops);
  }

  lemma ParseReads<V>(s: Src<V>)
    requires Grouped(s) && Clean(s)
    ensures Parse(Tokens(s)) == Ok(Post(s))
  {
    var st: State<V> := State([], [], false);
    ReadsAll(s, st);
    OutPend(s);
    NetsPost(s);
    FlushAll(Out(s), [], Pend(s));
    assert st.out + Out(s) == Out(s) && st.ops + Pend(s) == Pend(s);
  }

  /** For every expression with enough parentheses, the parser outputs its post-order if no
      argument after a comma begins with a sign, and otherwise reports an error. */
  lemma ParseCorrect<V>(s: Src<V>)
    requires Grouped(s)
    ensures Clean(s) ==> Parse(Tokens(s)) == Ok(Post(s))
    ensures !Clean(s) ==> Parse(Tokens(s)).Err?
  {
    if Clean(s) {
      ParseReads(s);
    } else {
      MisreadWhen(s, false);
      TokensWeight(s, false);
      if Parse(Tokens(s)).Ok? { ParseOkTotal(Tokens(s)); }
    }
  }

  // ------------------------------------------------------------------
  // Trees, and the parentheses they need
  // ------------------------------------------------------------------

  /** Parentheses put in exactly where precedence or associativity asks for them. */
  function Minimal<V>(s: Src<V>): Src<V> {
    match s
    case Lit(_) => s
    case Un(op, a) => Un(op, if RightOk(op, a) then Minimal(a) else Group(Minimal(a)))
    case Bin(op, l, r) =>
      Bin(op, if LeftOk(op, l) then Minimal(l) else Group(Minimal(l)), if RightOk(op, r) then Minimal(r) else Group(Minimal(r)))
    case Group(a) => Group(Minimal(a))
    case Call(f, a) => Call(f, ArgsMinimal(a))
  }

  function ArgsMinimal<V>(a: Args<V>): Args<V> {
    if a.One? then One(Minimal(a.s)) else More(Minimal(a.s), ArgsMinimal(a.rest))
  }

  /** Unary operators have one operand and binary ones two. */
  predicate Kinds<V>(s: Src<V>) {
    match s
    case Lit(_) => true
    case Un(op, a) => Unary(op) && Kinds(a)
    case Bin(op, l, r) => !Unary(op) && Kinds(l) && Kinds(r)
    case Group(a) => Kinds(a)
    case Call(_, a) => ArgsKinds(a)
  }

  predicate ArgsKinds<V>(a: Args<V>) {
    Kinds(a.s) && (a.More? ==> ArgsKinds(a.rest))
  }

  lemma {:induction false} MinimalSame<V>(s: Src<V>)
    requires Kinds(s)
    ensures var m := Minimal(s);
            && Grouped(m) && Post(m) == Post(s) && Level(m) == Level(s)
            && Signed(m) == Signed(s) && Clean(m) == Clean(s)
  {
    match s
    case Lit(_) =>
    case Un(op, a) => MinimalSame(a); GroupAllowed(op, Minimal(a));
    case Bin(op, l, r) => MinimalSame(l); MinimalSame(r); GroupAllowed(op, Minimal(l)); GroupAllowed(op, Minimal(r));
    case Group(a) => MinimalSame(a);
    case Call(_, a) => ArgsMinimalSame(a);
  }

  lemma GroupAllowed<V>(op: Op, s: Src<V>)
    ensures LeftOk(op, Group(s)) && RightOk(op, Group(s))
  {
  }

  lemma {:induction false} ArgsMinimalSame<V>(a: Args<V>)
    requires ArgsKinds(a)
    ensures var m := ArgsMinimal(a);
            && ArgsGrouped(m) && ArgPost(m) == ArgPost(a) && ArgCount(m) == ArgCount(a)
            && Signed(m.s) == Signed(a.s) && ArgsClean(m) == ArgsClean(a)
  {
    MinimalSame(a.s);
    if a.More? { ArgsMinimalSame(a.rest); }
  }

  // ------------------------------------------------------------------
  // Evaluation
  // ------------------------------------------------------------------

  /** What operators and functions do to values. known says for which functions there is a body. */
  datatype Sem<!V> = Sem(un: (Op, V) -> V, bin: (Op, V, V) -> V,
                         known: string -> bool, call1: (string, V) -> V, call2: (string, V, V) -> V)

  /** The value of a tree. */
  function Meaning<V>(s: Src<V>, sem: Sem<V>): V {
    match s
    case Lit(x) => x
    case Un(op, a) => sem.un(op, Meaning(a, sem))
    case Bin(op, l, r) => sem.bin(op, Meaning(l, sem), Meaning(r, sem))
    case Group(a) => Meaning(a, sem)
    case Call(f, a) => Called(f, Meanings(a, sem), sem)
  }

  /** The value of a call; of one that cannot be made, the first argument. */
  function Called<V>(f: string, v: seq<V>, sem: Sem<V>): V
    requires v != []
  {
    if sem.known(f) && |v| == 2 then sem.call2(f, v[0], v[1])
    else if sem.known(f) && |v| == 1 then sem.call1(f, v[0])
    else v[0]
  }

  function Meanings<V>(a: Args<V>, sem: Sem<V>): (v: seq<V>)
    ensures |v| == ArgCount(a)
  {
    [Meaning(a.s, sem)] + if a.One? then [] else Meanings(a.rest, sem)
  }

  /** Every function called has a body. */
  predicate Resolved<V>(s: Src<V>, sem: Sem<V>) {
    match s
    case Lit(_) => true
    case Un(_, a) => Resolved(a, sem)
    case Bin(_, l, r) => Resolved(l, sem) && Resolved(r, sem)
    case Group(a) => Resolved(a, sem)
    case Call(f, a) => sem.known(f) && ArgsResolved(a, sem)
  }

  predicate ArgsResolved<V>(a: Args<V>, sem: Sem<V>) {
    Resolved(a.s, sem) && (a.More? ==> ArgsResolved(a.rest, sem))
  }

  /** How many values an element takes from the stack. */
  function Takes<V>(e: Item<V>): nat {
    match e
    case Value(_) => 0
    case Oper(op) => if Unary(op) then 1 else 2
    case Func(_, n) => n
  }

  /** The stack after one element. */
  function Apply<V>(stack: seq<V>, e: Item<V>, sem: Sem<V>): seq<V>
    requires |stack| >= Takes(e) && (e.Func? ==> e.nArgs >= 1)
  {
    var n := |stack|;
    match e
    case Value(x) => stack + [x]
    case Oper(op) =>
      if Unary(op) then stack[..n - 1] + [sem.un(op, stack[n - 1])]
      else stack[..n - 2] + [sem.bin(op, stack[n - 2], stack[n - 1])]
    case Func(f, k) =>
      if k == 2 && sem.known(f) then stack[..n - 2] + [sem.call2(f, stack[n - 2], stack[n - 1])]
      else if k == 1 && sem.known(f) then stack[..n - 1] + [sem.call1(f, stack[n - 1])]
      else stack[..n - (k - 1)]
  }

  /** Evaluation never takes a value that is not there, starting with n values. */
  predicate Safe<V>(items: seq<Item<V>>, n: int) {
    items == [] ||
    (var e := items[0];
     n >= Takes(e) && (e.Func? ==> e.nArgs >= 1) && Safe(items[1..], n + Net(e)))
  }

  function Exec<V>(items: seq<Item<V>>, stack: seq<V>, sem: Sem<V>): seq<V>
    requires Safe(items, |stack|)
  {
    if items == [] then stack else Exec(items[1..], Apply(stack, items[0], sem), sem)
  }

  /** `ke_eval`: the value at the bottom of the stack, and whether a function without a body was
      met. The source's callers only have expressions that its parser has accepted. */
  method Eval<V>(items: seq<Item<V>>, sem: Sem<V>) returns (v: V, unresolved: bool)
    requires items != [] && Safe(items, 0)
    ensures Exec(items, [], sem) != [] && v == Exec(items, [], sem)[0]
    ensures unresolved <==> exists i :: 0 <= i < |items| && items[i].Func? && !sem.known(items[i].f)
  {
    unresolved := false;
    for i := 0 to |items|
      invariant unresolved <==> exists k :: 0 <= k < i && items[k].Func? && !sem.known(items[k].f)
    {
      if items[i].Func? && !sem.known(items[i].f) { unresolved := true; }
    }
    var stack: seq<V> := [];
    assert items[0..] == items;
    hide *;
    for i := 0 to |items|
      invariant Safe(items[i..], |stack|) && Exec(items[i..], stack, sem) == Exec(items, [], sem)
      invariant i > 0 ==> stack != []
    {
      ExecNext(items, i, stack, sem);
      stack := EvalOne(stack, items[i], sem);
    }
    ExecDone(items, stack, sem);
    v := stack[0];
  }

  /** The body of the evaluation loop. */
  method EvalOne<V>(stack0: seq<V>, e: Item<V>, sem: Sem<V>) returns (stack: seq<V>)
    requires |stack0| >= Takes(e) && (e.Func? ==> e.nArgs >= 1)
    ensures stack == Apply(stack0, e, sem)
  {
    stack := stack0;
    var top := |stack|;
    match e {
      case Value(x) => stack := stack + [x];
      case Oper(op) =>
        if Unary(op) { stack := stack[top - 1 := sem.un(op, stack[top - 1])]; }
        else { stack := stack[..top - 1][top - 2 := sem.bin(op, stack[top - 2], stack[top - 1])]; }
      case Func(f, k) =>
        if k == 2 && sem.known(f) { stack := stack[..top - 1][top - 2 := sem.call2(f, stack[top - 2], stack[top - 1])]; }
        else if k == 1 && sem.known(f) { stack := stack[top - 1 := sem.call1(f, stack[top - 1])]; }
        else { stack := stack[..top - (k - 1)]; }
    }
  }

  lemma ExecNext<V>(items: seq<Item<V>>, i: nat, stack: seq<V>, sem: Sem<V>)
    requires i < |items| && Safe(items[i..], |stack|)
    ensures var e := items[i];
            && |stack| >= Takes(e) && (e.Func? ==> e.nArgs >= 1)
            && Safe(items[i + 1..], |Apply(stack, e, sem)|)
            && Exec(items[i..], stack, sem) == Exec(items[i + 1..], Apply(stack, e, sem), sem)
            && Apply(stack, e, sem) != []
  {
    assert items[i..][0] == items[i] && items[i..][1..] == items[i + 1..];
  }

  lemma ExecDone<V>(items: seq<Item<V>>, stack: seq<V>, sem: Sem<V>)
    ensures var n := |items|; Safe(items[n..], |stack|) && Exec(items[n..], stack, sem) == stack
  {
  }

  lemma {:induction false} ExecAppend<V>(a: seq<Item<V>>, b: seq<Item<V>>, stack: seq<V>, stack': seq<V>, sem: Sem<V>)
    requires Safe(a, |stack|) && Exec(a, stack, sem) == stack' && Safe(b, |stack'|)
    ensures Safe(a + b, |stack|) && Exec(a + b, stack, sem) == Exec(b, stack', sem)
  {
    if a == [] {
      assert a + b == b;
    } else {
      assert (a + b)[1..] == a[1..] + b;
      ExecAppend(a[1..], b, Apply(stack, a[0], sem), stack', sem);
    }
  }

  lemma ExecOne<V>(e: Item<V>, stack: seq<V>, sem: Sem<V>)
    requires |stack| >= Takes(e) && (e.Func? ==> e.nArgs >= 1)
    ensures Safe([e], |stack|) && Exec([e], stack, sem) == Apply(stack, e, sem)
  {
    var items := [e];
    assert items[1..] == [];
  }

  /** Evaluating the post-order of a tree pushes the value of the tree. */
  lemma {:induction false} ExecPost<V>(s: Src<V>, stack: seq<V>, sem: Sem<V>)
    requires Kinds(s)
    ensures Safe(Post(s), |stack|) && Exec(Post(s), stack, sem) == stack + [Meaning(s, sem)]
  {
    match s
    case Lit(x) => ExecOne(Value(x), stack, sem);
    case Un(op, a) =>
      ExecPost(a, stack, sem);
      ExecOne(Oper(op), stack + [Meaning(a, sem)], sem);
      ExecAppend(Post(a), [Oper(op)], stack, stack + [Meaning(a, sem)], sem);
    case Bin(op, l, r) =>
      var x, y := Meaning(l, sem), Meaning(r, sem);
      ExecPost(l, stack, sem);
      ExecPost(r, stack + [x], sem);
      ExecAppend(Post(l), Post(r), stack, stack + [x], sem);
      assert (stack + [x] + [y])[..|stack|] == stack;
      ExecOne(Oper(op), stack + [x] + [y], sem);
      ExecAppend(Post(l) + Post(r), [Oper(op)], stack, stack + [x] + [y], sem);
    case Group(a) => ExecPost(a, stack, sem);
    case Call(f, a) => ExecCall(f, a, stack, sem);
  }

  lemma {:induction false} ExecCall<V>(f: string, a: Args<V>, stack: seq<V>, sem: Sem<V>)
    requires ArgsKinds(a)
    ensures Safe(Post(Call(f, a)), |stack|)
    ensures Exec(Post(Call(f, a)), stack, sem) == stack + [Meaning(Call(f, a), sem)]
    decreases a, 1
  {
    var v := Meanings(a, sem);
    var e: Item<V> := Func(f, ArgCount(a));
    ApplyCall(f, stack, v, sem);
    assert Post(Call(f, a)) == ArgPost(a) + [e];
    assert Takes(e) == |v| && e.nArgs >= 1;
    assert Meaning(Call(f, a), sem) == Called(f, v, sem);
    hide *;
    ExecArgs(a, stack, sem);
    ExecOne(e, stack + v, sem);
    ExecAppend(ArgPost(a), [e], stack, stack + v, sem);
  }

  lemma ApplyCall<V>(f: string, stack: seq<V>, v: seq<V>, sem: Sem<V>)
    requires v != []
    ensures Apply(stack + v, Func(f, |v|), sem) == stack + [Called(f, v, sem)]
  {
    assert (stack + v)[..|stack|] == stack;
    assert (stack + v)[..|stack| + 1] == stack + [v[0]];
  }

  lemma {:induction false} ExecArgs<V>(a: Args<V>, stack: seq<V>, sem: Sem<V>)
    requires ArgsKinds(a)
    ensures Safe(ArgPost(a), |stack|) && Exec(ArgPost(a), stack, sem) == stack + Meanings(a, sem)
    decreases a, 0
  {
    ExecPost(a.s, stack, sem);
    if a.More? {
      var x := Meaning(a.s, sem);
      assert Meanings(a, sem) == [x] + Meanings(a.rest, sem);
      ExecArgs(a.rest, stack + [x], sem);
      hide Exec, Safe, Meaning, Meanings, Kinds, Post;
      ExecAppend(Post(a.s), ArgPost(a.rest), stack, stack + [x], sem);
      Assoc(stack, [x], Meanings(a.rest, sem));
    }
  }

  predicate AllKnown<V>(items: seq<Item<V>>, sem: Sem<V>) {
    forall i :: 0 <= i < |items| ==> items[i].Func? ==> sem.known(items[i].f)
  }

  lemma AllKnownAppend<V>(a: seq<Item<V>>, b: seq<Item<V>>, sem: Sem<V>)
    ensures AllKnown(a + b, sem) <==> AllKnown(a, sem) && AllKnown(b, sem)
  {
    assert forall i :: 0 <= i < |a| ==> a[i] == (a + b)[i];
    assert forall i :: 0 <= i < |b| ==> b[i] == (a + b)[|a| + i];
  }

  lemma {:induction false} ResolvedPost<V>(s: Src<V>, sem: Sem<V>)
    ensures AllKnown(Post(s), sem) <==> Resolved(s, sem)
  {
    match s
    case Lit(_) =>
    case Un(op, a) => ResolvedPost(a, sem); AllKnownAppend(Post(a), [Oper(op)], sem);
    case Bin(op, l, r) =>
      ResolvedPost(l, sem);
      ResolvedPost(r, sem);
      AllKnownAppend(Post(l), Post(r), sem);
      AllKnownAppend(Post(l) + Post(r), [Oper(op)], sem);
    case Group(a) => ResolvedPost(a, sem);
    case Call(f, a) =>
      ResolvedArgs(a, sem);
      AllKnownAppend(ArgPost(a), [Func(f, ArgCount(a))], sem);
      var last: seq<Item<V>> := [Func(f, ArgCount(a))];
      assert last[0].Func?;
  }

  lemma {:induction false} ResolvedArgs<V>(a: Args<V>, sem: Sem<V>)
    ensures AllKnown(ArgPost(a), sem) <==> ArgsResolved(a, sem)
  {
    ResolvedPost(a.s, sem);
    if a.More? {
      ResolvedArgs(a.rest, sem);
      AllKnownAppend(Post(a.s), ArgPost(a.rest), sem);
    }
  }

  /** The compiler preserves meaning: the minimally parenthesised text of a tree is parsed to a
      program that leaves exactly the value of the tree on the stack, provided that no argument
      after a comma begins with a sign; otherwise the parser reports an error. */
  lemma CompilerCorrect<V>(s: Src<V>, sem: Sem<V>)
    requires Kinds(s)
    ensures Clean(s) ==>
              var p := Parse(Tokens(Minimal(s)));
              && p.Ok? && p.value == Post(s) && Safe(p.value, 0) && Exec(p.value, [], sem) == [Meaning(s, sem)]
              && (AllKnown(p.value, sem) <==> Resolved(s, sem))
    ensures !Clean(s) ==> Parse(Tokens(Minimal(s))).Err?
  {
    MinimalSame(s);
    ParseCorrect(Minimal(s));
    var empty: seq<V> := [];
    ExecPost(s, empty, sem);
    ResolvedPost(s, sem);
  }
}
