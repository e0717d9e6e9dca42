/** The arithmetic expression parser and evaluator of `src/exec/expr_eval.rs`. */
module ExprParser {

  /** The words of an expression text. */
  datatype Token = Plus | Minus | Star | Slash | Open | Close | Word(text: string)

  /** Typed values are left abstract: what a token is worth and what an operator does. */
  datatype Semantics<!V> = Semantics(zero: V, word: Token -> V, apply: (Token, V, V) -> V)

  /** How the parser tells words apart. */
  function Lex(word: string): Token {
    if word == "+" then Plus
    else if word == "-" then Minus
    else if word == "*" then Star
    else if word == "/" then Slash
    else if word == "(" then Open
    else if word == ")" then Close
    else Word(word)
  }

  predicate Additive(t: Token) { t.Plus? || t.Minus? }

  predicate Multiplicative(t: Token) { t.Star? || t.Slash? }

  predicate AdditiveAt(tokens: seq<Token>, pos: nat) { pos < |tokens| && Additive(tokens[pos]) }

  predicate MultiplicativeAt(tokens: seq<Token>, pos: nat) { pos < |tokens| && Multiplicative(tokens[pos]) }

  // ---------------------------------------------------------------- what the parser computes
  // Each function returns a value and the position after it, never past the end.

  function Primary<V>(sem: Semantics<V>, tokens: seq<Token>, pos: nat): (r: (V, nat))
    requires pos <= |tokens|
    ensures pos <= r.1 <= |tokens|
    decreases |tokens| - pos, 0
  {
    if pos >= |tokens| then (sem.zero, pos)
    else if tokens[pos].Open? then
      var (v, p) := Sum(sem, tokens, pos + 1);
      (v, if p < |tokens| && tokens[p].Close? then p + 1 else p)
    else (sem.word(tokens[pos]), pos + 1)
  }

  function Product<V>(sem: Semantics<V>, tokens: seq<Token>, pos: nat): (r: (V, nat))
    requires pos <= |tokens|
    ensures pos <= r.1 <= |tokens|
    decreases |tokens| - pos, 2
  {
    var (v, p) := Primary(sem, tokens, pos);
    ProductRest(sem, tokens, p, v)
  }

  function ProductRest<V>(sem: Semantics<V>, tokens: seq<Token>, pos: nat, left: V): (r: (V, nat))
    requires pos <= |tokens|
    ensures pos <= r.1 <= |tokens|
    decreases |tokens| - pos, 1
  {
    if !MultiplicativeAt(tokens, pos) then (left, pos)
    else
      var (right, p) := Primary(sem, tokens, pos + 1);
      ProductRest(sem, tokens, p, sem.apply(tokens[pos], left, right))
  }

  function Sum<V>(sem: Semantics<V>, tokens: seq<Token>, pos: nat): (r: (V, nat))
    requires pos <= |tokens|
    ensures pos <= r.1 <= |tokens|
    decreases |tokens| - pos, 4
  {
    var (v, p) := Product(sem, tokens, pos);
    SumRest(sem, tokens, p, v)
  }

  function SumRest<V>(sem: Semantics<V>, tokens: seq<Token>, pos: nat, left: V): (r: (V, nat))
    requires pos <= |tokens|
    ensures pos <= r.1 <= |tokens|
    decreases |tokens| - pos, 3
  {
    if !AdditiveAt(tokens, pos) then (left, pos)
    else
      var (right, p) := Product(sem, tokens, pos + 1);
      SumRest(sem, tokens, p, sem.apply(tokens[pos], left, right))
  }

  /** The parser object; on every token list it terminates without reading past the end. */
  class Parser<V> {
    const sem: Semantics<V>
    const tokens: seq<Token>
    var pos: nat

    constructor (sem: Semantics<V>, tokens: seq<Token>)
      ensures this.sem == sem && this.tokens == tokens && pos == 0
    {
      this.sem := sem;
      this.tokens := tokens;
      pos := 0;
    }

    method ParseAdditive() returns (left: V)
      requires pos <= |tokens|
      modifies this
      ensures pos <= |tokens| && (left, pos) == Sum(sem, tokens, old(pos))
      decreases |tokens| - pos, 2
    {
      left := ParseMultiplicative();
      while true
        invariant old(pos) <= pos <= |tokens|
        invariant SumRest(sem, tokens, pos, left) == Sum(sem, tokens, old(pos))
        decreases |tokens| - pos
      {
        if pos >= |tokens| {
          break;
        }
        var op := tokens[pos];
        if !op.Plus? && !op.Minus? {
          break;
        }
        pos := pos + 1;
        var right := ParseMultiplicative();
        left := sem.apply(op, left, right);
      }
    }

    method ParseMultiplicative() returns (left: V)
      requires pos <= |tokens|
      modifies this
      ensures pos <= |tokens| && (left, pos) == Product(sem, tokens, old(pos))
      decreases |tokens| - pos, 1
    {
      left := ParsePrimary();
      while true
        invariant old(pos) <= pos <= |tokens|
        invariant ProductRest(sem, tokens, pos, left) == Product(sem, tokens, old(pos))
        decreases |tokens| - pos
      {
        if pos >= |tokens| {
          break;
        }
        var op := tokens[pos];
        if !op.Star? && !op.Slash? {
          break;
        }
        pos := pos + 1;
        var right := ParsePrimary();
        left := sem.apply(op, left, right);
      }
    }

    method ParsePrimary() returns (v: V)
      requires pos <= |tokens|
      modifies this
      ensures pos <= |tokens| && (v, pos) == Primary(sem, tokens, old(pos))
      decreases |tokens| - pos, 0
    {
      if pos >= |tokens| {
        return sem.zero;
      }
      var token := tokens[pos];
      if token.Open? {
        pos := pos + 1;
        v := ParseAdditive();
        if pos < |tokens| && tokens[pos].Close? {
          pos := pos + 1;
        }
        return v;
      }
      pos := pos + 1;
      return sem.word(token);
    }
  }

  // ---------------------------------------------------------------- trees and their printed form

  datatype Operator = Add | Subtract | Multiply | Divide

  /** How each operator is written. */
  function Symbol(op: Operator): Token {
    match op
    case Add => Plus
    case Subtract => Minus
    case Multiply => Star
    case Divide => Slash
  }

  /** How tightly it binds: 0 for sums, 1 for products. */
  function Tightness(op: Operator): nat {
    match op
    case Add => 0
    case Subtract => 0
    case Multiply => 1
    case Divide => 1
  }

  datatype Tree = Leaf(text: string) | Node(op: Operator, left: Tree, right: Tree)

  /** No leaf is written like an operator or a parenthesis. */
  predicate WellFormed(t: Tree) {
    match t
    case Leaf(text) => Lex(text).Word?
    case Node(_, l, r) => WellFormed(l) && WellFormed(r)
  }

  function Value<V>(sem: Semantics<V>, t: Tree): V {
    match t
    case Leaf(text) => sem.word(Word(text))
    case Node(op, l, r) => sem.apply(Symbol(op), Value(sem, l), Value(sem, r))
  }

  /** 2 for a leaf, 1 for a product, 0 for a sum. */
  function Level(t: Tree): nat { if t.Leaf? then 2 else Tightness(t.op) }

  /** Parentheses only where the tree binds less tightly than its place needs; operators associate left. */
  function Print(t: Tree, level: nat): (s: seq<Token>)
    ensures |s| > 0
    decreases t, if Level(t) < level then 1 else 0
  {
    if Level(t) < level then [Open] + Print(t, 0) + [Close]
    else match t
      case Leaf(text) => [Word(text)]
      case Node(op, l, r) => Print(l, Level(t)) + [Symbol(op)] + Print(r, Level(t) + 1)
  }

  function Spelling(op: Operator): string {
    match op
    case Add => "+"
    case Subtract => "-"
    case Multiply => "*"
    case Divide => "/"
  }

  /** The same as words. */
  function Written(t: Tree, level: nat): (s: seq<string>)
    decreases t, if Level(t) < level then 1 else 0
  {
    if Level(t) < level then ["("] + Written(t, 0) + [")"]
    else match t
      case Leaf(text) => [text]
      case Node(op, l, r) => Written(l, Level(t)) + [Spelling(op)] + Written(r, Level(t) + 1)
  }

  function Lexed(words: seq<string>): (tokens: seq<Token>)
    ensures |tokens| == |words| && forall i | 0 <= i < |words| :: tokens[i] == Lex(words[i])
  {
    seq(|words|, i requires 0 <= i < |words| => Lex(words[i]))
  }

  lemma LexSpelling(op: Operator)
    ensures Lex(Spelling(op)) == Symbol(op)
  {
  }

  lemma LexedAround(a: seq<string>, w: string, b: seq<string>)
    ensures Lexed(a + [w] + b) == Lexed(a) + [Lex(w)] + Lexed(b)
    ensures Lexed([w]) == [Lex(w)]
  {
  }

  lemma LexedParens(a: seq<string>)
    ensures Lexed(["("] + a + [")"]) == [Open] + Lexed(a) + [Close]
  {
    assert Lex("(") == Open && Lex(")") == Close;
  }

  /** The words of a printed tree are read as its tokens. */
  lemma {:induction false} LexedWritten(t: Tree, level: nat)
    requires WellFormed(t)
    ensures Lexed(Written(t, level)) == Print(t, level)
    decreases t, if Level(t) < level then 1 else 0
  {
    if Level(t) < level {
      LexedWritten(t, 0);
      LexedParens(Written(t, 0));
    } else if t.Node? {
      var l, r := Written(t.left, Level(t)), Written(t.right, Level(t) + 1);
      LexedWritten(t.left, Level(t));
      LexedWritten(t.right, Level(t) + 1);
      LexSpelling(t.op);
      LexedAround(l, Spelling(t.op), r);
    } else {
      LexedAround([], t.text, []);
    }
  }

  /** The printed tree stands in the tokens at `pos`. */
  ghost predicate Stands(tokens: seq<Token>, pos: nat, s: seq<Token>) {
    pos + |s| <= |tokens| && tokens[pos..pos + |s|] == s
  }

  lemma Split3(tokens: seq<Token>, pos: nat, a: seq<Token>, x: Token, b: seq<Token>)
    requires Stands(tokens, pos, a + [x] + b)
    ensures Stands(tokens, pos, a)
    ensures pos + |a| < |tokens| && tokens[pos + |a|] == x
    ensures Stands(tokens, pos + |a| + 1, b)
  {
    var s := a + [x] + b;
    assert tokens[pos..pos + |s|][|a|] == s[|a|];
    assert tokens[pos..pos + |a|] == tokens[pos..pos + |s|][..|a|];
    assert tokens[pos + |a| + 1..pos + |s|] == tokens[pos..pos + |s|][|a| + 1..];
  }

  lemma SplitParens(tokens: seq<Token>, pos: nat, b: seq<Token>)
    requires Stands(tokens, pos, [Open] + b + [Close])
    ensures tokens[pos] == Open
    ensures Stands(tokens, pos + 1, b)
    ensures pos + 1 + |b| < |tokens| && tokens[pos + 1 + |b|] == Close
  {
    assert [Open] + b + [Close] == [] + [Open] + (b + [Close]);
    Split3(tokens, pos, [], Open, b + [Close]);
    assert b + [Close] == b + [Close] + [];
    Split3(tokens, pos + 1, b, Close, []);
  }

  /** A printed operation falls into its left operand, its operator and its right operand. */
  lemma SplitNode(t: Tree, tokens: seq<Token>, pos: nat) returns (mid: nat, end: nat)
    requires t.Node? && Stands(tokens, pos, Print(t, Level(t)))
    ensures Stands(tokens, pos, Print(t.left, Level(t))) && mid == pos + |Print(t.left, Level(t))|
    ensures mid < |tokens| && tokens[mid] == Symbol(t.op)
    ensures Stands(tokens, mid + 1, Print(t.right, Level(t) + 1))
    ensures mid + 1 + |Print(t.right, Level(t) + 1)| == end == pos + |Print(t, Level(t))|
  {
    var l, r := Print(t.left, Level(t)), Print(t.right, Level(t) + 1);
    Split3(tokens, pos, l, Symbol(t.op), r);
    mid, end := pos + |l|, pos + |l| + 1 + |r|;
  }

  /** The symbol of an operator stands at `at`. */
  lemma SymbolAt(op: Operator, tokens: seq<Token>, at: nat)
    requires at < |tokens| && tokens[at] == Symbol(op)
    ensures AdditiveAt(tokens, at) <==> Tightness(op) == 0
    ensures MultiplicativeAt(tokens, at) <==> Tightness(op) == 1
  {
  }

  /** In operand position a printed tree is read back whole, whatever follows. */
  lemma {:induction false} ReadPrimary<V>(sem: Semantics<V>, t: Tree, tokens: seq<Token>, pos: nat)
    requires WellFormed(t) && Stands(tokens, pos, Print(t, 2))
    ensures Primary(sem, tokens, pos) == (Value(sem, t), pos + |Print(t, 2)|)
    decreases t, [2, 3, 1][Level(t)]
  {
    if t.Leaf? {
      assert tokens[pos] == tokens[pos..pos + 1][0];
    } else {
      SplitParens(tokens, pos, Print(t, 0));
      ReadSum(sem, t, tokens, pos + 1);
    }
  }

  /** A tree prints alike at two neighbouring levels unless it is an operation of the lower one. */
  lemma SamePrint(t: Tree, level: nat)
    requires Level(t) != level
    ensures Print(t, level) == Print(t, level + 1)
  {
  }

  lemma ProductStart<V>(sem: Semantics<V>, tokens: seq<Token>, pos: nat)
    requires pos <= |tokens|
    ensures var (v, p) := Primary(sem, tokens, pos); Product(sem, tokens, pos) == ProductRest(sem, tokens, p, v)
  {
  }

  /** One turn of the product loop. */
  lemma ProductStep<V>(sem: Semantics<V>, tokens: seq<Token>, at: nat, end: nat, left: V, right: V)
    requires at < end <= |tokens| && MultiplicativeAt(tokens, at)
    requires Primary(sem, tokens, at + 1) == (right, end)
    ensures ProductRest(sem, tokens, at, left) == ProductRest(sem, tokens, end, sem.apply(tokens[at], left, right))
  {
  }

  lemma MultiplyStep<V>(
    sem: Semantics<V>, op: Operator, tokens: seq<Token>, at: nat, end: nat, left: V, right: V)
    requires at < end <= |tokens| && tokens[at] == Symbol(op) && Tightness(op) == 1
    requires Primary(sem, tokens, at + 1) == (right, end)
    ensures ProductRest(sem, tokens, at, left) == ProductRest(sem, tokens, end, sem.apply(Symbol(op), left, right))
  {
    SymbolAt(op, tokens, at);
    ProductStep(sem, tokens, at, end, left, right);
  }

  /** In a product, reading a printed tree leaves the loop with its value, whatever follows. */
  lemma {:induction false} ReadProduct<V>(sem: Semantics<V>, t: Tree, tokens: seq<Token>, pos: nat)
    requires WellFormed(t) && Stands(tokens, pos, Print(t, 1))
    ensures Product(sem, tokens, pos) == ProductRest(sem, tokens, pos + |Print(t, 1)|, Value(sem, t))
    decreases t, [3, 1, 2][Level(t)]
  {
    if Level(t) == 1 {
      var mid, end := SplitNode(t, tokens, pos);
      ReadMultiplication(sem, t, tokens, pos, mid, end);
    } else {
      SamePrint(t, 1);
      ReadPrimary(sem, t, tokens, pos);
      ProductStart(sem, tokens, pos);
    }
  }

  lemma {:induction false} ReadMultiplication<V>(
    sem: Semantics<V>, t: Tree, tokens: seq<Token>, pos: nat, mid: nat, end: nat)
    requires WellFormed(t) && t.Node? && Level(t) == 1
    requires Stands(tokens, pos, Print(t.left, 1)) && mid == pos + |Print(t.left, 1)|
    requires mid < |tokens| && tokens[mid] == Symbol(t.op)
    requires Stands(tokens, mid + 1, Print(t.right, 2)) && end == mid + 1 + |Print(t.right, 2)|
    ensures Product(sem, tokens, pos) == ProductRest(sem, tokens, end, Value(sem, t))
    decreases t, 0
  {
    ReadProduct(sem, t.left, tokens, pos);
    ReadPrimary(sem, t.right, tokens, mid + 1);
    MultiplyStep(sem, t.op, tokens, mid, end, Value(sem, t.left), Value(sem, t.right));
  }

  lemma SumStart<V>(sem: Semantics<V>, tokens: seq<Token>, pos: nat, end: nat, v: V)
    requires pos <= end <= |tokens| && !MultiplicativeAt(tokens, end)
    requires Product(sem, tokens, pos) == ProductRest(sem, tokens, end, v)
    ensures Sum(sem, tokens, pos) == SumRest(sem, tokens, end, v)
  {
    assert ProductRest(sem, tokens, end, v) == (v, end);
  }

  /** One turn of the sum loop. */
  lemma SumStep<V>(sem: Semantics<V>, tokens: seq<Token>, at: nat, end: nat, left: V, right: V)
    requires at < end <= |tokens| && AdditiveAt(tokens, at) && !MultiplicativeAt(tokens, end)
    requires Product(sem, tokens, at + 1) == ProductRest(sem, tokens, end, right)
    ensures SumRest(sem, tokens, at, left) == SumRest(sem, tokens, end, sem.apply(tokens[at], left, right))
  {
    assert ProductRest(sem, tokens, end, right) == (right, end);
  }

  /** In a sum, the same, unless a multiplicative operator follows and claims the last operand. */
  lemma {:induction false} ReadSum<V>(sem: Semantics<V>, t: Tree, tokens: seq<Token>, pos: nat)
    requires WellFormed(t) && Stands(tokens, pos, Print(t, 0))
    requires !MultiplicativeAt(tokens, pos + |Print(t, 0)|)
    ensures Sum(sem, tokens, pos) == SumRest(sem, tokens, pos + |Print(t, 0)|, Value(sem, t))
    decreases t, [1, 2, 3][Level(t)]
  {
    if Level(t) == 0 {
      var mid, end := SplitNode(t, tokens, pos);
      ReadAddition(sem, t, tokens, pos, mid, end);
    } else {
      SamePrint(t, 0);
      ReadProduct(sem, t, tokens, pos);
      SumStart(sem, tokens, pos, pos + |Print(t, 0)|, Value(sem, t));
    }
  }

  lemma {:induction false} ReadAddition<V>(sem: Semantics<V>, t: Tree, tokens: seq<Token>, pos: nat, mid: nat, end: nat)
    requires WellFormed(t) && t.Node? && Level(t) == 0
    requires Stands(tokens, pos, Print(t.left, 0)) && mid == pos + |Print(t.left, 0)|
    requires mid < |tokens| && tokens[mid] == Symbol(t.op)
    requires Stands(tokens, mid + 1, Print(t.right, 1)) && end == mid + 1 + |Print(t.right, 1)|
    requires !MultiplicativeAt(tokens, end)
    ensures Sum(sem, tokens, pos) == SumRest(sem, tokens, end, Value(sem, t))
    decreases t, 0
  {
    SymbolAt(t.op, tokens, mid);
    ReadSum(sem, t.left, tokens, pos);
    ReadProduct(sem, t.right, tokens, mid + 1);
    SumStep(sem, tokens, mid, end, Value(sem, t.left), Value(sem, t.right));
  }

  // ---------------------------------------------------------------- eval_expr

  /** `eval_expr`: one token is looked up directly, anything longer is parsed. */
  method EvalExpr<V, B>(
    sem: Semantics<V>, asBits: V -> B, zero: B, lookup: Token -> B, tokens: seq<Token>) returns (r: B)
    ensures r == Evaluated(sem, asBits, zero, lookup, tokens)
  {
    if |tokens| == 0 {
      return zero;
    }
    if |tokens| == 1 {
      return lookup(tokens[0]);
    }
    var parser := new Parser(sem, tokens);
    var v := parser.ParseAdditive();
    return asBits(v);
  }

  function Evaluated<V, B>(sem: Semantics<V>, asBits: V -> B, zero: B, lookup: Token -> B, tokens: seq<Token>): B {
    if |tokens| == 0 then zero
    else if |tokens| == 1 then lookup(tokens[0])
    else asBits(Sum(sem, tokens, 0).0)
  }

  /**
   * The round trip: for every tree, every value of its leaves and every meaning of its operators, the
   * printed tree parses to its end and yields the tree's value.  `eval_expr` returns that value exactly
   * when the tree is not a single word or the two ways of reading that word agree.
   */
  lemma RoundTrip<V, B>(sem: Semantics<V>, asBits: V -> B, zero: B, lookup: Token -> B, t: Tree)
    requires WellFormed(t)
    ensures var tokens := Lexed(Written(t, 0));
            && Sum(sem, tokens, 0) == (Value(sem, t), |tokens|)
            && (Evaluated(sem, asBits, zero, lookup, tokens) == asBits(Value(sem, t))
                <==> (t.Leaf? ==> lookup(Word(t.text)) == asBits(sem.word(Word(t.text)))))
  {
    var s := Print(t, 0);
    LexedWritten(t, 0);
    assert s[0..|s|] == s;
    ReadSum(sem, t, s, 0);
  }

  lemma PrintOne(op: Operator, a: string, b: string, level: nat)
    requires level <= Tightness(op)
    ensures Print(Node(op, Leaf(a), Leaf(b)), level) == [Word(a)] + [Symbol(op)] + [Word(b)]
  {
    assert Print(Leaf(a), Tightness(op)) == [Word(a)] && Print(Leaf(b), Tightness(op) + 1) == [Word(b)];
  }

  /** Two operators in a row: a product binds before a sum, and otherwise they group to the left. */
  lemma TwoOperators<V>(sem: Semantics<V>, a: string, p: Operator, b: string, q: Operator, c: string)
    requires WellFormed(Leaf(a)) && WellFormed(Leaf(b)) && WellFormed(Leaf(c))
    ensures var (x, y, z) := (sem.word(Word(a)), sem.word(Word(b)), sem.word(Word(c)));
            Sum(sem, [Word(a)] + [Symbol(p)] + [Word(b)] + [Symbol(q)] + [Word(c)], 0).0
            == if (p.Add? || p.Subtract?) && (q.Multiply? || q.Divide?)
               then sem.apply(Symbol(p), x, sem.apply(Symbol(q), y, z))
               else sem.apply(Symbol(q), sem.apply(Symbol(p), x, y), z)
  {
    var s := [Word(a)] + [Symbol(p)] + [Word(b)] + [Symbol(q)] + [Word(c)];
    assert s[0..|s|] == s;
    if Tightness(p) < Tightness(q) {
      PrintOne(q, b, c, Tightness(p) + 1);
      var t := Node(p, Leaf(a), Node(q, Leaf(b), Leaf(c)));
      assert Value(sem, t.right) == sem.apply(Symbol(q), sem.word(Word(b)), sem.word(Word(c)));
      assert Print(t, 0) == [Word(a)] + [Symbol(p)] + ([Word(b)] + [Symbol(q)] + [Word(c)]) == s;
      ReadSum(sem, t, s, 0);
    } else {
      PrintOne(p, a, b, Tightness(q));
      var t := Node(q, Node(p, Leaf(a), Leaf(b)), Leaf(c));
      assert Value(sem, t.left) == sem.apply(Symbol(p), sem.word(Word(a)), sem.word(Word(b)));
      assert Print(t, 0) == [Word(a)] + [Symbol(p)] + [Word(b)] + [Symbol(q)] + [Word(c)] == s;
      ReadSum(sem, t, s, 0);
    }
  }
}
