/** The heap `lval` of the REPL: a tagged record whose S-expression variant owns a
    growable array of child records, built up in place by `lval_expand` and printed
    by `lval_show`, `lval_expr_print` and `lval_print`. */
module Lvals {
  import opened Numbers
  import opened Values

  /** The `type` tag: LVAL_NUM, LVAL_ERR, LVAL_SYM or LVAL_SEXPR. */
  datatype Kind = NumKind | ErrKind | SymKind | SexprKind

  class Lval {
    var kind: Kind
    var num: Long
    var err: string
    var sym: string
    var count: int
    var cell: seq<Lval>

    // public view: the value this record denotes, and the records it owns
    ghost var value: Value
    ghost var Repr: set<object>

    /** The record and everything below it form a tree: each child is valid, owns
        its own records, and no two children (nor the parent) share any record;
        `value` is the abstract value of the whole tree. */
    ghost predicate Valid()
      reads this, Repr
      decreases Repr
    {
      this in Repr &&
      count == |cell| &&
      (forall i :: 0 <= i < |cell| ==>
         cell[i] in Repr && cell[i].Repr <= Repr && this !in cell[i].Repr && cell[i].Valid()) &&
      (forall i, j :: 0 <= i < j < |cell| ==> cell[i].Repr !! cell[j].Repr) &&
      match kind
      case NumKind => cell == [] && value == Number(num)
      case ErrKind => cell == [] && value == Error(err)
      case SymKind => cell == [] && value == Symbol(sym)
      case SexprKind =>
        value.Sexpr? && |value.cell| == |cell| &&
        forall i :: 0 <= i < |cell| ==> value.cell[i] == cell[i].value
    }

    /** `lval_num`: a Number holding the given integer unchanged. */
    constructor Num(input: Long)
      ensures Valid() && fresh(Repr)
      ensures kind == NumKind && num == input && value == Number(input)
    {
      kind, num, count, cell := NumKind, input, 0, [];
      value, Repr := Number(input), {this};
    }

    /** `lval_err`: an Error holding a copy of the message. */
    constructor Err(message: string)
      ensures Valid() && fresh(Repr)
      ensures kind == ErrKind && err == message && value == Error(message)
    {
      kind, err, count, cell := ErrKind, message, 0, [];
      value, Repr := Error(message), {this};
    }

    /** `lval_sym`: a Symbol holding a copy of the name. */
    constructor Sym(s: string)
      ensures Valid() && fresh(Repr)
      ensures kind == SymKind && sym == s && value == Symbol(s)
    {
      kind, sym, count, cell := SymKind, s, 0, [];
      value, Repr := Symbol(s), {this};
    }

    /** `lval_sexpr`: an S-expression with no children. */
    constructor Sexpr()
      ensures Valid() && fresh(Repr)
      ensures kind == SexprKind && count == 0 && cell == [] && value == Values.Sexpr([])
    {
      kind, count, cell := SexprKind, 0, [];
      value, Repr := Values.Sexpr([]), {this};
    }

    /** `lval_expand`: takes ownership of `child` as the new last element; the count
        grows by one and every earlier child stays where it was. */
    method Expand(child: Lval)
      requires Valid() && child.Valid() && kind == SexprKind
      requires Repr !! child.Repr
      modifies this
      ensures Valid() && kind == SexprKind
      ensures count == old(count) + 1
      ensures cell == old(cell) + [child] && cell[count - 1] == child
      ensures forall i :: 0 <= i < old(count) ==> cell[i] == old(cell[i])
      ensures value == Values.Sexpr(old(value.cell) + [child.value])
      ensures Repr == old(Repr) + child.Repr
    {
      count := count + 1;
      cell := cell + [child];
      value := Values.Sexpr(value.cell + [child.value]);
      Repr := Repr + child.Repr;
    }

    /** A child of a valid record is valid, owns strictly fewer records, and denotes
        the corresponding child value. */
    lemma ChildValid(i: int)
      requires Valid() && 0 <= i < count
      ensures cell[i].Valid() && cell[i].Repr < Repr
      ensures value.Sexpr? ==> value.cell[i] == cell[i].value
    {
    }

    /** `lval_show`: the text printed for this record. */
    method Show() returns (s: string)
      requires Valid()
      ensures s == Render(value)
      decreases Repr, 1
    {
      match kind
      case NumKind => s := DecimalLiteral(num as int);
      case ErrKind => s := "Error: " + err;
      case SymKind => s := sym;
      case SexprKind => s := ExprPrint('(', ')');
    }

    /** `lval_expr_print`: the opening character, each child's text followed by a
        space unless it is the last child, and the closing character. */
    method ExprPrint(open: char, close: char) returns (s: string)
      requires Valid() && kind == SexprKind
      ensures s == [open] + Joined(Parts(value)) + [close]
      decreases Repr, 0
    {
      ghost var ps := Parts(value);
      s := [open];
      for i := 0 to count
        invariant s == [open] + Emitted(ps, i)
      {
        ChildValid(i);
        var part := cell[i].Show();
        EmittedStep([open], ps, i);
        s := s + part;
        if i != count - 1 {
          s := s + " ";
        }
      }
      EmittedAll(ps);
      s := s + [close];
    }

    /** `lval_print`: the text of this record followed by a line break. */
    method Print() returns (s: string)
      requires Valid()
      ensures s == RenderLine(value)
    {
      s := Show();
      s := s + "\n";
    }
  }
}
