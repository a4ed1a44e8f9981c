/** The abstract value an `lval` denotes, and the text `lval_show` prints for it. */
module Values {
  import opened Numbers

  /** One of the four `lval` variants with its payload; an S-expression owns an
      ordered sequence of child values. */
  datatype Value =
    | Number(num: Long)
    | Error(err: string)
    | Symbol(sym: string)
    | Sexpr(cell: seq<Value>)

  /** Strings joined with one space between neighbours and none after the last. */
  function Joined(parts: seq<string>): string
  {
    if |parts| == 0 then ""
    else if |parts| == 1 then parts[0]
    else parts[0] + " " + Joined(parts[1..])
  }

  /** What `lval_show` prints for a value. */
  function Render(v: Value): string
    decreases v, 1
  {
    match v
    case Number(n) => DecimalLiteral(n as int)
    case Error(m) => "Error: " + m
    case Symbol(s) => s
    case Sexpr(_) => "(" + Joined(Parts(v)) + ")"
  }

  /** The renders of an S-expression's children, in order. */
  function Parts(v: Value): (ps: seq<string>)
    requires v.Sexpr?
    ensures |ps| == |v.cell|
    decreases v, 0
  {
    seq(|v.cell|, i requires 0 <= i < |v.cell| => Render(v.cell[i]))
  }

  /** What `lval_print` prints: the render and a line break. */
  function RenderLine(v: Value): (s: string)
    ensures |s| > 0 && s[|s| - 1] == '\n' && s[..|s| - 1] == Render(v)
  {
    Render(v) + "\n"
  }

  /** Adding one string at the end of a join adds one separating space unless the
      join was empty: the left-to-right loop of `lval_expr_print`. */
  lemma {:induction false} JoinedSnoc(ps: seq<string>, p: string)
    ensures Joined(ps + [p]) == if ps == [] then p else Joined(ps) + " " + p
    decreases |ps|
  {
    if |ps| > 1 {
      JoinedSnoc(ps[1..], p);
      assert (ps + [p])[1..] == ps[1..] + [p];
    } else if |ps| == 1 {
      assert (ps + [p])[1..] == [p];
    }
  }

  /** The text `lval_expr_print` has emitted between the brackets after its loop has
      handled the first `i` children: each child's render, followed by a space when it
      is not the last child. */
  function Emitted(ps: seq<string>, i: nat): string
    requires i <= |ps|
  {
    Joined(ps[..i]) + (if 0 < i < |ps| then " " else "")
  }

  /** One more turn of the loop of `lval_expr_print`: after whatever `pre` was emitted,
      the next child's render, then a space unless that child is the last. */
  lemma EmittedStep(pre: string, ps: seq<string>, i: nat)
    requires i < |ps|
    ensures i != |ps| - 1 ==> pre + Emitted(ps, i + 1) == pre + Emitted(ps, i) + ps[i] + " "
    ensures i == |ps| - 1 ==> pre + Emitted(ps, i + 1) == pre + Emitted(ps, i) + ps[i]
  {
    assert ps[..i + 1] == ps[..i] + [ps[i]];
    JoinedSnoc(ps[..i], ps[i]);
  }

  /** Once every child is handled, no space trails the last one. */
  lemma EmittedAll(ps: seq<string>)
    ensures Emitted(ps, |ps|) == Joined(ps)
  {
    assert ps[..|ps|] == ps;
  }

  /** Splitting at every space: the inverse of Joined for words without spaces. */
  function Split(s: string): (ws: seq<string>)
    ensures |ws| > 0
  {
    if s == [] then [""]
    else if s[0] == ' ' then [""] + Split(s[1..])
    else var rest := Split(s[1..]); [[s[0]] + rest[0]] + rest[1..]
  }

  lemma {:induction false} SplitAfterWord(w: string, rest: string)
    requires ' ' !in w
    ensures Split(w + " " + rest) == [w] + Split(rest)
    decreases |w|
  {
    if w == [] {
      assert w + " " + rest == [' '] + rest;
      assert (w + " " + rest)[1..] == rest;
    } else {
      SplitAfterWord(w[1..], rest);
      assert (w + " " + rest)[1..] == w[1..] + " " + rest;
      assert [w[0]] + w[1..] == w;
    }
  }

  lemma {:induction false} SplitWord(w: string)
    requires ' ' !in w
    ensures Split(w) == [w]
    decreases |w|
  {
    if w != [] {
      SplitWord(w[1..]);
      assert [w[0]] + w[1..] == w;
    }
  }

  /** The separator is exactly one space: when no part contains a space, splitting
      the join at spaces gives back the parts, the empty ones included. */
  lemma {:induction false} SplitJoined(ps: seq<string>)
    requires |ps| > 0
    requires forall i :: 0 <= i < |ps| ==> ' ' !in ps[i]
    ensures Split(Joined(ps)) == ps
    decreases |ps|
  {
    if |ps| == 1 {
      SplitWord(ps[0]);
    } else {
      SplitJoined(ps[1..]);
      SplitAfterWord(ps[0], Joined(ps[1..]));
      assert [ps[0]] + ps[1..] == ps;
    }
  }

  /** Appending a child to an S-expression (`lval_expand`) changes its render by
      replacing the closing parenthesis with a space (none if it was empty), the
      child's render and a new closing parenthesis. */
  lemma RenderAppend(cs: seq<Value>, c: Value)
    ensures var before := Render(Sexpr(cs));
            Render(Sexpr(cs + [c])) ==
              before[..|before| - 1] + (if cs == [] then "" else " ") + Render(c) + ")"
  {
    var ps := Parts(Sexpr(cs));
    assert Parts(Sexpr(cs + [c])) == ps + [Render(c)];
    JoinedSnoc(ps, Render(c));
    var before := Render(Sexpr(cs));
    assert before[..|before| - 1] == "(" + Joined(ps);
  }
}
