/** `ast_read_num` and `ast_parse_node`: turning the parse tree the grammar library
    hands back into a tree of `lval` records. */
module Reader {
  import opened Numbers
  import opened Values
  import opened Lvals

  datatype Option<T> = None | Some(value: T)

  /** A node of the parse tree: a tag such as "expr|number|regex", its matched
      text, and its children in input order. */
  datatype Node = Node(tag: string, contents: string, children: seq<Node>)

  /** `sub` occurs in `s` starting at index `i`. */
  predicate OccursAt(s: string, sub: string, i: nat) {
    i + |sub| <= |s| && s[i..i + |sub|] == sub
  }

  /** `strstr(s, sub) != NULL`: a scan that tries every starting position in turn. */
  predicate Contains(s: string, sub: string)
    decreases |s|
  {
    |sub| <= |s| && (s[..|sub|] == sub || Contains(s[1..], sub))
  }

  lemma {:induction false} ContainsIffOccurs(s: string, sub: string)
    ensures Contains(s, sub) <==> exists i: nat :: OccursAt(s, sub, i)
    decreases |s|
  {
    if |sub| <= |s| && s[..|sub|] != sub {
      ContainsIffOccurs(s[1..], sub);
      if Contains(s[1..], sub) {
        var i: nat :| OccursAt(s[1..], sub, i);
        assert s[i + 1..i + 1 + |sub|] == s[1..][i..i + |sub|];
        assert OccursAt(s, sub, i + 1);
      }
      if i: nat :| OccursAt(s, sub, i) {
        assert i != 0;
        assert s[1..][i - 1..i - 1 + |sub|] == s[i..i + |sub|];
        assert OccursAt(s[1..], sub, i - 1);
      }
    } else if |sub| <= |s| {
      assert OccursAt(s, sub, 0);
    }
  }

  /** The tag tests that make a node a leaf, `number` taking precedence. */
  predicate IsNumberTag(tag: string) { Contains(tag, "number") }
  predicate IsSymTag(tag: string) { !IsNumberTag(tag) && Contains(tag, "sym") }
  predicate IsLeafTag(tag: string) { IsNumberTag(tag) || IsSymTag(tag) }

  /** Tags that yield an S-expression: the root `>` and any `sexpr` node. */
  predicate IsSexprTag(tag: string) {
    !IsLeafTag(tag) && (tag == ">" || Contains(tag, "sexpr"))
  }

  /** A node converts to a record rather than to NULL. */
  predicate Yields(t: Node) {
    IsLeafTag(t.tag) || IsSexprTag(t.tag)
  }

  /** A child the converter passes over: a bracket or an anchor of the grammar. */
  predicate Skipped(c: Node) {
    c.contents == "(" || c.contents == ")" || c.contents == "}" || c.contents == "{" ||
    c.tag == "regex"
  }

  /** The children the converter keeps, in their original order. */
  function Kept(cs: seq<Node>): (ks: seq<Node>)
    ensures |ks| <= |cs|
  {
    if cs == [] then []
    else (if Skipped(cs[0]) then [] else [cs[0]]) + Kept(cs[1..])
  }

  /** The trees this model converts. Two clauses exclude undefined behaviour in
      `ast_parse_node`: a node that matches no tag test has no kept child (it would be
      appended to a NULL record), and a kept child converts to a record (a NULL child
      would be dereferenced when the result is printed). The third clause, that number
      leaves hold text of the grammar's `number` rule, is a modelling restriction that
      rests on the grammar: `strtol` is defined on any text, and only its behaviour on
      `-?[0-9]+` is modelled here. */
  predicate WellFormed(t: Node)
    decreases t
  {
    if IsNumberTag(t.tag) then IsNumberText(t.contents)
    else if IsSymTag(t.tag) then true
    else
      (forall c :: c in t.children && !Skipped(c) ==> IsSexprTag(t.tag) && Yields(c) && WellFormed(c))
  }

  /** The value `ast_read_num` produces for number text: the Number it denotes, or
      the Error "Bad number" when it does not fit in a `long`. */
  function NumberOf(text: string): (v: Value)
    requires IsNumberText(text)
  {
    if InLongRange(TextValue(text)) then Number(TextValue(text) as Long) else Error("Bad number")
  }

  /** The value `ast_parse_node` builds for a tree, None for its NULL result. */
  function Convert(t: Node): (r: Option<Value>)
    requires WellFormed(t)
    ensures r.Some? <==> Yields(t)
    ensures r.Some? && r.value.Sexpr? <==> IsSexprTag(t.tag)
    decreases t, 1
  {
    if IsNumberTag(t.tag) then Some(NumberOf(t.contents))
    else if IsSymTag(t.tag) then Some(Symbol(t.contents))
    else if IsSexprTag(t.tag) then Some(Sexpr(ConvertPrefix(t, |t.children|)))
    else None
  }

  /** The children an S-expression node has once its loop has handled the first `n`
      children of `t`. */
  function ConvertPrefix(t: Node, n: nat): seq<Value>
    requires WellFormed(t) && IsSexprTag(t.tag) && n <= |t.children|
    decreases t, 0, n
  {
    if n == 0 then []
    else if Skipped(t.children[n - 1]) then ConvertPrefix(t, n - 1)
    else ConvertPrefix(t, n - 1) + [Convert(t.children[n - 1]).value]
  }

  /** What the loop of `ast_parse_node` relies on for a child it does not skip. */
  lemma KeptChild(t: Node, i: nat)
    requires WellFormed(t) && !IsLeafTag(t.tag) && i < |t.children| && !Skipped(t.children[i])
    ensures IsSexprTag(t.tag) && Yields(t.children[i]) && WellFormed(t.children[i])
    ensures ConvertPrefix(t, i + 1) == ConvertPrefix(t, i) + [Convert(t.children[i]).value]
  {
    assert t.children[i] in t.children;
  }

  /** `ast_read_num`. */
  method ReadNum(t: Node) returns (r: Lval)
    requires IsNumberText(t.contents)
    ensures r.Valid() && fresh(r.Repr) && r.value == NumberOf(t.contents)
  {
    var (x, erange) := Strtol(t.contents);
    if erange {
      r := new Lval.Err("Bad number");
    } else {
      r := new Lval.Num(x);
    }
  }

  /** `ast_parse_node`: a leaf for a number or symbol node, otherwise an S-expression
      (for the root and `sexpr` nodes) grown one kept child at a time, or NULL. */
  method ParseNode(t: Node) returns (x: Lval?)
    requires WellFormed(t)
    ensures x == null <==> Convert(t).None?
    ensures x != null ==> x.Valid() && fresh(x.Repr) && x.value == Convert(t).value
    decreases t, 1
  {
    if Contains(t.tag, "number") {
      x := ReadNum(t);
      return;
    }
    if Contains(t.tag, "sym") {
      x := new Lval.Sym(t.contents);
      return;
    }
    x := null;
    if t.tag == ">" {
      x := new Lval.Sexpr();
    }
    if Contains(t.tag, "sexpr") {
      x := new Lval.Sexpr();
    }
    for i := 0 to |t.children|
      invariant x == null <==> !IsSexprTag(t.tag)
      invariant x != null ==>
        x.Valid() && fresh(x.Repr) && x.kind == SexprKind && x.value == Sexpr(ConvertPrefix(t, i))
    {
      var c := t.children[i];
      if !Skipped(c) {
        KeptChild(t, i);
        ExpandParsed(x, c);
      }
    }
  }

  /** `x = lval_expand(x, ast_parse_node(c))`: converts a kept child and appends it. */
  method ExpandParsed(x: Lval, c: Node)
    requires x.Valid() && x.kind == SexprKind
    requires WellFormed(c) && Yields(c)
    modifies x
    ensures x.Valid() && x.kind == SexprKind && fresh(x.Repr - old(x.Repr))
    ensures x.value == Sexpr(old(x.value.cell) + [Convert(c).value])
    decreases c, 2
  {
    var child := ParseNode(c);
    x.Expand(child);
  }

  lemma {:induction false} KeptSnoc(cs: seq<Node>, c: Node)
    ensures Kept(cs + [c]) == Kept(cs) + (if Skipped(c) then [] else [c])
    decreases |cs|
  {
    if cs != [] {
      KeptSnoc(cs[1..], c);
      assert (cs + [c])[1..] == cs[1..] + [c];
    }
  }

  /** Kept holds exactly the children that are not skipped. */
  lemma {:induction false} KeptMembers(cs: seq<Node>)
    ensures forall c :: c in Kept(cs) <==> c in cs && !Skipped(c)
    decreases |cs|
  {
    if cs != [] {
      KeptMembers(cs[1..]);
      assert cs == [cs[0]] + cs[1..];
    }
  }

  /** Every node of `ks` converts to a record. */
  predicate AllYield(ks: seq<Node>) {
    forall k :: k in ks ==> WellFormed(k) && Yields(k)
  }

  /** The values of a run of nodes that all convert to a record, in order. */
  function ConvertAll(ks: seq<Node>): (vs: seq<Value>)
    requires AllYield(ks)
    ensures |vs| == |ks|
  {
    if ks == [] then [] else [Convert(ks[0]).value] + ConvertAll(ks[1..])
  }

  lemma {:induction false} ConvertAllSnoc(ks: seq<Node>, k: Node)
    requires AllYield(ks + [k])
    ensures AllYield(ks) && ConvertAll(ks + [k]) == ConvertAll(ks) + [Convert(k).value]
    decreases |ks|
  {
    assert forall j :: j in ks ==> j in ks + [k];
    if ks != [] {
      assert (ks + [k])[1..] == ks[1..] + [k];
      ConvertAllSnoc(ks[1..], k);
    }
  }

  /** The kept children among the first `n` children of a well-formed node all
      convert to a record. */
  lemma KeptYield(t: Node, n: nat)
    requires WellFormed(t) && !IsLeafTag(t.tag) && n <= |t.children|
    ensures AllYield(Kept(t.children[..n]))
  {
    KeptMembers(t.children[..n]);
    assert forall k :: k in t.children[..n] ==> k in t.children;
  }

  lemma {:induction false} ConvertPrefixKept(t: Node, n: nat)
    requires WellFormed(t) && IsSexprTag(t.tag) && n <= |t.children|
    ensures AllYield(Kept(t.children[..n]))
    ensures ConvertPrefix(t, n) == ConvertAll(Kept(t.children[..n]))
    decreases n
  {
    KeptYield(t, n);
    if n > 0 {
      ConvertPrefixKept(t, n - 1);
      var c := t.children[n - 1];
      assert t.children[..n] == t.children[..n - 1] + [c];
      KeptSnoc(t.children[..n - 1], c);
      var ks := Kept(t.children[..n - 1]);
      if !Skipped(c) {
        KeptChild(t, n - 1);
        assert Kept(t.children[..n]) == ks + [c];
        ConvertAllSnoc(ks, c);
        assert ConvertAll(ks + [c]) == ConvertAll(ks) + [Convert(c).value];
        assert ConvertPrefix(t, n) == ConvertPrefix(t, n - 1) + [Convert(c).value];
      } else {
        assert Kept(t.children[..n]) == ks;
      }
    }
  }

  /** The S-expression built for a root or `sexpr` node holds the conversions of the
      node's kept children, in their original left-to-right order: one child per kept
      child, and the empty S-expression when none is kept. */
  lemma ConvertKeepsOrder(t: Node)
    requires WellFormed(t) && IsSexprTag(t.tag)
    ensures AllYield(Kept(t.children))
    ensures Convert(t) == Some(Sexpr(ConvertAll(Kept(t.children))))
  {
    ConvertPrefixKept(t, |t.children|);
    assert t.children[..|t.children|] == t.children;
  }

  /** The number text `%li` prints is read back by `ast_read_num` as the same Number. */
  lemma ReadBackRender(n: Long)
    ensures IsNumberText(Render(Number(n))) && NumberOf(Render(Number(n))) == Number(n)
  {
    LiteralRoundTrip(n as int);
  }

  /** Canonical number text read by `ast_read_num` and shown by `lval_show` comes back
      unchanged when it fits in a `long`, and as "Error: Bad number" when it does not. */
  lemma RenderNumberOf(s: string)
    requires IsCanonical(s)
    ensures Render(NumberOf(s)) == if InLongRange(TextValue(s)) then s else "Error: Bad number"
  {
    TextRoundTrip(s);
  }

  /** A tag that names a rule between other rule names contains it. */
  lemma ContainsInfix(p: string, sub: string, q: string)
    ensures Contains(p + sub + q, sub)
  {
    var s := p + sub + q;
    assert s[|p|..|p| + |sub|] == sub;
    assert OccursAt(s, sub, |p|);
    ContainsIffOccurs(s, sub);
  }

  /** A parse tree for a line holding one number: the root `>`, the start anchor, the
      number (tagged "expr|number|regex"), and the end anchor. This shape is taken as
      given for the grammar library's output; it is not derived from the code modelled. */
  function OneNumberLine(text: string): Node {
    Node(">", "", [Node("regex", "", []), Node("expr|" + "number" + "|regex", text, []), Node("regex", "", [])])
  }

  lemma OneNumberLineConverts(text: string)
    requires IsCanonical(text) && InLongRange(TextValue(text))
    ensures WellFormed(OneNumberLine(text))
    ensures Convert(OneNumberLine(text)) == Some(Sexpr([Number(TextValue(text) as Long)]))
  {
    var t := OneNumberLine(text);
    var leaf := t.children[1];
    ContainsInfix("expr|", "number", "|regex");
    assert !Contains(">", "number") && !Contains(">", "sym");
    assert !Skipped(leaf) by {
      assert text[0] == '-' || IsDigit(text[0]);
    }
    assert Kept(t.children[2..]) == [];
    assert Kept(t.children[1..]) == [leaf] + Kept(t.children[1..][1..]);
    assert t.children[1..][1..] == t.children[2..];
    assert Kept(t.children) == [leaf];
    ConvertKeepsOrder(t);
    assert ConvertAll([leaf]) == [Number(TextValue(text) as Long)];
  }

  /** With no evaluator, the REPL echoes a line holding one canonical number inside
      the parentheses of the root S-expression. */
  lemma EchoOneNumber(text: string)
    requires IsCanonical(text) && InLongRange(TextValue(text))
    ensures WellFormed(OneNumberLine(text))
    ensures RenderLine(Convert(OneNumberLine(text)).value) == "(" + text + ")\n"
  {
    OneNumberLineConverts(text);
    TextRoundTrip(text);
    var v := Sexpr([Number(TextValue(text) as Long)]);
    assert Parts(v) == [text];
  }
}
