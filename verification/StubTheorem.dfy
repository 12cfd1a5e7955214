/** Which single-statement bodies count as a stub: an exact answer for every printed definition. */
module StubTheorem {
  import opened Sorting
  import opened DumpText
  import opened StubDump
  import opened StubVerdict

  const KIND := Field("kind", Str("", '\'', [Plain('u')]))

  /** `Constant` prints its value, and `kind='u'` after it for a u-prefixed literal. */
  predicate ConstantShaped(t: Term) {
    t.Node? && t.name == "Constant" ==>
      && (|t.fields| == 1 || (|t.fields| == 2 && t.fields[1] == KIND))
      && t.fields[0].name == "value"
  }

  /** `Expr` has one field, its value. */
  predicate StatementShaped(t: Term) {
    && Dumped(t)
    && t.Node?
    && (t.name == "Expr" ==> |t.fields| == 1 && t.fields[0].name == "value" && ConstantShaped(t.fields[0].value))
  }

  predicate IsConstantStatement(t: Term) {
    && t.Node? && t.name == "Expr"
    && |t.fields| == 1 && t.fields[0].name == "value"
    && t.fields[0].value.Node? && t.fields[0].value.name == "Constant"
    && ConstantShaped(t.fields[0].value)
  }

  function ConstantValue(t: Term): Term
    requires IsConstantStatement(t)
  {
    t.fields[0].value.fields[0].value
  }

  predicate HasKind(t: Term)
    requires IsConstantStatement(t)
  {
    |t.fields[0].value.fields| == 2
  }

  const PASS_STATEMENT := Node("Pass", [])
  const ELLIPSIS_STATEMENT := Node("Expr", [Field("value", Node("Constant", [Field("value", Atom("Ellipsis"))]))])

  /** A bare string statement whose repr uses the given quote. */
  predicate IsDocstring(t: Term, quote: char) {
    IsConstantStatement(t) && ConstantValue(t).Str? && ConstantValue(t).prefix == "" && ConstantValue(t).quote == quote
  }

  predicate Recognised(t: Term) {
    || t == PASS_STATEMENT
    || t == ELLIPSIS_STATEMENT
    || IsDocstring(t, '\'')
    || (IsDocstring(t, '"') && !HasKind(t))
  }

  // ---- reading a printed statement back

  predicate NoParen(s: string) {
    forall i :: 0 <= i < |s| ==> s[i] != '('
  }

  lemma FirstParen(a: string, x: string)
    requires NoParen(a)
    ensures (a + ("(" + x))[|a|] == '(' && forall i :: 0 <= i < |a| ==> (a + ("(" + x))[i] != '('
  {
  }

  lemma SplitAtParen(a: string, x: string, b: string, y: string)
    requires NoParen(a) && NoParen(b)
    requires a + ("(" + x) == b + ("(" + y)
    ensures a == b && x == y
  {
    var s := a + ("(" + x);
    FirstParen(a, x);
    FirstParen(b, y);
    assert a == s[..|a|] && b == s[..|b|];
    assert ("(" + x)[1..] == x && ("(" + y)[1..] == y;
    assert s[|a|..] == "(" + x && s[|b|..] == "(" + y;
  }

  /** How each kind of term opens. */
  lemma Openings(t: Term)
    requires Dumped(t)
    ensures Render(t) != []
    ensures t.Items? ==> Render(t)[0] == '['
    ensures t.Str? ==> if t.prefix == "" then Render(t)[0] == t.quote
                       else Render(t)[0] == 'b' && |Render(t)| > 1 && Render(t)[1] == t.quote
    ensures t.Atom? ==> forall i :: 0 <= i < |Render(t)| ==> Inert(Render(t)[i])
    ensures t.Node? ==> Inert(Render(t)[0]) && |t.name| < |Render(t)| && Render(t)[|t.name|] == '('
  {
    if t.Node? { assert Inert(t.name[0]); }
  }

  lemma FieldsPrintSomething(fields: seq<Field>)
    requires fields != []
    ensures RenderFields(fields) != []
  {
    assert |RenderField(fields[0])| >= 1;
  }

  lemma PeelNode(t: Term, after: string, head: string, y: string)
    requires Dumped(t) && t.Node? && NoParen(head)
    requires Render(t) + after == head + ("(" + y)
    ensures t.name == head && RenderFields(t.fields) + (")" + after) == y
  {
    assert forall i :: 0 <= i < |t.name| ==> Inert(t.name[i]);
    assert Render(t) + after == t.name + ("(" + (RenderFields(t.fields) + (")" + after)));
    SplitAtParen(t.name, RenderFields(t.fields) + (")" + after), head, y);
  }

  /** Text that opens with a name and a parenthesis, followed by nothing but ")", is a node. */
  lemma OnlyNodesOpen(t: Term, after: string, head: string, y: string)
    requires Dumped(t) && InertText(head) && |head| >= 2 && NoParen(head)
    requires Render(t) + after == head + ("(" + y)
    requires forall i :: 0 <= i < |after| ==> after[i] == ')'
    ensures t.Node?
  {
    var s := Render(t) + after;
    Openings(t);
    assert s[0] == head[0] && s[1] == head[1] && s[|head|] == '(';
    assert Inert(head[0]) && Inert(head[1]);
    assert forall i :: 0 <= i < |s| ==> s[i] == if i < |Render(t)| then Render(t)[i] else after[i - |Render(t)|];
  }

  lemma DropPrefix(p: string, a: string, b: string)
    requires p + a == p + b
    ensures a == b
  {
    assert (p + a)[|p|..] == a && (p + b)[|p|..] == b;
  }

  lemma {:induction false} ReadExpr(t: Term, y: string)
    requires StatementShaped(t) && Render(t) == "Expr(value=" + y
    ensures t.name == "Expr" && |t.fields| == 1 && Dumped(t.fields[0].value)
    ensures ConstantShaped(t.fields[0].value)
    ensures Render(t.fields[0].value) + ")" == y
  {
    assert Render(t) + "" == "Expr" + ("(" + ("value=" + y));
    PeelNode(t, "", "Expr", "value=" + y);
    assert DumpedFields(t.fields);
    var v := Render(t.fields[0].value);
    assert RenderFields(t.fields) + (")" + "") == "value=" + (v + ")");
    DropPrefix("value=", v + ")", y);
  }

  /** A printed statement that opens like a constant expression is one. */
  lemma {:induction false} ReadConstant(t: Term, y: string)
    requires StatementShaped(t) && Render(t) == EXPR_CONSTANT + y
    ensures IsConstantStatement(t)
    ensures y == Render(ConstantValue(t)) + ((if HasKind(t) then ", " + RenderField(KIND) else "") + "))")
  {
    var inner := "Constant" + ("(" + ("value=" + y));
    assert EXPR_CONSTANT + y == "Expr(value=" + inner;
    ReadExpr(t, inner);
    var v := t.fields[0].value;
    OnlyNodesOpen(v, ")", "Constant", "value=" + y);
    PeelNode(v, ")", "Constant", "value=" + y);
    ReadConstantFields(v, y);
  }

  lemma ReadConstantFields(v: Term, y: string)
    requires v.Node? && v.name == "Constant" && ConstantShaped(v)
    requires RenderFields(v.fields) + (")" + ")") == "value=" + y
    ensures y == Render(v.fields[0].value) + ((if |v.fields| == 2 then ", " + RenderField(KIND) else "") + "))")
  {
    var w := v.fields[0].value;
    assert RenderField(v.fields[0]) == "value=" + Render(w);
    if |v.fields| == 2 {
      assert RenderFields(v.fields[1..]) == RenderField(KIND);
      assert RenderFields(v.fields) == "value=" + Render(w) + ", " + RenderField(KIND);
      var k := ", " + RenderField(KIND) + "))";
      assert RenderFields(v.fields) + (")" + ")") == "value=" + (Render(w) + k);
      DropPrefix("value=", Render(w) + k, y);
    } else {
      assert RenderFields(v.fields) + (")" + ")") == "value=" + (Render(w) + "))");
      DropPrefix("value=", Render(w) + "))", y);
      assert "" + "))" == "))";
    }
  }

  lemma RegroupInner(w: string, k: string)
    ensures "Constant" + "(" + ("value=" + w + k) + ")" == "Constant(value=" + (w + (k + ")"))
  {
    Reassociate("value=", w, k);
    Reassociate("value=" + w, k, ")");
    Reassociate("value=", w, k + ")");
    assert "Constant(value=" == "Constant" + "(" + "value=";
  }

  lemma RegroupConstant(w: string, k: string)
    ensures "Expr" + "(" + ("value" + "=" + ("Constant" + "(" + ("value=" + w + k) + ")")) + ")"
         == EXPR_CONSTANT + (w + (k + "))"))
  {
    RegroupInner(w, k);
    var x := w + (k + ")");
    assert "value" + "=" == "value=";
    RegroupOuter(x);
    Reassociate(w, k + ")", ")");
    Reassociate(k, ")", ")");
    assert ")" + ")" == "))";
  }

  lemma RegroupOuter(x: string)
    ensures "Expr" + "(" + ("value=" + ("Constant(value=" + x)) + ")" == EXPR_CONSTANT + (x + ")")
  {
    Reassociate("value=", "Constant(value=", x);
    Reassociate("Expr" + "(", "value=" + "Constant(value=" + x, ")");
    Reassociate("value=" + "Constant(value=", x, ")");
    Reassociate("Expr" + "(", "value=" + "Constant(value=", x + ")");
    assert "Expr" + "(" + ("value=" + "Constant(value=") == EXPR_CONSTANT;
  }

  lemma PrintConstant(t: Term)
    requires StatementShaped(t) && IsConstantStatement(t)
    ensures Render(t) == EXPR_CONSTANT
      + (Render(ConstantValue(t)) + ((if HasKind(t) then ", " + RenderField(KIND) else "") + "))"))
  {
    var v := t.fields[0].value;
    var w := ConstantValue(t);
    var k := if HasKind(t) then ", " + RenderField(KIND) else "";
    assert RenderField(v.fields[0]) == "value=" + Render(w);
    if HasKind(t) { assert RenderFields(v.fields[1..]) == RenderField(KIND); }
    assert RenderFields(v.fields) == "value=" + Render(w) + k;
    assert RenderFields(t.fields) == "value" + "=" + Render(v);
    assert Render(v) == "Constant" + "(" + ("value=" + Render(w) + k) + ")";
    assert Render(t) == "Expr" + "(" + ("value" + "=" + ("Constant" + "(" + ("value=" + Render(w) + k) + ")")) + ")";
    RegroupConstant(Render(w), k);
  }

  lemma KindText()
    ensures ", " + RenderField(KIND) == ", kind='u'"
  {
    assert RenderUnits([Plain('u')]) == "u" + RenderUnits([]) == "u";
    assert Render(KIND.value) == "" + ['\''] + "u" + ['\''];
    assert RenderField(KIND) == "kind" + "=" + "'u'";
  }

  // ---- the three accepted shapes

  lemma PassIff(t: Term)
    requires StatementShaped(t)
    ensures Render(t) == PASS <==> t == PASS_STATEMENT
  {
    if Render(t) == PASS {
      assert Render(t) + "" == "Pass" + ("(" + ")");
      PeelNode(t, "", "Pass", ")");
      assert RenderFields(t.fields) + (")" + "") == ")";
      assert |RenderFields(t.fields)| == 0;
      if t.fields != [] { FieldsPrintSomething(t.fields); }
    }
    assert Render(PASS_STATEMENT) == PASS;
  }

  lemma ShortText(w: Term)
    requires Dumped(w)
    ensures Render(w) == "Ellipsis" <==> w == Atom("Ellipsis")
  {
    Openings(w);
    assert forall i :: 0 <= i < |"Ellipsis"| ==> "Ellipsis"[i] != '(' && !IsQuote("Ellipsis"[i]);
  }

  const ELLIPSIS_CONSTANT := Node("Constant", [Field("value", Atom("Ellipsis"))])

  lemma EllipsisDumped()
    ensures Dumped(ELLIPSIS_CONSTANT)
  {
    LettersInert("Ellipsis");
    LettersInert("value");
    LettersInert("Constant");
    DumpedOne(Field("value", Atom("Ellipsis")));
  }

  lemma EllipsisShaped()
    ensures StatementShaped(ELLIPSIS_STATEMENT) && IsConstantStatement(ELLIPSIS_STATEMENT)
  {
    EllipsisDumped();
    LettersInert("value");
    LettersInert("Expr");
    DumpedOne(Field("value", ELLIPSIS_CONSTANT));
  }

  lemma EllipsisPrinted()
    ensures Render(ELLIPSIS_STATEMENT) == ELLIPSIS
  {
    EllipsisShaped();
    PrintConstant(ELLIPSIS_STATEMENT);
    assert "Ellipsis" + ("" + "))") == "Ellipsis))";
  }

  lemma EllipsisRead(t: Term)
    requires StatementShaped(t) && Render(t) == ELLIPSIS
    ensures t == ELLIPSIS_STATEMENT
  {
    KindText();
    var y := "Ellipsis))";
    ReadConstant(t, y);
    var w := ConstantValue(t);
    var text := Render(w);
    DumpedConstant(t);
    var k := if HasKind(t) then ", kind='u'" else "";
    assert y == text + (k + "))");
    assert |y| == |text| + |k| + 2;
    assert text == y[..|text|];
    assert y[..8] == "Ellipsis";
    ShortText(w);
    assert t.fields[0].value.fields == [Field("value", Atom("Ellipsis"))];
    assert t.fields == [Field("value", t.fields[0].value)];
  }

  lemma EllipsisIff(t: Term)
    requires StatementShaped(t)
    ensures Render(t) == ELLIPSIS <==> t == ELLIPSIS_STATEMENT
  {
    if Render(t) == ELLIPSIS { EllipsisRead(t); }
    EllipsisPrinted();
  }

  lemma QuoteOpensStr(w: Term, tail: string, quote: char)
    requires Dumped(w) && IsQuote(quote) && Render(w) != [] && (Render(w) + tail)[0] == quote
    ensures w.Str? && w.prefix == "" && w.quote == quote
  {
    Openings(w);
    assert (Render(w) + tail)[0] == Render(w)[0];
  }

  lemma DocstringStart(t: Term, quote: char)
    requires StatementShaped(t) && IsQuote(quote)
    ensures (EXPR_CONSTANT + [quote]) <= Render(t) <==> IsDocstring(t, quote)
  {
    var start := EXPR_CONSTANT + [quote];
    if start <= Render(t) {
      var y := Render(t)[|EXPR_CONSTANT|..];
      assert Render(t) == EXPR_CONSTANT + y && y[0] == quote;
      ReadConstant(t, y);
      var w := ConstantValue(t);
      DumpedConstant(t);
      Openings(w);
      QuoteOpensStr(w, (if HasKind(t) then ", " + RenderField(KIND) else "") + "))", quote);
    }
    if IsDocstring(t, quote) {
      PrintConstant(t);
      var w := ConstantValue(t);
      assert Render(w) == [] + [quote] + RenderUnits(w.body) + [quote];
      assert Render(w)[0] == quote;
    }
  }

  lemma DumpedConstant(t: Term)
    requires StatementShaped(t) && IsConstantStatement(t)
    ensures Dumped(ConstantValue(t))
  {
    assert DumpedFields(t.fields) && Dumped(t.fields[0].value);
    assert DumpedFields(t.fields[0].value.fields);
  }

  lemma {:induction false} DocstringEnd(t: Term, quote: char, end: char)
    requires StatementShaped(t) && IsDocstring(t, quote)
    ensures EndsWith(Render(t), [end] + "))") <==> end == if HasKind(t) then '\'' else quote
  {
    KindText();
    PrintConstant(t);
    var w := ConstantValue(t);
    var r := Render(t);
    var before := if HasKind(t) then EXPR_CONSTANT + Render(w) + ", kind='u"
                  else EXPR_CONSTANT + ([quote] + RenderUnits(w.body));
    var last := if HasKind(t) then '\'' else quote;
    assert Render(w) == [] + [quote] + RenderUnits(w.body) + [quote];
    assert r == before + ([last] + "))");
    assert r[|r| - 3..] == [last] + "))";
    assert ([end] + "))")[0] == end && ([last] + "))")[0] == last;
  }

  /** What the shape tests accept, on any printed statement. */
  lemma ShapeIff(t: Term)
    requires StatementShaped(t)
    ensures (|| Render(t) == PASS || Render(t) == ELLIPSIS
             || (SINGLE_START <= Render(t) && EndsWith(Render(t), SINGLE_END))
             || (DOUBLE_START <= Render(t) && EndsWith(Render(t), DOUBLE_END))) <==> Recognised(t)
  {
    PassIff(t);
    EllipsisIff(t);
    assert SINGLE_END == ['\''] + "))" && DOUBLE_END == ['"'] + "))";
    DocstringStart(t, '\'');
    DocstringStart(t, '"');
    if IsDocstring(t, '\'') { DocstringEnd(t, '\'', '\''); }
    if IsDocstring(t, '"') { DocstringEnd(t, '"', '"'); }
  }

  /** The verdict on every printed definition, whatever its string literals contain: true exactly
      when the body is one statement that is `pass`, `...` or a bare string -- except a u-prefixed
      string whose repr needs double quotes. */
  lemma StubVerdictExact(name: string, pre: seq<Field>, stmts: seq<Term>, post: seq<Field>)
    requires DumpedDefinition(name, pre, stmts, post)
    requires forall i :: 0 <= i < |stmts| ==> StatementShaped(stmts[i])
    ensures TrivialStub(Render(Definition(name, pre, stmts, post))) <==> |stmts| == 1 && Recognised(stmts[0])
  {
    BodyIsRecovered(name, pre, stmts, post);
    CommaSeparatesStatements(stmts);
    if |stmts| == 1 {
      ShapeIff(stmts[0]);
    } else if stmts == [] {
      assert RenderItems(stmts) == [];
    }
  }

  /** The dump of `u"it's"` as a statement. */
  const U_VALUE := Field("value", Str("", '"', [Plain('i'), Plain('t'), Plain('\''), Plain('s')]))
  const U_CONSTANT := Node("Constant", [U_VALUE, KIND])
  const U_STATEMENT := Node("Expr", [Field("value", U_CONSTANT)])

  lemma UConstantDumped()
    ensures Dumped(U_CONSTANT)
  {
    LettersInert("kind");
    LettersInert("value");
    LettersInert("Constant");
    DumpedOne(KIND);
    assert [U_VALUE, KIND][1..] == [KIND];
    assert DumpedFields([U_VALUE, KIND]);
  }

  lemma UStatementShaped()
    ensures StatementShaped(U_STATEMENT) && IsDocstring(U_STATEMENT, '"') && HasKind(U_STATEMENT)
  {
    UConstantDumped();
    LettersInert("value");
    LettersInert("Expr");
    DumpedOne(Field("value", U_CONSTANT));
  }

  /** A definition whose whole body is `u"it's"`: the dump ends in `kind='u'))`, which the
      double-quote test does not accept, so this bare docstring is not taken for a stub. */
  lemma UPrefixedDocstringIsMissed(name: string, pre: seq<Field>, post: seq<Field>)
    requires DumpedDefinition(name, pre, [], post)
    ensures IsDocstring(U_STATEMENT, '"')
    ensures !TrivialStub(Render(Definition(name, pre, [U_STATEMENT], post)))
  {
    UStatementShaped();
    assert [U_STATEMENT][1..] == [];
    StubVerdictExact(name, pre, [U_STATEMENT], post);
  }
}
