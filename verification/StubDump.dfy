/** `_is_trivial_stub_dump`: finds a definition's body list in its dump text by masking string
    literals and counting brackets. On the dump of any definition it recovers exactly that
    list, whatever the literals say. */
module StubDump {
  import opened Sorting
  import opened DumpText

  // ---- the mask of a printed term

  function Spaces(n: nat): string {
    if n == 0 then [] else [' '] + Spaces(n - 1)
  }

  /** A printed term with the contents of its string literals blanked. */
  function Masked(t: Term): string
    decreases t, 1
  {
    match t
    case Atom(text) => text
    case Str(prefix, quote, body) => prefix + [quote] + Spaces(|RenderUnits(body)|) + [quote]
    case Items(items) => "[" + MaskedItems(items) + "]"
    case Node(name, fields) => name + "(" + MaskedFields(fields) + ")"
  }

  function MaskedItems(items: seq<Term>): string
    decreases items, 0
  {
    if items == [] then []
    else if |items| == 1 then Masked(items[0])
    else Masked(items[0]) + ", " + MaskedItems(items[1..])
  }

  function MaskedField(f: Field): string
    decreases f, 0
  {
    f.name + "=" + Masked(f.value)
  }

  function MaskedFields(fields: seq<Field>): string
    decreases fields, 0
  {
    if fields == [] then []
    else if |fields| == 1 then MaskedField(fields[0])
    else MaskedField(fields[0]) + ", " + MaskedFields(fields[1..])
  }

  lemma {:induction false} MaskUnquoted(a: string, rest: string)
    requires forall i :: 0 <= i < |a| ==> !IsQuote(a[i])
    ensures Mask(a + rest) == a + Mask(rest)
  {
    if a == [] {
      assert a + rest == rest;
    } else {
      MaskUnquoted(a[1..], rest);
      assert (a + rest)[1..] == a[1..] + rest;
      assert a == [a[0]] + a[1..];
    }
  }

  lemma MaskInsideUnit(u: Unit, quote: char, after: string)
    requires IsQuote(quote) && UnitFits(quote, u)
    ensures MaskInside(RenderUnit(u) + after, quote) == Spaces(|RenderUnit(u)|) + MaskInside(after, quote)
  {
    match u
    case Plain(c) =>
      assert ([c] + after)[1..] == after;
      assert Spaces(1) == [' '];
    case Escape(c) =>
      assert (['\\', c] + after)[2..] == after;
      assert Spaces(2) == [' '] + Spaces(1);
      assert Spaces(2) == [' ', ' '];
  }

  lemma {:induction false} SpacesAppend(a: nat, b: nat)
    ensures Spaces(a + b) == Spaces(a) + Spaces(b)
  {
    if a == 0 {
    } else {
      SpacesAppend(a - 1, b);
    }
  }

  lemma {:induction false} MaskUnits(units: seq<Unit>, quote: char, rest: string)
    requires IsQuote(quote) && forall i :: 0 <= i < |units| ==> UnitFits(quote, units[i])
    ensures MaskInside(RenderUnits(units) + ([quote] + rest), quote)
         == Spaces(|RenderUnits(units)|) + ([quote] + Mask(rest))
  {
    if units == [] {
      assert [] + ([quote] + rest) == [quote] + rest;
      assert ([quote] + rest)[1..] == rest;
    } else {
      MaskUnits(units[1..], quote, rest);
      var head, tail := RenderUnit(units[0]), RenderUnits(units[1..]);
      var after := tail + ([quote] + rest);
      Reassociate(head, tail, [quote] + rest);
      MaskInsideUnit(units[0], quote, after);
      SpacesAppend(|head|, |tail|);
      Reassociate(Spaces(|head|), Spaces(|tail|), [quote] + Mask(rest));
    }
  }

  /** Unquoted text around a printed part: mask the part, keep the rest. */
  lemma MaskBetween(open: string, inner: string, maskedInner: string, close: string, rest: string)
    requires forall i :: 0 <= i < |open| ==> !IsQuote(open[i])
    requires forall i :: 0 <= i < |close| ==> !IsQuote(close[i])
    requires Mask(inner + (close + rest)) == maskedInner + Mask(close + rest)
    ensures Mask((open + inner + close) + rest) == (open + maskedInner + close) + Mask(rest)
  {
    Reassociate(open + inner, close, rest);
    Reassociate(open, inner, close + rest);
    MaskUnquoted(open, inner + (close + rest));
    MaskUnquoted(close, rest);
    Reassociate(open, maskedInner, close + Mask(rest));
    Reassociate(open + maskedInner, close, Mask(rest));
  }

  /** The same with a literal's own quotes around it. */
  lemma MaskQuoted(prefix: string, quote: char, units: string, blank: string, rest: string)
    requires IsQuote(quote) && forall i :: 0 <= i < |prefix| ==> !IsQuote(prefix[i])
    requires MaskInside(units + ([quote] + rest), quote) == blank + ([quote] + Mask(rest))
    ensures Mask((prefix + [quote] + units + [quote]) + rest) == (prefix + [quote] + blank + [quote]) + Mask(rest)
  {
    var tail := units + ([quote] + rest);
    Reassociate(prefix + [quote] + units, [quote], rest);
    Reassociate(prefix + [quote], units, [quote] + rest);
    Reassociate(prefix, [quote], tail);
    MaskUnquoted(prefix, [quote] + tail);
    assert ([quote] + tail)[1..] == tail;
    Reassociate(prefix, [quote], blank + ([quote] + Mask(rest)));
    Reassociate(prefix + [quote], blank, [quote] + Mask(rest));
    Reassociate(prefix + [quote] + blank, [quote], Mask(rest));
  }

  /** Masking printed text blanks exactly the literals. */
  lemma {:induction false} MaskRender(t: Term, rest: string)
    requires Dumped(t)
    ensures Mask(Render(t) + rest) == Masked(t) + Mask(rest)
    decreases t, 1
  {
    match t
    case Atom(text) => MaskUnquoted(text, rest);
    case Str(prefix, quote, body) =>
      MaskUnits(body, quote, rest);
      MaskQuoted(prefix, quote, RenderUnits(body), Spaces(|RenderUnits(body)|), rest);
    case Items(items) =>
      MaskRenderItems(items, "]" + rest);
      MaskBetween("[", RenderItems(items), MaskedItems(items), "]", rest);
    case Node(name, fields) =>
      MaskRenderFields(fields, ")" + rest);
      MaskBetween(name + "(", RenderFields(fields), MaskedFields(fields), ")", rest);
  }

  lemma {:induction false} MaskRenderItems(items: seq<Term>, rest: string)
    requires DumpedItems(items)
    ensures Mask(RenderItems(items) + rest) == MaskedItems(items) + Mask(rest)
    decreases items, 0
  {
    if items == [] {
      assert [] + rest == rest;
    } else if |items| == 1 {
      MaskRender(items[0], rest);
    } else {
      var later := RenderItems(items[1..]) + rest;
      MaskRender(items[0], ", " + later);
      MaskBetween("", Render(items[0]), Masked(items[0]), ", ", later);
      MaskRenderItems(items[1..], rest);
      MaskJoin(Render(items[0]), Masked(items[0]), RenderItems(items[1..]), MaskedItems(items[1..]), rest);
    }
  }

  lemma MaskJoin(a: string, maskedA: string, b: string, maskedB: string, rest: string)
    requires Mask(("" + a + ", ") + (b + rest)) == ("" + maskedA + ", ") + Mask(b + rest)
    requires Mask(b + rest) == maskedB + Mask(rest)
    ensures Mask((a + ", " + b) + rest) == (maskedA + ", " + maskedB) + Mask(rest)
  {
    assert "" + a == a && "" + maskedA == maskedA;
    Reassociate(a + ", ", b, rest);
    Reassociate(maskedA + ", ", maskedB, Mask(rest));
  }

  lemma {:induction false} MaskRenderField(f: Field, rest: string)
    requires InertText(f.name) && Dumped(f.value)
    ensures Mask(RenderField(f) + rest) == MaskedField(f) + Mask(rest)
    decreases f, 0
  {
    MaskRender(f.value, rest);
    Reassociate(f.name + "=", Render(f.value), rest);
    MaskUnquoted(f.name + "=", Render(f.value) + rest);
    Reassociate(f.name + "=", Masked(f.value), Mask(rest));
  }

  lemma {:induction false} MaskRenderFields(fields: seq<Field>, rest: string)
    requires DumpedFields(fields)
    ensures Mask(RenderFields(fields) + rest) == MaskedFields(fields) + Mask(rest)
    decreases fields, 0
  {
    if fields == [] {
      assert [] + rest == rest;
    } else if |fields| == 1 {
      MaskRenderField(fields[0], rest);
    } else {
      var later := RenderFields(fields[1..]) + rest;
      MaskRenderField(fields[0], ", " + later);
      MaskBetween("", RenderField(fields[0]), MaskedField(fields[0]), ", ", later);
      MaskRenderFields(fields[1..], rest);
      MaskJoin(RenderField(fields[0]), MaskedField(fields[0]),
               RenderFields(fields[1..]), MaskedFields(fields[1..]), rest);
    }
  }

  // ---- the bracket scan

  /** How many characters up to and including the bracket that brings the depth to zero. */
  function Close(s: string, depth: nat): (n: int)
    ensures -1 <= n <= |s|
  {
    if depth == 0 then 0
    else if s == [] then -1
    else
      var d := if s[0] == '[' then depth + 1 else if s[0] == ']' then depth - 1 else depth;
      var n := Close(s[1..], d);
      if n < 0 then -1 else n + 1
  }

  function Plus(k: nat, n: int): int {
    if n < 0 then -1 else k + n
  }

  lemma {:induction false} ClosePlain(a: string, rest: string, depth: nat)
    requires depth > 0 && forall i :: 0 <= i < |a| ==> a[i] != '[' && a[i] != ']'
    ensures Close(a + rest, depth) == Plus(|a|, Close(rest, depth))
  {
    if a == [] {
      assert a + rest == rest;
    } else {
      ClosePlain(a[1..], rest, depth);
      assert (a + rest)[1..] == a[1..] + rest;
    }
  }

  lemma {:induction false} SpacesAreSpaces(n: nat)
    ensures |Spaces(n)| == n && forall i :: 0 <= i < n ==> Spaces(n)[i] == ' '
  {
    if n == 0 {
    } else {
      SpacesAreSpaces(n - 1);
    }
  }

  lemma CloseBrackets(inner: string, rest: string, depth: nat)
    requires depth > 0
    requires Close(inner + ("]" + rest), depth + 1) == Plus(|inner|, Close("]" + rest, depth + 1))
    ensures Close(("[" + inner + "]") + rest, depth) == Plus(|inner| + 2, Close(rest, depth))
  {
    Reassociate("[" + inner, "]", rest);
    Reassociate("[", inner, "]" + rest);
    assert ("[" + (inner + ("]" + rest)))[1..] == inner + ("]" + rest);
    assert ("]" + rest)[1..] == rest;
  }

  /** One after the other. */
  lemma CloseTwo(a: string, b: string, rest: string, depth: nat)
    requires Close(a + (b + rest), depth) == Plus(|a|, Close(b + rest, depth))
    requires Close(b + rest, depth) == Plus(|b|, Close(rest, depth))
    ensures Close((a + b) + rest, depth) == Plus(|a + b|, Close(rest, depth))
  {
    Reassociate(a, b, rest);
  }

  lemma CloseSeparated(a: string, b: string, rest: string, depth: nat)
    requires depth > 0
    requires Close(a + (", " + (b + rest)), depth) == Plus(|a|, Close(", " + (b + rest), depth))
    requires Close(b + rest, depth) == Plus(|b|, Close(rest, depth))
    ensures Close((a + ", " + b) + rest, depth) == Plus(|a + ", " + b|, Close(rest, depth))
  {
    ClosePlain(", ", b + rest, depth);
    CloseTwo(a, ", ", b + rest, depth);
    CloseTwo(a + ", ", b, rest, depth);
  }

  lemma CloseCall(name: string, inner: string, rest: string, depth: nat)
    requires depth > 0 && forall i :: 0 <= i < |name| ==> name[i] != '[' && name[i] != ']'
    requires Close(inner + (")" + rest), depth) == Plus(|inner|, Close(")" + rest, depth))
    ensures Close((name + "(" + inner + ")") + rest, depth) == Plus(|name + "(" + inner + ")"|, Close(rest, depth))
  {
    ClosePlain(name + "(", inner + (")" + rest), depth);
    ClosePlain(")", rest, depth);
    CloseTwo(name + "(", inner, ")" + rest, depth);
    CloseTwo(name + "(" + inner, ")", rest, depth);
  }

  lemma LiteralIsPlain(prefix: string, quote: char, n: nat)
    requires (prefix == "" || prefix == "b") && IsQuote(quote)
    ensures forall i :: 0 <= i < |prefix + [quote] + Spaces(n) + [quote]| ==>
      (prefix + [quote] + Spaces(n) + [quote])[i] !in "()[],"
  {
    SpacesAreSpaces(n);
  }

  /** A masked term leaves the bracket depth where it was. */
  lemma {:induction false} CloseTerm(t: Term, rest: string, depth: nat)
    requires Dumped(t) && depth > 0
    ensures Close(Masked(t) + rest, depth) == Plus(|Masked(t)|, Close(rest, depth))
    decreases t, 1
  {
    match t
    case Atom(text) => ClosePlain(text, rest, depth);
    case Str(prefix, quote, body) =>
      LiteralIsPlain(prefix, quote, |RenderUnits(body)|);
      ClosePlain(Masked(t), rest, depth);
    case Items(items) =>
      CloseItems(items, "]" + rest, depth + 1);
      CloseBrackets(MaskedItems(items), rest, depth);
    case Node(name, fields) =>
      CloseFields(fields, ")" + rest, depth);
      CloseCall(name, MaskedFields(fields), rest, depth);
  }

  lemma {:induction false} CloseItems(items: seq<Term>, rest: string, depth: nat)
    requires DumpedItems(items) && depth > 0
    ensures Close(MaskedItems(items) + rest, depth) == Plus(|MaskedItems(items)|, Close(rest, depth))
    decreases items, 0
  {
    if items == [] {
      assert [] + rest == rest;
    } else if |items| == 1 {
      CloseTerm(items[0], rest, depth);
    } else {
      CloseTerm(items[0], ", " + (MaskedItems(items[1..]) + rest), depth);
      CloseItems(items[1..], rest, depth);
      CloseSeparated(Masked(items[0]), MaskedItems(items[1..]), rest, depth);
    }
  }

  lemma {:induction false} CloseField(f: Field, rest: string, depth: nat)
    requires InertText(f.name) && Dumped(f.value) && depth > 0
    ensures Close(MaskedField(f) + rest, depth) == Plus(|MaskedField(f)|, Close(rest, depth))
    decreases f, 0
  {
    CloseTerm(f.value, rest, depth);
    ClosePlain(f.name + "=", Masked(f.value) + rest, depth);
    CloseTwo(f.name + "=", Masked(f.value), rest, depth);
  }

  lemma {:induction false} CloseFields(fields: seq<Field>, rest: string, depth: nat)
    requires DumpedFields(fields) && depth > 0
    ensures Close(MaskedFields(fields) + rest, depth) == Plus(|MaskedFields(fields)|, Close(rest, depth))
    decreases fields, 0
  {
    if fields == [] {
      assert [] + rest == rest;
    } else if |fields| == 1 {
      CloseField(fields[0], rest, depth);
    } else {
      CloseField(fields[0], ", " + (MaskedFields(fields[1..]) + rest), depth);
      CloseFields(fields[1..], rest, depth);
      CloseSeparated(MaskedField(fields[0]), MaskedFields(fields[1..]), rest, depth);
    }
  }

  // ---- the comma scan

  /** A comma at bracket depth zero, both kinds of bracket counted. */
  function TopComma(s: string, depth: int): bool {
    s != [] && (
      if s[0] == '(' || s[0] == '[' then TopComma(s[1..], depth + 1)
      else if s[0] == ')' || s[0] == ']' then TopComma(s[1..], depth - 1)
      else if s[0] == ',' && depth == 0 then true
      else TopComma(s[1..], depth))
  }

  lemma {:induction false} CommaPlain(a: string, rest: string, depth: int)
    requires forall i :: 0 <= i < |a| ==> a[i] !in "()[]" && (a[i] != ',' || depth != 0)
    ensures TopComma(a + rest, depth) == TopComma(rest, depth)
  {
    if a == [] {
      assert a + rest == rest;
    } else {
      CommaPlain(a[1..], rest, depth);
      assert (a + rest)[1..] == a[1..] + rest;
    }
  }

  lemma CommaNested(name: string, open: char, inner: string, close: char, rest: string, depth: nat)
    requires forall i :: 0 <= i < |name| ==> name[i] !in "()[],"
    requires (open == '(' || open == '[') && (close == ')' || close == ']')
    requires TopComma(inner + ([close] + rest), depth + 1) == TopComma([close] + rest, depth + 1)
    ensures TopComma((name + [open] + inner + [close]) + rest, depth) == TopComma(rest, depth)
  {
    var after := inner + ([close] + rest);
    Reassociate(name + [open] + inner, [close], rest);
    Reassociate(name + [open], inner, [close] + rest);
    Reassociate(name, [open], after);
    CommaPlain(name, [open] + after, depth);
    assert ([open] + after)[1..] == after;
    assert ([close] + rest)[1..] == rest;
  }

  lemma CommaSeparated(a: string, b: string, rest: string, depth: nat)
    requires depth > 0
    requires TopComma(a + (", " + (b + rest)), depth) == TopComma(", " + (b + rest), depth)
    requires TopComma(b + rest, depth) == TopComma(rest, depth)
    ensures TopComma((a + ", " + b) + rest, depth) == TopComma(rest, depth)
  {
    CommaPlain(", ", b + rest, depth);
    Reassociate(a + ", ", b, rest);
    Reassociate(a, ", ", b + rest);
  }

  /** A masked term hides its own commas. */
  lemma {:induction false} CommaTerm(t: Term, rest: string, depth: nat)
    requires Dumped(t)
    ensures TopComma(Masked(t) + rest, depth) == TopComma(rest, depth)
    decreases t, 1
  {
    match t
    case Atom(text) => CommaPlain(text, rest, depth);
    case Str(prefix, quote, body) =>
      LiteralIsPlain(prefix, quote, |RenderUnits(body)|);
      CommaPlain(Masked(t), rest, depth);
    case Items(items) =>
      CommaItems(items, "]" + rest, depth + 1);
      CommaNested("", '[', MaskedItems(items), ']', rest, depth);
      assert "" + ['['] + MaskedItems(items) == "[" + MaskedItems(items);
    case Node(name, fields) =>
      CommaFields(fields, ")" + rest, depth + 1);
      assert forall i :: 0 <= i < |name| ==> Inert(name[i]);
      CommaNested(name, '(', MaskedFields(fields), ')', rest, depth);
  }

  lemma {:induction false} CommaItems(items: seq<Term>, rest: string, depth: nat)
    requires DumpedItems(items) && depth > 0
    ensures TopComma(MaskedItems(items) + rest, depth) == TopComma(rest, depth)
    decreases items, 0
  {
    if items == [] {
      assert [] + rest == rest;
    } else if |items| == 1 {
      CommaTerm(items[0], rest, depth);
    } else {
      CommaTerm(items[0], ", " + (MaskedItems(items[1..]) + rest), depth);
      CommaItems(items[1..], rest, depth);
      CommaSeparated(Masked(items[0]), MaskedItems(items[1..]), rest, depth);
    }
  }

  lemma {:induction false} CommaField(f: Field, rest: string, depth: nat)
    requires InertText(f.name) && Dumped(f.value)
    ensures TopComma(MaskedField(f) + rest, depth) == TopComma(rest, depth)
    decreases f, 0
  {
    CommaTerm(f.value, rest, depth);
    assert forall i :: 0 <= i < |f.name| ==> Inert(f.name[i]);
    CommaPlain(f.name + "=", Masked(f.value) + rest, depth);
    Reassociate(f.name + "=", Masked(f.value), rest);
  }

  lemma {:induction false} CommaFields(fields: seq<Field>, rest: string, depth: nat)
    requires DumpedFields(fields) && depth > 0
    ensures TopComma(MaskedFields(fields) + rest, depth) == TopComma(rest, depth)
    decreases fields, 0
  {
    if fields == [] {
      assert [] + rest == rest;
    } else if |fields| == 1 {
      CommaField(fields[0], rest, depth);
    } else {
      CommaField(fields[0], ", " + (MaskedFields(fields[1..]) + rest), depth);
      CommaFields(fields[1..], rest, depth);
      CommaSeparated(MaskedField(fields[0]), MaskedFields(fields[1..]), rest, depth);
    }
  }

  lemma MaskBody(stmts: seq<Term>)
    requires DumpedItems(stmts)
    ensures Mask(RenderItems(stmts)) == MaskedItems(stmts)
  {
    MaskRenderItems(stmts, "");
    assert RenderItems(stmts) + "" == RenderItems(stmts);
    assert MaskedItems(stmts) + Mask("") == MaskedItems(stmts);
  }

  lemma CommaFirst(x: string)
    ensures TopComma(", " + x, 0)
  {
    assert (", " + x)[0] == ',';
  }

  lemma CommaInBody(stmts: seq<Term>)
    requires DumpedItems(stmts)
    ensures TopComma(MaskedItems(stmts), 0) <==> |stmts| >= 2
  {
    if |stmts| == 1 {
      CommaTerm(stmts[0], "", 0);
      assert Masked(stmts[0]) + "" == Masked(stmts[0]);
    } else if |stmts| >= 2 {
      var later := MaskedItems(stmts[1..]);
      Reassociate(Masked(stmts[0]), ", ", later);
      CommaTerm(stmts[0], ", " + later, 0);
      CommaFirst(later);
    }
  }

  /** A body list has a top-level comma exactly when it has at least two statements. */
  lemma CommaSeparatesStatements(stmts: seq<Term>)
    requires DumpedItems(stmts)
    ensures TopComma(Mask(RenderItems(stmts)), 0) <==> |stmts| >= 2
  {
    MaskBody(stmts);
    CommaInBody(stmts);
  }
}
