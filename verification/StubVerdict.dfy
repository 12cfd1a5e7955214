/** The body list of a printed definition is recovered exactly, and the verdict on it. */
module StubVerdict {
  import opened Sorting
  import opened DumpText
  import opened StubDump

  // ---- the marker `body=[`

  const MARKER := "body=["

  predicate MarkerAt(s: string, i: int) {
    && 0 <= i && i + 6 <= |s|
    && s[i] == 'b' && s[i + 1] == 'o' && s[i + 2] == 'd' && s[i + 3] == 'y' && s[i + 4] == '=' && s[i + 5] == '['
  }

  ghost predicate NoMarker(s: string) {
    forall i :: !MarkerAt(s, i)
  }

  /** `s.find("body=[")`, from position i on. */
  function FindFrom(s: string, i: nat): (r: int)
    requires i <= |s|
    ensures r >= 0 ==> r >= i && MarkerAt(s, r) && forall j :: i <= j < r ==> !MarkerAt(s, j)
    ensures r < 0 ==> r == -1 && forall j :: i <= j ==> !MarkerAt(s, j)
    decreases |s| - i
  {
    if i + 6 > |s| then -1
    else if MarkerAt(s, i) then i
    else FindFrom(s, i + 1)
  }

  // ---- the three functions of the module

  method HasTopLevelComma(s: string) returns (found: bool)
    ensures found == TopComma(Mask(s), 0)
  {
    var masked := MaskStringLiterals(s);
    var depth := 0;
    for i := 0 to |masked|
      invariant TopComma(masked[i..], depth) == TopComma(masked, 0)
    {
      var ch := masked[i];
      assert masked[i..][1..] == masked[i + 1..];
      if ch == '(' || ch == '[' {
        depth := depth + 1;
      } else if ch == ')' || ch == ']' {
        depth := depth - 1;
      } else if ch == ',' && depth == 0 {
        return true;
      }
    }
    return false;
  }

  /** The text between the first structural `body=[` and its closing bracket. */
  function BodyText(dump: string): Option<string> {
    var masked := Mask(dump);
    var idx := FindFrom(masked, 0);
    if idx < 0 then None
    else
      var n := Close(masked[idx + 6..], 1);
      if n <= 0 then None else Some(dump[idx + 6..idx + 6 + n - 1])
  }

  predicate EndsWith(s: string, suffix: string) {
    |suffix| <= |s| && s[|s| - |suffix|..] == suffix
  }

  const PASS := "Pass()"
  const EXPR_CONSTANT := "Expr(value=Constant(value="
  const ELLIPSIS := EXPR_CONSTANT + "Ellipsis))"
  const SINGLE_START := EXPR_CONSTANT + "'"
  const DOUBLE_START := EXPR_CONSTANT + "\""
  const SINGLE_END := "'))"
  const DOUBLE_END := "\"))"

  predicate StubShaped(body: string) {
    && !TopComma(Mask(body), 0)
    && (|| body == PASS
        || body == ELLIPSIS
        || (SINGLE_START <= body && EndsWith(body, SINGLE_END))
        || (DOUBLE_START <= body && EndsWith(body, DOUBLE_END)))
  }

  predicate TrivialStub(dump: string) {
    BodyText(dump).Some? && StubShaped(BodyText(dump).value)
  }

  /** The depth scan: the position just past the bracket closing the list opened before `start`. */
  method ScanToClose(masked: string, start: nat) returns (depth: nat, i: nat)
    requires start <= |masked|
    ensures depth == 0 ==> start < i <= |masked| && Close(masked[start..], 1) == i - start
    ensures depth > 0 ==> Close(masked[start..], 1) == -1
  {
    depth, i := 1, start;
    while i < |masked| && depth > 0
      invariant start <= i <= |masked|
      invariant Close(masked[start..], 1) == Plus(i - start, Close(masked[i..], depth))
      invariant depth == 0 ==> i > start
      decreases |masked| - i
    {
      assert masked[i..][1..] == masked[i + 1..];
      var ch := masked[i];
      if ch == '[' {
        depth := depth + 1;
      } else if ch == ']' {
        depth := depth - 1;
      }
      i := i + 1;
    }
  }

  method IsTrivialStubDump(dump: string) returns (stub: bool)
    ensures stub == TrivialStub(dump)
  {
    var masked := MaskStringLiterals(dump);
    var idx := FindFrom(masked, 0);
    if idx < 0 {
      return false;
    }
    var start := idx + |MARKER|;
    var depth, i := ScanToClose(masked, start);
    if depth != 0 {
      return false;
    }
    var body := dump[start..i - 1];
    assert BodyText(dump) == Some(body);
    var comma := HasTopLevelComma(body);
    if comma {
      return false;
    }
    if body == PASS || body == ELLIPSIS {
      return true;
    }
    return (SINGLE_START <= body && EndsWith(body, SINGLE_END)) || (DOUBLE_START <= body && EndsWith(body, DOUBLE_END));
  }

  // ---- definitions, and where the marker can occur in them

  /** A definition's dump: some fields, the body list, more fields. */
  function Definition(name: string, pre: seq<Field>, stmts: seq<Term>, post: seq<Field>): Term {
    Node(name, pre + [Field("body", Items(stmts))] + post)
  }

  /** No list is the value of a field whose name ends in "body". True of everything that precedes
      the body list in a function or class dump: arguments, bases and keywords are expressions. */
  predicate NoBodyList(t: Term)
    decreases t, 1
  {
    match t
    case Atom(_) => true
    case Str(_, _, _) => true
    case Items(items) => NoBodyListItems(items)
    case Node(_, fields) => NoBodyListFields(fields)
  }

  predicate NoBodyListItems(items: seq<Term>)
    decreases items, 0
  {
    items == [] || (NoBodyList(items[0]) && NoBodyListItems(items[1..]))
  }

  predicate NoBodyListFields(fields: seq<Field>)
    decreases fields, 0
  {
    fields == [] || (
      && !(fields[0].value.Items? && EndsWith(fields[0].name, "body"))
      && NoBodyList(fields[0].value)
      && NoBodyListFields(fields[1..]))
  }

  predicate Separator(c: char) {
    c == '(' || c == ')' || c == ',' || c == ' ' || c == ']'
  }

  lemma NoMarkerJoin(a: string, c: char, b: string)
    requires NoMarker(a) && NoMarker(b) && Separator(c)
    ensures NoMarker(a + [c] + b)
  {
    var s := a + [c] + b;
    assert s[|a|] == c;
    forall i ensures !MarkerAt(s, i) {
      if i + 6 <= |a| { assert MarkerAt(s, i) ==> MarkerAt(a, i); }
      if i > |a| { assert MarkerAt(s, i) ==> MarkerAt(b, i - |a| - 1); }
    }
  }

  lemma NoMarkerOpen(b: string)
    requires NoMarker(b)
    ensures NoMarker("[" + b)
  {
    var s := "[" + b;
    forall i ensures !MarkerAt(s, i) {
      if i > 0 { assert MarkerAt(s, i) ==> MarkerAt(b, i - 1); }
    }
  }

  lemma NoMarkerInert(a: string)
    requires forall i :: 0 <= i < |a| ==> a[i] != '['
    ensures NoMarker(a)
  {
  }

  lemma NoMarkerField(name: string, v: string)
    requires InertText(name) && NoMarker(v)
    requires v != [] && v[0] == '[' ==> !EndsWith(name, "body")
    ensures NoMarker(name + "=" + v)
  {
    var s := name + "=" + v;
    var n := |name|;
    assert s[n] == '=';
    forall i ensures !MarkerAt(s, i) {
      if i > n {
        assert MarkerAt(s, i) ==> MarkerAt(v, i - n - 1);
      } else if i + 4 < n && 0 <= i {
        assert Inert(name[i + 4]);
      } else if i + 4 == n && i + 6 <= |s| {
        assert s[i + 5] == v[0];
        if i >= 0 { assert name[n - 4..] == [name[i], name[i + 1], name[i + 2], name[i + 3]]; }
      }
    }
  }

  lemma MaskedStart(t: Term)
    requires Dumped(t)
    ensures Masked(t) != [] && (Masked(t)[0] == '[' <==> t.Items?)
  {
    if t.Node? { assert Inert(t.name[0]); }
    if t.Atom? { assert Inert(t.text[0]); }
  }

  /** The mask of a term that holds no body list shows no marker. */
  lemma {:induction false} NoMarkerTerm(t: Term)
    requires Dumped(t) && NoBodyList(t)
    ensures NoMarker(Masked(t))
    decreases t, 1
  {
    match t
    case Atom(text) =>
      assert forall i :: 0 <= i < |text| ==> Inert(text[i]);
      NoMarkerInert(text);
    case Str(prefix, quote, body) =>
      SpacesAreSpaces(|RenderUnits(body)|);
      NoMarkerInert(Masked(t));
    case Items(items) =>
      NoMarkerItems(items);
      NoMarkerOpen(MaskedItems(items));
      NoMarkerInert("");
      NoMarkerJoin("[" + MaskedItems(items), ']', "");
      assert Masked(t) == ("[" + MaskedItems(items)) + [']'] + "";
    case Node(name, fields) =>
      NoMarkerFields(fields);
      assert forall i :: 0 <= i < |name| ==> Inert(name[i]);
      NoMarkerInert(name);
      NoMarkerInert("");
      NoMarkerJoin(name, '(', MaskedFields(fields));
      NoMarkerJoin(name + ['('] + MaskedFields(fields), ')', "");
      assert Masked(t) == (name + ['('] + MaskedFields(fields)) + [')'] + "";
  }

  lemma NoMarkerComma(a: string, b: string)
    requires NoMarker(a) && NoMarker(b)
    ensures NoMarker(a + ", " + b)
  {
    NoMarkerInert("");
    NoMarkerJoin("", ' ', b);
    NoMarkerJoin(a, ',', "" + [' '] + b);
    assert a + [','] + ("" + [' '] + b) == a + ", " + b;
  }

  lemma {:induction false} NoMarkerItems(items: seq<Term>)
    requires DumpedItems(items) && NoBodyListItems(items)
    ensures NoMarker(MaskedItems(items))
    decreases items, 0
  {
    if items == [] {
    } else {
      NoMarkerTerm(items[0]);
      NoMarkerItems(items[1..]);
      if |items| > 1 { NoMarkerComma(Masked(items[0]), MaskedItems(items[1..])); }
    }
  }

  lemma {:induction false} NoMarkerFields(fields: seq<Field>)
    requires DumpedFields(fields) && NoBodyListFields(fields)
    ensures NoMarker(MaskedFields(fields))
    decreases fields, 0
  {
    if fields == [] {
    } else {
      NoMarkerTerm(fields[0].value);
      MaskedStart(fields[0].value);
      NoMarkerField(fields[0].name, Masked(fields[0].value));
      NoMarkerFields(fields[1..]);
      if |fields| > 1 { NoMarkerComma(MaskedField(fields[0]), MaskedFields(fields[1..])); }
    }
  }

  // ---- locating the body list

  function Leading(fields: seq<Field>): string {
    if fields == [] then [] else RenderField(fields[0]) + ", " + Leading(fields[1..])
  }

  function MaskedLeading(fields: seq<Field>): string {
    if fields == [] then [] else MaskedField(fields[0]) + ", " + MaskedLeading(fields[1..])
  }

  function Trailing(fields: seq<Field>): string {
    if fields == [] then [] else ", " + RenderFields(fields)
  }

  function MaskedTrailing(fields: seq<Field>): string {
    if fields == [] then [] else ", " + MaskedFields(fields)
  }

  lemma {:induction false} PrintedSplit(pre: seq<Field>, f: Field, post: seq<Field>)
    ensures RenderFields(pre + [f] + post) == Leading(pre) + (RenderField(f) + Trailing(post))
  {
    var all := pre + [f] + post;
    if pre == [] {
      assert all == [f] + post && all[1..] == post;
      assert post == [] ==> RenderField(f) + Trailing(post) == RenderField(f);
      assert post != [] ==> RenderFields(all) == RenderField(f) + (", " + RenderFields(post));
    } else {
      assert all[0] == pre[0] && all[1..] == pre[1..] + [f] + post;
      PrintedSplit(pre[1..], f, post);
      Reassociate(RenderField(pre[0]) + ", ", Leading(pre[1..]), RenderField(f) + Trailing(post));
    }
  }

  lemma {:induction false} MaskedSplit(pre: seq<Field>, f: Field, post: seq<Field>)
    ensures MaskedFields(pre + [f] + post) == MaskedLeading(pre) + (MaskedField(f) + MaskedTrailing(post))
  {
    var all := pre + [f] + post;
    if pre == [] {
      assert all == [f] + post && all[1..] == post;
      assert post == [] ==> MaskedField(f) + MaskedTrailing(post) == MaskedField(f);
      assert post != [] ==> MaskedFields(all) == MaskedField(f) + (", " + MaskedFields(post));
    } else {
      assert all[0] == pre[0] && all[1..] == pre[1..] + [f] + post;
      MaskedSplit(pre[1..], f, post);
      Reassociate(MaskedField(pre[0]) + ", ", MaskedLeading(pre[1..]), MaskedField(f) + MaskedTrailing(post));
    }
  }

  lemma MaskedFieldLength(f: Field)
    requires InertText(f.name) && Dumped(f.value)
    ensures |MaskedField(f)| == |RenderField(f)|
  {
    MaskRenderField(f, "");
    assert RenderField(f) + "" == RenderField(f);
  }

  lemma {:induction false} LeadingFacts(pre: seq<Field>)
    requires DumpedFields(pre) && NoBodyListFields(pre)
    ensures |MaskedLeading(pre)| == |Leading(pre)|
    ensures NoMarker(MaskedLeading(pre))
    ensures pre != [] ==> MaskedLeading(pre) != [] && MaskedLeading(pre)[|MaskedLeading(pre)| - 1] == ' '
  {
    if pre == [] {
    } else {
      LeadingFacts(pre[1..]);
      MaskedFieldLength(pre[0]);
      NoMarkerTerm(pre[0].value);
      MaskedStart(pre[0].value);
      NoMarkerField(pre[0].name, Masked(pre[0].value));
      NoMarkerComma(MaskedField(pre[0]), MaskedLeading(pre[1..]));
    }
  }

  lemma DumpedOne(f: Field)
    requires InertText(f.name) && Dumped(f.value)
    ensures DumpedFields([f])
  {
    assert [f][0] == f && [f][1..] == [];
  }

  lemma {:induction false} DumpedAppend(a: seq<Field>, b: seq<Field>)
    requires DumpedFields(a) && DumpedFields(b)
    ensures DumpedFields(a + b)
  {
    if a == [] {
      assert a + b == b;
    } else {
      assert (a + b)[1..] == a[1..] + b;
      DumpedAppend(a[1..], b);
    }
  }

  /** What precedes the body list shows no marker and ends in a separator, so the first marker
      in the whole text is the body list's own. */
  lemma MarkerFound(x: string, rest: string)
    requires NoMarker(x) && x != [] && Separator(x[|x| - 1])
    ensures FindFrom(x + MARKER + rest, 0) == |x|
  {
    var s := x + MARKER + rest;
    assert MarkerAt(s, |x|);
    forall j | 0 <= j < |x| ensures !MarkerAt(s, j) {
      assert s[|x| - 1] == x[|x| - 1];
      if j + 6 <= |x| { assert MarkerAt(s, j) ==> MarkerAt(x, j); }
    }
  }

  lemma CutAtMarker(x: string, b: string, c: string)
    ensures var s := x + MARKER + (b + c);
      s[|x| + 6..] == b + c && s[|x| + 6..|x| + 6 + |b|] == b
  {
    var s := x + MARKER + (b + c);
    assert s[|x| + 6..] == b + c;
    assert s[|x| + 6..|x| + 6 + |b|] == s[|x| + 6..][..|b|];
  }

  lemma BodyCut(dump: string, m: string, x: string, mx: string, body: string, masked: string, tail: string,
                mtail: string)
    requires dump == x + MARKER + (body + tail) && m == mx + MARKER + (masked + mtail)
    requires |x| == |mx| && |body| == |masked|
    requires Mask(dump) == m && FindFrom(m, 0) == |mx|
    requires Close(masked + mtail, 1) == |masked| + 1
    ensures BodyText(dump) == Some(body)
  {
    CutAtMarker(x, body, tail);
    CutAtMarker(mx, masked, mtail);
  }

  lemma MaskedLengths(stmts: seq<Term>, post: seq<Field>)
    requires DumpedItems(stmts) && DumpedFields(post)
    ensures |MaskedItems(stmts)| == |RenderItems(stmts)| && |MaskedTrailing(post)| == |Trailing(post)|
  {
    MaskRenderItems(stmts, "");
    MaskRenderFields(post, "");
    assert RenderItems(stmts) + "" == RenderItems(stmts) && RenderFields(post) + "" == RenderFields(post);
  }

  lemma Regroup(name: string, leading: string, items: string, trailing: string)
    ensures name + "(" + (leading + ((("body" + "=") + ("[" + items + "]")) + trailing)) + ")"
         == (name + "(" + leading) + MARKER + (items + ("]" + (trailing + ")")))
  {
    var f := ("body" + "=") + ("[" + items + "]");
    assert f == MARKER + (items + "]");
    assert f + trailing == MARKER + (items + ("]" + trailing));
    assert (items + ("]" + trailing)) + ")" == items + ("]" + (trailing + ")"));
    assert (name + "(") + (leading + (f + trailing)) == (name + "(" + leading) + (f + trailing);
    assert (name + "(" + leading) + (MARKER + (items + ("]" + trailing))) + ")"
        == (name + "(" + leading) + MARKER + ((items + ("]" + trailing)) + ")");
  }

  lemma DefinitionLayout(name: string, pre: seq<Field>, stmts: seq<Term>, post: seq<Field>)
    ensures Render(Definition(name, pre, stmts, post))
         == (name + "(" + Leading(pre)) + MARKER + (RenderItems(stmts) + ("]" + (Trailing(post) + ")")))
    ensures Masked(Definition(name, pre, stmts, post))
         == (name + "(" + MaskedLeading(pre)) + MARKER + (MaskedItems(stmts) + ("]" + (MaskedTrailing(post) + ")")))
  {
    PrintedSplit(pre, Field("body", Items(stmts)), post);
    MaskedSplit(pre, Field("body", Items(stmts)), post);
    Regroup(name, Leading(pre), RenderItems(stmts), Trailing(post));
    Regroup(name, MaskedLeading(pre), MaskedItems(stmts), MaskedTrailing(post));
  }

  ghost predicate DumpedDefinition(name: string, pre: seq<Field>, stmts: seq<Term>, post: seq<Field>) {
    && InertText(name)
    && DumpedFields(pre) && NoBodyListFields(pre)
    && DumpedItems(stmts)
    && DumpedFields(post)
  }

  lemma DefinitionMask(name: string, pre: seq<Field>, stmts: seq<Term>, post: seq<Field>)
    requires DumpedDefinition(name, pre, stmts, post)
    ensures Mask(Render(Definition(name, pre, stmts, post)))
         == (name + "(" + MaskedLeading(pre)) + MARKER + (MaskedItems(stmts) + ("]" + (MaskedTrailing(post) + ")")))
  {
    var def := Definition(name, pre, stmts, post);
    var f := Field("body", Items(stmts));
    DumpedOne(f);
    DumpedAppend(pre, [f]);
    DumpedAppend(pre + [f], post);
    MaskRender(def, "");
    assert Render(def) + "" == Render(def) && Masked(def) + Mask("") == Masked(def);
    DefinitionLayout(name, pre, stmts, post);
  }

  lemma HeadShowsNoMarker(name: string, pre: seq<Field>)
    requires InertText(name) && DumpedFields(pre) && NoBodyListFields(pre)
    ensures var mx := name + "(" + MaskedLeading(pre);
      NoMarker(mx) && mx != [] && Separator(mx[|mx| - 1]) && |mx| == |name + "(" + Leading(pre)|
  {
    LeadingFacts(pre);
    assert forall i :: 0 <= i < |name| ==> Inert(name[i]);
    NoMarkerInert(name);
    NoMarkerJoin(name, '(', MaskedLeading(pre));
    assert name + "(" + MaskedLeading(pre) == name + ['('] + MaskedLeading(pre);
  }

  lemma CloseBody(stmts: seq<Term>, mtail: string)
    requires DumpedItems(stmts)
    ensures Close(MaskedItems(stmts) + ("]" + mtail), 1) == |MaskedItems(stmts)| + 1
  {
    CloseItems(stmts, "]" + mtail, 1);
    assert ("]" + mtail)[1..] == mtail;
  }

  /** The body list is recovered exactly, whatever brackets, commas, quotes or `body=[` text the
      string literals of the definition contain. */
  lemma BodyIsRecovered(name: string, pre: seq<Field>, stmts: seq<Term>, post: seq<Field>)
    requires DumpedDefinition(name, pre, stmts, post)
    ensures BodyText(Render(Definition(name, pre, stmts, post))) == Some(RenderItems(stmts))
  {
    var dump := Render(Definition(name, pre, stmts, post));
    var x, mx := name + "(" + Leading(pre), name + "(" + MaskedLeading(pre);
    var body, masked := RenderItems(stmts), MaskedItems(stmts);
    var tail, mtail := "]" + (Trailing(post) + ")"), "]" + (MaskedTrailing(post) + ")");
    DefinitionLayout(name, pre, stmts, post);
    DefinitionMask(name, pre, stmts, post);
    HeadShowsNoMarker(name, pre);
    MaskedLengths(stmts, post);
    MarkerFound(mx, masked + mtail);
    CloseBody(stmts, MaskedTrailing(post) + ")");
    BodyCut(dump, mx + MARKER + (masked + mtail), x, mx, body, masked, tail, mtail);
  }
}
