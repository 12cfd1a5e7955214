/** Two diffs in which a byte-identical move is reported as modified. */
module MoveWitnesses {
  import opened Sorting
  import opened DumpText
  import opened StubVerdict
  import opened StubTheorem
  import opened SymbolMoves

  // ---- function dumps

  const NAME := Field("name", Str("", '\'', [Plain('f')]))

  /** A field holding the empty list, for each name. */
  function EmptyLists(names: seq<string>): seq<Field> {
    if names == [] then [] else [Field(names[0], Items([]))] + EmptyLists(names[1..])
  }

  /** Which empty lists are printed among the arguments and after the body depends on the version. */
  datatype Printed = Printed(arguments: seq<string>, after: seq<string>)

  const PYTHON_311 :=
    Printed(["posonlyargs", "args", "kwonlyargs", "kw_defaults", "defaults"], ["decorator_list"])
  const PYTHON_313 := Printed([], [])

  /** What precedes the body of a function `f` without parameters. */
  function BeforeBody(v: Printed): seq<Field> {
    [NAME, Field("args", Node("arguments", EmptyLists(v.arguments)))]
  }

  /** The dump of a function `f` without parameters whose body is the given statement. */
  function FunctionDump(v: Printed, stmt: Term): string {
    Render(Definition("FunctionDef", BeforeBody(v), [stmt], EmptyLists(v.after)))
  }

  function Number(digits: string): Term {
    Node("Constant", [Field("value", Atom(digits))])
  }

  function Returns(digits: string): Term {
    Node("Return", [Field("value", Number(digits))])
  }

  /** A plain name that does not end in "body". */
  predicate ListName(s: string) {
    s != [] && s[|s| - 1] != 'y' && forall i :: 0 <= i < |s| ==> Letter(s[i])
  }

  lemma {:induction false} EmptyListsShaped(names: seq<string>)
    requires forall name :: name in names ==> ListName(name)
    ensures DumpedFields(EmptyLists(names)) && NoBodyListFields(EmptyLists(names))
  {
    if names == [] {
    } else {
      assert names[0] in names;
      LettersInert(names[0]);
      EmptyListsShaped(names[1..]);
      NotBody(names[0]);
      var all, rest := EmptyLists(names), EmptyLists(names[1..]);
      assert all[0] == Field(names[0], Items([])) && all[1..] == rest;
    }
  }

  lemma NotBody(name: string)
    requires ListName(name)
    ensures !EndsWith(name, "body")
  {
    assert |name| >= 4 ==> name[|name| - 4..][3] == name[|name| - 1];
  }

  /** The two witnesses below hold whichever lists are printed, for these versions in particular. */
  ghost predicate Plausible(v: Printed) {
    (forall name :: name in v.arguments ==> ListName(name)) && (forall name :: name in v.after ==> ListName(name))
  }

  lemma ParameterLists()
    ensures ListName("posonlyargs") && ListName("args") && ListName("kwonlyargs")
  {
  }

  lemma OtherLists()
    ensures ListName("kw_defaults") && ListName("defaults") && ListName("decorator_list")
  {
  }

  lemma VersionsArePlausible()
    ensures Plausible(PYTHON_311) && Plausible(PYTHON_313)
  {
    ParameterLists();
    OtherLists();
  }

  lemma TwoFieldsShaped(a: Field, b: Field)
    requires InertText(a.name) && Dumped(a.value) && NoBodyList(a.value) && !a.value.Items?
    requires InertText(b.name) && Dumped(b.value) && NoBodyList(b.value) && !b.value.Items?
    ensures DumpedFields([a, b]) && NoBodyListFields([a, b])
  {
    DumpedOne(b);
    assert [a, b][1..] == [b] && [b][1..] == [];
  }

  lemma NameDumped()
    ensures InertText(NAME.name) && Dumped(NAME.value) && NoBodyList(NAME.value)
  {
    LettersInert("name");
  }

  lemma ArgumentsDumped(fields: seq<Field>)
    requires DumpedFields(fields) && NoBodyListFields(fields)
    ensures InertText("args")
    ensures Dumped(Node("arguments", fields)) && NoBodyList(Node("arguments", fields))
  {
    LettersInert("args");
    LettersInert("arguments");
  }

  lemma BeforeBodyShaped(v: Printed)
    requires Plausible(v)
    ensures DumpedFields(BeforeBody(v)) && NoBodyListFields(BeforeBody(v))
  {
    EmptyListsShaped(v.arguments);
    NameDumped();
    ArgumentsDumped(EmptyLists(v.arguments));
    TwoFieldsShaped(NAME, Field("args", Node("arguments", EmptyLists(v.arguments))));
  }

  lemma FunctionDumped(v: Printed, stmt: Term)
    requires Plausible(v) && StatementShaped(stmt)
    ensures DumpedDefinition("FunctionDef", BeforeBody(v), [stmt], EmptyLists(v.after))
  {
    LettersInert("FunctionDef");
    BeforeBodyShaped(v);
    EmptyListsShaped(v.after);
    assert [stmt][1..] == [];
  }

  lemma FunctionVerdict(v: Printed, stmt: Term)
    requires Plausible(v) && StatementShaped(stmt)
    ensures TrivialStub(FunctionDump(v, stmt)) <==> Recognised(stmt)
    ensures BodyText(FunctionDump(v, stmt)).Some? && BodyText(FunctionDump(v, stmt)).value == Render(stmt)
  {
    FunctionDumped(v, stmt);
    StubVerdictExact("FunctionDef", BeforeBody(v), [stmt], EmptyLists(v.after));
    BodyIsRecovered("FunctionDef", BeforeBody(v), [stmt], EmptyLists(v.after));
  }

  lemma ReturnsShaped(digits: string)
    requires InertText(digits)
    ensures StatementShaped(Returns(digits)) && !Recognised(Returns(digits))
  {
    LettersInert("Return");
    LettersInert("value");
    LettersInert("Constant");
    DumpedOne(Field("value", Atom(digits)));
    DumpedOne(Field("value", Number(digits)));
    assert Returns(digits).name[0] == 'R';
  }

  lemma OneFieldLength(name: string, t: Term)
    ensures |Render(Node(name, [Field("value", t)]))| == |name| + 8 + |Render(t)|
  {
    var f := Field("value", t);
    assert RenderField(f) == "value" + "=" + Render(t);
    assert RenderFields([f]) == RenderField(f);
  }

  lemma ReturnsLength(digits: string)
    ensures |Render(Returns(digits))| == 30 + |digits|
  {
    OneFieldLength("Constant", Atom(digits));
    OneFieldLength("Return", Number(digits));
  }

  lemma PassShaped()
    ensures StatementShaped(PASS_STATEMENT) && Recognised(PASS_STATEMENT)
  {
    LettersInert("Pass");
  }

  /** `f`, returning 1, moves from a to c; b gains an `f` returning 22, listed first. */
  lemma VerbatimMoveMissed(v: Printed)
    requires Plausible(v)
    ensures var d, e := FunctionDump(v, Returns("1")), FunctionDump(v, Returns("22"));
            var s, other, copy := Symbol("a", "f", d), Symbol("b", "f", e), Symbol("c", "f", d);
            Destination([s], [other, copy], s) == Some(other) && !LinkTo(s, other).equivalent
  {
    LettersInert("1");
    LettersInert("22");
    ReturnsShaped("1");
    ReturnsShaped("22");
    FunctionVerdict(v, Returns("1"));
    FunctionVerdict(v, Returns("22"));
    ReturnsLength("1");
    ReturnsLength("22");
    OtherListedFirst(FunctionDump(v, Returns("1")), FunctionDump(v, Returns("22")));
  }

  /** `f`, whose body is `pass`, moves from a to c, listed first; b gains an `f` returning 1. */
  lemma VerbatimStubMoveMissed(v: Printed)
    requires Plausible(v)
    ensures var d, e := FunctionDump(v, PASS_STATEMENT), FunctionDump(v, Returns("1"));
            var s, copy, other := Symbol("a", "f", d), Symbol("c", "f", d), Symbol("b", "f", e);
            Destination([s], [copy, other], s) == Some(other) && !LinkTo(s, other).equivalent
  {
    LettersInert("1");
    PassShaped();
    ReturnsShaped("1");
    FunctionVerdict(v, PASS_STATEMENT);
    FunctionVerdict(v, Returns("1"));
    StubListedFirst(FunctionDump(v, PASS_STATEMENT), FunctionDump(v, Returns("1")));
  }
}
