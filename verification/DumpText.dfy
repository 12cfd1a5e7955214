/** Terms as `ast.dump` prints them, and the string-literal mask the structural scans run over.

    A string literal is kept as the sequence of units its `repr` consists of: plain characters,
    and backslash escapes. Any `repr` output has this shape, so nothing is assumed about what
    the literal's text says. */
module DumpText {

  datatype Unit = Plain(c: char) | Escape(c: char)

  datatype Field = Field(name: string, value: Term)

  datatype Term =
    | Atom(text: string)                                      // a number, None, True, Ellipsis
    | Str(prefix: string, quote: char, body: seq<Unit>)       // repr of a str or (prefix b) bytes
    | Items(items: seq<Term>)                                 // a list
    | Node(name: string, fields: seq<Field>)                  // Name(field=value, ...)

  // ---- printing

  function RenderUnit(u: Unit): string {
    match u
    case Plain(c) => [c]
    case Escape(c) => ['\\', c]
  }

  function RenderUnits(units: seq<Unit>): string {
    if units == [] then [] else RenderUnit(units[0]) + RenderUnits(units[1..])
  }

  function Render(t: Term): string
    decreases t, 1
  {
    match t
    case Atom(text) => text
    case Str(prefix, quote, body) => prefix + [quote] + RenderUnits(body) + [quote]
    case Items(items) => "[" + RenderItems(items) + "]"
    case Node(name, fields) => name + "(" + RenderFields(fields) + ")"
  }

  function RenderItems(items: seq<Term>): string
    decreases items, 0
  {
    if items == [] then []
    else if |items| == 1 then Render(items[0])
    else Render(items[0]) + ", " + RenderItems(items[1..])
  }

  function RenderField(f: Field): string
    decreases f, 0
  {
    f.name + "=" + Render(f.value)
  }

  function RenderFields(fields: seq<Field>): string
    decreases fields, 0
  {
    if fields == [] then []
    else if |fields| == 1 then RenderField(fields[0])
    else RenderField(fields[0]) + ", " + RenderFields(fields[1..])
  }

  // ---- which terms a dump consists of

  predicate IsQuote(c: char) {
    c == '\'' || c == '"'
  }

  /** Characters of names, field names and atoms: nothing the scans look at. */
  predicate Inert(c: char) {
    !IsQuote(c) && c != '\\' && c !in "()[], ="
  }

  predicate InertText(s: string) {
    s != [] && forall i :: 0 <= i < |s| ==> Inert(s[i])
  }

  predicate Letter(c: char) {
    'a' <= c <= 'z' || 'A' <= c <= 'Z' || '0' <= c <= '9' || c == '_'
  }

  lemma LettersInert(s: string)
    requires s != [] && forall i :: 0 <= i < |s| ==> Letter(s[i])
    ensures InertText(s)
  {
    forall i | 0 <= i < |s| ensures Inert(s[i]) {
      assert Letter(s[i]);
    }
  }

  predicate UnitFits(quote: char, u: Unit) {
    u.Plain? ==> u.c != quote && u.c != '\\'
  }

  predicate Dumped(t: Term)
    decreases t, 1
  {
    match t
    case Atom(text) => InertText(text)
    case Str(prefix, quote, body) =>
      (prefix == "" || prefix == "b") && IsQuote(quote) && forall i :: 0 <= i < |body| ==> UnitFits(quote, body[i])
    case Items(items) => DumpedItems(items)
    case Node(name, fields) => InertText(name) && DumpedFields(fields)
  }

  predicate DumpedItems(items: seq<Term>)
    decreases items, 0
  {
    items == [] || (Dumped(items[0]) && DumpedItems(items[1..]))
  }

  predicate DumpedFields(fields: seq<Field>)
    decreases fields, 0
  {
    fields == [] || (InertText(fields[0].name) && Dumped(fields[0].value) && DumpedFields(fields[1..]))
  }

  // ---- `_mask_string_literals`

  /** The mask outside a string literal. */
  function Mask(s: string): (r: string)
    ensures |r| == |s|
  {
    if s == [] then []
    else if IsQuote(s[0]) then [s[0]] + MaskInside(s[1..], s[0])
    else [s[0]] + Mask(s[1..])
  }

  /** The mask inside a literal opened by `quote`. */
  function MaskInside(s: string, quote: char): (r: string)
    ensures |r| == |s|
  {
    if s == [] then []
    else if s[0] == '\\' then
      if |s| > 1 then [' ', ' '] + MaskInside(s[2..], quote) else [' ']
    else if s[0] == quote then [quote] + Mask(s[1..])
    else [' '] + MaskInside(s[1..], quote)
  }

  lemma SuffixStep(s: string, i: nat, k: nat)
    requires i + k <= |s|
    ensures s[i..][k..] == s[i + k..]
  {
  }

  /** What the overwritten buffer still owes the mask at position i. */
  ghost predicate MaskedSoFar(s: string, out: string, i: nat, tail: string) {
    && i <= |s| == |out|
    && out[i..] == s[i..]
    && out[..i] + tail == Mask(s)
  }

  lemma MaskAdvance(s: string, out: string, i: nat, tail: string, out': string, k: nat, rest: string)
    requires MaskedSoFar(s, out, i, tail) && i + k <= |s|
    requires |out'| == |out| && out'[..i] == out[..i] && out'[i + k..] == out[i + k..]
    requires tail == out'[i..i + k] + rest
    ensures MaskedSoFar(s, out', i + k, rest)
  {
    assert out'[..i + k] == out'[..i] + out'[i..i + k];
    assert out[i + k..] == out[i..][k..];
    assert s[i + k..] == s[i..][k..];
  }

  /** Blank a backslash and the character it escapes. */
  method MaskEscape(s: string, out: array<char>, i: nat, quote: char) returns (next: nat)
    requires out.Length == |s| && i < |s| && s[i] == '\\' && IsQuote(quote)
    requires MaskedSoFar(s, out[..], i, MaskInside(s[i..], quote))
    modifies out
    ensures i < next <= |s| && MaskedSoFar(s, out[..], next, MaskInside(s[next..], quote))
  {
    ghost var was, tail := out[..], MaskInside(s[i..], quote);
    SuffixStep(s, i, 1);
    out[i] := ' ';
    if i + 1 < |s| {
      out[i + 1] := ' ';
      SuffixStep(s, i, 2);
      MaskAdvance(s, was, i, tail, out[..], 2, MaskInside(s[i + 2..], quote));
      next := i + 2;
    } else {
      MaskAdvance(s, was, i, tail, out[..], 1, []);
      next := i + 1;
    }
  }

  lemma BlankKeepsMask(s: string, out: string, i: nat, quote: char, out': string)
    requires i < |s| && s[i] != '\\' && s[i] != quote
    requires MaskedSoFar(s, out, i, MaskInside(s[i..], quote))
    requires |out'| == |out| && out' == out[i := ' ']
    ensures MaskedSoFar(s, out', i + 1, MaskInside(s[i + 1..], quote))
  {
    SuffixStep(s, i, 1);
    MaskAdvance(s, out, i, MaskInside(s[i..], quote), out', 1, MaskInside(s[i + 1..], quote));
  }

  lemma CloseKeepsMask(s: string, out: string, i: nat, quote: char)
    requires i < |s| && s[i] == quote && IsQuote(quote)
    requires MaskedSoFar(s, out, i, MaskInside(s[i..], quote))
    ensures MaskedSoFar(s, out, i + 1, Mask(s[i + 1..]))
  {
    SuffixStep(s, i, 1);
    MaskAdvance(s, out, i, MaskInside(s[i..], quote), out, 1, Mask(s[i + 1..]));
  }

  /** The inner loop: blank the literal's contents up to and past its closing quote. */
  method MaskSpan(s: string, out: array<char>, start: nat, quote: char) returns (i: nat)
    requires out.Length == |s| && start <= |s| && IsQuote(quote)
    requires MaskedSoFar(s, out[..], start, MaskInside(s[start..], quote))
    modifies out
    ensures start <= i <= |s| && (start < |s| ==> start < i)
    ensures MaskedSoFar(s, out[..], i, Mask(s[i..]))
  {
    i := start;
    while i < |s|
      invariant start <= i <= |s|
      invariant MaskedSoFar(s, out[..], i, MaskInside(s[i..], quote))
    {
      if s[i] == '\\' {
        i := MaskEscape(s, out, i, quote);
      } else if s[i] == quote {
        CloseKeepsMask(s, out[..], i, quote);
        i := i + 1;
        return;
      } else {
        ghost var was := out[..];
        out[i] := ' ';
        BlankKeepsMask(s, was, i, quote, out[..]);
        i := i + 1;
      }
    }
  }

  method MaskStringLiterals(s: string) returns (r: string)
    ensures r == Mask(s) && |r| == |s|
  {
    var out := new char[|s|](i requires 0 <= i < |s| => s[i]);
    assert out[..] == s;
    var i := 0;
    while i < |s|
      invariant 0 <= i <= |s| && out.Length == |s|
      invariant MaskedSoFar(s, out[..], i, Mask(s[i..]))
    {
      ghost var tail := Mask(s[i..]);
      SuffixStep(s, i, 1);
      if IsQuote(s[i]) {
        MaskAdvance(s, out[..], i, tail, out[..], 1, MaskInside(s[i + 1..], s[i]));
        i := MaskSpan(s, out, i + 1, s[i]);
      } else {
        MaskAdvance(s, out[..], i, tail, out[..], 1, Mask(s[i + 1..]));
        i := i + 1;
      }
    }
    r := out[..];
    assert r[..|s|] == r;
  }

  /** Masking a masked text changes nothing. */
  lemma {:induction false} MaskIdempotent(s: string)
    ensures Mask(Mask(s)) == Mask(s)
    decreases |s|
  {
    if s == [] {
    } else {
      if IsQuote(s[0]) { MaskInsideIdempotent(s[1..], s[0]); } else { MaskIdempotent(s[1..]); }
      assert Mask(s)[1..] == if IsQuote(s[0]) then MaskInside(s[1..], s[0]) else Mask(s[1..]);
    }
  }

  lemma {:induction false} SpaceStays(m: string, quote: char)
    requires IsQuote(quote)
    ensures MaskInside([' '] + m, quote) == [' '] + MaskInside(m, quote)
  {
    assert ([' '] + m)[1..] == m;
  }

  lemma {:induction false} QuoteStays(m: string, quote: char)
    requires IsQuote(quote)
    ensures MaskInside([quote] + m, quote) == [quote] + Mask(m)
  {
    assert ([quote] + m)[1..] == m;
  }

  lemma {:induction false} EscapeBlanked(s: string, quote: char)
    requires |s| > 1 && s[0] == '\\'
    ensures MaskInside(s, quote) == [' '] + ([' '] + MaskInside(s[2..], quote))
  {
  }

  lemma {:induction false} MaskInsideIdempotent(s: string, quote: char)
    requires IsQuote(quote)
    ensures MaskInside(MaskInside(s, quote), quote) == MaskInside(s, quote)
    decreases |s|
  {
    if s == [] {
    } else if s == ['\\'] {
      SpaceStays([], quote);
      assert [' '] + [] == [' '];
    } else if s[0] == '\\' {
      var m := MaskInside(s[2..], quote);
      MaskInsideIdempotent(s[2..], quote);
      EscapeBlanked(s, quote);
      SpaceStays(m, quote);
      SpaceStays([' '] + m, quote);
    } else if s[0] == quote {
      MaskIdempotent(s[1..]);
      QuoteStays(Mask(s[1..]), quote);
    } else {
      MaskInsideIdempotent(s[1..], quote);
      SpaceStays(MaskInside(s[1..], quote), quote);
    }
  }
}
