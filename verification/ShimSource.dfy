/** `generate_pep562_shim_source`: the printed facade, and the round trip through the parser. */
module ShimSource {
  import opened Sorting
  import opened ShimParser
  import opened ShimBlocks

  datatype Moved = Moved(name: string, sourceFile: string, destFile: string,
                         sourceClass: Option<string>, destClass: Option<string>)

  datatype Dest = Dest(mod: string, cls: Option<string>)

  /** An insertion-ordered dictionary. */
  datatype Dict<V> = Dict(keys: seq<string>, at: map<string, V>)

  function Empty<V>(): Dict<V> {
    Dict([], map[])
  }

  function Put<V>(d: Dict<V>, k: string, v: V): Dict<V> {
    Dict(if k in d.keys then d.keys else d.keys + [k], d.at[k := v])
  }

  ghost predicate Sound<V>(d: Dict<V>) {
    forall k :: k in d.keys <==> k in d.at
  }

  // ---- sorted() on strings

  function InsertName(x: string, xs: seq<string>): (r: seq<string>)
    ensures forall y :: y in r <==> y == x || y in xs
  {
    if xs == [] then [x]
    else
      assert forall y :: y in xs <==> y == xs[0] || y in xs[1..];
      if x == xs[0] then xs
      else if StringLess(x, xs[0]) then [x] + xs
      else [xs[0]] + InsertName(x, xs[1..])
  }

  function SortedNames(xs: seq<string>): (r: seq<string>)
    ensures forall y :: y in r <==> y in xs
  {
    if xs == [] then []
    else
      assert forall y :: y in xs <==> y == xs[0] || y in xs[1..];
      InsertName(xs[0], SortedNames(xs[1..]))
  }

  ghost predicate NamesIncrease(xs: seq<string>) {
    forall i, j :: 0 <= i < j < |xs| ==> StringLess(xs[i], xs[j])
  }

  lemma {:induction false} InsertNameIncreases(x: string, xs: seq<string>)
    requires NamesIncrease(xs)
    ensures NamesIncrease(InsertName(x, xs))
  {
    if xs == [] || x == xs[0] {
    } else {
      StringTotal(x, xs[0]);
      if StringLess(x, xs[0]) {
        forall j | 0 <= j < |xs| ensures StringLess(x, xs[j]) {
          if j > 0 { StringTransitive(x, xs[0], xs[j]); }
        }
      } else {
        InsertNameIncreases(x, xs[1..]);
        var rest := InsertName(x, xs[1..]);
        forall j | 0 <= j < |rest| ensures StringLess(xs[0], rest[j]) {
          assert rest[j] in rest;
        }
      }
    }
  }

  /** Sorted, and each name once. */
  lemma {:induction false} SortedNamesIncrease(xs: seq<string>)
    ensures NamesIncrease(SortedNames(xs))
  {
    if xs == [] {
    } else {
      SortedNamesIncrease(xs[1..]);
      InsertNameIncreases(xs[0], SortedNames(xs[1..]));
    }
  }

  // ---- paths to modules (`_path_to_module`)

  function SlashParts(p: string): (r: seq<string>)
    ensures |r| > 0
  {
    if p == [] then [""]
    else
      var rest := SlashParts(p[1..]);
      if p[0] == '/' || p[0] == '\\' then [""] + rest else [[p[0]] + rest[0]] + rest[1..]
  }

  function Dotted(parts: seq<string>): string {
    if parts == [] then "" else if |parts| == 1 then parts[0] else parts[0] + "." + Dotted(parts[1..])
  }

  /** The parts joined by dots, without the suffix of the last one. */
  function ModuleOfParts(parts: seq<string>): string {
    var n := |parts|;
    if n == 0 then ""
    else
      var last := parts[n - 1];
      if last == "__init__.py" then Dotted(parts[..n - 1])
      else if |last| >= 3 && last[|last| - 3..] == ".py" then Dotted(parts[..n - 1] + [last[..|last| - 3]])
      else Dotted(parts)
  }

  function ModuleOf(path: string, srcRoot: string): string {
    var all := SlashParts(path);
    ModuleOfParts(if all[0] == srcRoot then all[1..] else all)
  }

  // ---- partition into module-level and class-level shims

  datatype Shims = Shims(modules: Dict<string>, classes: Dict<Dict<Dest>>)

  function MembersOf(classes: Dict<Dict<Dest>>, cls: string): Dict<Dest> {
    if cls in classes.at then classes.at[cls] else Empty()
  }

  function AddShim(s: Shims, sym: Moved, facade: string, srcRoot: string): Shims {
    if sym.sourceFile != facade then s
    else if sym.sourceClass.None? then s.(modules := Put(s.modules, sym.name, ModuleOf(sym.destFile, srcRoot)))
    else
      var cls := sym.sourceClass.value;
      var dest := Dest(ModuleOf(sym.destFile, srcRoot), sym.destClass);
      s.(classes := Put(s.classes, cls, Put(MembersOf(s.classes, cls), sym.name, dest)))
  }

  /** The dictionaries after the first n symbols. */
  function ShimsOf(facade: string, moved: seq<Moved>, srcRoot: string, n: nat): Shims
    requires n <= |moved|
  {
    if n == 0 then Shims(Empty(), Empty())
    else AddShim(ShimsOf(facade, moved, srcRoot, n - 1), moved[n - 1], facade, srcRoot)
  }

  // ---- printed lines

  function HexDigit(n: int): char
    requires 0 <= n < 16
  {
    "0123456789abcdef"[n]
  }

  /** A character inside `repr`'s quotes. Beyond ASCII every character is taken as printable. */
  function ReprChar(c: char, quote: char): string {
    if c == quote || c == '\\' then ['\\', c]
    else if c == '\t' then "\\t"
    else if c == '\n' then "\\n"
    else if c == '\r' then "\\r"
    else if c < ' ' || c == '\U{7F}' then ['\\', 'x', HexDigit(c as int / 16), HexDigit(c as int % 16)]
    else [c]
  }

  function ReprChars(s: string, quote: char): string {
    if s == [] then [] else ReprChar(s[0], quote) + ReprChars(s[1..], quote)
  }

  /** `repr` of a text: double quotes only around one that has a single quote and no double one. */
  function Repr(s: string): string {
    var quote := if '\'' in s && '"' !in s then '"' else '\'';
    [quote] + ReprChars(s, quote) + [quote]
  }

  function ModuleRows(names: seq<string>, d: map<string, string>): seq<Row> {
    if names == [] then []
    else
      var m := if names[0] in d then d[names[0]] else "";
      [Row(names[0], " " + Repr(m) + ",")] + ModuleRows(names[1..], d)
  }

  function ClassValue(d: Dest): string {
    " (" + Repr(d.mod) + ", " + (if d.cls.Some? then Repr(d.cls.value) else "None") + "),"
  }

  function ClassRows(names: seq<string>, d: map<string, Dest>): seq<Row> {
    if names == [] then []
    else
      var v := if names[0] in d then d[names[0]] else Dest("", None);
      [Row(names[0], ClassValue(v))] + ClassRows(names[1..], d)
  }

  // Fixed lines, in short pieces.

  function Title(facadeModule: string): seq<string> {
    ["\"\"\"PEP 562 facade shim " + "for symbols moved out of " + facadeModule + ".",
     "",
     "Auto-generated by the " + "AST-equivalence gate " + "(issue #1541)."]
  }

  const PREAMBLE :=
    ["Do not edit by hand -- " + "regenerate with " + "`charlie ast-equivalence-" + "check`.",
     "\"\"\"",
     "",
     "import importlib"]

  function Header(facadeModule: string): seq<string> {
    Title(facadeModule) + PREAMBLE
  }

  const MODULE_INTRO := ["", "# Module-level re-exports " + "(PEP 562 __getattr__)."]

  const MODULE_HEAD :=
    ["",
     "",
     "def __getattr__(name):",
     "    \"\"\"Re-export moved " + "symbols from their new " + "modules (PEP 562).\"\"\""]

  const MODULE_BODY :=
    ["    if name in _REEXPORTS:",
     "        mod = importlib." + "import_module(" + "_REEXPORTS[name])",
     "        return " + "getattr(mod, name)",
     "    raise AttributeError(" + "f\"module {__name__!r} " + "has no attribute {name!r}\")"]

  function ClassIntro(cls: string): seq<string> {
    ["", "# Class-level facade " + "for members moved out of " + cls + "."]
  }

  function ClassHead(cls: string): seq<string> {
    ["",
     "",
     "class " + cls + ":",
     "    \"\"\"Facade for members " + "moved to other classes " + "(auto-generated).\"\"\"",
     ""]
  }

  function ClassLookup(cls: string): seq<string> {
    ["    def __getattr__(" + "self, name):",
     "        \"\"\"Re-export " + "moved members from " + "their new classes.\"\"\"",
     "        if name in " + "_CLS_REEXPORTS_" + cls + ":",
     "            dest_module, " + "dest_class = " + "_CLS_REEXPORTS_" + cls + "[name]"]
  }

  const CLASS_FETCH :=
    ["            mod = " + "importlib.import_module" + "(dest_module)",
     "            if dest_class " + "is not None:",
     "                return " + "getattr(getattr(mod, " + "dest_class), name)"]

  const CLASS_FALLBACK :=
    ["            return " + "getattr(mod, name)",
     "        raise AttributeError(" + "f\"{type(self).__name__!r} " + "object has no attribute " + "{name!r}\")"]

  const CLASS_BODY := CLASS_FETCH + CLASS_FALLBACK

  /** Each part starts with the blank line that the part before it ends with. */
  function ModulePart(d: Dict<string>): seq<string> {
    if d.keys == [] then []
    else MODULE_INTRO + (MappingLines("_REEXPORTS", ModuleRows(SortedNames(d.keys), d.at))
                         + (MODULE_HEAD + MODULE_BODY))
  }

  function ClassPart(cls: string, d: Dict<Dest>): seq<string> {
    ClassIntro(cls) + (MappingLines("_CLS_REEXPORTS_" + cls, ClassRows(SortedNames(d.keys), d.at))
                       + (ClassHead(cls) + (ClassLookup(cls) + CLASS_BODY)))
  }

  /** The parts of the first n classes. */
  function ClassParts(names: seq<string>, classes: Dict<Dict<Dest>>, n: nat): seq<string>
    requires n <= |names|
  {
    if n == 0 then [] else ClassParts(names, classes, n - 1) + ClassPart(names[n - 1], MembersOf(classes, names[n - 1]))
  }

  const NO_SYMBOLS := ["", "# No symbols moved " + "out of this module."]

  function EmptyPart(s: Shims): seq<string> {
    if s.modules.keys == [] && s.classes.keys == [] then NO_SYMBOLS else []
  }

  function ShimLines(facadeModule: string, s: Shims): seq<string> {
    Header(facadeModule) + (ModulePart(s.modules)
      + (ClassParts(SortedNames(s.classes.keys), s.classes, |SortedNames(s.classes.keys)|) + EmptyPart(s)))
  }

  /** `"\n".join(lines)` */
  function JoinLines(lines: seq<string>): string {
    if lines == [] then "" else if |lines| == 1 then lines[0] else lines[0] + ("\n" + JoinLines(lines[1..]))
  }

  /** The source text is every line of the facade, newline-terminated. */
  lemma {:induction false} JoinTerminated(lines: seq<string>)
    ensures JoinLines(lines + [""]) == Text(lines)
  {
    if lines == [] {
    } else {
      assert (lines + [""])[1..] == lines[1..] + [""];
      JoinTerminated(lines[1..]);
    }
  }

  lemma Regroup<T>(a: seq<T>, b: seq<T>, c: seq<T>, d: seq<T>)
    ensures ((a + b) + c) + d == a + (b + (c + d))
  {
  }

  method ClassLines(names: seq<string>, classes: Dict<Dict<Dest>>) returns (lines: seq<string>)
    ensures lines == ClassParts(names, classes, |names|)
  {
    lines := [];
    for k := 0 to |names|
      invariant lines == ClassParts(names, classes, k)
    {
      lines := lines + ClassPart(names[k], MembersOf(classes, names[k]));
    }
  }

  method GenerateShimSource(facade: string, moved: seq<Moved>, srcRoot: string) returns (source: string)
    ensures source == Text(ShimLines(ModuleOf(facade, srcRoot), ShimsOf(facade, moved, srcRoot, |moved|)))
  {
    var s := Shims(Empty(), Empty());
    for i := 0 to |moved|
      invariant s == ShimsOf(facade, moved, srcRoot, i)
    {
      s := AddShim(s, moved[i], facade, srcRoot);
    }
    var header, modules := Header(ModuleOf(facade, srcRoot)), ModulePart(s.modules);
    var classes := ClassLines(SortedNames(s.classes.keys), s.classes);
    var lines := ((header + modules) + classes) + EmptyPart(s);
    Regroup(header, modules, classes, EmptyPart(s));
    JoinTerminated(lines);
    source := JoinLines(lines + [""]);
  }
}
