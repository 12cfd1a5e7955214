/** The printed facade read back: every re-exported name leads to the module, and class, of its last move. */
module ShimValues {
  import opened Sorting
  import opened ShimParser
  import opened ShimBlocks
  import opened ShimSource
  import opened ShimRoundTrip
  import opened ShimPaths
  import opened ShimReader

  // ---- reading one mapping out of the lines of a module

  /** The pairs up to the closing brace. */
  function ReadRows(lines: seq<string>): Option<seq<Pair>> {
    if lines == [] then None
    else if lines[0] == "}" then Some([])
    else
      var row, rest := ReadRow(lines[0]), ReadRows(lines[1..]);
      if row.Some? && rest.Some? then Some([row.value] + rest.value) else None
  }

  /** The mapping whose opening line is `head`, if exactly one line is. */
  function ReadMapping(lines: seq<string>, head: string): Option<seq<Pair>> {
    if lines == [] then None
    else if lines[0] != head then ReadMapping(lines[1..], head)
    else if head in lines[1..] then None
    else ReadRows(lines[1..])
  }

  /** These lines hold the mapping, wherever they stand, or no line that could open it. */
  ghost predicate Gives(lines: seq<string>, head: string, read: Option<seq<Pair>>) {
    && SingleLines(lines)
    && (read.None? ==> head !in lines)
    && (read.Some? ==> head in lines)
    && (read.Some? ==> forall rest: seq<string> :: head !in rest ==> ReadMapping(lines + rest, head) == read)
  }

  lemma {:induction false} SkipLines(a: seq<string>, b: seq<string>, head: string)
    requires head !in a
    ensures ReadMapping(a + b, head) == ReadMapping(b, head)
  {
    if a == [] {
      assert a + b == b;
    } else {
      assert (a + b)[1..] == a[1..] + b;
      SkipLines(a[1..], b, head);
    }
  }

  lemma ReadOnTheLeft(a: seq<string>, b: seq<string>, rest: seq<string>, head: string, r: Option<seq<Pair>>)
    requires r.Some? && Gives(a, head, r) && head !in b && head !in rest
    ensures ReadMapping((a + b) + rest, head) == r
  {
    Reassociate(a, b, rest);
    assert head !in b + rest;
  }

  lemma ReadOnTheRight(a: seq<string>, b: seq<string>, rest: seq<string>, head: string, t: Option<seq<Pair>>)
    requires t.Some? && Gives(b, head, t) && head !in a && head !in rest
    ensures ReadMapping((a + b) + rest, head) == t
  {
    Reassociate(a, b, rest);
    SkipLines(a, b + rest, head);
  }

  lemma GivesAppend(a: seq<string>, r: Option<seq<Pair>>, b: seq<string>, t: Option<seq<Pair>>, head: string)
    requires Gives(a, head, r) && Gives(b, head, t) && (r.None? || t.None?)
    ensures Gives(a + b, head, if r.Some? then r else t)
  {
    forall rest: seq<string> | head !in rest
      ensures r.Some? ==> ReadMapping((a + b) + rest, head) == r
      ensures t.Some? ==> ReadMapping((a + b) + rest, head) == t
    {
      if r.Some? { ReadOnTheLeft(a, b, rest, head, r); }
      if t.Some? { ReadOnTheRight(a, b, rest, head, t); }
    }
  }

  /** `_REEXPORTS = {` is not a quiet line. */
  lemma HeadIsLoud(name: string)
    requires Identifier(name)
    ensures !Quiet(name + " = {")
  {
    MappingMatches(name, "\n" + "");
    assert name + (" = {" + ("\n" + "")) == (name + " = {") + ("\n" + "");
    if Quiet(name + " = {") { QuietDoesNotMatch(name + " = {", ""); }
  }

  lemma QuietGives(lines: seq<string>, name: string)
    requires AllQuiet(lines) && Identifier(name)
    ensures Gives(lines, name + " = {", None)
  {
    HeadIsLoud(name);
  }

  // ---- one printed mapping

  ghost predicate RowReads(row: Row, pair: Pair) {
    && NoNewline(RowLine(row)) && ReadRow(RowLine(row)) == Some(pair)
  }

  ghost predicate RowsReadAs(rows: seq<Row>, pairs: seq<Pair>) {
    |rows| == |pairs| && forall i :: 0 <= i < |rows| ==> RowReads(rows[i], pairs[i])
  }

  lemma RowStart(row: Row)
    ensures RowLine(row) != [] && RowLine(row)[0] == ' '
  {
  }

  lemma OneRowRead(line: string, pair: Pair, more: seq<string>, pairs: seq<Pair>)
    requires ReadRow(line) == Some(pair) && line != [] && line[0] == ' ' && ReadRows(more) == Some(pairs)
    ensures ReadRows([line] + more) == Some([pair] + pairs)
  {
    assert ([line] + more)[1..] == more;
  }

  lemma {:induction false} RowsRead(rows: seq<Row>, pairs: seq<Pair>, rest: seq<string>)
    requires RowsReadAs(rows, pairs)
    ensures ReadRows(RowLines(rows) + (["}"] + rest)) == Some(pairs)
  {
    if rows == [] {
      BraceEnds(rest);
      assert RowLines(rows) + (["}"] + rest) == ["}"] + rest;
    } else {
      var more := RowLines(rows[1..]) + (["}"] + rest);
      assert RowReads(rows[0], pairs[0]);
      RowsRead(rows[1..], pairs[1..], rest);
      RowStart(rows[0]);
      OneRowRead(RowLine(rows[0]), pairs[0], more, pairs[1..]);
      Reassociate([RowLine(rows[0])], RowLines(rows[1..]), ["}"] + rest);
      assert pairs == [pairs[0]] + pairs[1..];
    }
  }

  lemma BraceEnds(rest: seq<string>)
    ensures ReadRows(["}"] + rest) == Some([])
  {
  }

  lemma {:induction false} RowLinesStart(rows: seq<Row>, pairs: seq<Pair>)
    requires RowsReadAs(rows, pairs)
    ensures forall i :: 0 <= i < |rows| ==>
      NoNewline(RowLines(rows)[i]) && RowLines(rows)[i] != [] && RowLines(rows)[i][0] == ' '
  {
    if rows == [] {
    } else {
      assert RowReads(rows[0], pairs[0]);
      RowStart(rows[0]);
      RowLinesStart(rows[1..], pairs[1..]);
      assert RowLines(rows) == [RowLine(rows[0])] + RowLines(rows[1..]);
    }
  }

  lemma HeadStart(name: string)
    requires Identifier(name)
    ensures IsWord((name + " = {")[0]) && NoNewline(name + " = {")
  {
    IdentifierIsLine(name);
  }

  /** No line of a printed mapping but its first opens a mapping. */
  lemma TailIsPlain(rows: seq<Row>, pairs: seq<Pair>, name: string)
    requires Identifier(name) && RowsReadAs(rows, pairs)
    ensures SingleLines(RowLines(rows) + ["}"]) && name + " = {" !in RowLines(rows) + ["}"]
  {
    RowLinesStart(rows, pairs);
    HeadStart(name);
  }

  lemma HeadsDiffer(name: string, other: string)
    requires name != other
    ensures name + " = {" != other + " = {"
  {
    assert (name + " = {")[..|name + " = {"| - 4] == name && (other + " = {")[..|other + " = {"| - 4] == other;
  }

  lemma OwnMapping(head: string, rows: seq<Row>, pairs: seq<Pair>, rest: seq<string>)
    requires RowsReadAs(rows, pairs) && head !in RowLines(rows) + ["}"] && head !in rest
    ensures ReadMapping(([head] + (RowLines(rows) + ["}"])) + rest, head) == Some(pairs)
  {
    var tail := RowLines(rows) + ["}"];
    RowsRead(rows, pairs, rest);
    Reassociate([head], tail, rest);
    Reassociate(RowLines(rows), ["}"], rest);
    HeadRead(head, tail + rest);
  }

  lemma HeadRead(head: string, more: seq<string>)
    requires head !in more
    ensures ReadMapping([head] + more, head) == ReadRows(more)
  {
    assert ([head] + more)[1..] == more;
  }

  /** A printed mapping is read back by its own name, and holds no line that opens another. */
  lemma MappingGives(name: string, rows: seq<Row>, pairs: seq<Pair>, wanted: string)
    requires Identifier(name) && Identifier(wanted) && RowsReadAs(rows, pairs)
    ensures Gives(MappingLines(name, rows), wanted + " = {", if name == wanted then Some(pairs) else None)
  {
    var head, tail := wanted + " = {", RowLines(rows) + ["}"];
    TailIsPlain(rows, pairs, wanted);
    HeadStart(name);
    if name == wanted {
      forall rest: seq<string> | head !in rest ensures ReadMapping(([head] + tail) + rest, head) == Some(pairs) {
        OwnMapping(head, rows, pairs, rest);
      }
    } else {
      HeadsDiffer(name, wanted);
    }
  }

  // ---- what the dictionaries hold

  /** The symbol was moved out of the facade, from the given class or from module level. */
  predicate MovedFrom(sym: Moved, facade: string, cls: Option<string>) {
    sym.sourceFile == facade && sym.sourceClass == cls
  }

  /** Entry i is the last of the first n that moves this name out of the class, or the module level. */
  predicate LastMove(moved: seq<Moved>, facade: string, cls: Option<string>, name: string, n: nat, i: nat) {
    && i < n <= |moved| && moved[i].name == name && MovedFrom(moved[i], facade, cls)
    && forall j :: i < j < n ==> !(moved[j].name == name && MovedFrom(moved[j], facade, cls))
  }

  ghost predicate KeepsLast<V>(d: Dict<V>, moved: seq<Moved>, facade: string, cls: Option<string>, n: nat,
                               value: Moved -> V)
    requires n <= |moved|
  {
    && Sound(d)
    && (forall k :: k in d.at ==>
          exists i: nat :: LastMove(moved, facade, cls, k, n, i) && d.at[k] == value(moved[i]))
    && (forall i: nat :: i < n && MovedFrom(moved[i], facade, cls) ==> moved[i].name in d.at)
  }

  lemma LastStays(moved: seq<Moved>, facade: string, cls: Option<string>, k: string, n: nat, i: nat)
    requires n < |moved| && LastMove(moved, facade, cls, k, n, i)
    requires !(moved[n].name == k && MovedFrom(moved[n], facade, cls))
    ensures LastMove(moved, facade, cls, k, n + 1, i)
  {
  }

  lemma KeptByOthers<V>(d: Dict<V>, moved: seq<Moved>, facade: string, cls: Option<string>, n: nat, value: Moved -> V)
    requires n < |moved| && KeepsLast(d, moved, facade, cls, n, value) && !MovedFrom(moved[n], facade, cls)
    ensures KeepsLast(d, moved, facade, cls, n + 1, value)
  {
    forall k | k in d.at
      ensures exists i: nat :: LastMove(moved, facade, cls, k, n + 1, i) && d.at[k] == value(moved[i])
    {
      var i: nat :| LastMove(moved, facade, cls, k, n, i) && d.at[k] == value(moved[i]);
      LastStays(moved, facade, cls, k, n, i);
    }
  }

  lemma KeptByPut<V>(d: Dict<V>, moved: seq<Moved>, facade: string, cls: Option<string>, n: nat, value: Moved -> V)
    requires n < |moved| && KeepsLast(d, moved, facade, cls, n, value) && MovedFrom(moved[n], facade, cls)
    ensures KeepsLast(Put(d, moved[n].name, value(moved[n])), moved, facade, cls, n + 1, value)
  {
    var more := Put(d, moved[n].name, value(moved[n]));
    forall k | k in more.at
      ensures exists i: nat :: LastMove(moved, facade, cls, k, n + 1, i) && more.at[k] == value(moved[i])
    {
      if k == moved[n].name {
        assert LastMove(moved, facade, cls, k, n + 1, n);
      } else {
        var i: nat :| LastMove(moved, facade, cls, k, n, i) && d.at[k] == value(moved[i]);
        LastStays(moved, facade, cls, k, n, i);
      }
    }
  }

  function ToModule(srcRoot: string): Moved -> string {
    (sym: Moved) => ModuleOf(sym.destFile, srcRoot)
  }

  function ToDest(srcRoot: string): Moved -> Dest {
    (sym: Moved) => Dest(ModuleOf(sym.destFile, srcRoot), sym.destClass)
  }

  ghost predicate ClassKept(d: Dict<Dest>, facade: string, moved: seq<Moved>, srcRoot: string, cls: string, n: nat)
    requires n <= |moved|
  {
    && KeepsLast(d, moved, facade, Some(cls), n, ToDest(srcRoot))
    && exists i: nat :: i < n && MovedFrom(moved[i], facade, Some(cls))
  }

  ghost predicate AllKept(at: map<string, Dict<Dest>>, facade: string, moved: seq<Moved>, srcRoot: string, n: nat)
    requires n <= |moved|
  {
    forall c :: c in at ==> ClassKept(at[c], facade, moved, srcRoot, c, n)
  }

  predicate AllListed(classes: Dict<Dict<Dest>>, facade: string, moved: seq<Moved>, n: nat)
    requires n <= |moved|
  {
    forall i: nat :: i < n && moved[i].sourceFile == facade && moved[i].sourceClass.Some? ==>
      moved[i].sourceClass.value in classes.at
  }

  ghost predicate ClassesKept(classes: Dict<Dict<Dest>>, facade: string, moved: seq<Moved>, srcRoot: string, n: nat)
    requires n <= |moved|
  {
    Sound(classes) && AllKept(classes.at, facade, moved, srcRoot, n) && AllListed(classes, facade, moved, n)
  }

  lemma ClassUnchanged(d: Dict<Dest>, facade: string, moved: seq<Moved>, srcRoot: string, cls: string, n: nat)
    requires n < |moved| && ClassKept(d, facade, moved, srcRoot, cls, n) && !MovedFrom(moved[n], facade, Some(cls))
    ensures ClassKept(d, facade, moved, srcRoot, cls, n + 1)
  {
    KeptByOthers(d, moved, facade, Some(cls), n, ToDest(srcRoot));
    var i: nat :| i < n && MovedFrom(moved[i], facade, Some(cls));
  }

  lemma ClassGrown(classes: Dict<Dict<Dest>>, facade: string, moved: seq<Moved>, srcRoot: string, n: nat, cls: string,
                   dest: Dest)
    requires n < |moved| && ClassesKept(classes, facade, moved, srcRoot, n)
    requires MovedFrom(moved[n], facade, Some(cls)) && dest == ToDest(srcRoot)(moved[n])
    ensures ClassKept(Put(MembersOf(classes, cls), moved[n].name, dest), facade, moved, srcRoot, cls, n + 1)
  {
    if cls in classes.at { assert ClassKept(classes.at[cls], facade, moved, srcRoot, cls, n); }
    KeptByPut(MembersOf(classes, cls), moved, facade, Some(cls), n, ToDest(srcRoot));
  }

  lemma OthersKept(at: map<string, Dict<Dest>>, facade: string, moved: seq<Moved>, srcRoot: string, n: nat)
    requires n < |moved| && AllKept(at, facade, moved, srcRoot, n)
    ensures forall c :: c in at && !MovedFrom(moved[n], facade, Some(c)) ==>
      ClassKept(at[c], facade, moved, srcRoot, c, n + 1)
  {
    forall c | c in at && !MovedFrom(moved[n], facade, Some(c))
      ensures ClassKept(at[c], facade, moved, srcRoot, c, n + 1)
    {
      ClassUnchanged(at[c], facade, moved, srcRoot, c, n);
    }
  }

  lemma ListedByPut(classes: Dict<Dict<Dest>>, facade: string, moved: seq<Moved>, n: nat, cls: string,
                    members: Dict<Dest>)
    requires n < |moved| && AllListed(classes, facade, moved, n) && MovedFrom(moved[n], facade, Some(cls))
    ensures AllListed(Put(classes, cls, members), facade, moved, n + 1)
  {
  }

  lemma KeptInMap(at: map<string, Dict<Dest>>, facade: string, moved: seq<Moved>, srcRoot: string, n: nat, cls: string,
                  members: Dict<Dest>)
    requires n <= |moved| && ClassKept(members, facade, moved, srcRoot, cls, n)
    requires forall c :: c in at && c != cls ==> ClassKept(at[c], facade, moved, srcRoot, c, n)
    ensures AllKept(at[cls := members], facade, moved, srcRoot, n)
  {
  }

  lemma ClassesStep(classes: Dict<Dict<Dest>>, facade: string, moved: seq<Moved>, srcRoot: string, n: nat, cls: string)
    requires n < |moved| && ClassesKept(classes, facade, moved, srcRoot, n) && MovedFrom(moved[n], facade, Some(cls))
    ensures ClassesKept(Put(classes, cls, Put(MembersOf(classes, cls), moved[n].name, ToDest(srcRoot)(moved[n]))),
                        facade, moved, srcRoot, n + 1)
  {
    var dest := ToDest(srcRoot)(moved[n]);
    var members := Put(MembersOf(classes, cls), moved[n].name, dest);
    ClassGrown(classes, facade, moved, srcRoot, n, cls, dest);
    OthersKept(classes.at, facade, moved, srcRoot, n);
    KeptInMap(classes.at, facade, moved, srcRoot, n + 1, cls, members);
    ListedByPut(classes, facade, moved, n, cls, members);
  }

  lemma ModulesAfter(s: Shims, facade: string, moved: seq<Moved>, srcRoot: string, n: nat)
    requires n < |moved| && KeepsLast(s.modules, moved, facade, None, n, ToModule(srcRoot))
    ensures KeepsLast(AddShim(s, moved[n], facade, srcRoot).modules, moved, facade, None, n + 1, ToModule(srcRoot))
  {
    if MovedFrom(moved[n], facade, None) {
      KeptByPut(s.modules, moved, facade, None, n, ToModule(srcRoot));
    } else {
      KeptByOthers(s.modules, moved, facade, None, n, ToModule(srcRoot));
    }
  }

  lemma ClassesAfter(s: Shims, facade: string, moved: seq<Moved>, srcRoot: string, n: nat)
    requires n < |moved| && ClassesKept(s.classes, facade, moved, srcRoot, n)
    ensures ClassesKept(AddShim(s, moved[n], facade, srcRoot).classes, facade, moved, srcRoot, n + 1)
  {
    var sym := moved[n];
    if sym.sourceFile != facade || sym.sourceClass.None? {
      OthersKept(s.classes.at, facade, moved, srcRoot, n);
    } else {
      ClassesStep(s.classes, facade, moved, srcRoot, n, sym.sourceClass.value);
    }
  }

  ghost predicate ShimsKept(s: Shims, facade: string, moved: seq<Moved>, srcRoot: string, n: nat)
    requires n <= |moved|
  {
    && KeepsLast(s.modules, moved, facade, None, n, ToModule(srcRoot))
    && ClassesKept(s.classes, facade, moved, srcRoot, n)
  }

  lemma ShimsAfter(s: Shims, facade: string, moved: seq<Moved>, srcRoot: string, n: nat)
    requires n < |moved| && ShimsKept(s, facade, moved, srcRoot, n)
    ensures ShimsKept(AddShim(s, moved[n], facade, srcRoot), facade, moved, srcRoot, n + 1)
  {
    ModulesAfter(s, facade, moved, srcRoot, n);
    ClassesAfter(s, facade, moved, srcRoot, n);
  }

  lemma NothingKept(facade: string, moved: seq<Moved>, srcRoot: string)
    ensures ShimsKept(Shims(Empty(), Empty()), facade, moved, srcRoot, 0)
  {
  }

  predicate SymbolKeeps(facade: string, moved: seq<Moved>, srcRoot: string, kept: (Shims, nat) -> bool, s: Shims,
                        i: nat)
    requires i < |moved|
  {
    kept(s, i) ==> kept(AddShim(s, moved[i], facade, srcRoot), i + 1)
  }

  /** What every symbol keeps holds of the dictionaries after any number of them. */
  lemma {:induction false} KeptByShims(facade: string, moved: seq<Moved>, srcRoot: string, n: nat,
                                       kept: (Shims, nat) -> bool)
    requires n <= |moved| && kept(Shims(Empty(), Empty()), 0)
    requires forall s, i: nat :: i < |moved| ==> SymbolKeeps(facade, moved, srcRoot, kept, s, i)
    ensures kept(ShimsOf(facade, moved, srcRoot, n), n)
  {
    if n == 0 {
    } else {
      KeptByShims(facade, moved, srcRoot, n - 1, kept);
      assert SymbolKeeps(facade, moved, srcRoot, kept, ShimsOf(facade, moved, srcRoot, n - 1), n - 1);
    }
  }

  ghost function Keeping(facade: string, moved: seq<Moved>, srcRoot: string): (Shims, nat) -> bool {
    (s: Shims, i: nat) => i <= |moved| && ShimsKept(s, facade, moved, srcRoot, i)
  }

  lemma KeepingStep(facade: string, moved: seq<Moved>, srcRoot: string, s: Shims, i: nat)
    requires i < |moved| && Keeping(facade, moved, srcRoot)(s, i)
    ensures Keeping(facade, moved, srcRoot)(AddShim(s, moved[i], facade, srcRoot), i + 1)
  {
    ShimsAfter(s, facade, moved, srcRoot, i);
  }

  /** The dictionaries after any number of symbols send every name to the destination of its last move. */
  lemma {:induction false} ShimsKeepLast(facade: string, moved: seq<Moved>, srcRoot: string, n: nat)
    requires n <= |moved|
    ensures ShimsKept(ShimsOf(facade, moved, srcRoot, n), facade, moved, srcRoot, n)
  {
    var kept := Keeping(facade, moved, srcRoot);
    NothingKept(facade, moved, srcRoot);
    forall s, i: nat | i < |moved| ensures SymbolKeeps(facade, moved, srcRoot, kept, s, i) {
      if kept(s, i) { KeepingStep(facade, moved, srcRoot, s, i); }
    }
    KeptByShims(facade, moved, srcRoot, n, kept);
  }

  // ---- the printed rows

  ghost function ModulePairs(names: seq<string>, d: map<string, string>): (r: seq<Pair>)
    requires forall k :: k in names ==> k in d
    ensures |r| == |names| && forall i :: 0 <= i < |r| ==> r[i] == Pair(names[i], Module(d[names[i]]))
  {
    seq(|names|, i requires 0 <= i < |names| => Pair(names[i], Module(d[names[i]])))
  }

  ghost function ClassPairs(names: seq<string>, d: map<string, Dest>): (r: seq<Pair>)
    requires forall k :: k in names ==> k in d
    ensures |r| == |names|
    ensures forall i :: 0 <= i < |r| ==> r[i] == Pair(names[i], Member(d[names[i]].mod, d[names[i]].cls))
  {
    seq(|names|, i requires 0 <= i < |names| => Pair(names[i], Member(d[names[i]].mod, d[names[i]].cls)))
  }

  lemma LinesAppend(a: string, b: string)
    requires NoNewline(a) && NoNewline(b)
    ensures NoNewline(a + b)
  {
  }

  lemma {:induction false} ReprIsLine(s: string)
    ensures NoNewline(Repr(s))
  {
    var quote := if '\'' in s && '"' !in s then '"' else '\'';
    ReprCharsAreLine(s, quote);
    LinesAppend([quote], ReprChars(s, quote));
    LinesAppend([quote] + ReprChars(s, quote), [quote]);
  }

  lemma {:induction false} ReprCharsAreLine(s: string, quote: char)
    requires quote == '\'' || quote == '"'
    ensures NoNewline(ReprChars(s, quote))
  {
    if s == [] {
    } else {
      ReprCharIsLine(s[0], quote);
      ReprCharsAreLine(s[1..], quote);
      LinesAppend(ReprChar(s[0], quote), ReprChars(s[1..], quote));
    }
  }

  lemma ReprCharIsLine(c: char, quote: char)
    requires quote == '\'' || quote == '"'
    ensures NoNewline(ReprChar(c, quote))
  {
    if c < ' ' || c == '\U{7F}' {
      HexIsPlain(c as int / 16);
      HexIsPlain(c as int % 16);
    }
  }

  lemma RowIsLine(name: string, value: string)
    requires Identifier(name) && NoNewline(value)
    ensures NoNewline(RowLine(Row(name, " " + value)))
  {
    IdentifierIsLine(name);
    RowIs(name, value);
    LinesAppend(": ", value);
    LinesAppend("'", ": " + value);
    LinesAppend(name, "'" + (": " + value));
    LinesAppend("'", name + ("'" + (": " + value)));
    LinesAppend("    ", "'" + (name + ("'" + (": " + value))));
  }

  lemma ModuleRowReads(name: string, mod: string)
    requires Identifier(name)
    ensures RowReads(Row(name, " " + Repr(mod) + ","), Pair(name, Module(mod)))
  {
    Reassociate(" ", Repr(mod), ",");
    ReprIsLine(mod);
    LinesAppend(Repr(mod), ",");
    RowIsLine(name, Repr(mod) + ",");
    ModuleRead(mod);
    RowRead(name, Repr(mod) + ",", Module(mod));
  }

  lemma ClassRowReads(name: string, d: Dest)
    requires Identifier(name)
    ensures RowReads(Row(name, ClassValue(d)), Pair(name, Member(d.mod, d.cls)))
  {
    var cls := if d.cls.Some? then Repr(d.cls.value) else "None";
    var value := "(" + (Repr(d.mod) + (", " + (cls + "),")));
    ClassValueIs(d.mod, cls);
    ReprIsLine(d.mod);
    if d.cls.Some? { ReprIsLine(d.cls.value); }
    LinesAppend(cls, "),");
    LinesAppend(", ", cls + "),");
    LinesAppend(Repr(d.mod), ", " + (cls + "),"));
    LinesAppend("(", Repr(d.mod) + (", " + (cls + "),")));
    RowIsLine(name, value);
    PairRead(d);
    RowRead(name, value, Member(d.mod, d.cls));
  }

  lemma ClassValueIs(mod: string, cls: string)
    ensures " (" + Repr(mod) + ", " + cls + ")," == " " + ("(" + (Repr(mod) + (", " + (cls + "),"))))
  {
    FlatValue(Repr(mod), cls);
  }

  lemma FlatValue(a: string, b: string)
    ensures " (" + a + ", " + b + ")," == " " + ("(" + (a + (", " + (b + "),"))))
  {
  }

  lemma {:induction false} ModuleRowAt(names: seq<string>, d: map<string, string>, i: nat)
    requires forall k :: k in names ==> k in d
    ensures |ModuleRows(names, d)| == |names|
    ensures i < |names| ==> ModuleRows(names, d)[i] == Row(names[i], " " + Repr(d[names[i]]) + ",")
  {
    if names == [] {
    } else {
      ModuleRowAt(names[1..], d, if i == 0 then 0 else i - 1);
    }
  }

  lemma ModuleRowsRead(names: seq<string>, d: map<string, string>)
    requires forall k :: k in names ==> k in d && Identifier(k)
    ensures RowsReadAs(ModuleRows(names, d), ModulePairs(names, d))
  {
    var rows, pairs := ModuleRows(names, d), ModulePairs(names, d);
    ModuleRowAt(names, d, 0);
    forall i | 0 <= i < |rows| ensures RowReads(rows[i], pairs[i]) {
      ModuleRowAt(names, d, i);
      ModuleRowReads(names[i], d[names[i]]);
    }
  }

  lemma {:induction false} ClassRowAt(names: seq<string>, d: map<string, Dest>, i: nat)
    requires forall k :: k in names ==> k in d
    ensures |ClassRows(names, d)| == |names|
    ensures i < |names| ==> ClassRows(names, d)[i] == Row(names[i], ClassValue(d[names[i]]))
  {
    if names == [] {
    } else {
      ClassRowAt(names[1..], d, if i == 0 then 0 else i - 1);
    }
  }

  lemma ClassRowsRead(names: seq<string>, d: map<string, Dest>)
    requires forall k :: k in names ==> k in d && Identifier(k)
    ensures RowsReadAs(ClassRows(names, d), ClassPairs(names, d))
  {
    var rows, pairs := ClassRows(names, d), ClassPairs(names, d);
    ClassRowAt(names, d, 0);
    forall i | 0 <= i < |rows| ensures RowReads(rows[i], pairs[i]) {
      ClassRowAt(names, d, i);
      ClassRowReads(names[i], d[names[i]]);
    }
  }

  // ---- the parts of the facade

  lemma MappingBetween(intro: seq<string>, name: string, rows: seq<Row>, pairs: seq<Pair>, tail: seq<string>,
                       wanted: string)
    requires AllQuiet(intro) && AllQuiet(tail)
    requires Identifier(name) && Identifier(wanted) && RowsReadAs(rows, pairs)
    ensures Gives(intro + (MappingLines(name, rows) + tail), wanted + " = {",
                  if name == wanted then Some(pairs) else None)
  {
    var head, read := wanted + " = {", if name == wanted then Some(pairs) else None;
    QuietGives(intro, wanted);
    QuietGives(tail, wanted);
    MappingGives(name, rows, pairs, wanted);
    GivesAppend(MappingLines(name, rows), read, tail, None, head);
    GivesAppend(intro, None, MappingLines(name, rows) + tail, read, head);
  }

  lemma ModulePartGives(d: Dict<string>, wanted: string)
    requires Sound(d) && Identifier(wanted) && forall k :: k in d.at ==> Identifier(k)
    ensures Gives(ModulePart(d), wanted + " = {",
                  if d.keys != [] && wanted == "_REEXPORTS" then Some(ModulePairs(SortedNames(d.keys), d.at)) else None)
  {
    if d.keys == [] {
      QuietGives([], wanted);
    } else {
      var names := SortedNames(d.keys);
      ModuleRowsRead(names, d.at);
      ModuleIntroQuiet();
      ModuleHeadQuiet();
      ModuleBodyQuiet();
      AllQuietAppend(MODULE_HEAD, MODULE_BODY);
      MappingNameFits();
      MappingBetween(MODULE_INTRO, "_REEXPORTS", ModuleRows(names, d.at), ModulePairs(names, d.at),
                     MODULE_HEAD + MODULE_BODY, wanted);
    }
  }

  lemma ClassNameFits(cls: string)
    requires Identifier(cls)
    ensures Identifier("_CLS_REEXPORTS_" + cls) && "_CLS_REEXPORTS_" + cls != "_REEXPORTS"
  {
    var name := "_CLS_REEXPORTS_" + cls;
    forall i | 0 <= i < |name| ensures IsWord(name[i]) {
      if i >= 15 { assert name[i] == cls[i - 15]; }
    }
    assert name[1] == 'C' && "_REEXPORTS"[1] == 'R';
  }

  lemma ClassPartGives(cls: string, d: Dict<Dest>, wanted: string)
    requires Sound(d) && Identifier(cls) && Identifier(wanted) && forall k :: k in d.at ==> Identifier(k)
    ensures Gives(ClassPart(cls, d), wanted + " = {",
                  if "_CLS_REEXPORTS_" + cls == wanted then Some(ClassPairs(SortedNames(d.keys), d.at)) else None)
  {
    var names := SortedNames(d.keys);
    ClassRowsRead(names, d.at);
    ClassIntroQuiet(cls);
    ClassHeadQuiet(cls);
    ClassLookupQuiet(cls);
    ClassBodyQuiet();
    AllQuietAppend(ClassLookup(cls), CLASS_BODY);
    AllQuietAppend(ClassHead(cls), ClassLookup(cls) + CLASS_BODY);
    ClassNameFits(cls);
    MappingBetween(ClassIntro(cls), "_CLS_REEXPORTS_" + cls, ClassRows(names, d.at), ClassPairs(names, d.at),
                   ClassHead(cls) + (ClassLookup(cls) + CLASS_BODY), wanted);
  }

  ghost predicate ClassesSound(classes: Dict<Dict<Dest>>) {
    forall c :: c in classes.at ==>
      Identifier(c) && Sound(classes.at[c]) && (forall k :: k in classes.at[c].at ==> Identifier(k))
  }

  lemma ClassHeadsDiffer(a: string, b: string)
    requires a != b
    ensures "_CLS_REEXPORTS_" + a != "_CLS_REEXPORTS_" + b
  {
    assert ("_CLS_REEXPORTS_" + a)[15..] == a && ("_CLS_REEXPORTS_" + b)[15..] == b;
  }

  lemma NotTwice(names: seq<string>, n: nat, cls: string)
    requires n < |names| && NamesIncrease(names)
    ensures cls in names[..n + 1] <==> cls in names[..n] || cls == names[n]
    ensures cls in names[..n] ==> cls != names[n]
  {
    TakeStep(names, n);
    if cls in names[..n] {
      var i :| 0 <= i < n && names[..n][i] == cls;
      assert StringLess(names[i], names[n]);
      StringIrreflexive(cls);
    }
  }

  lemma OneClassGives(classes: Dict<Dict<Dest>>, name: string, cls: string, pairs: seq<Pair>)
    requires ClassesSound(classes) && name in classes.at && Identifier(cls)
    requires cls in classes.at ==> pairs == ClassPairs(SortedNames(classes.at[cls].keys), classes.at[cls].at)
    ensures Gives(ClassPart(name, MembersOf(classes, name)), "_CLS_REEXPORTS_" + cls + " = {",
                  if name == cls then Some(pairs) else None)
  {
    ClassNameFits(cls);
    ClassPartGives(name, classes.at[name], "_CLS_REEXPORTS_" + cls);
    if name != cls { ClassHeadsDiffer(name, cls); }
  }

  lemma OneMoreGives(parts: seq<string>, part: seq<string>, names: seq<string>, n: nat, cls: string, pairs: seq<Pair>,
                     head: string)
    requires n < |names| && NamesIncrease(names)
    requires Gives(parts, head, if cls in names[..n] then Some(pairs) else None)
    requires Gives(part, head, if names[n] == cls then Some(pairs) else None)
    ensures Gives(parts + part, head, if cls in names[..n + 1] then Some(pairs) else None)
  {
    NotTwice(names, n, cls);
    GivesAppend(parts, if cls in names[..n] then Some(pairs) else None,
                part, if names[n] == cls then Some(pairs) else None, head);
  }

  predicate PartKeeps(names: seq<string>, classes: Dict<Dict<Dest>>, kept: (seq<string>, nat) -> bool,
                      parts: seq<string>, i: nat)
    requires i < |names|
  {
    kept(parts, i) ==> kept(parts + ClassPart(names[i], MembersOf(classes, names[i])), i + 1)
  }

  /** What every class part keeps holds of the parts of any number of classes. */
  lemma {:induction false} KeptByParts(names: seq<string>, classes: Dict<Dict<Dest>>, n: nat,
                                       kept: (seq<string>, nat) -> bool)
    requires n <= |names| && kept([], 0)
    requires forall parts, i: nat :: i < |names| ==> PartKeeps(names, classes, kept, parts, i)
    ensures kept(ClassParts(names, classes, n), n)
  {
    if n == 0 {
    } else {
      KeptByParts(names, classes, n - 1, kept);
      assert PartKeeps(names, classes, kept, ClassParts(names, classes, n - 1), n - 1);
    }
  }

  ghost function Giving(names: seq<string>, cls: string, pairs: seq<Pair>, head: string): (seq<string>, nat) -> bool {
    (parts: seq<string>, i: nat) =>
      i <= |names| && Gives(parts, head, if cls in names[..i] then Some(pairs) else None)
  }

  lemma GivingStep(names: seq<string>, classes: Dict<Dict<Dest>>, cls: string, pairs: seq<Pair>, parts: seq<string>,
                   i: nat)
    requires ClassesSound(classes) && i < |names| && Identifier(cls) && NamesIncrease(names) && names[i] in classes.at
    requires cls in classes.at ==> pairs == ClassPairs(SortedNames(classes.at[cls].keys), classes.at[cls].at)
    requires Giving(names, cls, pairs, "_CLS_REEXPORTS_" + cls + " = {")(parts, i)
    ensures Giving(names, cls, pairs, "_CLS_REEXPORTS_" + cls + " = {")
      (parts + ClassPart(names[i], MembersOf(classes, names[i])), i + 1)
  {
    OneClassGives(classes, names[i], cls, pairs);
    OneMoreGives(parts, ClassPart(names[i], MembersOf(classes, names[i])), names, i, cls, pairs,
                 "_CLS_REEXPORTS_" + cls + " = {");
  }

  lemma ClassPartsGive(names: seq<string>, classes: Dict<Dict<Dest>>, cls: string, pairs: seq<Pair>)
    requires ClassesSound(classes) && Identifier(cls) && NamesIncrease(names)
    requires forall i :: 0 <= i < |names| ==> names[i] in classes.at
    requires cls in classes.at ==> pairs == ClassPairs(SortedNames(classes.at[cls].keys), classes.at[cls].at)
    ensures Gives(ClassParts(names, classes, |names|), "_CLS_REEXPORTS_" + cls + " = {",
                  if cls in names then Some(pairs) else None)
  {
    var kept := Giving(names, cls, pairs, "_CLS_REEXPORTS_" + cls + " = {");
    ClassNameFits(cls);
    QuietGives([], "_CLS_REEXPORTS_" + cls);
    forall parts, i: nat | i < |names| ensures PartKeeps(names, classes, kept, parts, i) {
      if kept(parts, i) { GivingStep(names, classes, cls, pairs, parts, i); }
    }
    KeptByParts(names, classes, |names|, kept);
    assert names[..|names|] == names;
  }

  ghost function Skipping(n: nat, head: string): (seq<string>, nat) -> bool {
    (parts: seq<string>, i: nat) => i <= n && Gives(parts, head, None)
  }

  lemma SkippingStep(classes: Dict<Dict<Dest>>, name: string, n: nat, parts: seq<string>, i: nat, wanted: string,
                     head: string)
    requires ClassesSound(classes) && name in classes.at && Identifier(wanted) && head == wanted + " = {"
    requires "_CLS_REEXPORTS_" + name != wanted && i < n && Skipping(n, head)(parts, i)
    ensures Skipping(n, head)(parts + ClassPart(name, MembersOf(classes, name)), i + 1)
  {
    ClassPartGives(name, MembersOf(classes, name), wanted);
    GivesAppend(parts, None, ClassPart(name, MembersOf(classes, name)), None, head);
  }

  lemma PartsSkip(names: seq<string>, classes: Dict<Dict<Dest>>, wanted: string, head: string, parts: seq<string>,
                  i: nat)
    requires ClassesSound(classes) && i < |names| && names[i] in classes.at
    requires Identifier(wanted) && head == wanted + " = {" && "_CLS_REEXPORTS_" + names[i] != wanted
    ensures PartKeeps(names, classes, Skipping(|names|, head), parts, i)
  {
    if Skipping(|names|, head)(parts, i) { SkippingStep(classes, names[i], |names|, parts, i, wanted, head); }
  }

  predicate OtherNames(names: seq<string>, wanted: string) {
    forall i :: 0 <= i < |names| ==> "_CLS_REEXPORTS_" + names[i] != wanted
  }

  /** No class part opens the mapping of another name. */
  lemma ClassPartsSkip(names: seq<string>, classes: Dict<Dict<Dest>>, wanted: string, head: string)
    requires ClassesSound(classes) && forall i :: 0 <= i < |names| ==> names[i] in classes.at
    requires Identifier(wanted) && head == wanted + " = {" && OtherNames(names, wanted)
    ensures Gives(ClassParts(names, classes, |names|), head, None)
  {
    var kept := Skipping(|names|, head);
    QuietGives([], wanted);
    forall parts, i: nat | i < |names| ensures PartKeeps(names, classes, kept, parts, i) {
      PartsSkip(names, classes, wanted, head, parts, i);
    }
    KeptByParts(names, classes, |names|, kept);
  }

  lemma FourGive(a: seq<string>, b: seq<string>, c: seq<string>, d: seq<string>, wanted: string,
                 r: Option<seq<Pair>>, t: Option<seq<Pair>>)
    requires AllQuiet(a) && AllQuiet(d) && Identifier(wanted) && (r.None? || t.None?)
    requires Gives(b, wanted + " = {", r) && Gives(c, wanted + " = {", t)
    ensures Gives(a + (b + (c + d)), wanted + " = {", if r.Some? then r else t)
  {
    var head := wanted + " = {";
    QuietGives(a, wanted);
    QuietGives(d, wanted);
    GivesAppend(c, t, d, None, head);
    GivesAppend(b, r, c + d, t, head);
    GivesAppend(a, None, b + (c + d), if r.Some? then r else t, head);
  }

  lemma WholeRead(lines: seq<string>, head: string, read: Option<seq<Pair>>)
    requires Gives(lines, head, read)
    ensures ReadMapping(TextLines(Text(lines)), head) == read
  {
    LinesRead(lines);
    assert lines + [] == lines;
    if read.None? { SkipLines(lines, [], head); }
  }

  lemma ModulesReadBack(facadeModule: string, s: Shims)
    requires NoNewline(facadeModule) && ClassesSound(s.classes) && Sound(s.classes)
    requires Sound(s.modules) && forall k :: k in s.modules.at ==> Identifier(k)
    ensures ReadMapping(TextLines(Text(ShimLines(facadeModule, s))), "_REEXPORTS" + " = {")
         == if s.modules.keys == [] then None
            else Some(ModulePairs(SortedNames(s.modules.keys), s.modules.at))
  {
    var names := SortedNames(s.classes.keys);
    var r := if s.modules.keys == [] then None else Some(ModulePairs(SortedNames(s.modules.keys), s.modules.at));
    HeaderQuiet(facadeModule);
    MappingNameFits();
    ModulePartGives(s.modules, "_REEXPORTS");
    forall i | 0 <= i < |names|
      ensures names[i] in s.classes.at && "_CLS_REEXPORTS_" + names[i] != "_REEXPORTS"
    {
      assert names[i] in names;
      ClassNameFits(names[i]);
    }
    ClassPartsSkip(names, s.classes, "_REEXPORTS", "_REEXPORTS" + " = {");
    EmptyPartYields(s);
    FourGive(Header(facadeModule), ModulePart(s.modules), ClassParts(names, s.classes, |names|), EmptyPart(s),
             "_REEXPORTS", r, None);
    WholeRead(ShimLines(facadeModule, s), "_REEXPORTS" + " = {", r);
  }

  lemma ClassReadBack(facadeModule: string, s: Shims, cls: string, pairs: seq<Pair>)
    requires NoNewline(facadeModule) && ClassesSound(s.classes) && Sound(s.classes) && Identifier(cls)
    requires Sound(s.modules) && forall k :: k in s.modules.at ==> Identifier(k)
    requires cls in s.classes.at ==>
      pairs == ClassPairs(SortedNames(s.classes.at[cls].keys), s.classes.at[cls].at)
    ensures ReadMapping(TextLines(Text(ShimLines(facadeModule, s))), "_CLS_REEXPORTS_" + cls + " = {")
         == if cls in s.classes.at then Some(pairs) else None
  {
    var names, wanted := SortedNames(s.classes.keys), "_CLS_REEXPORTS_" + cls;
    var t := if cls in s.classes.at then Some(pairs) else None;
    HeaderQuiet(facadeModule);
    ClassNameFits(cls);
    ModulePartGives(s.modules, wanted);
    SortedNamesIncrease(s.classes.keys);
    forall i | 0 <= i < |names| ensures names[i] in s.classes.at { assert names[i] in names; }
    ClassPartsGive(names, s.classes, cls, pairs);
    EmptyPartYields(s);
    FourGive(Header(facadeModule), ModulePart(s.modules), ClassParts(names, s.classes, |names|), EmptyPart(s),
             wanted, None, t);
    WholeRead(ShimLines(facadeModule, s), wanted + " = {", t);
  }

  // ---- the facade, in terms of the moves

  /** Where a moved symbol went: its module, and for a class member its class. */
  function Destination(sym: Moved, srcRoot: string): Value {
    var mod := ModulePath(sym.destFile, srcRoot);
    if sym.sourceClass.None? then Module(mod) else Member(mod, sym.destClass)
  }

  ghost predicate Leads(pair: Pair, facade: string, moved: seq<Moved>, srcRoot: string, cls: Option<string>) {
    exists i: nat :: LastMove(moved, facade, cls, pair.name, |moved|, i) && pair.value == Destination(moved[i], srcRoot)
  }

  /** The pairs are sorted by name, one for every name moved, each leading to the destination of its last move. */
  ghost predicate LeadToLastMoves(pairs: seq<Pair>, facade: string, moved: seq<Moved>, srcRoot: string,
                                  cls: Option<string>) {
    && (forall i, j :: 0 <= i < j < |pairs| ==> StringLess(pairs[i].name, pairs[j].name))
    && (forall k :: 0 <= k < |pairs| ==> Leads(pairs[k], facade, moved, srcRoot, cls))
    && (forall i: nat :: i < |moved| && MovedFrom(moved[i], facade, cls) ==>
          exists k :: 0 <= k < |pairs| && pairs[k].name == moved[i].name)
  }

  function MappingHead(cls: Option<string>): string {
    (if cls.None? then "_REEXPORTS" else "_CLS_REEXPORTS_" + cls.value) + " = {"
  }

  /** At module level, or for a class, the source holds the mapping exactly when something moved out. */
  ghost predicate ReadsBack(source: string, facade: string, moved: seq<Moved>, srcRoot: string, cls: Option<string>) {
    var read := ReadMapping(TextLines(source), MappingHead(cls));
    if exists i: nat :: i < |moved| && MovedFrom(moved[i], facade, cls)
    then read.Some? && LeadToLastMoves(read.value, facade, moved, srcRoot, cls)
    else read.None?
  }

  lemma ValueIsDestination(sym: Moved, srcRoot: string)
    ensures sym.sourceClass.None? ==> Module(ToModule(srcRoot)(sym)) == Destination(sym, srcRoot)
    ensures sym.sourceClass.Some? ==>
      Member(ToDest(srcRoot)(sym).mod, ToDest(srcRoot)(sym).cls) == Destination(sym, srcRoot)
  {
    ModuleByPath(sym.destFile, srcRoot);
  }

  lemma PairsLead(pairs: seq<Pair>, names: seq<string>, facade: string, moved: seq<Moved>, srcRoot: string,
                  cls: Option<string>)
    requires NamesIncrease(names) && |pairs| == |names|
    requires forall k :: 0 <= k < |names| ==> pairs[k].name == names[k]
    requires forall k :: 0 <= k < |pairs| ==> Leads(pairs[k], facade, moved, srcRoot, cls)
    requires forall i: nat :: i < |moved| && MovedFrom(moved[i], facade, cls) ==> moved[i].name in names
    ensures LeadToLastMoves(pairs, facade, moved, srcRoot, cls)
  {
    forall i: nat | i < |moved| && MovedFrom(moved[i], facade, cls)
      ensures exists k :: 0 <= k < |pairs| && pairs[k].name == moved[i].name
    {
      var k :| 0 <= k < |names| && names[k] == moved[i].name;
      assert pairs[k].name == moved[i].name;
    }
  }

  lemma ModulePairsLead(d: Dict<string>, facade: string, moved: seq<Moved>, srcRoot: string)
    requires KeepsLast(d, moved, facade, None, |moved|, ToModule(srcRoot))
    ensures LeadToLastMoves(ModulePairs(SortedNames(d.keys), d.at), facade, moved, srcRoot, None)
  {
    var names := SortedNames(d.keys);
    var pairs := ModulePairs(names, d.at);
    SortedNamesIncrease(d.keys);
    forall k | 0 <= k < |pairs| ensures Leads(pairs[k], facade, moved, srcRoot, None) {
      assert names[k] in names;
      var i: nat :| LastMove(moved, facade, None, names[k], |moved|, i)
                    && d.at[names[k]] == ToModule(srcRoot)(moved[i]);
      ValueIsDestination(moved[i], srcRoot);
    }
    PairsLead(pairs, names, facade, moved, srcRoot, None);
  }

  lemma ClassPairsLead(d: Dict<Dest>, facade: string, moved: seq<Moved>, srcRoot: string, cls: string)
    requires KeepsLast(d, moved, facade, Some(cls), |moved|, ToDest(srcRoot))
    ensures LeadToLastMoves(ClassPairs(SortedNames(d.keys), d.at), facade, moved, srcRoot, Some(cls))
  {
    var names := SortedNames(d.keys);
    var pairs := ClassPairs(names, d.at);
    SortedNamesIncrease(d.keys);
    forall k | 0 <= k < |pairs| ensures Leads(pairs[k], facade, moved, srcRoot, Some(cls)) {
      assert names[k] in names;
      var i: nat :| LastMove(moved, facade, Some(cls), names[k], |moved|, i)
                    && d.at[names[k]] == ToDest(srcRoot)(moved[i]);
      ValueIsDestination(moved[i], srcRoot);
    }
    PairsLead(pairs, names, facade, moved, srcRoot, Some(cls));
  }

  /** Names and classes that went out of the facade are identifiers. */
  predicate NamesFit(moved: seq<Moved>, facade: string) {
    forall i :: 0 <= i < |moved| && moved[i].sourceFile == facade ==>
      Identifier(moved[i].name) && (moved[i].sourceClass.Some? ==> Identifier(moved[i].sourceClass.value))
  }

  lemma DictionariesFit(facade: string, moved: seq<Moved>, srcRoot: string, s: Shims)
    requires NamesFit(moved, facade) && ShimsKept(s, facade, moved, srcRoot, |moved|)
    ensures Sound(s.modules) && forall k :: k in s.modules.at ==> Identifier(k)
    ensures Sound(s.classes) && ClassesSound(s.classes)
  {
    forall c | c in s.classes.at
      ensures Identifier(c) && Sound(s.classes.at[c]) && forall k :: k in s.classes.at[c].at ==> Identifier(k)
    {
      assert ClassKept(s.classes.at[c], facade, moved, srcRoot, c, |moved|);
    }
  }

  lemma NamesReadBack(facade: string, moved: seq<Moved>, srcRoot: string, s: Shims)
    requires NoNewline(ModuleOf(facade, srcRoot)) && NamesFit(moved, facade)
    requires ShimsKept(s, facade, moved, srcRoot, |moved|)
    ensures ReadsBack(Text(ShimLines(ModuleOf(facade, srcRoot), s)), facade, moved, srcRoot, None)
  {
    DictionariesFit(facade, moved, srcRoot, s);
    ModulesReadBack(ModuleOf(facade, srcRoot), s);
    ModulePairsLead(s.modules, facade, moved, srcRoot);
    if s.modules.keys != [] { assert s.modules.keys[0] in s.modules.at; }
  }

  lemma MembersReadBack(facade: string, moved: seq<Moved>, srcRoot: string, s: Shims, cls: string)
    requires NoNewline(ModuleOf(facade, srcRoot)) && NamesFit(moved, facade) && Identifier(cls)
    requires ShimsKept(s, facade, moved, srcRoot, |moved|)
    ensures ReadsBack(Text(ShimLines(ModuleOf(facade, srcRoot), s)), facade, moved, srcRoot, Some(cls))
  {
    DictionariesFit(facade, moved, srcRoot, s);
    if cls in s.classes.at {
      var d := s.classes.at[cls];
      assert ClassKept(d, facade, moved, srcRoot, cls, |moved|);
      ClassPairsLead(d, facade, moved, srcRoot, cls);
      ClassReadBack(ModuleOf(facade, srcRoot), s, cls, ClassPairs(SortedNames(d.keys), d.at));
    } else {
      ClassReadBack(ModuleOf(facade, srcRoot), s, cls, []);
    }
  }

  /** Reading the generated facade back: at module level, or for any class, the mapping is there exactly when
      something moved out, and sends every moved name to the module, and class, its last move went to. */
  lemma FacadeReadsBack(facade: string, moved: seq<Moved>, srcRoot: string, source: string, cls: Option<string>)
    requires source == Text(ShimLines(ModuleOf(facade, srcRoot), ShimsOf(facade, moved, srcRoot, |moved|)))
    requires NoNewline(facade) && NamesFit(moved, facade) && (cls.Some? ==> Identifier(cls.value))
    ensures ReadsBack(source, facade, moved, srcRoot, cls)
  {
    ModuleByPath(facade, srcRoot);
    ModuleIsLine(facade, srcRoot);
    ShimsKeepLast(facade, moved, srcRoot, |moved|);
    var s := ShimsOf(facade, moved, srcRoot, |moved|);
    if cls.None? {
      NamesReadBack(facade, moved, srcRoot, s);
    } else {
      MembersReadBack(facade, moved, srcRoot, s, cls.value);
    }
  }

  lemma ModuleIsLine(facade: string, srcRoot: string)
    requires NoNewline(facade)
    ensures NoNewline(ModuleOf(facade, srcRoot))
  {
    ModuleByPath(facade, srcRoot);
    var path := WithoutSuffix(BelowRoot(Slashed(facade), srcRoot));
    assert NoNewline(Slashed(facade));
    assert NoNewline(BelowRoot(Slashed(facade), srcRoot));
    assert NoNewline(path);
    forall i | 0 <= i < |Dots(path)| ensures Dots(path)[i] != '\n' { assert path[i] != '\n'; }
  }
}
