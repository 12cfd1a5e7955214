/** Parsing a generated facade gives back exactly the names that were moved out: the module-level
    names sorted, then each class's member names sorted, in class order. */
module ShimRoundTrip {
  import opened Sorting
  import opened ShimParser
  import opened ShimBlocks
  import opened ShimSource

  // ---- lines that parse to given names, whatever comes after

  ghost predicate Yields(lines: seq<string>, names: seq<string>) {
    forall rest: string :: Parse(Text(lines) + rest, true) == names + Parse(rest, true)
  }

  lemma {:induction false} YieldsAppend(a: seq<string>, m: seq<string>, b: seq<string>, n: seq<string>)
    requires Yields(a, m) && Yields(b, n)
    ensures Yields(a + b, m + n)
  {
    TextAppend(a, b);
    forall rest: string ensures Parse(Text(a + b) + rest, true) == (m + n) + Parse(rest, true) {
      Reassociate(Text(a), Text(b), rest);
      assert Parse(Text(a) + (Text(b) + rest), true) == m + Parse(Text(b) + rest, true);
      assert m + (n + Parse(rest, true)) == (m + n) + Parse(rest, true);
    }
  }

  ghost predicate AllQuiet(lines: seq<string>) {
    forall i :: 0 <= i < |lines| ==> Quiet(lines[i])
  }

  lemma AllQuietAppend(a: seq<string>, b: seq<string>)
    requires AllQuiet(a) && AllQuiet(b)
    ensures AllQuiet(a + b)
  {
  }

  lemma QuietYields(lines: seq<string>)
    requires AllQuiet(lines)
    ensures Yields(lines, [])
  {
    forall rest: string ensures Parse(Text(lines) + rest, true) == [] + Parse(rest, true) {
      QuietTextSkipped(lines, rest);
    }
  }

  lemma MappingYields(name: string, rows: seq<Row>)
    requires Identifier(name) && PlainRows(rows)
    ensures Yields(MappingLines(name, rows), Names(rows))
  {
    forall rest: string ensures Parse(Text(MappingLines(name, rows)) + rest, true) == Names(rows) + Parse(rest, true) {
      MappingRead(name, rows, rest);
    }
  }

  // ---- the fixed lines are quiet

  lemma QuietStart(line: string)
    requires NoNewline(line) && (line == [] || !IsWord(line[0]))
    ensures Quiet(line)
  {
  }

  lemma QuietWord(line: string, w: nat, k: nat)
    requires NoNewline(line) && BreaksOff(line, w, k)
    ensures Quiet(line)
  {
  }

  lemma {:induction false} TitleQuiet(facadeModule: string)
    requires NoNewline(facadeModule)
    ensures AllQuiet(Title(facadeModule)) && Yields(Title(facadeModule), [])
  {
    var h := Title(facadeModule);
    QuietStart(h[0]);
    QuietStart(h[1]);
    NoticeQuiet(facadeModule);
    QuietYields(h);
  }

  lemma NoticeQuiet(facadeModule: string)
    ensures Quiet(Title(facadeModule)[2])
  {
    QuietWord(Title(facadeModule)[2], 4, 4);
  }

  lemma PreambleQuiet()
    ensures AllQuiet(PREAMBLE) && Yields(PREAMBLE, [])
  {
    RegenerateQuiet();
    QuietStart(PREAMBLE[1]);
    QuietStart(PREAMBLE[2]);
    QuietWord(PREAMBLE[3], 6, 7);
    QuietYields(PREAMBLE);
  }

  lemma RegenerateQuiet()
    ensures Quiet(PREAMBLE[0])
  {
    QuietWord(PREAMBLE[0], 2, 3);
  }

  lemma {:induction false} HeaderQuiet(facadeModule: string)
    requires NoNewline(facadeModule)
    ensures AllQuiet(Header(facadeModule)) && Yields(Header(facadeModule), [])
  {
    TitleQuiet(facadeModule);
    PreambleQuiet();
    AllQuietAppend(Title(facadeModule), PREAMBLE);
    YieldsAppend(Title(facadeModule), [], PREAMBLE, []);
  }

  lemma ModuleIntroQuiet()
    ensures AllQuiet(MODULE_INTRO) && Yields(MODULE_INTRO, [])
    ensures AllQuiet(NO_SYMBOLS) && Yields(NO_SYMBOLS, [])
  {
    QuietStart(MODULE_INTRO[0]);
    QuietStart(MODULE_INTRO[1]);
    QuietYields(MODULE_INTRO);
    QuietStart(NO_SYMBOLS[0]);
    QuietStart(NO_SYMBOLS[1]);
    QuietYields(NO_SYMBOLS);
  }

  lemma {:induction false} ModuleHeadQuiet()
    ensures AllQuiet(MODULE_HEAD) && Yields(MODULE_HEAD, [])
  {
    QuietStart(MODULE_HEAD[0]);
    QuietStart(MODULE_HEAD[1]);
    ModuleDefQuiet();
    ModuleDocQuiet();
    QuietYields(MODULE_HEAD);
  }

  lemma ModuleDocQuiet()
    ensures Quiet(MODULE_HEAD[3])
  {
    QuietStart(MODULE_HEAD[3]);
  }

  lemma ModuleDefQuiet()
    ensures Quiet(MODULE_HEAD[2])
  {
    QuietWord(MODULE_HEAD[2], 3, 4);
  }

  lemma {:induction false} ModuleBodyQuiet()
    ensures AllQuiet(MODULE_BODY) && Yields(MODULE_BODY, [])
  {
    QuietStart(MODULE_BODY[0]);
    ModuleFetchQuiet();
    QuietStart(MODULE_BODY[3]);
    QuietYields(MODULE_BODY);
  }

  lemma ModuleFetchQuiet()
    ensures Quiet(MODULE_BODY[1]) && Quiet(MODULE_BODY[2])
  {
    QuietStart(MODULE_BODY[1]);
    QuietStart(MODULE_BODY[2]);
  }

  lemma IdentifierIsLine(s: string)
    requires Identifier(s)
    ensures NoNewline(s)
  {
    forall i | 0 <= i < |s| ensures s[i] != '\n' { assert IsWord(s[i]); }
  }

  lemma ClassIntroQuiet(cls: string)
    requires Identifier(cls)
    ensures AllQuiet(ClassIntro(cls)) && Yields(ClassIntro(cls), [])
  {
    IdentifierIsLine(cls);
    var intro := ClassIntro(cls);
    QuietStart(intro[0]);
    QuietStart(intro[1]);
    QuietYields(intro);
  }

  lemma ClassLineQuiet(cls: string)
    requires Identifier(cls)
    ensures Quiet("class " + cls + ":")
  {
    var line := "class " + cls + ":";
    IdentifierIsLine(cls);
    assert line[..5] == "class" && line[5] == ' ';
    assert line[6] == cls[0] && IsWord(cls[0]);
    forall i | 0 <= i < |line| ensures line[i] != '\n' {
      if 6 <= i < 6 + |cls| { assert line[i] == cls[i - 6]; }
    }
    forall i | 0 <= i < 5 ensures IsWord(line[i]) { assert line[i] == line[..5][i]; }
    QuietWord(line, 5, 6);
  }

  lemma {:induction false} ClassHeadQuiet(cls: string)
    requires Identifier(cls)
    ensures AllQuiet(ClassHead(cls)) && Yields(ClassHead(cls), [])
  {
    var o := ClassHead(cls);
    QuietStart(o[0]);
    QuietStart(o[1]);
    ClassLineQuiet(cls);
    ClassDocQuiet(cls);
    QuietStart(o[4]);
    QuietYields(o);
  }

  lemma ClassDocQuiet(cls: string)
    ensures Quiet(ClassHead(cls)[3])
  {
    QuietStart(ClassHead(cls)[3]);
  }

  lemma {:induction false} ClassLookupQuiet(cls: string)
    requires Identifier(cls)
    ensures AllQuiet(ClassLookup(cls)) && Yields(ClassLookup(cls), [])
  {
    var o := ClassLookup(cls);
    QuietStart(o[0]);
    QuietStart(o[1]);
    ClassTestQuiet(cls);
    QuietYields(o);
  }

  lemma ClassTestQuiet(cls: string)
    requires Identifier(cls)
    ensures Quiet(ClassLookup(cls)[2]) && Quiet(ClassLookup(cls)[3])
  {
    IdentifierIsLine(cls);
    QuietStart(ClassLookup(cls)[2]);
    QuietStart(ClassLookup(cls)[3]);
  }

  lemma {:induction false} ClassBodyQuiet()
    ensures AllQuiet(CLASS_BODY) && Yields(CLASS_BODY, [])
  {
    ClassFetchQuiet();
    ClassFallbackQuiet();
    AllQuietAppend(CLASS_FETCH, CLASS_FALLBACK);
    YieldsAppend(CLASS_FETCH, [], CLASS_FALLBACK, []);
  }

  lemma ClassFetchQuiet()
    ensures AllQuiet(CLASS_FETCH) && Yields(CLASS_FETCH, [])
  {
    QuietStart(CLASS_FETCH[0]);
    QuietStart(CLASS_FETCH[1]);
    ClassReturnQuiet();
    QuietYields(CLASS_FETCH);
  }

  lemma ClassReturnQuiet()
    ensures Quiet(CLASS_FETCH[2])
  {
    QuietStart(CLASS_FETCH[2]);
  }

  lemma ClassRaiseQuiet()
    ensures Quiet(CLASS_FALLBACK[1])
  {
    QuietStart(CLASS_FALLBACK[1]);
  }

  lemma ClassFallbackQuiet()
    ensures AllQuiet(CLASS_FALLBACK) && Yields(CLASS_FALLBACK, [])
  {
    QuietStart(CLASS_FALLBACK[0]);
    ClassRaiseQuiet();
    QuietYields(CLASS_FALLBACK);
  }

  // ---- the dictionaries hold exactly the names that were moved

  /** Identifiers for the names and the source class; no braces in the destination. */
  predicate Printable(sym: Moved, srcRoot: string) {
    && Identifier(sym.name)
    && BraceFree(ModuleOf(sym.destFile, srcRoot))
    && (sym.sourceClass.Some? ==> Identifier(sym.sourceClass.value))
    && (sym.destClass.Some? ==> BraceFree(sym.destClass.value))
  }

  /** Names moved out of `facade` from the given class (or from module level), in listing order. */
  function MovedNames(facade: string, moved: seq<Moved>, cls: Option<string>, n: nat): seq<string>
    requires n <= |moved|
  {
    if n == 0 then []
    else
      var sym := moved[n - 1];
      var before := MovedNames(facade, moved, cls, n - 1);
      if sym.sourceFile == facade && sym.sourceClass == cls then before + [sym.name] else before
  }

  function MovedClasses(facade: string, moved: seq<Moved>, n: nat): seq<string>
    requires n <= |moved|
  {
    if n == 0 then []
    else
      var sym := moved[n - 1];
      var before := MovedClasses(facade, moved, n - 1);
      if sym.sourceFile == facade && sym.sourceClass.Some? then before + [sym.sourceClass.value] else before
  }

  ghost predicate SameElements(a: seq<string>, b: seq<string>) {
    forall x :: x in a <==> x in b
  }

  ghost predicate ModulesPrintable(d: Dict<string>) {
    Sound(d) && forall k :: k in d.at ==> Identifier(k) && BraceFree(d.at[k])
  }

  ghost predicate DestPrintable(d: Dest) {
    BraceFree(d.mod) && (d.cls.Some? ==> BraceFree(d.cls.value))
  }

  ghost predicate MembersPrintable(d: Dict<Dest>) {
    Sound(d) && forall k :: k in d.at ==> Identifier(k) && DestPrintable(d.at[k])
  }

  ghost predicate ClassFits(facade: string, moved: seq<Moved>, n: nat, cls: string, d: Dict<Dest>)
    requires n <= |moved|
  {
    Identifier(cls) && MembersPrintable(d) && SameElements(d.keys, MovedNames(facade, moved, Some(cls), n))
  }

  ghost predicate ShimsFit(facade: string, moved: seq<Moved>, n: nat, s: Shims)
    requires n <= |moved|
  {
    && ModulesPrintable(s.modules) && SameElements(s.modules.keys, MovedNames(facade, moved, None, n))
    && Sound(s.classes) && SameElements(s.classes.keys, MovedClasses(facade, moved, n))
    && (forall c :: c in s.classes.at ==> ClassFits(facade, moved, n, c, s.classes.at[c]))
    && (forall c :: c !in s.classes.at ==> MovedNames(facade, moved, Some(c), n) == [])
  }

  lemma PutModules(d: Dict<string>, k: string, v: string)
    requires ModulesPrintable(d) && Identifier(k) && BraceFree(v)
    ensures ModulesPrintable(Put(d, k, v)) && forall x :: x in Put(d, k, v).keys <==> x in d.keys || x == k
  {
  }

  lemma PutMembers(d: Dict<Dest>, k: string, v: Dest)
    requires MembersPrintable(d) && Identifier(k) && DestPrintable(v)
    ensures MembersPrintable(Put(d, k, v)) && forall x :: x in Put(d, k, v).keys <==> x in d.keys || x == k
  {
  }

  lemma ShimsFitStep(facade: string, moved: seq<Moved>, srcRoot: string, n: nat, s: Shims)
    requires n < |moved| && ShimsFit(facade, moved, n, s)
    requires moved[n].sourceFile == facade ==> Printable(moved[n], srcRoot)
    ensures ShimsFit(facade, moved, n + 1, AddShim(s, moved[n], facade, srcRoot))
  {
    var sym := moved[n];
    if sym.sourceFile != facade {
    } else if sym.sourceClass.None? {
      PutModules(s.modules, sym.name, ModuleOf(sym.destFile, srcRoot));
    } else {
      ClassStep(facade, moved, srcRoot, n, s);
    }
  }

  lemma ClassStep(facade: string, moved: seq<Moved>, srcRoot: string, n: nat, s: Shims)
    requires n < |moved| && ShimsFit(facade, moved, n, s)
    requires moved[n].sourceFile == facade && moved[n].sourceClass.Some? && Printable(moved[n], srcRoot)
    ensures ShimsFit(facade, moved, n + 1, AddShim(s, moved[n], facade, srcRoot))
  {
    var sym := moved[n];
    var cls := sym.sourceClass.value;
    var members := MembersOf(s.classes, cls);
    var dest := Dest(ModuleOf(sym.destFile, srcRoot), sym.destClass);
    var more := Put(members, sym.name, dest);
    GrownClassFits(facade, moved, n, s, cls, dest);
    var s' := AddShim(s, sym, facade, srcRoot);
    assert s'.classes == Put(s.classes, cls, more);
    forall c | c in s'.classes.at ensures ClassFits(facade, moved, n + 1, c, s'.classes.at[c]) {
      if c != cls {
        assert s'.classes.at[c] == s.classes.at[c];
        assert MovedNames(facade, moved, Some(c), n + 1) == MovedNames(facade, moved, Some(c), n);
      }
    }
  }

  lemma GrownClassFits(facade: string, moved: seq<Moved>, n: nat, s: Shims, cls: string, dest: Dest)
    requires n < |moved| && ShimsFit(facade, moved, n, s)
    requires moved[n].sourceFile == facade && moved[n].sourceClass == Some(cls)
    requires Identifier(cls) && Identifier(moved[n].name) && DestPrintable(dest)
    ensures ClassFits(facade, moved, n + 1, cls, Put(MembersOf(s.classes, cls), moved[n].name, dest))
  {
    PutMembers(MembersOf(s.classes, cls), moved[n].name, dest);
  }

  lemma NothingFits(facade: string, moved: seq<Moved>)
    ensures ShimsFit(facade, moved, 0, Shims(Empty(), Empty()))
  {
  }

  lemma {:induction false} ShimsAlwaysFit(facade: string, moved: seq<Moved>, srcRoot: string, n: nat, s: Shims)
    requires n <= |moved| && s == ShimsOf(facade, moved, srcRoot, n)
    requires forall i :: 0 <= i < n && moved[i].sourceFile == facade ==> Printable(moved[i], srcRoot)
    ensures ShimsFit(facade, moved, n, s)
  {
    NothingFits(facade, moved);
    var i, t := 0, Shims(Empty(), Empty());
    while i < n
      invariant i <= n && t == ShimsOf(facade, moved, srcRoot, i)
      invariant ShimsFit(facade, moved, i, t)
    {
      ShimsFitStep(facade, moved, srcRoot, i, t);
      i, t := i + 1, AddShim(t, moved[i], facade, srcRoot);
    }
  }

  // ---- rows

  lemma {:induction false} NamesIncreaseUnique(a: seq<string>, b: seq<string>)
    requires NamesIncrease(a) && NamesIncrease(b) && SameElements(a, b)
    ensures a == b
  {
    assert b == [] || b[0] in b;
    if a == [] {
    } else {
      assert a[0] in a && b != [] && b[0] in a && a[0] in b;
      StringIrreflexive(a[0]);
      if a[0] != b[0] {
        FirstIsLeast(a, b[0]);
        FirstIsLeast(b, a[0]);
        StringTransitive(a[0], b[0], a[0]);
      }
      forall x ensures x in a[1..] <==> x in b[1..] {
        if x in a[1..] { NotFirst(a, x); }
        if x in b[1..] { NotFirst(b, x); }
        assert x in a <==> x == a[0] || x in a[1..];
        assert x in b <==> x == b[0] || x in b[1..];
      }
      NamesIncreaseUnique(a[1..], b[1..]);
      assert a == [a[0]] + a[1..] && b == [b[0]] + b[1..];
    }
  }

  lemma FirstIsLeast(a: seq<string>, x: string)
    requires NamesIncrease(a) && x in a && x != a[0]
    ensures StringLess(a[0], x)
  {
  }

  lemma NotFirst(a: seq<string>, x: string)
    requires NamesIncrease(a) && a != [] && x in a[1..]
    ensures x != a[0]
  {
    var i :| 0 <= i < |a[1..]| && a[1..][i] == x;
    assert a[i + 1] == x && StringLess(a[0], a[i + 1]);
    StringIrreflexive(a[0]);
  }

  lemma SortedSame(a: seq<string>, b: seq<string>)
    requires SameElements(a, b)
    ensures SortedNames(a) == SortedNames(b)
  {
    SortedNamesIncrease(a);
    SortedNamesIncrease(b);
    NamesIncreaseUnique(SortedNames(a), SortedNames(b));
  }

  lemma PlainAppend(a: string, b: string)
    requires BraceFree(a) && NoNewline(a) && BraceFree(b) && NoNewline(b)
    ensures BraceFree(a + b) && NoNewline(a + b)
  {
  }

  lemma HexIsPlain(n: int)
    requires 0 <= n < 16
    ensures HexDigit(n) != '{' && HexDigit(n) != '}' && HexDigit(n) != '\n'
  {
  }

  lemma ReprCharPlain(c: char, quote: char)
    requires c != '{' && c != '}' && (quote == '\'' || quote == '"')
    ensures BraceFree(ReprChar(c, quote)) && NoNewline(ReprChar(c, quote))
  {
    if c < ' ' || c == '\U{7F}' {
      HexIsPlain(c as int / 16);
      HexIsPlain(c as int % 16);
    }
  }

  lemma {:induction false} ReprCharsPlain(s: string, quote: char)
    requires BraceFree(s) && (quote == '\'' || quote == '"')
    ensures BraceFree(ReprChars(s, quote)) && NoNewline(ReprChars(s, quote))
  {
    if s == [] {
    } else {
      ReprCharPlain(s[0], quote);
      ReprCharsPlain(s[1..], quote);
      PlainAppend(ReprChar(s[0], quote), ReprChars(s[1..], quote));
    }
  }

  /** `repr` escapes every line break and adds no brace. */
  lemma ReprPlain(s: string)
    requires BraceFree(s)
    ensures BraceFree(Repr(s)) && NoNewline(Repr(s))
  {
    var quote := if '\'' in s && '"' !in s then '"' else '\'';
    ReprCharsPlain(s, quote);
    PlainAppend([quote], ReprChars(s, quote));
    PlainAppend([quote] + ReprChars(s, quote), [quote]);
  }

  lemma ModuleRowPlain(name: string, m: string)
    requires Identifier(name) && BraceFree(m)
    ensures PlainRow(Row(name, " " + Repr(m) + ","))
  {
    ReprPlain(m);
    PlainAppend(" ", Repr(m));
    PlainAppend(" " + Repr(m), ",");
  }

  lemma {:induction false} ModuleRowsPlain(names: seq<string>, d: map<string, string>)
    requires forall k :: k in names ==> k in d && Identifier(k) && BraceFree(d[k])
    ensures PlainRows(ModuleRows(names, d)) && Names(ModuleRows(names, d)) == names
  {
    if names == [] {
    } else {
      ModuleRowPlain(names[0], d[names[0]]);
      ModuleRowsPlain(names[1..], d);
    }
  }

  lemma ClassValuePlain(d: Dest)
    requires DestPrintable(d)
    ensures BraceFree(ClassValue(d)) && NoNewline(ClassValue(d))
  {
    ReprPlain(d.mod);
    if d.cls.Some? { ReprPlain(d.cls.value); }
    var c := if d.cls.Some? then Repr(d.cls.value) else "None";
    PlainAppend(" (", Repr(d.mod));
    PlainAppend(" (" + Repr(d.mod), ", ");
    PlainAppend(" (" + Repr(d.mod) + ", ", c);
    PlainAppend(" (" + Repr(d.mod) + ", " + c, "),");
  }

  lemma {:induction false} ClassRowsPlain(names: seq<string>, d: map<string, Dest>)
    requires forall k :: k in names ==> k in d && Identifier(k) && DestPrintable(d[k])
    ensures PlainRows(ClassRows(names, d)) && Names(ClassRows(names, d)) == names
  {
    if names == [] {
    } else {
      ClassValuePlain(d[names[0]]);
      ClassRowsPlain(names[1..], d);
    }
  }

  // ---- parts

  lemma MappingNameFits()
    ensures Identifier("_REEXPORTS")
  {
    var name := "_REEXPORTS";
    assert name == ['_', 'R', 'E', 'E', 'X', 'P', 'O', 'R', 'T', 'S'];
    forall i | 0 <= i < |name| ensures IsWord(name[i]) { }
  }

  lemma ModulePartYields(d: Dict<string>)
    requires ModulesPrintable(d)
    ensures Yields(ModulePart(d), SortedNames(d.keys))
  {
    if d.keys == [] {
      QuietYields([]);
    } else {
      var rows := ModuleRows(SortedNames(d.keys), d.at);
      ModuleRowsPlain(SortedNames(d.keys), d.at);
      ModuleIntroQuiet();
      ModuleHeadQuiet();
      ModuleBodyQuiet();
      YieldsAppend(MODULE_HEAD, [], MODULE_BODY, []);
      MappingNameFits();
      MappingYields("_REEXPORTS", rows);
      YieldsAppend(MappingLines("_REEXPORTS", rows), Names(rows), MODULE_HEAD + MODULE_BODY, []);
      YieldsAppend(MODULE_INTRO, [], MappingLines("_REEXPORTS", rows) + (MODULE_HEAD + MODULE_BODY), Names(rows) + []);
      assert [] + (Names(rows) + []) == SortedNames(d.keys);
    }
  }

  lemma ClassPartYields(cls: string, d: Dict<Dest>)
    requires Identifier(cls) && MembersPrintable(d)
    ensures Yields(ClassPart(cls, d), SortedNames(d.keys))
  {
    var rows := ClassRows(SortedNames(d.keys), d.at);
    var name := "_CLS_REEXPORTS_" + cls;
    ClassRowsPlain(SortedNames(d.keys), d.at);
    ClassIntroQuiet(cls);
    ClassHeadQuiet(cls);
    ClassLookupQuiet(cls);
    ClassBodyQuiet();
    YieldsAppend(ClassLookup(cls), [], CLASS_BODY, []);
    var tail := ClassHead(cls) + (ClassLookup(cls) + CLASS_BODY);
    YieldsAppend(ClassHead(cls), [], ClassLookup(cls) + CLASS_BODY, [] + []);
    assert Identifier(name) by {
      forall i | 0 <= i < |name| ensures IsWord(name[i]) {
        if i >= 15 { assert name[i] == cls[i - 15]; }
      }
    }
    MappingYields(name, rows);
    YieldsAppend(MappingLines(name, rows), Names(rows), tail, [] + ([] + []));
    YieldsAppend(ClassIntro(cls), [], MappingLines(name, rows) + tail, Names(rows) + ([] + ([] + [])));
    assert [] + (Names(rows) + ([] + ([] + []))) == SortedNames(d.keys);
  }

  /** The sorted member names of the first n classes, class by class. */
  function MemberNames(facade: string, moved: seq<Moved>, classes: seq<string>, n: nat): seq<string>
    requires n <= |classes|
  {
    if n == 0 then []
    else
      var last := SortedNames(MovedNames(facade, moved, Some(classes[n - 1]), |moved|));
      MemberNames(facade, moved, classes, n - 1) + last
  }

  lemma OneClassYields(facade: string, moved: seq<Moved>, s: Shims, cls: string)
    requires ShimsFit(facade, moved, |moved|, s) && cls in s.classes.at
    ensures Yields(ClassPart(cls, MembersOf(s.classes, cls)),
                   SortedNames(MovedNames(facade, moved, Some(cls), |moved|)))
  {
    assert ClassFits(facade, moved, |moved|, cls, s.classes.at[cls]);
    ClassPartYields(cls, s.classes.at[cls]);
    SortedSame(s.classes.at[cls].keys, MovedNames(facade, moved, Some(cls), |moved|));
  }

  lemma ClassPartsYield(facade: string, moved: seq<Moved>, s: Shims, names: seq<string>, n: nat)
    requires ShimsFit(facade, moved, |moved|, s) && n <= |names|
    requires forall i :: 0 <= i < |names| ==> names[i] in s.classes.at
    ensures Yields(ClassParts(names, s.classes, n), MemberNames(facade, moved, names, n))
  {
    QuietYields([]);
    for k := 0 to n
      invariant Yields(ClassParts(names, s.classes, k), MemberNames(facade, moved, names, k))
    {
      OneClassYields(facade, moved, s, names[k]);
      YieldsAppend(ClassParts(names, s.classes, k), MemberNames(facade, moved, names, k),
                   ClassPart(names[k], MembersOf(s.classes, names[k])),
                   SortedNames(MovedNames(facade, moved, Some(names[k]), |moved|)));
    }
  }

  /** What the vulture sweep should see: the sorted module-level names, then each class's sorted
      member names in sorted class order. */
  function ExpectedNames(facade: string, moved: seq<Moved>): seq<string> {
    var classes := SortedNames(MovedClasses(facade, moved, |moved|));
    SortedNames(MovedNames(facade, moved, None, |moved|)) + MemberNames(facade, moved, classes, |classes|)
  }

  lemma ClassListYields(facade: string, moved: seq<Moved>, s: Shims, names: seq<string>)
    requires ShimsFit(facade, moved, |moved|, s) && names == SortedNames(s.classes.keys)
    ensures names == SortedNames(MovedClasses(facade, moved, |moved|))
    ensures Yields(ClassParts(names, s.classes, |names|), MemberNames(facade, moved, names, |names|))
  {
    SortedSame(s.classes.keys, MovedClasses(facade, moved, |moved|));
    forall i | 0 <= i < |names| ensures names[i] in s.classes.at { assert names[i] in names; }
    ClassPartsYield(facade, moved, s, names, |names|);
  }

  lemma EmptyPartYields(s: Shims)
    ensures AllQuiet(EmptyPart(s)) && Yields(EmptyPart(s), [])
  {
    ModuleIntroQuiet();
    QuietYields([]);
  }

  /** Parts one after the other; the first and the last contribute no name. */
  lemma FourYield(a: seq<string>, b: seq<string>, m: seq<string>, c: seq<string>, n: seq<string>, d: seq<string>)
    requires Yields(a, []) && Yields(b, m) && Yields(c, n) && Yields(d, [])
    ensures Yields(a + (b + (c + d)), m + n)
  {
    YieldsAppend(c, n, d, []);
    assert n + [] == n;
    YieldsAppend(b, m, c + d, n);
    YieldsAppend(a, [], b + (c + d), m + n);
    assert [] + (m + n) == m + n;
  }

  lemma {:induction false} ShimLinesYield(facadeModule: string, facade: string, moved: seq<Moved>, s: Shims)
    requires NoNewline(facadeModule) && ShimsFit(facade, moved, |moved|, s)
    ensures Yields(ShimLines(facadeModule, s), ExpectedNames(facade, moved))
  {
    var names := SortedNames(s.classes.keys);
    HeaderQuiet(facadeModule);
    ModulePartYields(s.modules);
    SortedSame(s.modules.keys, MovedNames(facade, moved, None, |moved|));
    ClassListYields(facade, moved, s, names);
    EmptyPartYields(s);
    FourYield(Header(facadeModule), ModulePart(s.modules), SortedNames(s.modules.keys),
              ClassParts(names, s.classes, |names|), MemberNames(facade, moved, names, |names|), EmptyPart(s));
  }

  lemma YieldsWhole(lines: seq<string>, names: seq<string>)
    requires Yields(lines, names)
    ensures Parse(Text(lines), true) == names
  {
    assert Text(lines) + "" == Text(lines);
    assert Parse(Text(lines) + "", true) == names + Parse("", true);
    assert names + [] == names;
  }

  /** Round trip: parsing the generated source yields exactly the moved names, in order. */
  lemma ParseOfGenerated(facade: string, moved: seq<Moved>, srcRoot: string, s: Shims)
    requires NoNewline(ModuleOf(facade, srcRoot)) && s == ShimsOf(facade, moved, srcRoot, |moved|)
    requires forall i :: 0 <= i < |moved| && moved[i].sourceFile == facade ==> Printable(moved[i], srcRoot)
    ensures Parse(Text(ShimLines(ModuleOf(facade, srcRoot), s)), true) == ExpectedNames(facade, moved)
  {
    ShimsAlwaysFit(facade, moved, srcRoot, |moved|, s);
    ShimLinesYield(ModuleOf(facade, srcRoot), facade, moved, s);
    YieldsWhole(ShimLines(ModuleOf(facade, srcRoot), s), ExpectedNames(facade, moved));
  }

  /** The generator, then the parser. */
  method RoundTrip(facade: string, moved: seq<Moved>, srcRoot: string) returns (names: seq<string>)
    requires NoNewline(ModuleOf(facade, srcRoot))
    requires forall i :: 0 <= i < |moved| && moved[i].sourceFile == facade ==> Printable(moved[i], srcRoot)
    ensures names == ExpectedNames(facade, moved)
  {
    var source := GenerateShimSource(facade, moved, srcRoot);
    names := ParseShimMapping(source);
    ParseOfGenerated(facade, moved, srcRoot, ShimsOf(facade, moved, srcRoot, |moved|));
  }
}
