/** Reading a printed mapping back as Python reads it: lines, string literals with their escapes, pairs. */
module ShimReader {
  import opened Sorting
  import opened ShimParser
  import opened ShimBlocks
  import opened ShimSource

  // ---- lines

  function LineLength(text: string): (n: nat)
    ensures n <= |text|
  {
    if text == [] || text[0] == '\n' then 0 else 1 + LineLength(text[1..])
  }

  function TextLines(text: string): seq<string> {
    if text == [] then []
    else
      var n := LineLength(text);
      [text[..n]] + if n < |text| then TextLines(text[n + 1..]) else []
  }

  predicate SingleLines(lines: seq<string>) {
    forall i :: 0 <= i < |lines| ==> NoNewline(lines[i])
  }

  lemma {:induction false} LineLengthIs(line: string, rest: string)
    requires NoNewline(line)
    ensures LineLength(line + ("\n" + rest)) == |line|
  {
    if line == [] {
    } else {
      assert (line + ("\n" + rest))[1..] == line[1..] + ("\n" + rest);
      LineLengthIs(line[1..], rest);
    }
  }

  lemma FirstLineRead(line: string, rest: string)
    requires NoNewline(line)
    ensures TextLines(line + ("\n" + rest)) == [line] + TextLines(rest)
  {
    var text := line + ("\n" + rest);
    LineLengthIs(line, rest);
    assert text[..|line|] == line && text[|line| + 1..] == rest;
  }

  lemma {:induction false} LinesRead(lines: seq<string>)
    requires SingleLines(lines)
    ensures TextLines(Text(lines)) == lines
  {
    if lines == [] {
    } else {
      LinesRead(lines[1..]);
      FirstLineRead(lines[0], Text(lines[1..]));
      assert lines == [lines[0]] + lines[1..];
    }
  }

  // ---- string literals

  function HexValue(c: char): (n: nat)
    ensures n < 16
  {
    if '0' <= c <= '9' then c as int - '0' as int
    else if 'a' <= c <= 'f' then c as int - 'a' as int + 10
    else 0
  }

  /** What a backslash and this character stand for. */
  function Unescape(c: char): char {
    if c == 't' then '\t' else if c == 'n' then '\n' else if c == 'r' then '\r' else c
  }

  function Before(c: char, read: Option<(string, string)>): Option<(string, string)> {
    if read.Some? then Some(([c] + read.value.0, read.value.1)) else None
  }

  /** The text up to the closing quote, unescaped, and what follows the quote. */
  function ReadChars(s: string, quote: char): Option<(string, string)> {
    if s == [] then None
    else if s[0] == quote then Some(("", s[1..]))
    else if s[0] != '\\' then Before(s[0], ReadChars(s[1..], quote))
    else if |s| < 2 then None
    else if s[1] != 'x' then Before(Unescape(s[1]), ReadChars(s[2..], quote))
    else if |s| < 4 then None
    else Before((16 * HexValue(s[2]) + HexValue(s[3])) as char, ReadChars(s[4..], quote))
  }

  function ReadLiteral(s: string): Option<(string, string)> {
    if s == [] || (s[0] != '\'' && s[0] != '"') then None else ReadChars(s[1..], s[0])
  }

  lemma HexRead(n: nat)
    requires n < 16
    ensures HexValue(HexDigit(n)) == n
  {
  }

  lemma HexPair(n: nat)
    requires n < 256
    ensures 16 * HexValue(HexDigit(n / 16)) + HexValue(HexDigit(n % 16)) == n
  {
    HexRead(n / 16);
    HexRead(n % 16);
  }

  lemma CharRead(c: char, quote: char, tail: string)
    requires quote == '\'' || quote == '"'
    ensures ReadChars(ReprChar(c, quote) + tail, quote) == Before(c, ReadChars(tail, quote))
  {
    var shown := ReprChar(c, quote);
    var s := shown + tail;
    assert s[|shown|..] == tail;
    if c != quote && c != '\\' && c != '\t' && c != '\n' && c != '\r' && (c < ' ' || c == '\U{7F}') {
      HexPair(c as int);
    }
  }

  lemma {:induction false} CharsRead(s: string, quote: char, rest: string)
    requires quote == '\'' || quote == '"'
    ensures ReadChars(ReprChars(s, quote) + ([quote] + rest), quote) == Some((s, rest))
  {
    if s == [] {
      assert ReprChars(s, quote) + ([quote] + rest) == [quote] + rest;
    } else {
      var more := ReprChars(s[1..], quote);
      Reassociate(ReprChar(s[0], quote), more, [quote] + rest);
      CharRead(s[0], quote, more + ([quote] + rest));
      CharsRead(s[1..], quote, rest);
      assert s == [s[0]] + s[1..];
    }
  }

  /** `ast.literal_eval(repr(s)) == s` */
  lemma LiteralRead(s: string, rest: string)
    ensures ReadLiteral(Repr(s) + rest) == Some((s, rest))
  {
    var quote := if '\'' in s && '"' !in s then '"' else '\'';
    CharsRead(s, quote, rest);
    var text := Repr(s) + rest;
    assert text == [quote] + (ReprChars(s, quote) + ([quote] + rest));
  }

  /** Nothing in a name needs an escape. */
  lemma {:induction false} NameIsPlain(name: string)
    requires forall i :: 0 <= i < |name| ==> IsWord(name[i])
    ensures ReprChars(name, '\'') == name
  {
    if name == [] {
    } else {
      assert IsWord(name[0]);
      NameIsPlain(name[1..]);
      assert name == [name[0]] + name[1..];
    }
  }

  lemma NameRead(name: string, rest: string)
    requires Identifier(name)
    ensures ReadLiteral("'" + (name + ("'" + rest))) == Some((name, rest))
  {
    NameIsPlain(name);
    CharsRead(name, '\'', rest);
    assert ("'" + (name + ("'" + rest)))[1..] == name + (['\''] + rest);
  }

  // ---- rows

  /** `mod` or `(mod, cls)`; a class may be `None`. */
  datatype Value = Module(mod: string) | Member(mod: string, cls: Option<string>)

  datatype Pair = Pair(name: string, value: Value)

  predicate StartsWith(s: string, start: string) {
    |start| <= |s| && s[..|start|] == start
  }

  function ReadClass(s: string): Option<(Option<string>, string)> {
    if StartsWith(s, "None") then Some((None, s[4..]))
    else
      var read := ReadLiteral(s);
      if read.Some? then Some((Some(read.value.0), read.value.1)) else None
  }

  function ReadPair(s: string): Option<Value> {
    var mod := ReadLiteral(s);
    if mod.None? || !StartsWith(mod.value.1, ", ") then None
    else
      var cls := ReadClass(mod.value.1[2..]);
      if cls.Some? && cls.value.1 == ")," then Some(Member(mod.value.0, cls.value.0)) else None
  }

  function ReadValue(s: string): Option<Value> {
    if StartsWith(s, "(") then ReadPair(s[1..])
    else
      var mod := ReadLiteral(s);
      if mod.Some? && mod.value.1 == "," then Some(Module(mod.value.0)) else None
  }

  /** `    'name': value,` */
  function ReadRow(line: string): Option<Pair> {
    if !StartsWith(line, "    ") then None
    else
      var name := ReadLiteral(line[4..]);
      if name.None? || !StartsWith(name.value.1, ": ") then None
      else
        var value := ReadValue(name.value.1[2..]);
        if value.Some? then Some(Pair(name.value.0, value.value)) else None
  }

  lemma RowIs(name: string, value: string)
    ensures EntryLine(name, " " + value) == "    " + ("'" + (name + ("'" + (": " + value))))
  {
  }

  lemma After(a: string, b: string)
    ensures StartsWith(a + b, a) && (a + b)[|a|..] == b
  {
  }

  lemma RowRead(name: string, value: string, v: Value)
    requires Identifier(name) && ReadValue(value) == Some(v)
    ensures ReadRow(RowLine(Row(name, " " + value))) == Some(Pair(name, v))
  {
    RowIs(name, value);
    After("    ", "'" + (name + ("'" + (": " + value))));
    NameRead(name, ": " + value);
    After(": ", value);
  }

  lemma ModuleRead(mod: string)
    ensures ReadValue(Repr(mod) + ",") == Some(Module(mod))
  {
    LiteralRead(mod, ",");
  }

  lemma ClassRead(cls: Option<string>)
    ensures ReadClass((if cls.Some? then Repr(cls.value) else "None") + "),") == Some((cls, "),"))
  {
    if cls.Some? { LiteralRead(cls.value, "),"); } else { After("None", "),"); }
  }

  lemma PairRead(d: Dest)
    ensures ReadValue("(" + (Repr(d.mod) + (", " + ((if d.cls.Some? then Repr(d.cls.value) else "None") + "),"))))
         == Some(Member(d.mod, d.cls))
  {
    var cls := (if d.cls.Some? then Repr(d.cls.value) else "None") + "),";
    ClassRead(d.cls);
    After(", ", cls);
    LiteralRead(d.mod, ", " + cls);
    After("(", Repr(d.mod) + (", " + cls));
  }
}
