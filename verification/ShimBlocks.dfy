/** Printed mapping blocks, and what the parser makes of them. */
module ShimBlocks {
  import opened Sorting
  import opened ShimParser

  /** One entry: `    'name':value`. */
  datatype Row = Row(name: string, value: string)

  function RowLine(row: Row): string {
    EntryLine(row.name, row.value)
  }

  function RowLines(rows: seq<Row>): (r: seq<string>)
    ensures |r| == |rows|
  {
    if rows == [] then [] else [RowLine(rows[0])] + RowLines(rows[1..])
  }

  function Names(rows: seq<Row>): seq<string> {
    if rows == [] then [] else [rows[0].name] + Names(rows[1..])
  }

  predicate PlainRow(row: Row) {
    Identifier(row.name) && BraceFree(row.value) && NoNewline(row.value)
  }

  predicate PlainRows(rows: seq<Row>) {
    rows == [] || (PlainRow(rows[0]) && PlainRows(rows[1..]))
  }

  // ---- the entries of a block

  lemma RowShape(lead: string, row: Row, rest: string)
    ensures lead + (RowLine(row) + ("\n" + rest))
         == (lead + "    ") + ("'" + (row.name + ("':" + (row.value + ("\n" + rest)))))
  {
    var v := row.value + ("\n" + rest);
    Reassociate("    '" + row.name + "':", row.value, "\n" + rest);
    Reassociate("    '" + row.name, "':", v);
    Reassociate("    '", row.name, "':" + v);
    assert "    '" == "    " + "'";
    Reassociate("    ", "'", row.name + ("':" + v));
    Reassociate(lead, "    ", "'" + (row.name + ("':" + v)));
  }

  lemma RowsHead(rows: seq<Row>)
    requires rows != []
    ensures Text(RowLines(rows)) == RowLine(rows[0]) + ("\n" + Text(RowLines(rows[1..])))
  {
    assert RowLines(rows)[0] == RowLine(rows[0]) && RowLines(rows)[1..] == RowLines(rows[1..]);
  }

  lemma FirstRowRead(lead: string, rows: seq<Row>)
    requires rows != [] && PlainRow(rows[0]) && (lead == "" || lead == "\n")
    ensures Entries(lead + Text(RowLines(rows)), true) == [rows[0].name] + Entries(Text(RowLines(rows[1..])), true)
  {
    var rest := Text(RowLines(rows[1..]));
    RowsHead(rows);
    RowShape(lead, rows[0], rest);
    EntryLineRead(lead + "    ", rows[0].name, rows[0].value, rest);
  }

  lemma {:induction false} RowsRead(lead: string, rows: seq<Row>)
    requires PlainRows(rows) && (lead == "" || lead == "\n")
    ensures Entries(lead + Text(RowLines(rows)), true) == Names(rows)
    decreases |rows|
  {
    if rows == [] {
      assert lead + [] == lead;
      assert MatchEntry(lead).NoEntry?;
      assert lead != "" ==> lead[1..] == [];
    } else {
      FirstRowRead(lead, rows);
      RowsRead("", rows[1..]);
      assert "" + Text(RowLines(rows[1..])) == Text(RowLines(rows[1..]));
    }
  }

  // ---- the block and its closing brace

  lemma {:induction false} BlockLengthPlain(a: string, rest: string)
    requires BraceFree(a)
    ensures BlockLength(a + ("}" + rest), 1) == |a|
  {
    var s := a + ("}" + rest);
    if a == [] {
      assert s[0] == '}';
    } else {
      assert s[0] == a[0] && s[1..] == a[1..] + ("}" + rest);
      BlockLengthPlain(a[1..], rest);
    }
  }

  lemma BlockPlain(a: string, rest: string)
    requires BraceFree(a)
    ensures Block(a + ("}" + rest)) == a
  {
    BlockLengthPlain(a, rest);
    assert (a + ("}" + rest))[..|a|] == a;
  }

  lemma RowBraceFree(row: Row)
    requires PlainRow(row)
    ensures BraceFree(RowLine(row)) && Quiet(RowLine(row))
  {
    var line := RowLine(row);
    assert line[0] == ' ';
    forall i | 0 <= i < |line| ensures line[i] != '{' && line[i] != '}' && line[i] != '\n' {
      if 5 <= i < 5 + |row.name| { assert line[i] == row.name[i - 5] && IsWord(row.name[i - 5]); }
      if i >= 7 + |row.name| { assert line[i] == row.value[i - 7 - |row.name|]; }
    }
  }

  lemma {:induction false} RowsBraceFree(rows: seq<Row>)
    requires PlainRows(rows)
    ensures BraceFree(Text(RowLines(rows)))
  {
    if rows == [] {
    } else {
      RowBraceFree(rows[0]);
      RowsBraceFree(rows[1..]);
      RowsHead(rows);
    }
  }

  lemma {:induction false} RowsQuiet(rows: seq<Row>)
    requires PlainRows(rows)
    ensures forall i :: 0 <= i < |rows| ==> Quiet(RowLines(rows)[i])
  {
    if rows == [] {
    } else {
      RowBraceFree(rows[0]);
      RowsQuiet(rows[1..]);
      forall i | 0 <= i < |rows| ensures Quiet(RowLines(rows)[i]) {
        if i > 0 { assert RowLines(rows)[i] == RowLines(rows[1..])[i - 1]; }
      }
    }
  }

  // ---- a whole mapping

  lemma MappingMatches(name: string, rest: string)
    requires Identifier(name)
    ensures MatchMapping(name + (" = {" + rest)) == |name| + 4
    ensures (name + (" = {" + rest))[|name| + 4..] == rest
  {
    var s := name + (" = {" + rest);
    var w := |name|;
    assert s[w..] == " = {" + rest;
    assert s[w] == ' ' && s[w + 1] == '=' && s[w + 2] == ' ' && s[w + 3] == '{';
    assert forall i :: 0 <= i < w ==> s[i] == name[i];
    RunsDetermined(s, w, w + 1);
    var t := s[w + 2..];
    assert t[0] == s[w + 2] && t[1] == s[w + 3];
    SpaceRunIs(t, 1);
    assert s[w + 4..] == s[w..][4..] == rest;
  }

  lemma MappingStep(s: string, n: nat)
    requires MatchMapping(s) == n
    ensures n <= |s| && Parse(s, true) == Entries(Block(s[n..]), true) + Parse(s[n..], false)
  {
  }

  lemma QuietBrace()
    ensures Quiet("}")
  {
  }

  lemma AfterBrace(rows: seq<Row>, rest: string)
    requires PlainRows(rows)
    ensures Parse("\n" + (Text(RowLines(rows)) + ("}" + ("\n" + rest))), false) == Parse(rest, true)
  {
    var x := Text(RowLines(rows)) + ("}" + ("\n" + rest));
    assert ("\n" + x)[0] == '\n' && ("\n" + x)[1..] == x;
    RowsQuiet(rows);
    QuietTextSkipped(RowLines(rows), "}" + ("\n" + rest));
    QuietBrace();
    QuietLineSkipped("}", rest);
  }

  /** The lines of a printed mapping. */
  function MappingLines(name: string, rows: seq<Row>): seq<string> {
    [name + " = {"] + (RowLines(rows) + ["}"])
  }

  lemma MappingText(name: string, rows: seq<Row>, rest: string)
    ensures Text(MappingLines(name, rows)) + rest
         == name + (" = {" + ("\n" + (Text(RowLines(rows)) + ("}" + ("\n" + rest)))))
  {
    var inner := RowLines(rows) + ["}"];
    TextHead(name + " = {", inner, rest);
    TextAppend(RowLines(rows), ["}"]);
    assert Text(["}"]) == "}" + ("\n" + []);
    assert ("}" + ("\n" + [])) + rest == "}" + ("\n" + rest);
    Reassociate(Text(RowLines(rows)), Text(["}"]), rest);
    Reassociate(name, " = {", "\n" + (Text(inner) + rest));
  }

  /** The block cut out behind the opening brace is the printed rows. */
  lemma MappingBlock(rows: seq<Row>, rest: string)
    requires PlainRows(rows)
    ensures Entries(Block("\n" + (Text(RowLines(rows)) + ("}" + ("\n" + rest)))), true) == Names(rows)
  {
    var body := Text(RowLines(rows));
    RowsBraceFree(rows);
    Reassociate("\n", body, "}" + ("\n" + rest));
    BlockPlain("\n" + body, "\n" + rest);
    RowsRead("\n", rows);
  }

  /** A printed mapping yields its names in order, and parsing goes on after it. */
  lemma {:induction false} MappingRead(name: string, rows: seq<Row>, rest: string)
    requires Identifier(name) && PlainRows(rows)
    ensures Parse(Text(MappingLines(name, rows)) + rest, true) == Names(rows) + Parse(rest, true)
  {
    var after := "\n" + (Text(RowLines(rows)) + ("}" + ("\n" + rest)));
    var s := name + (" = {" + after);
    MappingText(name, rows, rest);
    MappingMatches(name, after);
    MappingStep(s, |name| + 4);
    MappingBlock(rows, rest);
    AfterBrace(rows, rest);
  }
}
