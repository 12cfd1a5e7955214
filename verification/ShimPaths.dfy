/** Where a re-export leads: the dotted module of a file path, said on the path as a whole. */
module ShimPaths {
  import opened Sorting
  import opened ShimSource

  /** Backslashes count as slashes. */
  function Slashed(path: string): (r: string)
    ensures |r| == |path| && forall i :: 0 <= i < |r| ==> r[i] == if path[i] == '\\' then '/' else path[i]
  {
    seq(|path|, i requires 0 <= i < |path| => if path[i] == '\\' then '/' else path[i])
  }

  /** Dots for slashes. */
  function Dots(path: string): (r: string)
    ensures |r| == |path| && forall i :: 0 <= i < |r| ==> r[i] == if path[i] == '/' then '.' else path[i]
  {
    seq(|path|, i requires 0 <= i < |path| => if path[i] == '/' then '.' else path[i])
  }

  predicate EndsIn(s: string, end: string) {
    |end| <= |s| && s[|s| - |end|..] == end
  }

  predicate SlashFree(s: string) {
    forall i :: 0 <= i < |s| ==> s[i] != '/'
  }

  /** The path below the root directory, when the root is its first directory. */
  function BelowRoot(path: string, root: string): string {
    if !SlashFree(root) then path
    else if path == root then ""
    else if |path| > |root| && path[..|root|] == root && path[|root|] == '/' then path[|root| + 1..]
    else path
  }

  /** The path of the module in a file: the package for `__init__.py`, `.py` dropped. */
  function WithoutSuffix(path: string): string {
    if path == "__init__.py" then ""
    else if EndsIn(path, "/__init__.py") then path[..|path| - 12]
    else if EndsIn(path, ".py") then path[..|path| - 3]
    else path
  }

  function ModulePath(path: string, root: string): string {
    Dots(WithoutSuffix(BelowRoot(Slashed(path), root)))
  }

  // ---- the parts of a path

  predicate AllSlashFree(parts: seq<string>) {
    forall k :: 0 <= k < |parts| ==> SlashFree(parts[k])
  }

  /** `"/".join(parts)` */
  function WithSlashes(parts: seq<string>): string {
    if parts == [] then "" else if |parts| == 1 then parts[0] else parts[0] + ("/" + WithSlashes(parts[1..]))
  }

  lemma {:induction false} BlankPart(rest: seq<string>)
    requires rest != [] && AllSlashFree(rest)
    ensures AllSlashFree([""] + rest) && WithSlashes([""] + rest) == "/" + WithSlashes(rest)
  {
    assert ([""] + rest)[1..] == rest;
  }

  lemma {:induction false} LongerPart(c: char, rest: seq<string>)
    requires rest != [] && AllSlashFree(rest) && c != '/'
    ensures AllSlashFree([[c] + rest[0]] + rest[1..])
    ensures WithSlashes([[c] + rest[0]] + rest[1..]) == [c] + WithSlashes(rest)
  {
    var first := [c] + rest[0];
    assert ([first] + rest[1..])[1..] == rest[1..];
    assert SlashFree(rest[0]);
    if |rest| > 1 { Reassociate([c], rest[0], "/" + WithSlashes(rest[1..])); }
  }

  lemma {:induction false} PartsOfPath(p: string)
    ensures AllSlashFree(SlashParts(p)) && WithSlashes(SlashParts(p)) == Slashed(p)
  {
    if p == [] {
    } else {
      var rest := SlashParts(p[1..]);
      PartsOfPath(p[1..]);
      if p[0] == '/' || p[0] == '\\' {
        BlankPart(rest);
        assert Slashed(p) == "/" + Slashed(p[1..]);
      } else {
        LongerPart(p[0], rest);
        assert Slashed(p) == [p[0]] + Slashed(p[1..]);
      }
    }
  }

  lemma DotsAppend(a: string, b: string)
    ensures Dots(a + b) == Dots(a) + Dots(b)
  {
  }

  lemma {:induction false} DotsOfParts(parts: seq<string>)
    requires AllSlashFree(parts)
    ensures Dotted(parts) == Dots(WithSlashes(parts))
  {
    if parts == [] {
    } else {
      assert SlashFree(parts[0]) && Dots(parts[0]) == parts[0];
      if |parts| > 1 {
        var rest := WithSlashes(parts[1..]);
        DotsOfParts(parts[1..]);
        DotsAppend(parts[0], "/" + rest);
        DotsAppend("/", rest);
        assert Dots("/") == ".";
        Reassociate(parts[0], ".", Dots(rest));
      }
    }
  }

  // ---- the first part

  lemma FirstPart(parts: seq<string>, root: string)
    requires parts != [] && AllSlashFree(parts)
    ensures BelowRoot(WithSlashes(parts), root) == WithSlashes(if parts[0] == root then parts[1..] else parts)
  {
    var w, first := WithSlashes(parts), parts[0];
    assert SlashFree(first);
    if |parts| == 1 {
      if |w| > |root| && w[..|root|] == root { assert w[|root|] != '/'; }
    } else {
      var rest := WithSlashes(parts[1..]);
      assert w == first + ("/" + rest);
      SlashedStart(first, rest, root);
    }
  }

  lemma SlashedStart(first: string, rest: string, root: string)
    requires SlashFree(first)
    ensures BelowRoot(first + ("/" + rest), root) == if first == root then rest else first + ("/" + rest)
  {
    var w := first + ("/" + rest);
    assert w[|first|] == '/' && w[..|first|] == first && w[|first| + 1..] == rest;
    if w != root && |w| > |root| && w[..|root|] == root {
      assert |root| > |first| ==> root[|first|] == w[|first|];
    }
  }

  // ---- the last part

  lemma {:induction false} LastPart(front: seq<string>, last: string)
    ensures WithSlashes(front + [last]) == if front == [] then last else WithSlashes(front) + ("/" + last)
  {
    if front == [] {
      assert front + [last] == [last];
    } else {
      assert (front + [last])[1..] == front[1..] + [last];
      LastPart(front[1..], last);
      if |front| > 1 { Regroup4(front[0], "/", WithSlashes(front[1..]), "/" + last); }
    }
  }

  lemma Regroup4(a: string, b: string, c: string, d: string)
    ensures a + (b + (c + d)) == (a + (b + c)) + d
  {
  }

  lemma SuffixOfLast(before: string, last: string, end: string)
    requires |end| <= |last|
    ensures EndsIn(before + last, end) <==> EndsIn(last, end)
    ensures (before + last)[..|before + last| - |end|] == before + last[..|last| - |end|]
  {
    var w := before + last;
    assert w[|w| - |end|..] == last[|last| - |end|..];
  }

  /** A suffix without a slash lies inside the last part. */
  lemma SuffixFits(before: string, last: string, end: string)
    requires SlashFree(end) && EndsIn(before + ("/" + last), end)
    ensures |end| <= |last|
  {
    if |end| > |last| { EndCharacter(before + ("/" + last), end, |end| - |last| - 1); }
  }

  lemma EndCharacter(s: string, end: string, k: nat)
    requires EndsIn(s, end) && k < |end|
    ensures end[k] == s[|s| - |end| + k]
  {
  }

  lemma InitText()
    ensures |"__init__.py"| == 11 && |"/__init__.py"| == 12 && SlashFree("__init__.py")
    ensures "/__init__.py" == "/" + "__init__.py" && EndsIn("__init__.py", ".py") && SlashFree(".py")
  {
    assert "__init__.py"[8..] == ".py";
  }

  /** `/__init__.py` at the end is `__init__.py` as the last part. */
  lemma InitLast(before: string, last: string, init: string)
    requires SlashFree(last) && SlashFree(init)
    ensures EndsIn(before + ("/" + last), "/" + init) <==> last == init
    ensures last == init ==>
      var w := before + ("/" + last);
      w[..|w| - |init| - 1] == before
  {
    var w, end := before + ("/" + last), "/" + init;
    if EndsIn(w, end) {
      EndCharacter(w, end, 0);
      if |init| > |last| { EndCharacter(w, end, |init| - |last|); }
      assert |end| == |last| + 1;
      assert last == w[|before| + 1..] == end[1..] == init;
    }
    if last == init { assert w[|w| - |end|..] == end; }
  }

  // ---- the whole path

  /** A path with a directory in front of its last part. */
  lemma SuffixUnder(before: string, last: string)
    requires SlashFree(last)
    ensures WithoutSuffix(before + ("/" + last))
         == if last == "__init__.py" then before
            else if EndsIn(last, ".py") then before + ("/" + last[..|last| - 3])
            else before + ("/" + last)
  {
    InitText();
    var w := before + ("/" + last);
    assert w[|before|] == '/';
    InitLast(before, last, "__init__.py");
    if EndsIn(w, ".py") { SuffixFits(before, last, ".py"); }
    if |last| >= 3 {
      SuffixOfLast(before + "/", last, ".py");
      Reassociate(before, "/", last);
      Reassociate(before, "/", last[..|last| - 3]);
    }
  }

  lemma SuffixAlone(last: string)
    requires SlashFree(last)
    ensures WithoutSuffix(last)
         == if last == "__init__.py" then "" else if EndsIn(last, ".py") then last[..|last| - 3] else last
  {
    InitText();
    if EndsIn(last, "/__init__.py") { EndCharacter(last, "/__init__.py", 0); }
  }

  /** The parts with the suffix of the last one dropped. */
  function WithoutLastSuffix(front: seq<string>, last: string): seq<string> {
    if last == "__init__.py" then front
    else if EndsIn(last, ".py") then front + [last[..|last| - 3]]
    else front + [last]
  }

  lemma SuffixOfParts(front: seq<string>, last: string)
    requires SlashFree(last)
    ensures WithSlashes(WithoutLastSuffix(front, last)) == WithoutSuffix(WithSlashes(front + [last]))
  {
    LastPart(front, last);
    if front == [] { SuffixAlone(last); } else { SuffixUnder(WithSlashes(front), last); }
    if EndsIn(last, ".py") { LastPart(front, last[..|last| - 3]); }
  }

  lemma StillSlashFree(front: seq<string>, last: string)
    requires AllSlashFree(front) && SlashFree(last)
    ensures AllSlashFree(WithoutLastSuffix(front, last))
  {
  }

  lemma DottedSuffix(front: seq<string>, last: string)
    requires AllSlashFree(front) && SlashFree(last)
    ensures Dotted(WithoutLastSuffix(front, last)) == Dots(WithoutSuffix(WithSlashes(front + [last])))
  {
    SuffixOfParts(front, last);
    StillSlashFree(front, last);
    DotsOfParts(WithoutLastSuffix(front, last));
  }

  lemma ModuleWithoutSuffix(parts: seq<string>, front: seq<string>, last: string)
    requires parts == front + [last]
    ensures ModuleOfParts(parts) == Dotted(WithoutLastSuffix(front, last))
  {
    assert parts[|parts| - 1] == last;
    assert parts[..|parts| - 1] == front;
  }

  lemma DottedParts(parts: seq<string>)
    requires AllSlashFree(parts)
    ensures ModuleOfParts(parts) == Dots(WithoutSuffix(WithSlashes(parts)))
  {
    if parts == [] {
      InitText();
    } else {
      var front, last := parts[..|parts| - 1], parts[|parts| - 1];
      assert SlashFree(last);
      ModuleWithoutSuffix(parts, front, last);
      DottedSuffix(front, last);
      assert parts == front + [last];
    }
  }

  /** `_path_to_module` gives the dotted path below the root, without its suffix. */
  lemma ModuleByPath(path: string, root: string)
    ensures ModuleOf(path, root) == ModulePath(path, root)
  {
    var all := SlashParts(path);
    PartsOfPath(path);
    FirstPart(all, root);
    DottedParts(if all[0] == root then all[1..] else all);
  }
}
