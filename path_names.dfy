/**
 * The tab title that the editor derives from a file path (main.py, lines 154 and 172):
 * `path.split("/")[-1].split("\\")[-1]`, i.e. the part after the last forward slash,
 * and of that the part after the last backslash.
 */
module PathNames {

  /** Python's `str.split(sep)` for a one-character separator: the pieces between
      separators, in order; there is always at least one piece. */
  function Split(s: string, sep: char): (parts: seq<string>)
    ensures |parts| >= 1
    ensures forall p :: p in parts ==> sep !in p
    decreases |s|
  {
    if s == [] then [""]
    else
      var rest := Split(s[1..], sep);
      if s[0] == sep then [""] + rest
      else
        assert rest[0] in rest;
        [[s[0]] + rest[0]] + rest[1..]
  }

  /** Python's `sep.join(parts)`: the inverse of Split. */
  function Join(parts: seq<string>, sep: char): string
    requires |parts| >= 1
    decreases |parts|
  {
    if |parts| == 1 then parts[0] else parts[0] + [sep] + Join(parts[1..], sep)
  }

  /** Joining the pieces of a split gives back the original string. */
  lemma {:induction false} JoinSplit(s: string, sep: char)
    ensures Join(Split(s, sep), sep) == s
    decreases |s|
  {
    if s != [] {
      var rest := Split(s[1..], sep);
      JoinSplit(s[1..], sep);
      if s[0] == sep {
        assert Split(s, sep) == [""] + rest;
        assert ([""] + rest)[1..] == rest;
      } else {
        var parts := [[s[0]] + rest[0]] + rest[1..];
        assert Split(s, sep) == parts;
        if |rest| > 1 {
          assert parts[1..] == rest[1..];
          assert Join(rest, sep) == rest[0] + [sep] + Join(rest[1..], sep);
        }
      }
    }
  }

  /** Splitting a string that holds no separator gives that string as the only piece. */
  lemma {:induction false} SplitWithoutSeparator(s: string, sep: char)
    requires sep !in s
    ensures Split(s, sep) == [s]
    decreases |s|
  {
    if s != [] {
      assert sep !in s[1..] by {
        forall i | 0 <= i < |s[1..]| ensures s[1..][i] != sep { assert s[1..][i] == s[i + 1]; }
      }
      SplitWithoutSeparator(s[1..], sep);
      assert [s[0]] + s[1..] == s;
    }
  }

  /** The last piece of a joined sequence of pieces follows the last separator. */
  lemma {:induction false} JoinEndsWithLast(parts: seq<string>, sep: char)
    requires |parts| > 1
    ensures Join(parts, sep) == Join(parts[..|parts| - 1], sep) + [sep] + parts[|parts| - 1]
    decreases |parts|
  {
    var n := |parts|;
    if n > 2 {
      JoinEndsWithLast(parts[1..], sep);
      assert parts[1..][..n - 2] == parts[..n - 1][1..];
      assert parts[1..][n - 2] == parts[n - 1];
    } else {
      assert parts[..1] == [parts[0]];
      assert parts[1..] == [parts[1]];
    }
  }

  /** `r` is a suffix of `s`. */
  predicate IsSuffix(r: string, s: string)
  {
    |r| <= |s| && s[|s| - |r|..] == r
  }

  /** `s.split(sep)[-1]`: the longest suffix of `s` without `sep`; it is all of `s`
      when `s` has no `sep`, and otherwise it starts right after a `sep`. */
  function LastPart(s: string, sep: char): (r: string)
    ensures IsSuffix(r, s)
    ensures sep !in r
    ensures |r| < |s| ==> s[|s| - |r| - 1] == sep
    ensures sep !in s ==> r == s
    decreases |s|
  {
    if s == [] || s[|s| - 1] == sep then []
    else
      var init := s[..|s| - 1];
      assert s == init + [s[|s| - 1]];
      LastPartStep(init, s[|s| - 1], sep, LastPart(init, sep));
      LastPart(init, sep) + [s[|s| - 1]]
  }

  /** One character that is not `sep`, appended to a string, extends its LastPart. */
  lemma LastPartStep(init: string, c: char, sep: char, r: string)
    requires IsSuffix(r, init) && sep !in r && c != sep
    requires |r| < |init| ==> init[|init| - |r| - 1] == sep
    requires sep !in init ==> r == init
    ensures var s, r' := init + [c], r + [c];
      && IsSuffix(r', s) && sep !in r'
      && (|r'| < |s| ==> s[|s| - |r'| - 1] == sep)
      && (sep !in s ==> r' == s)
  {
    var s, r' := init + [c], r + [c];
    assert s[|s| - |r'|..] == init[|init| - |r|..] + [c];
    if |r'| < |s| {
      assert s[|s| - |r'| - 1] == init[|init| - |r| - 1];
    }
    if sep !in s {
      assert forall i :: 0 <= i < |init| ==> init[i] == s[i];
    }
  }

  /** Those properties determine LastPart: any suffix of `s` without `sep` that is all of
      `s` or follows a `sep` is LastPart(s, sep). */
  lemma LastPartUnique(s: string, sep: char, r: string)
    requires IsSuffix(r, s) && sep !in r
    requires |r| < |s| ==> s[|s| - |r| - 1] == sep
    ensures LastPart(s, sep) == r
  {
    var l := LastPart(s, sep);
    assert |l| == |r|;
    assert l == s[|s| - |r|..];
  }

  /** LastPart is the last piece of Python's split. */
  lemma LastPartIsLastPiece(s: string, sep: char)
    ensures var parts := Split(s, sep); LastPart(s, sep) == parts[|parts| - 1]
  {
    var parts := Split(s, sep);
    var last := parts[|parts| - 1];
    assert last in parts;
    JoinSplit(s, sep);
    if |parts| > 1 {
      JoinEndsWithLast(parts, sep);
      assert s == Join(parts[..|parts| - 1], sep) + [sep] + last;
      assert s[|s| - |last|..] == last;
    }
    LastPartUnique(s, sep, last);
  }

  /** The separators the title expression cuts at. */
  predicate IsSeparator(c: char)
  {
    c == '/' || c == '\\'
  }

  /** The title of a tab whose file is `path`: the part after the last '/' or '\\'. */
  function Basename(path: string): (r: string)
    ensures IsSuffix(r, path)
    ensures '/' !in r && '\\' !in r
    ensures |r| < |path| ==> IsSeparator(path[|path| - |r| - 1])
    ensures '/' !in path && '\\' !in path ==> r == path
    decreases |path|
  {
    if path == [] || IsSeparator(path[|path| - 1]) then []
    else
      var init := path[..|path| - 1];
      assert path == init + [path[|path| - 1]];
      BasenameStep(init, path[|path| - 1], Basename(init));
      Basename(init) + [path[|path| - 1]]
  }

  /** A character that is not a separator, appended to a path, extends its Basename. */
  lemma BasenameStep(init: string, c: char, r: string)
    requires IsSuffix(r, init) && '/' !in r && '\\' !in r && !IsSeparator(c)
    requires |r| < |init| ==> IsSeparator(init[|init| - |r| - 1])
    requires '/' !in init && '\\' !in init ==> r == init
    ensures var s, r' := init + [c], r + [c];
      && IsSuffix(r', s) && '/' !in r' && '\\' !in r'
      && (|r'| < |s| ==> IsSeparator(s[|s| - |r'| - 1]))
      && ('/' !in s && '\\' !in s ==> r' == s)
  {
    var s, r' := init + [c], r + [c];
    assert s[|s| - |r'|..] == init[|init| - |r|..] + [c];
    if |r'| < |s| {
      assert s[|s| - |r'| - 1] == init[|init| - |r| - 1];
    }
    if '/' !in s && '\\' !in s {
      assert forall i :: 0 <= i < |init| ==> init[i] == s[i];
    }
  }

  /** A suffix of a suffix is a suffix; it keeps out a character the middle string keeps
      out, and the character before it in the middle string is the one before it in the
      whole string. */
  lemma SuffixOfSuffix(s: string, m: string, r: string, c: char)
    requires IsSuffix(m, s) && IsSuffix(r, m) && c !in m
    ensures IsSuffix(r, s) && c !in r
    ensures |r| < |m| ==> s[|s| - |r| - 1] == m[|m| - |r| - 1]
  {
    assert s[|s| - |m|..][|m| - |r|..] == s[|s| - |r|..];
    if |r| < |m| {
      assert s[|s| - |m|..][|m| - |r| - 1] == s[|s| - |r| - 1];
    }
  }

  /** Basename is the expression the window evaluates,
      `path.split("/")[-1].split("\\")[-1]`. */
  lemma BasenameIsSplitExpression(path: string)
    ensures Basename(path) == LastPart(LastPart(path, '/'), '\\')
  {
    var afterSlash := LastPart(path, '/');
    var r := LastPart(afterSlash, '\\');
    SuffixOfSuffix(path, afterSlash, r, '/');
    BasenameUnique(path, r);
  }

  /** Basename is the only suffix of `path` that has no separator and is either all of
      `path` or preceded by a separator. */
  lemma BasenameUnique(path: string, r: string)
    requires IsSuffix(r, path)
    requires '/' !in r && '\\' !in r
    requires |r| < |path| ==> IsSeparator(path[|path| - |r| - 1])
    ensures Basename(path) == r
  {
    var b := Basename(path);
    assert |b| == |r|;
    assert b == path[|path| - |r|..];
  }
}
