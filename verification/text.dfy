/**
 * The handful of Python string and path operations the core relies on:
 * `str.isspace`, `strip`, `split()` on whitespace, `split(sep)`, `join`,
 * `lower`, `startswith`, and `pathlib.Path.name` / `suffix` / `stem`.
 * Whitespace is the exact set Python's `str.isspace` accepts; letter case is
 * modelled for ASCII and Latin-1 only.
 */
module Text {

  /** Python's `str.isspace()` for one character, which is also what `\s`,
      `strip()` and `split()` treat as whitespace. */
  predicate IsSpace(c: char) {
    var k := c as int;
    (9 <= k <= 13) || (28 <= k <= 32) || k == 0x85 || k == 0xA0 || k == 0x1680
    || (0x2000 <= k <= 0x200A) || k == 0x2028 || k == 0x2029 || k == 0x202F
    || k == 0x205F || k == 0x3000
  }

  /** Upper-case letters: ASCII and the Latin-1 capitals (U+00C0..U+00DE without U+00D7). */
  predicate IsUpper(c: char) {
    ('A' <= c <= 'Z') || (0xC0 <= c as int <= 0xDE && c as int != 0xD7)
  }

  function LowerChar(c: char): (l: char)
    ensures !IsUpper(l)
    ensures !IsUpper(c) ==> l == c
  {
    if IsUpper(c) then (c as int + 32) as char else c
  }

  /** `s.lower()`, restricted to ASCII and Latin-1 letters. */
  function Lower(s: string): (r: string)
    ensures |r| == |s|
    ensures forall i :: 0 <= i < |s| ==> r[i] == LowerChar(s[i])
  {
    seq(|s|, i requires 0 <= i < |s| => LowerChar(s[i]))
  }

  predicate StartsWith(s: string, prefix: string) {
    |prefix| <= |s| && s[..|prefix|] == prefix
  }

  /** A prefix survives lower-casing: `s.lower()` starts with `p.lower()`
      whenever `s` starts with `p`. */
  lemma StartsWithLower(s: string, p: string)
    requires StartsWith(s, p)
    ensures StartsWith(Lower(s), Lower(p))
  {
    forall i | 0 <= i < |p| ensures Lower(s)[i] == Lower(p)[i] {
      assert s[i] == p[i];
    }
  }

  /** `s.lstrip()` */
  function TrimStart(s: string): (r: string)
    ensures |r| <= |s|
    ensures r != [] ==> !IsSpace(r[0])
  {
    if s != [] && IsSpace(s[0]) then TrimStart(s[1..]) else s
  }

  /** What `lstrip()` keeps is a suffix of `s`, and what it drops is
      whitespace. */
  lemma {:induction false} TrimStartDropsSpaces(s: string)
    ensures TrimStart(s) == s[|s| - |TrimStart(s)|..]
    ensures forall i :: 0 <= i < |s| - |TrimStart(s)| ==> IsSpace(s[i])
  {
    if s != [] && IsSpace(s[0]) {
      TrimStartDropsSpaces(s[1..]);
      assert forall i :: 1 <= i < |s| ==> s[i] == s[1..][i - 1];
      assert s[1..][|s| - 1 - |TrimStart(s)|..] == s[|s| - |TrimStart(s)|..];
    }
  }

  /** `s.rstrip()` */
  function TrimEnd(s: string): (r: string)
    ensures |r| <= |s|
  {
    if s != [] && IsSpace(s[|s| - 1]) then TrimEnd(s[..|s| - 1]) else s
  }

  /** What `rstrip()` keeps is a prefix of `s` that does not end with
      whitespace, and what it drops is whitespace. */
  lemma {:induction false} TrimEndDropsSpaces(s: string)
    ensures TrimEnd(s) == s[..|TrimEnd(s)|]
    ensures TrimEnd(s) != [] ==> !IsSpace(TrimEnd(s)[|TrimEnd(s)| - 1])
    ensures forall i :: |TrimEnd(s)| <= i < |s| ==> IsSpace(s[i])
  {
    if s != [] && IsSpace(s[|s| - 1]) {
      TrimEndDropsSpaces(s[..|s| - 1]);
      assert s[..|s| - 1][..|TrimEnd(s)|] == s[..|TrimEnd(s)|];
    }
  }

  /** Where `Strip(s)` begins inside `s`. */
  function StripOffset(s: string): nat {
    |s| - |TrimStart(s)|
  }

  /** `s.strip()` */
  function Strip(s: string): string {
    TrimEnd(TrimStart(s))
  }

  /** `strip()` keeps a slice of `s` that neither begins nor ends with
      whitespace; it gives the empty string exactly for an all-whitespace
      string, and otherwise drops only whitespace at either end. */
  lemma StripDropsOnlySpaces(s: string)
    ensures var r := Strip(s);
      && StripOffset(s) + |r| <= |s| && r == s[StripOffset(s)..StripOffset(s) + |r|]
      && (r != [] ==> !IsSpace(r[0]) && !IsSpace(r[|r| - 1]))
    ensures Strip(s) == [] <==> forall i :: 0 <= i < |s| ==> IsSpace(s[i])
    ensures forall i :: 0 <= i < StripOffset(s) ==> IsSpace(s[i])
    ensures forall i :: StripOffset(s) + |Strip(s)| <= i < |s| ==> IsSpace(s[i])
  {
    var t := TrimStart(s);
    TrimStartDropsSpaces(s);
    TrimEndDropsSpaces(t);
    assert forall i :: 0 <= i < |t| ==> t[i] == s[|s| - |t| + i];
    var r := TrimEnd(t);
    assert r == t[..|r|];
    assert r == s[StripOffset(s)..StripOffset(s) + |r|];
  }

  /** A string that has no whitespace at either end is its own `strip()`. */
  lemma StripTrimmed(s: string)
    requires s != [] ==> !IsSpace(s[0]) && !IsSpace(s[|s| - 1])
    ensures Strip(s) == s
  {
  }

  lemma {:induction false} StripIdempotent(s: string)
    ensures Strip(Strip(s)) == Strip(s)
  {
    StripDropsOnlySpaces(s);
    StripTrimmed(Strip(s));
  }

  /** A word of `split()`: non-empty and free of whitespace. */
  predicate IsWord(w: string) {
    w != [] && forall i :: 0 <= i < |w| ==> !IsSpace(w[i])
  }

  /** The longest prefix of `s` that holds no whitespace. */
  function WordPrefix(s: string): (w: string)
    ensures |w| <= |s| && w == s[..|w|]
    ensures forall i :: 0 <= i < |w| ==> !IsSpace(w[i])
    ensures |w| < |s| ==> IsSpace(s[|w|])
  {
    if s == [] || IsSpace(s[0]) then [] else [s[0]] + WordPrefix(s[1..])
  }

  /** `s.split()`: the maximal whitespace-free runs of `s`, in order. */
  function Words(s: string): seq<string>
    decreases |s|
  {
    var t := TrimStart(s);
    if t == [] then []
    else
      var w := WordPrefix(t);
      [w] + Words(t[|w|..])
  }

  /** Every piece `split()` yields is a word. */
  lemma {:induction false} WordsAreWords(s: string)
    ensures forall i :: 0 <= i < |Words(s)| ==> IsWord(Words(s)[i])
    decreases |s|
  {
    var t := TrimStart(s);
    if t != [] {
      var w := WordPrefix(t);
      WordsAreWords(t[|w|..]);
      assert Words(s) == [w] + Words(t[|w|..]);
    }
  }

  /** `lstrip()` of a concatenation: the whitespace of `a` is dropped, and so
      is that of `b` when `a` is all whitespace. */
  lemma {:induction false} TrimStartAppend(a: string, b: string)
    ensures TrimStart(a + b) == if TrimStart(a) == [] then TrimStart(b) else TrimStart(a) + b
  {
    if a != [] && IsSpace(a[0]) {
      assert (a + b)[1..] == a[1..] + b;
      TrimStartAppend(a[1..], b);
    } else if a == [] {
      assert a + b == b;
    }
  }

  /** A word ends at the first whitespace character, so appending text that
      starts with whitespace does not lengthen it. */
  lemma {:induction false} WordPrefixAppend(t: string, b: string)
    requires b != [] && IsSpace(b[0])
    ensures WordPrefix(t + b) == WordPrefix(t)
  {
    if t != [] && !IsSpace(t[0]) {
      assert (t + b)[1..] == t[1..] + b;
      WordPrefixAppend(t[1..], b);
    } else if t == [] {
      assert t + b == b;
    }
  }

  /** Leading whitespace does not change `split()`. */
  lemma WordsTrimStart(s: string)
    ensures Words(TrimStart(s)) == Words(s)
  {
    TrimStartAppend(TrimStart(s), []);
    assert TrimStart(s) + [] == TrimStart(s);
  }

  /** `split()` of `a + b`, where `b` starts with whitespace, is the words of
      `a` followed by the words of `b`: no word spans the two. */
  lemma {:induction false} WordsAppend(a: string, b: string)
    requires b != [] && IsSpace(b[0])
    ensures Words(a + b) == Words(a) + Words(b)
    decreases |a|
  {
    var t := TrimStart(a);
    TrimStartAppend(a, b);
    TrimStartDropsSpaces(a);
    if t != [] {
      var w := WordPrefix(t);
      WordPrefixAppend(t, b);
      assert (t + b)[|w|..] == t[|w|..] + b;
      WordsAppend(t[|w|..], b);
    }
  }

  /** `sep.join(parts)` */
  function JoinWith(parts: seq<string>, sep: string): string {
    if parts == [] then []
    else if |parts| == 1 then parts[0]
    else parts[0] + sep + JoinWith(parts[1..], sep)
  }

  /** Words joined by single spaces neither begin nor end with whitespace, so
      `strip()` leaves them unchanged; the join is empty only for no words. */
  lemma {:induction false} StripJoinedWords(ws: seq<string>)
    requires forall i :: 0 <= i < |ws| ==> IsWord(ws[i])
    ensures JoinWith(ws, " ") == [] <==> ws == []
    ensures Strip(JoinWith(ws, " ")) == JoinWith(ws, " ")
  {
    JoinedWordsEdges(ws);
    StripTrimmed(JoinWith(ws, " "));
  }

  lemma {:induction false} JoinedWordsEdges(ws: seq<string>)
    requires forall i :: 0 <= i < |ws| ==> IsWord(ws[i])
    ensures var j := JoinWith(ws, " ");
      (j == [] <==> ws == []) && (j != [] ==> !IsSpace(j[0]) && !IsSpace(j[|j| - 1]))
  {
    if |ws| > 1 {
      JoinedWordsEdges(ws[1..]);
      var rest := JoinWith(ws[1..], " ");
      assert JoinWith(ws, " ") == ws[0] + " " + rest;
      assert IsWord(ws[0]);
      assert !IsSpace(ws[0][0]);
    } else if |ws| == 1 {
      assert IsWord(ws[0]);
    }
  }

  /** `s.split(d)`: the pieces between occurrences of `d`; at least one piece. */
  function SplitOn(s: string, d: char): (parts: seq<string>)
    ensures |parts| >= 1
    ensures d !in s ==> parts == [s]
  {
    if s == [] then [[]]
    else
      var rest := SplitOn(s[1..], d);
      if s[0] == d then [[]] + rest
      else
        assert d !in s ==> s == [s[0]] + s[1..];
        [[s[0]] + rest[0]] + rest[1..]
  }

  /** After the last separator, the rest of the string is the last piece. */
  lemma {:induction false} SplitOnLastPiece(a: string, b: string, d: char)
    requires d !in b
    ensures |SplitOn(a + [d] + b, d)| >= 2
    ensures SplitOn(a + [d] + b, d)[|SplitOn(a + [d] + b, d)| - 1] == b
  {
    var s := a + [d] + b;
    if a == [] {
      assert s[0] == d && s[1..] == b;
    } else {
      SplitOnLastPiece(a[1..], b, d);
      assert s[1..] == a[1..] + [d] + b;
    }
  }

  /** No piece holds the separator. */
  lemma {:induction false} SplitOnPieces(s: string, d: char)
    ensures forall i :: 0 <= i < |SplitOn(s, d)| ==> d !in SplitOn(s, d)[i]
  {
    if s != [] {
      SplitOnPieces(s[1..], d);
      var rest := SplitOn(s[1..], d);
      if s[0] != d {
        var parts := SplitOn(s, d);
        assert parts == [[s[0]] + rest[0]] + rest[1..];
        forall i | 0 <= i < |parts| ensures d !in parts[i] {
          if i > 0 {
            assert parts[i] == rest[i];
          }
        }
      }
    }
  }

  /** Index of the last `c` in `s`, or -1 (Python's `str.rfind`). */
  function LastIndexOf(s: string, c: char): (i: int)
    ensures -1 <= i < |s|
    ensures i >= 0 ==> s[i] == c && forall j :: i < j < |s| ==> s[j] != c
    ensures i == -1 ==> c !in s
  {
    if s == [] then -1
    else if s[|s| - 1] == c then |s| - 1
    else
      assert forall j :: 0 <= j < |s| - 1 ==> s[..|s| - 1][j] == s[j];
      LastIndexOf(s[..|s| - 1], c)
  }

  /** The last path component that pathlib keeps (empty and "." components are
      dropped), with '/' as the only separator. */
  function LastComponent(parts: seq<string>): string {
    if parts == [] then []
    else
      var last := parts[|parts| - 1];
      if last == [] || last == "." then LastComponent(parts[..|parts| - 1]) else last
  }

  /** The kept component is one of the components, or empty. */
  lemma {:induction false} LastComponentIsPart(parts: seq<string>)
    ensures LastComponent(parts) == [] || LastComponent(parts) in parts
  {
    if parts != [] {
      var last := parts[|parts| - 1];
      if last == [] || last == "." {
        LastComponentIsPart(parts[..|parts| - 1]);
      }
    }
  }

  /** `Path(p).name` */
  function PathName(path: string): string {
    LastComponent(SplitOn(path, '/'))
  }

  /** `Path(p).suffix`: from the last '.' of the name, provided that dot is
      neither the name's first nor its last character. */
  function PathSuffix(path: string): (r: string)
    ensures r != [] ==> r[0] == '.' && |r| >= 2
  {
    var name := PathName(path);
    var i := LastIndexOf(name, '.');
    if 0 < i < |name| - 1 then name[i..] else []
  }

  /** `Path(p).stem` */
  function PathStem(path: string): string {
    var name := PathName(path);
    var i := LastIndexOf(name, '.');
    if 0 < i < |name| - 1 then name[..i] else name
  }

  /** The stem followed by the suffix gives back the name, and the suffix holds
      exactly one dot. */
  lemma StemThenSuffix(path: string)
    ensures PathStem(path) + PathSuffix(path) == PathName(path)
    ensures PathSuffix(path) != [] ==> '.' !in PathSuffix(path)[1..]
  {
    var name := PathName(path);
    var i := LastIndexOf(name, '.');
    if 0 < i < |name| - 1 {
      assert name[..i] + name[i..] == name;
      forall j | 0 <= j < |name[i..][1..]| ensures name[i..][1..][j] != '.' {
        assert name[i..][1..][j] == name[i + 1 + j];
      }
    }
  }

  /** A name holds no '/'. */
  lemma PathNameHasNoSlash(path: string)
    ensures '/' !in PathName(path)
  {
    LastComponentIsPart(SplitOn(path, '/'));
    SplitOnPieces(path, '/');
  }

  /** A stem holds no '/'. */
  lemma PathStemHasNoSlash(path: string)
    ensures '/' !in PathStem(path)
  {
    PathNameHasNoSlash(path);
    var name := PathName(path);
    var i := LastIndexOf(name, '.');
    if 0 < i < |name| - 1 {
      assert forall j :: 0 <= j < i ==> name[..i][j] == name[j];
    }
  }

  /** Joining a directory and a plain name (no '/', not empty, not ".") gives
      a path whose name is that name. */
  lemma JoinedPathName(dir: string, name: string)
    requires '/' !in name && name != [] && name != "."
    ensures PathName(dir + "/" + name) == name
  {
    assert dir + "/" + name == dir + ['/'] + name;
    SplitOnLastPiece(dir, name, '/');
  }
}
