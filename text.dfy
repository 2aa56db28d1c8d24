/** Python `str` operations used by the build scripts, over `string` (a `seq<char>`).
    Whitespace is the ASCII part of what Python's `str.isspace` accepts, plus NEL and NBSP. */
module Text {

  predicate IsSpace(c: char)
  {
    c == ' ' || c == '\t' || c == '\n' || c == '\r' || c == '\U{0B}' || c == '\U{0C}'
    || ('\U{1C}' <= c <= '\U{1F}') || c == '\U{85}' || c == '\U{A0}'
  }

  predicate IsDigit(c: char)
  {
    '0' <= c <= '9'
  }

  predicate NoSpace(s: string)
  {
    forall i :: 0 <= i < |s| ==> !IsSpace(s[i])
  }

  /** `s.startswith(p)` */
  predicate StartsWith(s: string, p: string)
  {
    |p| <= |s| && s[..|p|] == p
  }

  /** `s.endswith(p)` */
  predicate EndsWith(s: string, p: string)
  {
    |p| <= |s| && s[|s| - |p|..] == p
  }

  /** `sub in s`: `sub` occurs in `s` at some position. */
  predicate OccursAt(s: string, sub: string, i: int)
  {
    0 <= i && i + |sub| <= |s| && s[i..i + |sub|] == sub
  }

  function Contains(s: string, sub: string): (b: bool)
    ensures b <==> exists i :: OccursAt(s, sub, i)
    decreases |s|
  {
    if StartsWith(s, sub) then
      assert OccursAt(s, sub, 0);
      true
    else if |s| <= |sub| then
      false
    else
      var r := Contains(s[1..], sub);
      assert forall i :: OccursAt(s[1..], sub, i) <==> OccursAt(s, sub, i + 1) by {
        forall i ensures OccursAt(s[1..], sub, i) <==> OccursAt(s, sub, i + 1) {
          if 0 <= i && i + |sub| <= |s[1..]| {
            assert s[1..][i..i + |sub|] == s[i + 1..i + 1 + |sub|];
          }
        }
      }
      assert forall i :: OccursAt(s, sub, i) ==> i == 0 || OccursAt(s[1..], sub, i - 1);
      r
  }

  /** `s.lstrip()` */
  function LStrip(s: string): (r: string)
    ensures |r| <= |s|
    ensures forall i :: 0 <= i < |s| - |r| ==> IsSpace(s[i])
    ensures r == [] || !IsSpace(r[0])
  {
    if s != [] && IsSpace(s[0]) then LStrip(s[1..]) else s
  }

  /** What `lstrip` leaves is a suffix of its argument. */
  lemma {:induction false} LStripSuffix(s: string)
    ensures LStrip(s) == s[|s| - |LStrip(s)|..]
  {
    if s != [] && IsSpace(s[0]) {
      LStripSuffix(s[1..]);
    }
  }

  /** `s.rstrip()` */
  function RStrip(s: string): (r: string)
    ensures |r| <= |s|
    ensures forall i :: |r| <= i < |s| ==> IsSpace(s[i])
    ensures r == [] || !IsSpace(r[|r| - 1])
  {
    if s != [] && IsSpace(s[|s| - 1]) then RStrip(s[..|s| - 1]) else s
  }

  /** What `rstrip` leaves is a prefix of its argument. */
  lemma {:induction false} RStripPrefix(s: string)
    ensures RStrip(s) == s[..|RStrip(s)|]
  {
    if s != [] && IsSpace(s[|s| - 1]) {
      RStripPrefix(s[..|s| - 1]);
    }
  }

  /** `r` is the slice of `s` that starts at `i`. */
  predicate SliceAt(s: string, r: string, i: int)
  {
    0 <= i <= |s| - |r| && r == s[i..i + |r|]
  }

  /** `s.strip()`: the slice of `s` left after removing whitespace at both ends. */
  function Strip(s: string): (r: string)
    ensures exists i :: SliceAt(s, r, i)
    ensures r == [] || (!IsSpace(r[0]) && !IsSpace(r[|r| - 1]))
    ensures NoSpace(s) ==> r == s
  {
    var l := LStrip(s);
    var r := RStrip(l);
    LStripSuffix(s);
    RStripPrefix(l);
    assert SliceAt(s, r, |s| - |l|);
    r
  }

  lemma StripIdempotent(s: string)
    ensures Strip(Strip(s)) == Strip(s)
  {
    var r := Strip(s);
    if r != [] {
      assert LStrip(r) == r;
      assert RStrip(r) == r;
    }
  }

  /** `sep.join(parts)` */
  function Join(parts: seq<string>, sep: string): string
  {
    if |parts| == 0 then ""
    else if |parts| == 1 then parts[0]
    else parts[0] + sep + Join(parts[1..], sep)
  }

  /** Index of the leftmost occurrence of `sep` in `s`, if any. */
  function Find(s: string, sep: string): (r: int)
    requires sep != []
    ensures r == -1 || 0 <= r <= |s| - |sep|
    ensures r == -1 <==> !exists i :: OccursAt(s, sep, i)
    ensures r >= 0 ==> OccursAt(s, sep, r) && forall j :: 0 <= j < r ==> !OccursAt(s, sep, j)
    decreases |s|
  {
    if |s| < |sep| then
      assert forall i :: !OccursAt(s, sep, i);
      -1
    else if s[..|sep|] == sep then
      assert OccursAt(s, sep, 0);
      0
    else
      var k := Find(s[1..], sep);
      assert forall i :: OccursAt(s[1..], sep, i) <==> OccursAt(s, sep, i + 1) by {
        forall i ensures OccursAt(s[1..], sep, i) <==> OccursAt(s, sep, i + 1) {
          if 0 <= i && i + |sep| <= |s[1..]| {
            assert s[1..][i..i + |sep|] == s[i + 1..i + 1 + |sep|];
          }
        }
      }
      assert forall i :: OccursAt(s, sep, i) ==> i >= 1 && OccursAt(s[1..], sep, i - 1);
      if k == -1 then -1 else k + 1
  }

  /** An occurrence inside a prefix is an occurrence in the whole string. */
  lemma OccursInPrefix(s: string, sub: string, k: nat, j: int)
    requires k <= |s| && OccursAt(s[..k], sub, j)
    ensures OccursAt(s, sub, j)
  {
    assert s[..k][j..j + |sub|] == s[j..j + |sub|];
  }

  /** `s.split(sep)` for a non-empty separator: the pieces between leftmost, non-overlapping occurrences. */
  function SplitOn(s: string, sep: string): (r: seq<string>)
    requires sep != []
    ensures |r| >= 1
    ensures Join(r, sep) == s
    ensures forall i :: 0 <= i < |r| ==> !Contains(r[i], sep)
    decreases |s|
  {
    var k := Find(s, sep);
    if k == -1 then
      [s]
    else
      var tail := SplitOn(s[k + |sep|..], sep);
      var head := s[..k];
      assert forall j :: OccursAt(head, sep, j) ==> OccursAt(s, sep, j) by {
        forall j | OccursAt(head, sep, j) ensures OccursAt(s, sep, j) {
          OccursInPrefix(s, sep, k, j);
        }
      }
      assert s == head + sep + s[k + |sep|..];
      [head] + tail
  }

  /** `s.split(c)` for a one-character separator, read character by character. */
  function SplitChar(s: string, c: char): (r: seq<string>)
    ensures |r| >= 1
  {
    if s == [] then [[]]
    else
      var rest := SplitChar(s[1..], c);
      if s[0] == c then [[]] + rest else [[s[0]] + rest[0]] + rest[1..]
  }

  lemma {:induction false} SplitCharNone(s: string, c: char)
    requires c !in s
    ensures SplitChar(s, c) == [s]
  {
    if s != [] {
      SplitCharNone(s[1..], c);
      assert [s[0]] + s[1..] == s;
    }
  }

  lemma {:induction false} SplitCharAt(s: string, c: char, k: nat)
    requires k < |s| && s[k] == c && c !in s[..k]
    ensures SplitChar(s, c) == [s[..k]] + SplitChar(s[k + 1..], c)
  {
    if k > 0 {
      assert s[1..][..k - 1] == s[..k][1..];
      assert s[1..][k..] == s[k + 1..];
      SplitCharAt(s[1..], c, k - 1);
      assert [s[0]] + s[1..][..k - 1] == s[..k];
    }
  }

  /** There are at least two pieces exactly when the separator occurs. */
  lemma {:induction false} SplitCharSplits(s: string, c: char)
    ensures |SplitChar(s, c)| >= 2 <==> c in s
  {
    if s != [] {
      SplitCharSplits(s[1..], c);
      assert c in s <==> s[0] == c || c in s[1..];
    }
  }

  /** The character-by-character split is the general one. */
  lemma {:induction false} SplitCharIsSplitOn(s: string, c: char)
    ensures SplitChar(s, c) == SplitOn(s, [c])
    decreases |s|
  {
    var k := Find(s, [c]);
    if k == -1 {
      forall i | 0 <= i < |s| ensures s[i] != c {
        assert !OccursAt(s, [c], i);
        assert s[i..i + 1] == [s[i]];
      }
      SplitCharNone(s, c);
    } else {
      assert s[k..k + 1] == [c];
      forall j | 0 <= j < k ensures s[..k][j] != c {
        assert !OccursAt(s, [c], j);
        assert s[j..j + 1] == [s[j]];
      }
      SplitCharAt(s, c, k);
      SplitCharIsSplitOn(s[k + 1..], c);
    }
  }

  /** The leading run of non-whitespace characters of `s`. */
  function Token(s: string): (t: string)
    ensures |t| <= |s| && t == s[..|t|] && NoSpace(t)
    ensures |t| < |s| ==> IsSpace(s[|t|])
    ensures s != [] && !IsSpace(s[0]) ==> t != [] && t[0] == s[0]
  {
    if s == [] || IsSpace(s[0]) then [] else [s[0]] + Token(s[1..])
  }

  /** `s.split()`: the maximal runs of non-whitespace characters, in order. */
  function SplitWs(s: string): (r: seq<string>)
    ensures forall i :: 0 <= i < |r| ==> r[i] != [] && NoSpace(r[i])
    decreases |s|
  {
    var l := LStrip(s);
    if l == [] then [] else
      var t := Token(l);
      [t] + SplitWs(l[|t|..])
  }

  /** An occurrence in a suffix is an occurrence in the whole string. */
  lemma OccursInSuffix(s: string, off: nat, t: string, i: int)
    requires off <= |s| && OccursAt(s[off..], t, i)
    ensures OccursAt(s, t, off + i)
  {
    assert s[off + i..off + i + |t|] == s[off..][i..i + |t|];
  }

  /** Every field of a whitespace split occurs in the string. */
  lemma {:induction false} SplitWsOccurs(s: string, t: string)
    requires t in SplitWs(s)
    ensures exists i :: OccursAt(s, t, i)
    decreases |s|
  {
    var l := LStrip(s);
    LStripSuffix(s);
    var off := |s| - |l|;
    var tk := Token(l);
    if t == tk {
      assert OccursAt(l, t, 0);
      OccursInSuffix(s, off, t, 0);
    } else {
      var rest := l[|tk|..];
      SplitWsOccurs(rest, t);
      var i :| OccursAt(rest, t, i);
      OccursInSuffix(l, |tk|, t, i);
      OccursInSuffix(s, off, t, |tk| + i);
    }
  }

  /** A string holding a piece that ends with `suffix` contains `suffix`. */
  lemma OccursSuffix(s: string, t: string, i: int, suffix: string)
    requires OccursAt(s, t, i) && EndsWith(t, suffix)
    ensures Contains(s, suffix)
  {
    var j := i + |t| - |suffix|;
    assert s[j..j + |suffix|] == t[|t| - |suffix|..];
    assert OccursAt(s, suffix, j);
  }

  /** The characters of `s` that are not whitespace. */
  function NonSpace(s: string): string
  {
    if s == [] then [] else (if IsSpace(s[0]) then [] else [s[0]]) + NonSpace(s[1..])
  }

  lemma NonSpaceAppend(a: string, b: string)
    ensures NonSpace(a + b) == NonSpace(a) + NonSpace(b)
  {
    if a == [] {
      assert a + b == b;
    } else {
      assert (a + b)[0] == a[0];
      assert (a + b)[1..] == a[1..] + b;
      NonSpaceAppend(a[1..], b);
    }
  }

  lemma NonSpaceOfSpaces(s: string)
    requires forall i :: 0 <= i < |s| ==> IsSpace(s[i])
    ensures NonSpace(s) == []
  {
    if s != [] {
      NonSpaceOfSpaces(s[1..]);
    }
  }

  lemma NonSpaceOfNoSpace(s: string)
    requires NoSpace(s)
    ensures NonSpace(s) == s
  {
    if s != [] {
      NonSpaceOfNoSpace(s[1..]);
    }
  }

  /** Concatenate a sequence of strings. */
  function Concat(parts: seq<string>): string
  {
    if parts == [] then [] else parts[0] + Concat(parts[1..])
  }

  lemma {:induction false} ConcatAppend(a: seq<string>, b: seq<string>)
    ensures Concat(a + b) == Concat(a) + Concat(b)
  {
    if a == [] {
      assert a + b == b;
    } else {
      assert (a + b)[1..] == a[1..] + b;
      ConcatAppend(a[1..], b);
    }
  }

  /** Whitespace splitting loses exactly the whitespace: the tokens spell the non-space characters of `s`. */
  lemma {:induction false} SplitWsSpellsNonSpace(s: string)
    ensures Concat(SplitWs(s)) == NonSpace(s)
    decreases |s|
  {
    var l := LStrip(s);
    assert NonSpace(s) == NonSpace(l) by {
      LStripSuffix(s);
      var pre := s[..|s| - |l|];
      assert s == pre + l;
      NonSpaceOfSpaces(pre);
      NonSpaceAppend(pre, l);
    }
    if l != [] {
      var t := Token(l);
      var rest := l[|t|..];
      assert NonSpace(l) == t + NonSpace(rest) by {
        assert l == t + rest;
        NonSpaceAppend(t, rest);
        NonSpaceOfNoSpace(t);
      }
      SplitWsSpellsNonSpace(rest);
      assert SplitWs(s) == [t] + SplitWs(rest);
      ConcatCons(t, SplitWs(rest));
    }
  }

  lemma ConcatCons(t: string, parts: seq<string>)
    ensures Concat([t] + parts) == t + Concat(parts)
  {
    assert ([t] + parts)[0] == t && ([t] + parts)[1..] == parts;
  }

  /** `s.split(maxsplit=n)`: at most `n` splits; the remainder after them keeps its inner and trailing whitespace. */
  function SplitWsMax(s: string, n: nat): (r: seq<string>)
    ensures |r| <= n + 1
    ensures forall i :: 0 <= i < |r| ==> IsField(r[i])
    ensures forall i :: 0 <= i < |r| - 1 ==> NoSpace(r[i])
    decreases |s|
  {
    var l := LStrip(s);
    if l == [] then []
    else if n == 0 then
      assert IsField(l);
      [l]
    else
      var t := Token(l);
      assert IsField(t) && NoSpace(t);
      var rest := SplitWsMax(l[|t|..], n - 1);
      PrependFields(t, rest);
      [t] + rest
  }

  /** The last field of a split that used all `n` splits is the whole rest of `s`, inner spaces included. */
  lemma {:induction false} SplitWsMaxLast(s: string, n: nat)
    requires |SplitWsMax(s, n)| == n + 1
    ensures EndsWith(s, SplitWsMax(s, n)[n])
    decreases |s|
  {
    var l := LStrip(s);
    LStripSuffix(s);
    if n > 0 {
      var t := Token(l);
      var tail := l[|t|..];
      var rest := SplitWsMax(tail, n - 1);
      assert SplitWsMax(s, n) == [t] + rest;
      SplitWsMaxLast(tail, n - 1);
      assert tail == l[|l| - |tail|..];
      SuffixOfSuffix(l, tail, rest[n - 1]);
      SuffixOfSuffix(s, l, rest[n - 1]);
    }
  }

  lemma SuffixOfSuffix(s: string, l: string, x: string)
    requires |l| <= |s| && l == s[|s| - |l|..] && EndsWith(l, x)
    ensures EndsWith(s, x)
  {
    assert s[|s| - |x|..] == l[|l| - |x|..];
  }

  lemma PrependFields(t: string, rest: seq<string>)
    requires IsField(t) && NoSpace(t)
    requires forall i :: 0 <= i < |rest| ==> IsField(rest[i])
    requires forall i :: 0 <= i < |rest| - 1 ==> NoSpace(rest[i])
    ensures forall i :: 0 <= i < |rest| + 1 ==> IsField(([t] + rest)[i])
    ensures forall i :: 0 <= i < |rest| ==> NoSpace(([t] + rest)[i])
  {
  }

  /** A field of a whitespace split: non-empty, and not starting with whitespace. */
  predicate IsField(f: string)
  {
    f != [] && !IsSpace(f[0])
  }

  /** `s.replace(old, new)`; an empty `old` inserts `new` around every character, as Python does. */
  function ReplaceAll(s: string, pat: string, rep: string): (r: string)
    ensures pat != [] && !Contains(s, pat) ==> r == s
  {
    if pat == [] then
      if s == [] then rep else rep + [s[0]] + ReplaceAll(s[1..], pat, rep)
    else
      var parts := SplitOn(s, pat);
      if |parts| == 1 then assert Join(parts, pat) == parts[0]; parts[0] else Join(parts, rep)
  }

  /** `s[-1].isdigit()`-style removal of one trailing ASCII digit (Python raises on the empty string). */
  function DropTrailingDigit(s: string): (r: string)
    requires s != []
    ensures r == (if IsDigit(s[|s| - 1]) then s[..|s| - 1] else s)
    ensures |s| - 1 <= |r| <= |s| && r == s[..|r|]
  {
    if IsDigit(s[|s| - 1]) then s[..|s| - 1] else s
  }

  /** `s.removesuffix(suffix)` */
  function RemoveSuffix(s: string, suffix: string): (r: string)
    ensures EndsWith(s, suffix) ==> r + suffix == s
    ensures !EndsWith(s, suffix) ==> r == s
  {
    if suffix != [] && EndsWith(s, suffix) then s[..|s| - |suffix|] else s
  }

  /** `s.split('_')[0]`: the text before the first underscore. */
  function Stem(s: string): (r: string)
    ensures |r| <= |s| && r == s[..|r|] && forall i :: 0 <= i < |r| ==> r[i] != '_'
    ensures |r| < |s| ==> s[|r|] == '_'
  {
    if s == [] || s[0] == '_' then [] else [s[0]] + Stem(s[1..])
  }

  /** Index of the last occurrence of `c` in `s`, or -1. */
  function LastIndexOf(s: string, c: char): (r: int)
    ensures -1 <= r < |s|
    ensures r >= 0 ==> s[r] == c
    ensures forall j :: r < j < |s| ==> s[j] != c
  {
    if s == [] then -1
    else if s[|s| - 1] == c then |s| - 1
    else LastIndexOf(s[..|s| - 1], c)
  }

  /** `os.path.splitext(name)[0]` for a name without a directory part: everything before the last `.`,
      unless only dots come before it (a leading-dot name has no extension). */
  function SplitextRoot(s: string): (r: string)
    ensures r == s || (exists i :: 0 < i < |s| && s[i] == '.' && r == s[..i])
  {
    var i := LastIndexOf(s, '.');
    if i > 0 && exists j :: 0 <= j < i && s[j] != '.' then s[..i] else s
  }

  /** The root of `root + "." + ext` is `root` when `ext` has no dot and `root` is not only dots. */
  lemma SplitextOf(root: string, ext: string)
    requires '.' !in ext
    requires exists j :: 0 <= j < |root| && root[j] != '.'
    ensures SplitextRoot(root + "." + ext) == root
  {
    var s := root + "." + ext;
    assert s[|root|] == '.';
    assert forall j :: |root| < j < |s| ==> s[j] == ext[j - |root| - 1];
    assert LastIndexOf(s, '.') == |root| by {
      LastIndexOfAt(s, '.', |root|);
    }
    var j :| 0 <= j < |root| && root[j] != '.';
    assert s[j] == root[j];
    assert s[..|root|] == root;
  }

  lemma {:induction false} LastIndexOfAt(s: string, c: char, k: nat)
    requires k < |s| && s[k] == c && forall j :: k < j < |s| ==> s[j] != c
    ensures LastIndexOf(s, c) == k
  {
    if k < |s| - 1 {
      LastIndexOfAt(s[..|s| - 1], c, k);
    }
  }

  // ---------------------------------------------------------------------------------------------
  // Lines and paths
  // ---------------------------------------------------------------------------------------------

  /** The first index from which `p` holds, or `|s|`. */
  function IndexWhere(s: string, p: char -> bool): (k: nat)
    ensures k <= |s|
    ensures k < |s| ==> p(s[k])
    ensures forall j :: 0 <= j < k ==> !p(s[j])
  {
    if s == [] || p(s[0]) then 0 else 1 + IndexWhere(s[1..], p)
  }

  /** The line boundaries of `str.splitlines`. */
  predicate IsLineBreak(c: char)
  {
    c == '\n' || c == '\r' || c == '\U{0B}' || c == '\U{0C}' || ('\U{1C}' <= c <= '\U{1E}')
    || c == '\U{85}' || c == '\U{2028}' || c == '\U{2029}'
  }

  /** `s.splitlines()`: `\r\n` is one boundary, and a final boundary opens no empty line. */
  function SplitLines(s: string): seq<string>
    decreases |s|
  {
    if s == [] then []
    else
      var k := IndexWhere(s, IsLineBreak);
      if k == |s| then [s]
      else
        var next := if s[k] == '\r' && k + 1 < |s| && s[k + 1] == '\n' then k + 2 else k + 1;
        [s[..k]] + SplitLines(s[next..])
  }

  /** No line of `splitlines` holds a boundary. */
  lemma {:induction false} SplitLinesNoBreak(s: string, line: string)
    requires line in SplitLines(s)
    ensures forall j :: 0 <= j < |line| ==> !IsLineBreak(line[j])
    decreases |s|
  {
    var k := IndexWhere(s, IsLineBreak);
    if k < |s| && line != s[..k] {
      var next := if s[k] == '\r' && k + 1 < |s| && s[k + 1] == '\n' then k + 2 else k + 1;
      SplitLinesNoBreak(s[next..], line);
    }
  }

  predicate IsNewline(c: char)
  {
    c == '\n'
  }

  /** `file.readlines()` (after newline translation): every line keeps its `\n`; only the last one may
      lack it. */
  function ReadLines(s: string): seq<string>
    decreases |s|
  {
    if s == [] then []
    else
      var k := IndexWhere(s, IsNewline);
      if k == |s| then [s] else [s[..k + 1]] + ReadLines(s[k + 1..])
  }

  /** The lines put back together give the file. */
  lemma {:induction false} ReadLinesConcat(s: string)
    ensures Concat(ReadLines(s)) == s
    decreases |s|
  {
    if s != [] {
      var k := IndexWhere(s, IsNewline);
      if k == |s| {
        assert Concat([s]) == s + Concat([]);
      } else {
        ReadLinesConcat(s[k + 1..]);
        ConcatCons(s[..k + 1], ReadLines(s[k + 1..]));
        assert s[..k + 1] + s[k + 1..] == s;
      }
    }
  }

  /** Each line is non-empty and holds a `\n` only as its last character. */
  lemma {:induction false} ReadLinesShape(s: string, i: nat)
    requires i < |ReadLines(s)|
    ensures var line := ReadLines(s)[i];
            line != [] && forall j :: 0 <= j < |line| - 1 ==> line[j] != '\n'
    decreases |s|
  {
    var k := IndexWhere(s, IsNewline);
    if k < |s| && i > 0 {
      ReadLinesShape(s[k + 1..], i - 1);
    }
  }

  /** Text that ends a line reads as its own lines followed by those of what comes after. */
  lemma {:induction false} ReadLinesAppend(a: string, b: string)
    requires a == [] || a[|a| - 1] == '\n'
    ensures ReadLines(a + b) == ReadLines(a) + ReadLines(b)
    decreases |a|
  {
    if a == [] {
      assert a + b == b;
    } else {
      var k := IndexWhere(a, IsNewline);
      assert k < |a|;
      assert (a + b)[..k + 1] == a[..k + 1];
      assert forall j :: 0 <= j <= k ==> (a + b)[j] == a[j];
      assert IndexWhere(a + b, IsNewline) == k;
      assert (a + b)[k + 1..] == a[k + 1..] + b;
      ReadLinesAppend(a[k + 1..], b);
    }
  }

  /** One line without `\n`, terminated, reads as that line. */
  lemma ReadLinesOne(t: string)
    requires '\n' !in t
    ensures ReadLines(t + "\n") == [t + "\n"]
  {
    var s := t + "\n";
    forall j | 0 <= j < |t| ensures !IsNewline(s[j]) {
      assert s[j] == t[j] && t[j] in t;
    }
    assert IsNewline(s[|t|]);
    assert IndexWhere(s, IsNewline) == |t|;
    assert s[..|t| + 1] == s;
    assert s[|t| + 1..] == [];
  }

  /** `lstrip` of a text with a space appended. */
  lemma {:induction false} LStripSnoc(s: string, c: char)
    requires IsSpace(c)
    ensures LStrip(s + [c]) == if LStrip(s) == [] then [] else LStrip(s) + [c]
  {
    if s == [] {
      assert LStrip([c]) == LStrip([c][1..]);
    } else if IsSpace(s[0]) {
      assert (s + [c])[1..] == s[1..] + [c];
      LStripSnoc(s[1..], c);
    }
  }

  /** `strip` ignores a trailing space. */
  lemma StripSnocSpace(s: string, c: char)
    requires IsSpace(c)
    ensures Strip(s + [c]) == Strip(s)
  {
    LStripSnoc(s, c);
    var l := LStrip(s);
    if l != [] {
      assert (l + [c])[..|l + [c]| - 1] == l;
    }
  }

  /** The first piece of a split is a prefix free of the separator. */
  lemma {:induction false} SplitCharFirst(s: string, c: char)
    ensures var f := SplitChar(s, c)[0]; |f| <= |s| && f == s[..|f|] && c !in f
  {
    if s != [] {
      SplitCharFirst(s[1..], c);
    }
  }

  /** `os.path.join(a, b)` on POSIX. */
  function PathJoin(a: string, b: string): string
  {
    if StartsWith(b, "/") then b else if a == [] || EndsWith(a, "/") then a + b else a + "/" + b
  }
}
