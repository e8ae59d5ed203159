/**
 * The JavaScript string operations the front end calls, over `string`
 * (a sequence of characters): `toLowerCase`/`toUpperCase` on ASCII letters,
 * `includes`, `trim`, `split` on one separator character and `replace` of
 * the first occurrence of one character. `Join`, `IndexOf` and
 * `LessOrEqual` (JavaScript's `<=` on strings) are not called by the front
 * end; they state the split round trip, the badge caption and the order of
 * the catalogue's dates.
 */
module Text {

  predicate IsAsciiUpper(c: char) { 'A' <= c <= 'Z' }

  predicate IsAsciiLower(c: char) { 'a' <= c <= 'z' }

  function LowerChar(c: char): (d: char)
    ensures !IsAsciiUpper(d)
  {
    if IsAsciiUpper(c) then (c as int + 32) as char else c
  }

  function UpperChar(c: char): (d: char)
    ensures !IsAsciiLower(d)
  {
    if IsAsciiLower(c) then (c as int - 32) as char else c
  }

  /** `s.toLowerCase()`, for the ASCII letters; other characters are kept. */
  function ToLower(s: string): (r: string)
    ensures |r| == |s|
    ensures forall i :: 0 <= i < |s| ==> r[i] == LowerChar(s[i])
    decreases |s|
  {
    if s == [] then [] else [LowerChar(s[0])] + ToLower(s[1..])
  }

  /** `s.toUpperCase()`, for the ASCII letters; other characters are kept. */
  function ToUpper(s: string): (r: string)
    ensures |r| == |s|
    ensures forall i :: 0 <= i < |s| ==> r[i] == UpperChar(s[i])
    decreases |s|
  {
    if s == [] then [] else [UpperChar(s[0])] + ToUpper(s[1..])
  }

  /** Lower-casing twice is lower-casing once. */
  lemma ToLowerIdempotent(s: string)
    ensures ToLower(ToLower(s)) == ToLower(s)
  {
  }

  /** `sub` occurs in `s` starting at position `k`. */
  predicate OccursAt(s: string, sub: string, k: int) {
    0 <= k && k + |sub| <= |s| && s[k..k + |sub|] == sub
  }

  /** `s.includes(sub)`: `sub` is a prefix of `s` or of one of its suffixes. */
  function Includes(s: string, sub: string): (b: bool)
    ensures sub == [] ==> b
    ensures b ==> |sub| <= |s|
    decreases |s|
  {
    assert s[..0] == [];
    (|sub| <= |s| && s[..|sub|] == sub) || (s != [] && Includes(s[1..], sub))
  }

  /** `includes` holds exactly when there is a position at which `sub` occurs. */
  lemma {:induction false} IncludesIffOccurs(s: string, sub: string)
    ensures Includes(s, sub) <==> exists k :: OccursAt(s, sub, k)
    decreases |s|
  {
    if s != [] {
      IncludesIffOccurs(s[1..], sub);
      if Includes(s[1..], sub) {
        var k :| OccursAt(s[1..], sub, k);
        assert s[k + 1..k + 1 + |sub|] == s[1..][k..k + |sub|];
        assert OccursAt(s, sub, k + 1);
      }
      if exists k :: OccursAt(s, sub, k) {
        var k :| OccursAt(s, sub, k);
        if k > 0 {
          assert s[1..][k - 1..k - 1 + |sub|] == s[k..k + |sub|];
          assert OccursAt(s[1..], sub, k - 1);
        } else {
          assert s[..|sub|] == s[0..|sub|];
        }
      }
      if |sub| <= |s| && s[..|sub|] == sub {
        assert s[0..|sub|] == s[..|sub|];
        assert OccursAt(s, sub, 0);
      }
    } else {
      if exists k :: OccursAt(s, sub, k) {
        var k :| OccursAt(s, sub, k);
        assert sub == [] && s[..0] == [];
      }
      if Includes(s, sub) {
        assert OccursAt(s, sub, 0);
      }
    }
  }

  /** The characters that `String.prototype.trim` removes: ECMAScript WhiteSpace and LineTerminator. */
  predicate IsWhiteSpace(c: char) {
    c == '\t' || c == '\n' || c == '\U{000B}' || c == '\U{000C}' || c == '\r' || c == ' ' ||
    c == '\U{00A0}' || c == '\U{1680}' || ('\U{2000}' <= c <= '\U{200A}') ||
    c == '\U{2028}' || c == '\U{2029}' || c == '\U{202F}' || c == '\U{205F}' ||
    c == '\U{3000}' || c == '\U{FEFF}'
  }

  /** Neither starts nor ends with white space. */
  predicate IsTrimmed(s: string) {
    s == [] || (!IsWhiteSpace(s[0]) && !IsWhiteSpace(s[|s| - 1]))
  }

  predicate AllWhiteSpace(s: string) {
    forall i :: 0 <= i < |s| ==> IsWhiteSpace(s[i])
  }

  /** `s` without its leading white space. */
  function TrimStart(s: string): (r: string)
    ensures |r| <= |s| && r == s[|s| - |r|..]
    ensures AllWhiteSpace(s[..|s| - |r|])
    ensures r == [] || !IsWhiteSpace(r[0])
    decreases |s|
  {
    if s != [] && IsWhiteSpace(s[0]) then
      var r := TrimStart(s[1..]);
      assert s[1..][|s| - 1 - |r|..] == s[|s| - |r|..];
      assert s[..|s| - |r|] == [s[0]] + s[1..][..|s| - 1 - |r|];
      AllWhiteSpaceConcat([s[0]], s[1..][..|s| - 1 - |r|]);
      r
    else
      assert s[|s| - |s|..] == s && s[..0] == [];
      s
  }

  /** `s` without its trailing white space. */
  function TrimEnd(s: string): (r: string)
    ensures |r| <= |s| && r == s[..|r|]
    ensures AllWhiteSpace(s[|r|..])
    ensures r == [] || !IsWhiteSpace(r[|r| - 1])
    decreases |s|
  {
    if s != [] && IsWhiteSpace(s[|s| - 1]) then
      var r := TrimEnd(s[..|s| - 1]);
      assert s[..|s| - 1][..|r|] == s[..|r|];
      assert s[|r|..] == s[..|s| - 1][|r|..] + [s[|s| - 1]];
      AllWhiteSpaceConcat(s[..|s| - 1][|r|..], [s[|s| - 1]]);
      r
    else
      assert s[..|s|] == s && s[|s|..] == [];
      s
  }

  /** `r` occurs in `s` at position `k`, with nothing but white space before and after it. */
  predicate WhiteAround(s: string, r: string, k: int) {
    OccursAt(s, r, k) && AllWhiteSpace(s[..k]) && AllWhiteSpace(s[k + |r|..])
  }

  /** `s.trim()`: the piece of `s` left after removing white space at both ends. */
  function Trim(s: string): (r: string)
    ensures IsTrimmed(r)
    ensures exists k :: WhiteAround(s, r, k)
    ensures r == [] <==> AllWhiteSpace(s)
    ensures IsTrimmed(s) ==> r == s
  {
    TrimBothIsTrimmed(s);
    TrimBothRemovesWhiteSpace(s);
    TrimBothEmpty(s);
    TrimBothKeepsTrimmed(s);
    TrimEnd(TrimStart(s))
  }

  /** Trimming both ends removes white space only: what precedes and what follows the result is white. */
  lemma TrimBothRemovesWhiteSpace(s: string)
    ensures WhiteAround(s, TrimEnd(TrimStart(s)), |s| - |TrimStart(s)|)
  {
    var t := TrimStart(s);
    var r := TrimEnd(t);
    var k := |s| - |t|;
    TrimBothOccurs(s);
    assert s[k + |r|..] == t[|r|..];
  }

  /** A character that does not occur in `s` does not occur in `s.trim()`. */
  lemma TrimKeepsOut(s: string, c: char)
    requires c !in s
    ensures c !in Trim(s)
  {
    var r := Trim(s);
    var k :| WhiteAround(s, r, k);
    forall m | 0 <= m < |r| ensures r[m] != c {
      assert r[m] == s[k..k + |r|][m] == s[k + m];
    }
  }

  /** Trimming both ends leaves neither end white. */
  lemma TrimBothIsTrimmed(s: string)
    ensures IsTrimmed(TrimEnd(TrimStart(s)))
  {
    var t := TrimStart(s);
    var r := TrimEnd(t);
    if r != [] {
      assert r[0] == t[0];
    }
  }

  /** What is left after trimming both ends is a piece of the input. */
  lemma TrimBothOccurs(s: string)
    ensures OccursAt(s, TrimEnd(TrimStart(s)), |s| - |TrimStart(s)|)
  {
    var t := TrimStart(s);
    var r := TrimEnd(t);
    var k := |s| - |t|;
    PieceOfPiece(s, t, r, k);
  }

  /** A prefix of a suffix is a piece. */
  lemma PieceOfPiece(s: string, t: string, r: string, k: int)
    requires 0 <= k <= |s| && t == s[k..]
    requires |r| <= |t| && r == t[..|r|]
    ensures OccursAt(s, r, k)
  {
    assert forall i :: 0 <= i < |r| ==> r[i] == s[k + i];
  }

  /** Nothing is left exactly when the input is all white space. */
  lemma TrimBothEmpty(s: string)
    ensures TrimEnd(TrimStart(s)) == [] <==> AllWhiteSpace(s)
  {
    TrimStartKeepsWhiteness(s);
    WhiteEndTrimsToEmpty(TrimStart(s));
  }

  /** Dropping the leading white space does not change whether a string is all white space. */
  lemma TrimStartKeepsWhiteness(s: string)
    ensures AllWhiteSpace(TrimStart(s)) <==> AllWhiteSpace(s)
  {
    var t := TrimStart(s);
    WhitePrefixDropped(s, t, |s| - |t|);
  }

  /** A string with no white space at its start trims to nothing exactly when it is empty. */
  lemma WhiteEndTrimsToEmpty(t: string)
    requires t == [] || !IsWhiteSpace(t[0])
    ensures TrimEnd(t) == [] <==> AllWhiteSpace(t)
  {
    var r := TrimEnd(t);
    assert t[|r|..] == t || r != [];
    assert t == [] || !AllWhiteSpace(t);
  }

  /** A string with no white space at its ends is left as it is. */
  lemma TrimBothKeepsTrimmed(s: string)
    ensures IsTrimmed(s) ==> TrimEnd(TrimStart(s)) == s
  {
    if IsTrimmed(s) && s != [] {
      assert TrimStart(s) == s;
      assert TrimEnd(s) == s;
    }
  }

  /** A string is white space exactly when both parts around any cut are. */
  lemma AllWhiteSpaceSplit(s: string, k: int)
    requires 0 <= k <= |s|
    ensures AllWhiteSpace(s) <==> AllWhiteSpace(s[..k]) && AllWhiteSpace(s[k..])
  {
    assert forall i :: 0 <= i < k ==> s[..k][i] == s[i];
    assert forall i :: k <= i < |s| ==> s[k..][i - k] == s[i];
  }

  /** Dropping a white prefix does not change whether a string is all white space. */
  lemma WhitePrefixDropped(s: string, t: string, k: int)
    requires 0 <= k <= |s| && t == s[k..] && AllWhiteSpace(s[..k])
    ensures AllWhiteSpace(s) <==> AllWhiteSpace(t)
  {
    AllWhiteSpaceSplit(s, k);
  }

  /** A concatenation is white space exactly when both parts are. */
  lemma AllWhiteSpaceConcat(a: string, b: string)
    ensures AllWhiteSpace(a + b) <==> AllWhiteSpace(a) && AllWhiteSpace(b)
  {
    assert forall i :: 0 <= i < |a| ==> (a + b)[i] == a[i];
    assert forall i :: 0 <= i < |b| ==> (a + b)[|a| + i] == b[i];
  }

  /** `s.split(sep)`: the pieces between separators, including empty ones; `""` gives `[""]`. */
  function Split(s: string, sep: char): (parts: seq<string>)
    ensures parts != []
    ensures forall i :: 0 <= i < |parts| ==> sep !in parts[i]
    decreases |s|
  {
    if s == [] then [""]
    else
      var rest := Split(s[1..], sep);
      if s[0] == sep then [""] + rest
      else
        assert forall i :: 1 <= i < |rest| ==> rest[1..][i - 1] == rest[i];
        [[s[0]] + rest[0]] + rest[1..]
  }

  /** `parts.join(sep)`; `[]` gives `""`. */
  function Join(parts: seq<string>, sep: char): string
    decreases |parts|
  {
    if parts == [] then ""
    else if |parts| == 1 then parts[0]
    else parts[0] + [sep] + Join(parts[1..], sep)
  }

  /** Joining a list whose first piece starts with `c` puts `c` in front of the join without it. */
  lemma JoinPrepend(c: char, x: string, tail: seq<string>, sep: char)
    ensures Join([[c] + x] + tail, sep) == [c] + Join([x] + tail, sep)
  {
    var ps, qs := [[c] + x] + tail, [x] + tail;
    assert ps[0] == [c] + x && qs[0] == x && ps[1..] == tail && qs[1..] == tail;
  }

  /** There is one more piece than there are separators. */
  lemma {:induction false} SplitCount(s: string, sep: char)
    ensures |Split(s, sep)| == multiset(s)[sep] + 1
    decreases |s|
  {
    if s != [] {
      SplitCount(s[1..], sep);
      assert s == [s[0]] + s[1..];
    }
  }

  /** One step of the split: the first character either ends the first piece or joins it. */
  lemma SplitCons(s: string, sep: char)
    requires s != []
    ensures Split(s, sep) == if s[0] == sep then [""] + Split(s[1..], sep)
      else [[s[0]] + Split(s[1..], sep)[0]] + Split(s[1..], sep)[1..]
  {
  }

  /** Splitting and joining on the same separator gives back the input. */
  lemma {:induction false} JoinSplit(s: string, sep: char)
    ensures Join(Split(s, sep), sep) == s
    decreases |s|
  {
    if s != [] {
      JoinSplit(s[1..], sep);
      var rest := Split(s[1..], sep);
      SplitCons(s, sep);
      if s[0] == sep {
        assert ([""] + rest)[1..] == rest;
        assert Join([""] + rest, sep) == [sep] + Join(rest, sep);
      } else {
        JoinPrepend(s[0], rest[0], rest[1..], sep);
        assert [rest[0]] + rest[1..] == rest;
      }
      assert [s[0]] + s[1..] == s;
    }
  }

  /** A separator-free prefix becomes (the start of) the first piece. */
  lemma {:induction false} SplitPrefix(p: string, t: string, sep: char)
    requires sep !in p
    ensures Split(p + t, sep) == [p + Split(t, sep)[0]] + Split(t, sep)[1..]
    decreases |p|
  {
    if p == [] {
      var parts := Split(t, sep);
      assert p + t == t && p + parts[0] == parts[0];
      assert parts == [parts[0]] + parts[1..];
    } else {
      assert (p + t)[0] == p[0] && (p + t)[1..] == p[1..] + t;
      SplitPrefix(p[1..], t, sep);
      assert [p[0]] + (p[1..] + Split(t, sep)[0]) == p + Split(t, sep)[0];
    }
  }

  /** Joining separator-free pieces and splitting again gives back the pieces. */
  lemma {:induction false} SplitJoin(parts: seq<string>, sep: char)
    requires parts != []
    requires forall i :: 0 <= i < |parts| ==> sep !in parts[i]
    ensures Split(Join(parts, sep), sep) == parts
    decreases |parts|
  {
    if |parts| == 1 {
      SplitPrefix(parts[0], "", sep);
      assert parts[0] + "" == parts[0];
    } else {
      var rest := parts[1..];
      SplitJoin(rest, sep);
      var t := [sep] + Join(rest, sep);
      assert parts[0] + [sep] + Join(rest, sep) == parts[0] + t;
      assert t[0] == sep && t[1..] == Join(rest, sep);
      SplitPrefix(parts[0], t, sep);
      assert parts[0] + "" == parts[0];
    }
  }

  /** `s.indexOf(c)`: the first position of `c` in `s`, or -1 when there is none. */
  function IndexOf(s: string, c: char): (k: int)
    ensures k == -1 <==> c !in s
    ensures k != -1 ==> 0 <= k < |s| && s[k] == c && c !in s[..k]
    decreases |s|
  {
    if s == [] then -1
    else if s[0] == c then 0
    else
      var k := IndexOf(s[1..], c);
      assert s == [s[0]] + s[1..];
      if k == -1 then -1
      else
        assert s[..k + 1] == [s[0]] + s[1..][..k];
        k + 1
  }

  /** A position holding `c` with no `c` before it is what `indexOf` finds. */
  lemma IndexOfFirst(s: string, c: char, k: int)
    requires 0 <= k < |s| && s[k] == c && c !in s[..k]
    ensures IndexOf(s, c) == k
  {
  }

  /** `s.replace(from, to)` with a one-character string pattern: only the first occurrence changes. */
  function ReplaceFirst(s: string, from: char, to: char): (r: string)
    ensures |r| == |s|
    ensures from !in s ==> r == s
    ensures from in s ==> exists k :: 0 <= k < |s| && s[k] == from && from !in s[..k] && r == s[..k] + [to] + s[k + 1..]
  {
    var k := IndexOf(s, from);
    if k == -1 then s else s[..k] + [to] + s[k + 1..]
  }

  /** JavaScript's `a <= b` on strings: lexicographic comparison of characters. */
  function LessOrEqual(a: string, b: string): (r: bool)
    ensures |a| <= |b| && a == b[..|a|] ==> r
    ensures r && a != [] ==> b != [] && a[0] <= b[0]
    decreases |a|
  {
    assert |a| <= |b| && a == b[..|a|] && a != [] ==> a[1..] == b[1..][..|a| - 1];
    a == [] || (b != [] && (a[0] < b[0] || (a[0] == b[0] && LessOrEqual(a[1..], b[1..]))))
  }

  /** Comparing two concatenations whose first parts have the same length: the first parts decide unless they are equal. */
  lemma {:induction false} LessOrEqualConcat(p: string, x: string, q: string, y: string)
    requires |p| == |q|
    ensures LessOrEqual(p + x, q + y) == if p == q then LessOrEqual(x, y) else LessOrEqual(p, q)
    decreases |p|
  {
    if p == [] {
      assert p + x == x && q + y == y;
    } else {
      assert (p + x)[0] == p[0] && (q + y)[0] == q[0];
      assert (p + x)[1..] == p[1..] + x && (q + y)[1..] == q[1..] + y;
      LessOrEqualConcat(p[1..], x, q[1..], y);
      assert p == q <==> p[0] == q[0] && p[1..] == q[1..] by {
        assert p == [p[0]] + p[1..] && q == [q[0]] + q[1..];
      }
    }
  }

  /** Strings that agree up to position `k` and differ there are ordered by their characters at `k`. */
  lemma {:induction false} LessOrEqualAt(a: string, b: string, k: nat)
    requires k < |a| && k < |b| && a[..k] == b[..k] && a[k] < b[k]
    ensures LessOrEqual(a, b)
    decreases k
  {
    if k > 0 {
      assert a[0] == a[..k][0] && b[0] == b[..k][0];
      assert a[1..][..k - 1] == a[..k][1..] && b[1..][..k - 1] == b[..k][1..];
      LessOrEqualAt(a[1..], b[1..], k - 1);
    }
  }
}
