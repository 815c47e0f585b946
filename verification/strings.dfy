/** The two operations of Go's `strings` package that the policy assembler calls, substring
    search (for the Report-To check) and joining with a separator (for the header value), plus
    the read-back helpers the specification uses: a prefix test and splitting a rendering into
    space-separated words. */
module Strings {

  /** `strings.Contains(s, sub)`: `sub` occurs in `s` as a contiguous substring. */
  function Contains(s: string, sub: string): bool
    decreases |s|
  {
    (|sub| <= |s| && s[..|sub|] == sub) || (s != [] && Contains(s[1..], sub))
  }

  /** `sub` occurs in `s` starting at index `i`. */
  ghost predicate OccursAt(s: string, sub: string, i: int)
  {
    0 <= i && i + |sub| <= |s| && s[i..i + |sub|] == sub
  }

  lemma {:induction false} OccursImpliesContains(s: string, sub: string, i: int)
    requires OccursAt(s, sub, i)
    ensures Contains(s, sub)
    decreases i
  {
    if i > 0 {
      assert s[1..][i - 1..i - 1 + |sub|] == s[i..i + |sub|];
      OccursImpliesContains(s[1..], sub, i - 1);
    }
  }

  /** The search agrees with the definition of a substring, in both directions. */
  lemma {:induction false} ContainsIff(s: string, sub: string)
    ensures Contains(s, sub) <==> exists i :: OccursAt(s, sub, i)
    decreases |s|
  {
    if |sub| <= |s| && s[..|sub|] == sub {
      assert OccursAt(s, sub, 0);
    } else if s != [] && Contains(s[1..], sub) {
      ContainsIff(s[1..], sub);
      var i :| OccursAt(s[1..], sub, i);
      assert s[1..][i..i + |sub|] == s[i + 1..i + 1 + |sub|];
      assert OccursAt(s, sub, i + 1);
    }
    forall i | OccursAt(s, sub, i)
      ensures Contains(s, sub)
    {
      OccursImpliesContains(s, sub, i);
    }
  }

  /** A string occurs in any concatenation at the point where it is appended. */
  lemma OccursAppended(x: string, y: string)
    ensures OccursAt(x + y, y, |x|)
  {
    assert (x + y)[|x|..] == y;
  }

  /** An occurrence survives appending more text. */
  lemma OccursExtended(s: string, sub: string, i: int, t: string)
    requires OccursAt(s, sub, i)
    ensures OccursAt(s + t, sub, i)
  {
    assert (s + t)[i..i + |sub|] == s[i..i + |sub|];
  }

  /** Appending keeps the first character of a non-empty string. */
  lemma FirstOfAppend(x: string, y: string)
    requires x != ""
    ensures x + y != "" && (x + y)[0] == x[0]
  {
  }

  /** Specification helper: `prefix` is an initial segment of `s`. */
  predicate StartsWith(s: string, prefix: string)
  {
    |prefix| <= |s| && s[..|prefix|] == prefix
  }

  /** A word holds no space character. */
  predicate NoSpace(w: string)
  {
    ' ' !in w
  }

  predicate NoSpaces(ws: seq<string>)
  {
    forall w :: w in ws ==> NoSpace(w)
  }

  lemma NoSpacesSplit(ws: seq<string>)
    requires ws != [] && NoSpaces(ws)
    ensures NoSpace(ws[0]) && NoSpaces(ws[1..])
  {
    assert ws[0] in ws;
    assert forall w :: w in ws[1..] ==> w in ws;
  }

  /** A character other than the space. */
  type WordChar = c: char | c != ' ' witness 'a'

  /** A string that holds no space by construction, such as a fixed keyword. */
  type Word = seq<WordChar>

  /** Specification helper that reads a rendering back as words: the maximal space-free pieces
      between single spaces. Two adjacent spaces, or a space at either end, yield an empty word. */
  function Split(s: string): (r: seq<string>)
    ensures |r| >= 1
  {
    if s == [] then [""]
    else
      var rest := Split(s[1..]);
      if s[0] == ' ' then [""] + rest
      else [[s[0]] + rest[0]] + rest[1..]
  }

  /** Reading a string back as words loses nothing: joining the words with single spaces gives
      the string again. */
  lemma {:induction false} JoinSplit(s: string)
    ensures Join(Split(s), " ") == s
    decreases |s|
  {
    if s != [] {
      var rest := Split(s[1..]);
      JoinSplit(s[1..]);
      if s[0] == ' ' {
        assert Split(s) == [""] + rest;
        assert ([""] + rest)[1..] == rest;
        assert s == [' '] + s[1..];
      } else {
        var w := [s[0]] + rest[0];
        assert Split(s) == [w] + rest[1..];
        if |rest| > 1 {
          assert ([w] + rest[1..])[1..] == rest[1..];
        }
        assert s == [s[0]] + s[1..];
      }
    }
  }

  /** So two strings with the same words are the same string: a statement about the words of a
      rendering determines the rendering. */
  lemma SplitInjective(a: string, b: string)
    requires Split(a) == Split(b)
    ensures a == b
  {
    JoinSplit(a);
    JoinSplit(b);
  }

  /** The word list of a concatenation: the last word of the left part and the first word of
      the right part fuse into one. */
  function Glue(x: seq<string>, y: seq<string>): (r: seq<string>)
    requires |x| >= 1 && |y| >= 1
    ensures |r| == |x| + |y| - 1
  {
    x[..|x| - 1] + [x[|x| - 1] + y[0]] + y[1..]
  }

  lemma GlueEmptyLeft(y: seq<string>)
    requires |y| >= 1
    ensures Glue([""], y) == y
  {
    assert "" + y[0] == y[0];
    assert Glue([""], y) == [y[0]] + y[1..];
  }

  lemma GlueSpaceLeft(x: seq<string>, y: seq<string>)
    requires |x| >= 1 && |y| >= 1
    ensures Glue([""] + x, y) == [""] + Glue(x, y)
  {
    var sa, n := [""] + x, |x|;
    assert sa[..n] == [""] + x[..n - 1];
    assert sa[n] == x[n - 1];
    assert Glue(sa, y) == [""] + x[..n - 1] + [x[n - 1] + y[0]] + y[1..];
  }

  lemma GlueCharLeft(c: char, x: seq<string>, y: seq<string>)
    requires |x| >= 1 && |y| >= 1
    ensures Glue([[c] + x[0]] + x[1..], y) == [[c] + Glue(x, y)[0]] + Glue(x, y)[1..]
  {
    var sa, n, g := [[c] + x[0]] + x[1..], |x|, Glue(x, y);
    if n == 1 {
      assert Glue(sa, y) == [([c] + x[0]) + y[0]] + y[1..];
      assert g == [x[0] + y[0]] + y[1..];
      assert ([c] + x[0]) + y[0] == [c] + (x[0] + y[0]);
    } else {
      assert sa[..n - 1] == [[c] + x[0]] + x[1..n - 1];
      assert sa[n - 1] == x[n - 1];
      assert g[0] == x[0];
      assert g[1..] == x[1..n - 1] + [x[n - 1] + y[0]] + y[1..];
      assert Glue(sa, y) == [[c] + x[0]] + x[1..n - 1] + [x[n - 1] + y[0]] + y[1..];
    }
  }

  /** A right part that starts with a space adds its words unfused. */
  lemma GlueEmptyRight(x: seq<string>, ys: seq<string>)
    requires |x| >= 1
    ensures Glue(x, [""] + ys) == x + ys
  {
    var n := |x|;
    assert x[n - 1] + "" == x[n - 1];
    assert ([""] + ys)[1..] == ys;
    assert x[..n - 1] + [x[n - 1]] == x;
  }

  /** A left part that ends with a space adds the right part's words unfused. */
  lemma GlueAfterEmpty(x: seq<string>, y: seq<string>)
    requires |y| >= 1
    ensures Glue(x + [""], y) == x + y
  {
    var n := |x| + 1;
    assert (x + [""])[..n - 1] == x;
    assert (x + [""])[n - 1] + y[0] == y[0];
    assert [y[0]] + y[1..] == y;
  }

  /** Reading words is a homomorphism from concatenation to `Glue`. */
  lemma {:induction false} SplitAppend(a: string, b: string)
    ensures Split(a + b) == Glue(Split(a), Split(b))
    decreases |a|
  {
    if a == [] {
      assert a + b == b;
      GlueEmptyLeft(Split(b));
    } else {
      var ab := a + b;
      assert ab[0] == a[0] && ab[1..] == a[1..] + b;
      SplitAppend(a[1..], b);
      if a[0] == ' ' {
        GlueSpaceLeft(Split(a[1..]), Split(b));
      } else {
        GlueCharLeft(a[0], Split(a[1..]), Split(b));
      }
    }
  }

  /** A word followed by one space reads back as the word and an empty word. */
  lemma {:induction false} SplitTrailingSpace(w: string)
    requires NoSpace(w)
    ensures Split(w + " ") == [w, ""]
  {
    SplitAppend(w, " ");
    SplitWord(w);
    var b := Split(" ");
    assert b == ["", ""] by {
      assert " "[1..] == "";
    }
    assert w + "" == w;
    assert Glue([w], b) == [w, ""];
  }

  /** A space-free string is read back as itself. */
  lemma {:induction false} SplitWord(w: string)
    requires NoSpace(w)
    ensures Split(w) == [w]
    decreases |w|
  {
    if w != [] {
      assert w[0] in w;
      assert forall c :: c in w[1..] ==> c in w;
      SplitWord(w[1..]);
      assert [w[0]] + w[1..] == w;
    }
  }

  /** Appending `" " + w` adds exactly the word `w`. */
  lemma SplitAddWord(a: string, w: string)
    requires NoSpace(w)
    ensures Split(a + (" " + w)) == Split(a) + [w]
  {
    SplitAppend(a, " " + w);
    SplitAppend(" ", w);
    SplitWord(w);
    assert Split(" ") == ["", ""];
    assert Split(" " + w) == [""] + [w];
    GlueEmptyRight(Split(a), [w]);
  }

  /** Appending a space-free `w` with no separator fuses it onto the last word. */
  lemma SplitGlueWord(a: string, w: string)
    requires NoSpace(w)
    ensures Split(a + w) == Glue(Split(a), [w])
  {
    SplitAppend(a, w);
    SplitWord(w);
  }

  /** Fusing two words onto the last word one after the other fuses their concatenation. */
  lemma GlueGlue(x: seq<string>, v: string, w: string)
    requires |x| >= 1
    ensures Glue(Glue(x, [v]), [w]) == Glue(x, [v + w])
  {
    var n := |x|;
    assert Glue(x, [v]) == x[..n - 1] + [x[n - 1] + v];
    assert (x[n - 1] + v) + w == x[n - 1] + (v + w);
  }

  /** `strings.Join(parts, sep)`. */
  function Join(parts: seq<string>, sep: string): string
  {
    if parts == [] then ""
    else if |parts| == 1 then parts[0]
    else parts[0] + sep + Join(parts[1..], sep)
  }

  /** Joining space-free words with one space and reading the result back gives the words. */
  lemma {:induction false} SplitJoin(ws: seq<string>)
    requires |ws| >= 1 && NoSpaces(ws)
    ensures Split(Join(ws, " ")) == ws
  {
    if |ws| == 1 {
      SplitWord(ws[0]);
    } else {
      var rest := Join(ws[1..], " ");
      assert Join(ws, " ") == ws[0] + (" " + rest);
      SplitJoin(ws[1..]);
      SplitAppend(ws[0], " " + rest);
      SplitAppend(" ", rest);
      SplitWord(ws[0]);
      assert Split(" ") == ["", ""];
      GlueEmptyLeft(ws[1..]);
      assert Split(" " + rest) == [""] + ws[1..];
      GlueEmptyRight([ws[0]], ws[1..]);
    }
  }

  /** A join of non-empty parts begins with its first part and ends with its last one; it is
      empty exactly when there are no parts. */
  lemma {:induction false} JoinEnds(parts: seq<string>, sep: string)
    requires forall i :: 0 <= i < |parts| ==> parts[i] != ""
    ensures Join(parts, sep) == "" <==> parts == []
    ensures parts != [] ==>
      var j := Join(parts, sep); var f := parts[0];
      |f| <= |j| && j[..|f|] == f
    ensures parts != [] ==>
      var j := Join(parts, sep); var l := parts[|parts| - 1];
      |l| <= |j| && j[|j| - |l|..] == l
  {
    if parts != [] {
      JoinPrefix(parts, sep);
      JoinSuffix(parts, sep);
    }
  }

  lemma JoinPrefix(parts: seq<string>, sep: string)
    requires parts != []
    ensures |parts[0]| <= |Join(parts, sep)| && Join(parts, sep)[..|parts[0]|] == parts[0]
  {
    if |parts| > 1 {
      var f, rest := parts[0], Join(parts[1..], sep);
      assert Join(parts, sep) == f + (sep + rest);
    }
  }

  lemma {:induction false} JoinSuffix(parts: seq<string>, sep: string)
    requires parts != []
    ensures var j, l := Join(parts, sep), parts[|parts| - 1];
      |l| <= |j| && j[|j| - |l|..] == l
  {
    if |parts| > 1 {
      var l, rest := parts[|parts| - 1], Join(parts[1..], sep);
      JoinSuffix(parts[1..], sep);
      assert parts[1..][|parts| - 2] == l;
      var j := (parts[0] + sep) + rest;
      assert j == Join(parts, sep);
      assert j[|j| - |l|..] == rest[|rest| - |l|..];
    }
  }

  /** An occurrence inside `s` is also one inside `x + s`, shifted by `|x|`. */
  lemma OccursPrepended(x: string, s: string, sub: string, i: int)
    requires OccursAt(s, sub, i)
    ensures OccursAt(x + s, sub, |x| + i)
  {
    assert (x + s)[|x| + i..|x| + i + |sub|] == s[i..i + |sub|];
  }

  /** Every part occurs in the join of the parts. */
  lemma {:induction false} JoinContains(parts: seq<string>, sep: string, i: int)
    requires 0 <= i < |parts|
    ensures exists k :: OccursAt(Join(parts, sep), parts[i], k)
  {
    var p := parts[0];
    assert OccursAt(p, p, 0) by { assert p[0..|p|] == p; }
    if |parts| > 1 {
      var rest := Join(parts[1..], sep);
      if i == 0 {
        OccursExtended(p, p, 0, sep + rest);
        assert p + (sep + rest) == Join(parts, sep);
      } else {
        JoinContains(parts[1..], sep, i - 1);
        var k :| OccursAt(rest, parts[1..][i - 1], k);
        OccursPrepended(p + sep, rest, parts[i], k);
        assert OccursAt(Join(parts, sep), parts[i], |p + sep| + k);
      }
    } else {
      assert OccursAt(Join(parts, sep), parts[i], 0);
    }
  }
}
