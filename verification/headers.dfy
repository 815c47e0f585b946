/** The flattening of the two directive maps into the `Content-Security-Policy` value, and the
    header table `Load` returns. Go iterates maps in an unspecified order, so the value is
    specified for every order in which the maps can be iterated. */
module Headers {
  import opened Strings
  import opened Directives

  /** The fragment of one directive entry: its name, one space, its value, a semicolon. */
  function Fragment(d: Directive, v: string): string
  {
    Name(d) + " " + v + ";"
  }

  /** A fragment reads back as the directive name, one space, the value verbatim and a
      semicolon, so both can be recovered from it. */
  lemma FragmentParts(d: Directive, v: string)
    ensures var f := Fragment(d, v);
      && |f| == |Name(d)| + |v| + 2
      && f[..|Name(d)|] == Name(d) && f[|Name(d)|] == ' '
      && f[|Name(d)| + 1..|f| - 1] == v && f[|f| - 1] == ';'
  {
  }

  predicate Distinct<T(==)>(s: seq<T>)
  {
    forall i, j :: 0 <= i < j < |s| ==> s[i] != s[j]
  }

  /** `order` lists every key of `m` exactly once: one way Go can iterate the map. */
  ghost predicate Enumerates(order: seq<Directive>, m: map<Directive, string>)
  {
    Distinct(order) && forall d :: d in order <==> d in m
  }

  /** The keys of `order` whose value in `m` is not empty, in order. */
  function Live(order: seq<Directive>, m: map<Directive, string>): (live: seq<Directive>)
    requires forall d :: d in order ==> d in m
    ensures forall d :: d in live ==> d in order && m[d] != ""
  {
    if order == [] then []
    else
      var last := order[|order| - 1];
      Live(order[..|order| - 1], m) + (if m[last] == "" then [] else [last])
  }

  /** The fragments of the entries of `keys`, in order. */
  function Frags(keys: seq<Directive>, m: map<Directive, string>): seq<string>
    requires forall d :: d in keys ==> d in m
  {
    seq(|keys|, i requires 0 <= i < |keys| => Fragment(keys[i], m[keys[i]]))
  }

  /** The fragments appended while iterating `m` in `order`: entries with an empty value
      produce none. */
  function Fragments(order: seq<Directive>, m: map<Directive, string>): seq<string>
    requires forall d :: d in order ==> d in m
  {
    Frags(Live(order, m), m)
  }

  /** `v` is the `Content-Security-Policy` value for the static map `st` and the dynamic map
      `dy`: the fragments of the static entries, then those of the dynamic entries, each map
      iterated in some order, joined with single spaces. */
  ghost predicate FlattensTo(st: map<Directive, string>, dy: map<Directive, string>, v: string)
  {
    exists os, od :: Enumerates(os, st) && Enumerates(od, dy)
      && v == Join(Fragments(os, st) + Fragments(od, dy), " ")
  }

  /** Proof helper: supplies the witnesses of `FlattensTo`. */
  lemma FlattenedWith(st: map<Directive, string>, dy: map<Directive, string>,
                      os: seq<Directive>, od: seq<Directive>, v: string)
    requires Enumerates(os, st) && Enumerates(od, dy)
    requires v == Join(Fragments(os, st) + Fragments(od, dy), " ")
    ensures FlattensTo(st, dy, v)
  {
  }

  const CspHeader := "Content-Security-Policy"
  const ReportToHeader := "Report-To"

  /** The header table: the policy value under `Content-Security-Policy` and, exactly when
      the payload is not empty, the payload verbatim under `Report-To`. */
  ghost predicate IsHeaderTable(t: map<string, string>, st: map<Directive, string>,
                                dy: map<Directive, string>, payload: string)
  {
    t.Keys == (if payload == "" then {CspHeader} else {CspHeader, ReportToHeader})
    && FlattensTo(st, dy, t[CspHeader])
    && (payload != "" ==> t[ReportToHeader] == payload)
  }

  // ---------------------------------------------------------------------------------------
  // Properties of the flattened value.

  /** Iterating one more key appends its fragment, unless its value is empty. */
  lemma FragmentsAppend(order: seq<Directive>, m: map<Directive, string>, k: Directive)
    requires forall d :: d in order ==> d in m
    requires k in m
    ensures Fragments(order + [k], m) ==
      Fragments(order, m) + (if m[k] == "" then [] else [Fragment(k, m[k])])
  {
    var o := order + [k];
    assert o[..|o| - 1] == order;
    var live := Live(order, m);
    if m[k] != "" {
      assert Live(o, m) == live + [k];
      assert Frags(live + [k], m) == Frags(live, m) + [Fragment(k, m[k])];
    } else {
      assert Live(o, m) == live + [];
    }
  }

  /** Under an iteration order, the live keys are distinct and are exactly the keys with a
      non-empty value. */
  lemma {:induction false} LiveKeys(order: seq<Directive>, m: map<Directive, string>)
    requires forall d :: d in order ==> d in m
    requires Distinct(order)
    ensures Distinct(Live(order, m))
    ensures forall d :: d in Live(order, m) <==> d in order && m[d] != ""
    decreases |order|
  {
    if order != [] {
      var init, last := order[..|order| - 1], order[|order| - 1];
      assert forall d :: d in init ==> d in order;
      LiveKeys(init, m);
      assert forall j :: 0 <= j < |init| ==> init[j] == order[j] != last;
      assert order == init + [last];
    }
  }

  /** The iteration orders a flattened value was built with. */
  lemma PickOrders(st: map<Directive, string>, dy: map<Directive, string>, v: string)
    returns (os: seq<Directive>, od: seq<Directive>)
    requires FlattensTo(st, dy, v)
    ensures Enumerates(os, st) && Enumerates(od, dy)
    ensures v == Join(Fragments(os, st) + Fragments(od, dy), " ")
  {
    os, od :| Enumerates(os, st) && Enumerates(od, dy)
      && v == Join(Fragments(os, st) + Fragments(od, dy), " ");
  }

  /** The value holds exactly one fragment per entry with a non-empty value, static entries
      first, joined with single spaces. */
  lemma FlattenedEntries(st: map<Directive, string>, dy: map<Directive, string>, v: string)
    requires FlattensTo(st, dy, v)
    ensures exists ks, kd ::
      && Distinct(ks) && (forall d :: d in ks <==> d in st && st[d] != "")
      && Distinct(kd) && (forall d :: d in kd <==> d in dy && dy[d] != "")
      && v == Join(Frags(ks, st) + Frags(kd, dy), " ")
  {
    var os, od := PickOrders(st, dy, v);
    LiveKeys(os, st);
    LiveKeys(od, dy);
    var ks, kd := Live(os, st), Live(od, dy);
    EntriesWith(st, dy, v, ks, kd);
  }

  /** Proof helper: supplies the witnesses of the existential in `FlattenedEntries`. */
  lemma EntriesWith(st: map<Directive, string>, dy: map<Directive, string>, v: string,
                    ks: seq<Directive>, kd: seq<Directive>)
    requires Distinct(ks) && (forall d :: d in ks <==> d in st && st[d] != "")
    requires Distinct(kd) && (forall d :: d in kd <==> d in dy && dy[d] != "")
    requires v == Join(Frags(ks, st) + Frags(kd, dy), " ")
    ensures exists ks, kd ::
      && Distinct(ks) && (forall d :: d in ks <==> d in st && st[d] != "")
      && Distinct(kd) && (forall d :: d in kd <==> d in dy && dy[d] != "")
      && v == Join(Frags(ks, st) + Frags(kd, dy), " ")
  {
  }

  /** Every entry with a non-empty value contributes its fragment to the value. */
  lemma FragmentPresent(st: map<Directive, string>, dy: map<Directive, string>, v: string, d: Directive)
    requires FlattensTo(st, dy, v)
    ensures d in st && st[d] != "" ==> exists k :: OccursAt(v, Fragment(d, st[d]), k)
    ensures d in dy && dy[d] != "" ==> exists k :: OccursAt(v, Fragment(d, dy[d]), k)
  {
    var os, od := PickOrders(st, dy, v);
    LiveKeys(os, st);
    LiveKeys(od, dy);
    var ks, kd := Live(os, st), Live(od, dy);
    if d in st && st[d] != "" {
      StaticFragment(ks, st, kd, dy, d);
    }
    if d in dy && dy[d] != "" {
      DynamicFragment(ks, st, kd, dy, d);
    }
  }

  lemma StaticFragment(ks: seq<Directive>, st: map<Directive, string>,
                       kd: seq<Directive>, dy: map<Directive, string>, d: Directive)
    requires (forall d :: d in ks ==> d in st) && (forall d :: d in kd ==> d in dy)
    requires d in ks
    ensures exists k :: OccursAt(Join(Frags(ks, st) + Frags(kd, dy), " "), Fragment(d, st[d]), k)
  {
    var parts := Frags(ks, st) + Frags(kd, dy);
    var i :| 0 <= i < |ks| && ks[i] == d;
    assert parts[i] == Fragment(d, st[d]);
    JoinContains(parts, " ", i);
  }

  lemma DynamicFragment(ks: seq<Directive>, st: map<Directive, string>,
                        kd: seq<Directive>, dy: map<Directive, string>, d: Directive)
    requires (forall d :: d in ks ==> d in st) && (forall d :: d in kd ==> d in dy)
    requires d in kd
    ensures exists k :: OccursAt(Join(Frags(ks, st) + Frags(kd, dy), " "), Fragment(d, dy[d]), k)
  {
    var parts := Frags(ks, st) + Frags(kd, dy);
    var i :| 0 <= i < |kd| && kd[i] == d;
    assert parts[|ks| + i] == Fragment(d, dy[d]);
    JoinContains(parts, " ", |ks| + i);
  }

  /** Every fragment starts with the directive name and ends with a semicolon. */
  lemma FragsShape(keys: seq<Directive>, m: map<Directive, string>)
    requires forall d :: d in keys ==> d in m
    ensures forall i :: 0 <= i < |keys| ==>
      var f := Frags(keys, m)[i]; f != "" && 'a' <= f[0] <= 'z' && f[|f| - 1] == ';'
  {
    forall i | 0 <= i < |keys|
      ensures var f := Frags(keys, m)[i]; f != "" && 'a' <= f[0] <= 'z' && f[|f| - 1] == ';'
    {
      NameStartsWithLetter(keys[i]);
    }
  }

  /** The value is empty exactly when no entry has a non-empty value. Otherwise it starts with
      the whole fragment of an entry with a non-empty value, a static one when there is one,
      and ends with a semicolon, so no separator leads or trails. */
  lemma FlattenedEnds(st: map<Directive, string>, dy: map<Directive, string>, v: string)
    requires FlattensTo(st, dy, v)
    ensures v == "" <==> (forall d :: d in st ==> st[d] == "") && (forall d :: d in dy ==> dy[d] == "")
    ensures v != "" ==> 'a' <= v[0] <= 'z' && v[|v| - 1] == ';'
    ensures (exists d :: d in st && st[d] != "") ==>
      exists d :: d in st && st[d] != "" && StartsWith(v, Fragment(d, st[d]))
    ensures v != "" && (forall d :: d in st ==> st[d] == "") ==>
      exists d :: d in dy && dy[d] != "" && StartsWith(v, Fragment(d, dy[d]))
  {
    var os, od := PickOrders(st, dy, v);
    LiveKeys(os, st);
    LiveKeys(od, dy);
    var ks, kd := Live(os, st), Live(od, dy);
    JoinedFragsEnds(ks, st, kd, dy);
    EmptyIffNoLive(ks, st);
    EmptyIffNoLive(kd, dy);
    if ks != [] {
      assert ks[0] in ks;
    } else if kd != [] {
      assert kd[0] in kd;
    }
  }

  lemma JoinedFragsEnds(ks: seq<Directive>, st: map<Directive, string>, kd: seq<Directive>, dy: map<Directive, string>)
    requires forall d :: d in ks ==> d in st
    requires forall d :: d in kd ==> d in dy
    ensures var v := Join(Frags(ks, st) + Frags(kd, dy), " ");
      && (v == "" <==> ks == [] && kd == [])
      && (v != "" ==> 'a' <= v[0] <= 'z' && v[|v| - 1] == ';')
      && (ks != [] ==> StartsWith(v, Fragment(ks[0], st[ks[0]])))
      && (ks == [] && kd != [] ==> StartsWith(v, Fragment(kd[0], dy[kd[0]])))
  {
    FragsShape(ks, st);
    FragsShape(kd, dy);
    var parts := Frags(ks, st) + Frags(kd, dy);
    assert forall i :: 0 <= i < |parts| ==> parts[i] != "";
    JoinEnds(parts, " ");
    if parts != [] {
      var v := Join(parts, " ");
      var p0, pl := parts[0], parts[|parts| - 1];
      assert 'a' <= p0[0] <= 'z' && pl[|pl| - 1] == ';';
      assert v[0] == v[..|p0|][0];
      assert v[|v| - 1] == v[|v| - |pl|..][|pl| - 1];
      if ks != [] {
        assert p0 == Fragment(ks[0], st[ks[0]]);
      } else {
        assert p0 == Fragment(kd[0], dy[kd[0]]);
      }
    }
  }

  lemma EmptyIffNoLive(keys: seq<Directive>, m: map<Directive, string>)
    requires forall d :: d in keys <==> d in m && m[d] != ""
    ensures keys == [] <==> forall d :: d in m ==> m[d] == ""
  {
    if keys != [] {
      assert keys[0] in keys;
    }
  }

  /** A distinct sequence holds each of its elements once. */
  lemma {:induction false} DistinctCounts<T>(s: seq<T>)
    requires Distinct(s)
    ensures forall x :: multiset(s)[x] == if x in s then 1 else 0
    decreases |s|
  {
    if s != [] {
      var init, last := s[..|s| - 1], s[|s| - 1];
      assert s == init + [last];
      DistinctCounts(init);
      assert forall j :: 0 <= j < |init| ==> init[j] == s[j] != last;
      assert forall x :: x in s <==> x in init || x == last;
    }
  }

  lemma FragsAppend(a: seq<Directive>, b: seq<Directive>, m: map<Directive, string>)
    requires forall d :: d in a + b ==> d in m
    ensures Frags(a + b, m) == Frags(a, m) + Frags(b, m)
  {
    assert forall d :: d in a ==> d in a + b;
    assert forall d :: d in b ==> d in a + b;
    var l, fa, fb := Frags(a + b, m), Frags(a, m), Frags(b, m);
    assert |l| == |fa + fb|;
    forall i | 0 <= i < |a + b|
      ensures l[i] == (fa + fb)[i]
    {
      if i < |a| {
        var d := a[i];
        assert (a + b)[i] == d;
        assert l[i] == Fragment(d, m[d]) == fa[i];
      } else {
        var d := b[i - |a|];
        assert (a + b)[i] == d;
        assert l[i] == Fragment(d, m[d]) == fb[i - |a|];
      }
    }
  }

  /** Removing the element at `j` removes one occurrence of it. */
  lemma MultisetRemove<T>(s: seq<T>, j: int)
    requires 0 <= j < |s|
    ensures multiset(s[..j] + s[j + 1..]) == multiset(s) - multiset{s[j]}
  {
    assert s == s[..j] + [s[j]] + s[j + 1..];
  }

  /** Removing the key at `j` removes its fragment once. */
  lemma FragsRemove(s: seq<Directive>, j: int, m: map<Directive, string>)
    requires 0 <= j < |s|
    requires forall d :: d in s ==> d in m
    ensures forall d :: d in s[..j] + s[j + 1..] ==> d in m
    ensures multiset(Frags(s, m)) == multiset(Frags(s[..j] + s[j + 1..], m)) + multiset{Fragment(s[j], m[s[j]])}
  {
    var a, x, b := s[..j], s[j], s[j + 1..];
    assert s == a + [x] + b;
    assert forall d :: d in a + b ==> d in s;
    FragsAppend(a + [x], b, m);
    FragsAppend(a, [x], m);
    FragsAppend(a, b, m);
    var fa, fx, fb := Frags(a, m), Frags([x], m), Frags(b, m);
    assert fx == [Fragment(x, m[x])];
    assert Frags(s, m) == fa + fx + fb;
    assert multiset(fa + fx + fb) == multiset(fa) + multiset(fx) + multiset(fb);
    assert multiset(fa + fb) == multiset(fa) + multiset(fb);
  }

  /** Reordering the keys reorders their fragments. */
  lemma {:induction false} FragsPermutation(k1: seq<Directive>, k2: seq<Directive>, m: map<Directive, string>)
    requires forall d :: d in k1 ==> d in m
    requires multiset(k1) == multiset(k2)
    ensures forall d :: d in k2 ==> d in m
    ensures multiset(Frags(k1, m)) == multiset(Frags(k2, m))
    decreases |k1|
  {
    forall d | d in k2
      ensures d in m
    {
      assert d in multiset(k1);
    }
    if k1 != [] {
      var x := k1[0];
      assert x in multiset(k2);
      var j :| 0 <= j < |k2| && k2[j] == x;
      MultisetRemove(k2, j);
      MultisetRemove(k1, 0);
      FragsRemove(k2, j, m);
      FragsRemove(k1, 0, m);
      FragsPermutation(k1[..0] + k1[1..], k2[..j] + k2[j + 1..], m);
    }
  }

  /** `f` is the fragment of an entry of `st` or of `dy` whose value is not empty. */
  ghost predicate LiveFragment(f: string, st: map<Directive, string>, dy: map<Directive, string>)
  {
    || (exists d :: d in st && st[d] != "" && f == Fragment(d, st[d]))
    || (exists d :: d in dy && dy[d] != "" && f == Fragment(d, dy[d]))
  }

  /** Every fragment of keys with non-empty values is the fragment of such an entry. */
  lemma FragsOfLive(ks: seq<Directive>, m: map<Directive, string>)
    requires forall d :: d in ks ==> d in m && m[d] != ""
    ensures forall f :: f in Frags(ks, m) ==> exists d :: d in m && m[d] != "" && f == Fragment(d, m[d])
  {
    forall f | f in Frags(ks, m)
      ensures exists d :: d in m && m[d] != "" && f == Fragment(d, m[d])
    {
      var i :| 0 <= i < |ks| && Frags(ks, m)[i] == f;
      assert ks[i] in ks;
    }
  }

  /** Two iterations of the same maps give values that differ only in the order of their
      fragments: both are joins of the same multiset of live-entry fragments. */
  lemma FlattenedUpToOrder(st: map<Directive, string>, dy: map<Directive, string>, v1: string, v2: string)
    requires FlattensTo(st, dy, v1) && FlattensTo(st, dy, v2)
    ensures exists fs1, fs2 ::
      && v1 == Join(fs1, " ") && v2 == Join(fs2, " ") && multiset(fs1) == multiset(fs2)
      && forall f :: f in fs1 ==> LiveFragment(f, st, dy)
  {
    var os1, od1 := PickOrders(st, dy, v1);
    var os2, od2 := PickOrders(st, dy, v2);
    var fs1 := Fragments(os1, st) + Fragments(od1, dy);
    var fs2 := Fragments(os2, st) + Fragments(od2, dy);
    SameFragments(os1, od1, os2, od2, st, dy);
    PiecesAreFragments(os1, od1, st, dy);
    Reordered(st, dy, v1, v2, fs1, fs2);
  }

  /** The pieces of a flattening are fragments of live entries. */
  lemma PiecesAreFragments(os: seq<Directive>, od: seq<Directive>, st: map<Directive, string>, dy: map<Directive, string>)
    requires Enumerates(os, st) && Enumerates(od, dy)
    ensures forall f :: f in Fragments(os, st) + Fragments(od, dy) ==> LiveFragment(f, st, dy)
  {
    LiveKeys(os, st);
    LiveKeys(od, dy);
    var fs, fd := Fragments(os, st), Fragments(od, dy);
    FragsOfLive(Live(os, st), st);
    FragsOfLive(Live(od, dy), dy);
    forall f | f in fs + fd
      ensures LiveFragment(f, st, dy)
    {
      if f in fs {
        var d :| d in st && st[d] != "" && f == Fragment(d, st[d]);
      } else {
        var d :| d in dy && dy[d] != "" && f == Fragment(d, dy[d]);
      }
    }
  }

  /** Proof helper: supplies the witnesses of the existential in `FlattenedUpToOrder`. */
  lemma Reordered(st: map<Directive, string>, dy: map<Directive, string>,
                  v1: string, v2: string, fs1: seq<string>, fs2: seq<string>)
    requires v1 == Join(fs1, " ") && v2 == Join(fs2, " ") && multiset(fs1) == multiset(fs2)
    requires forall f :: f in fs1 ==> LiveFragment(f, st, dy)
    ensures exists fs1, fs2 ::
      && v1 == Join(fs1, " ") && v2 == Join(fs2, " ") && multiset(fs1) == multiset(fs2)
      && forall f :: f in fs1 ==> LiveFragment(f, st, dy)
  {
  }

  lemma SameFragments(os1: seq<Directive>, od1: seq<Directive>, os2: seq<Directive>, od2: seq<Directive>,
                      st: map<Directive, string>, dy: map<Directive, string>)
    requires Enumerates(os1, st) && Enumerates(os2, st)
    requires Enumerates(od1, dy) && Enumerates(od2, dy)
    ensures multiset(Fragments(os1, st) + Fragments(od1, dy)) == multiset(Fragments(os2, st) + Fragments(od2, dy))
  {
    SameLive(os1, os2, st);
    SameLive(od1, od2, dy);
  }

  /** Two iteration orders of one map yield the same fragments, up to order. */
  lemma SameLive(o1: seq<Directive>, o2: seq<Directive>, m: map<Directive, string>)
    requires Enumerates(o1, m) && Enumerates(o2, m)
    ensures multiset(Fragments(o1, m)) == multiset(Fragments(o2, m))
  {
    LiveKeys(o1, m);
    LiveKeys(o2, m);
    var l1, l2 := Live(o1, m), Live(o2, m);
    SameElements(l1, l2);
    FragsPermutation(l1, l2, m);
  }

  /** Two distinct sequences with the same elements are permutations of each other. */
  lemma SameElements<T>(s1: seq<T>, s2: seq<T>)
    requires Distinct(s1) && Distinct(s2)
    requires forall x :: x in s1 <==> x in s2
    ensures multiset(s1) == multiset(s2)
  {
    DistinctCounts(s1);
    DistinctCounts(s2);
    assert forall x :: multiset(s1)[x] == multiset(s2)[x];
  }
}
