/** The order of the names in a directory buffer. */
module FileNames {
  import opened Memory
  import opened WideStrings

  /** Replaces the names "." and ".." by strings of U+0001. */
  function Mapped(name: Wide): (m: Wide)
    ensures |m| == |name|
  {
    if name == [DOT] then [SOH] else if name == [DOT, DOT] then [SOH, SOH] else name
  }

  /** The names keep their NUL, if they have one, and lose what follows it. */
  function UpToNul(s: Wide): (t: Wide)
    ensures |t| <= |s| && t == s[..|t|]
    ensures NUL !in s ==> t == s
    ensures |t| < |s| ==> |t| > 0 && t[|t| - 1] == NUL
    ensures forall k :: 0 <= k < |t| - 1 ==> t[k] != NUL
  {
    if s == [] then [] else if s[0] == NUL then [NUL] else [s[0]] + UpToNul(s[1..])
  }

  /** The lexicographic order: a proper prefix comes first. */
  predicate LexLess(a: Wide, b: Wide)
  {
    b != [] && (a == [] || a[0] < b[0] || (a[0] == b[0] && LexLess(a[1..], b[1..])))
  }

  /** Where a string is less than another one: it ends there, or has the smaller code unit. */
  ghost predicate LessAt(a: Wide, b: Wide, k: nat)
  {
    k <= |a| && k < |b| && a[..k] == b[..k] && (k == |a| || a[k] < b[k])
  }

  lemma {:induction false} LexLessIs(a: Wide, b: Wide)
    ensures LexLess(a, b) <==> exists k: nat :: LessAt(a, b, k)
  {
    if a == [] || b == [] || a[0] != b[0] {
      if LexLess(a, b) { assert LessAt(a, b, 0); }
      if k: nat :| LessAt(a, b, k) && k > 0 { assert a[..k][0] == b[..k][0]; }
    } else {
      LexLessIs(a[1..], b[1..]);
      if k: nat :| LessAt(a[1..], b[1..], k) {
        assert a[..k + 1] == [a[0]] + a[1..][..k] && b[..k + 1] == [b[0]] + b[1..][..k];
        assert LessAt(a, b, k + 1);
      }
      if k: nat :| LessAt(a, b, k) {
        assert k > 0;
        assert a[1..][..k - 1] == a[..k][1..] && b[1..][..k - 1] == b[..k][1..];
        assert LessAt(a[1..], b[1..], k - 1);
      }
    }
  }

  /** What the library compares: the name up to its first NUL, and then the length. */
  predicate NameLess(a: Wide, b: Wide)
  {
    var s, t := UpToNul(Mapped(a)), UpToNul(Mapped(b));
    LexLess(s, t) || (s == t && |a| < |b|)
  }

  predicate NameEqual(a: Wide, b: Wide)
  {
    UpToNul(Mapped(a)) == UpToNul(Mapped(b)) && |a| == |b|
  }

  /** The bounded comparison of two strings, which stops early at a common NUL; `k` is where it stops. */
  method WcsNCmp(s: Wide, t: Wide, n: nat) returns (v: int, k: nat)
    requires n <= |s| && n <= |t|
    ensures k <= n && SameBefore(s, t, k)
    ensures k == n ==> v == 0
    ensures k < n ==> v == s[k] as int - t[k] as int && (v != 0 || s[k] == NUL)
  {
    v := 0;
    var i := 0;
    while i < n
      invariant 0 <= i <= n && v == 0
      invariant SameBefore(s, t, i)
    {
      v := s[i] as int - t[i] as int;
      if v != 0 || t[i] == NUL {
        return v, i;
      }
      i := i + 1;
    }
    k := i;
  }

  ghost predicate SameBefore(s: Wide, t: Wide, k: nat)
    requires k <= |s| && k <= |t|
  {
    forall j :: 0 <= j < k ==> s[j] == t[j] != NUL
  }

  method MapDots(name: Wide) returns (m: Wide)
    ensures m == Mapped(name)
  {
    m := name;
    if |name| == 1 && name[0] == DOT {
      m := [SOH];
    } else if |name| == 2 && name[0] == DOT && name[1] == DOT {
      m := [SOH, SOH];
    }
  }

  /** Compares two names: negative, zero or positive as `NameLess` has it, whatever the names contain. */
  method FileNameCmp(a: Wide, b: Wide) returns (res: int)
    ensures res < 0 <==> NameLess(a, b)
    ensures res == 0 <==> NameEqual(a, b)
    ensures res > 0 <==> NameLess(b, a)
  {
    var len := if |a| < |b| then |a| else |b|;
    hide Mapped, UpToNul, LexLess, SameBefore;
    var a' := MapDots(a);
    var b' := MapDots(b);
    var k;
    res, k := WcsNCmp(a', b', len);
    if res == 0 {
      res := |a| - |b|;
    }
    StopDecides(a', b', k);
    Trichotomy(UpToNul(a'), UpToNul(b'));
  }

  /** The place where a comparison stops decides the order. */
  lemma {:induction false} StopDecides(a: Wide, b: Wide, k: nat)
    requires k <= |a| && k <= |b| && SameBefore(a, b, k)
    ensures k < |a| && k < |b| && a[k] < b[k] ==> LexLess(UpToNul(a), UpToNul(b))
    ensures k < |a| && k < |b| && a[k] > b[k] ==> LexLess(UpToNul(b), UpToNul(a))
    ensures k < |a| && k < |b| && a[k] == b[k] == NUL ==> UpToNul(a) == UpToNul(b)
    ensures |a| == k < |b| ==> LexLess(UpToNul(a), UpToNul(b))
    ensures |b| == k < |a| ==> LexLess(UpToNul(b), UpToNul(a))
    ensures |a| == |b| == k ==> UpToNul(a) == UpToNul(b)
    decreases k
  {
    if k > 0 {
      assert a[0] == b[0] != NUL;
      SameBehind(a, b, k);
      StopDecides(a[1..], b[1..], k - 1);
      assert UpToNul(a) == [a[0]] + UpToNul(a[1..]) && UpToNul(b) == [b[0]] + UpToNul(b[1..]);
      LexLessBehind(a[0], UpToNul(a[1..]), UpToNul(b[1..]));
      LexLessBehind(a[0], UpToNul(b[1..]), UpToNul(a[1..]));
    }
  }

  lemma SameBehind(a: Wide, b: Wide, k: nat)
    requires 0 < k <= |a| && k <= |b| && SameBefore(a, b, k)
    ensures SameBefore(a[1..], b[1..], k - 1)
    ensures k < |a| ==> a[1..][k - 1] == a[k]
    ensures k < |b| ==> b[1..][k - 1] == b[k]
  {
    forall j | 0 <= j < k - 1 ensures a[1..][j] == b[1..][j] != NUL { assert a[j + 1] == b[j + 1] != NUL; }
  }

  lemma LexLessBehind(c: WChar, s: Wide, t: Wide)
    ensures LexLess([c] + s, [c] + t) <==> LexLess(s, t)
  {
    assert ([c] + s)[1..] == s && ([c] + t)[1..] == t;
  }

  lemma {:induction false} Trichotomy(a: Wide, b: Wide)
    ensures LexLess(a, b) || a == b || LexLess(b, a)
    ensures !(LexLess(a, b) && LexLess(b, a)) && !LexLess(a, a)
    ensures a == b ==> !LexLess(a, b)
  {
    if a != [] && b != [] {
      Trichotomy(a[1..], b[1..]);
      if a[1..] == b[1..] && a[0] == b[0] {
        assert a == [a[0]] + a[1..] == b;
      }
    }
    if a != [] { Trichotomy(a[1..], a[1..]); }
  }

  lemma {:induction false} LexTransitive(a: Wide, b: Wide, c: Wide)
    requires LexLess(a, b) && LexLess(b, c)
    ensures LexLess(a, c)
  {
    if a != [] && a[0] == b[0] == c[0] {
      LexTransitive(a[1..], b[1..], c[1..]);
    }
  }

  /** Every pair of names compares in exactly one way. */
  lemma NamesAreTotal(a: Wide, b: Wide)
    ensures NameLess(a, b) || NameEqual(a, b) || NameLess(b, a)
    ensures !(NameLess(a, b) && NameLess(b, a)) && !(NameLess(a, b) && NameEqual(a, b))
  {
    Trichotomy(UpToNul(Mapped(a)), UpToNul(Mapped(b)));
  }

  lemma NamesAreTransitive(a: Wide, b: Wide, c: Wide)
    requires !NameLess(b, a) && !NameLess(c, b)
    ensures !NameLess(c, a)
    ensures NameLess(a, b) || NameLess(b, c) ==> NameLess(a, c)
  {
    var s, t, u := UpToNul(Mapped(a)), UpToNul(Mapped(b)), UpToNul(Mapped(c));
    Trichotomy(s, t);
    Trichotomy(t, u);
    if LexLess(s, t) && LexLess(t, u) {
      LexTransitive(s, t, u);
    }
    Trichotomy(s, u);
  }

  /** A name a file system may report: no NUL, and not one of the two strings that stand for the dots. */
  predicate Legal(name: Wide)
  {
    NUL !in name && name != [SOH] && name != [SOH, SOH]
  }

  /** On legal names the order is antisymmetric: names that compare equal are the same name. */
  lemma LegalNamesAreDistinguished(a: Wide, b: Wide)
    requires Legal(a) && Legal(b)
    ensures NameEqual(a, b) <==> a == b
  {
    assert NUL !in Mapped(a) && NUL !in Mapped(b);
  }

  /** The two strings of U+0001 are the only names that are taken for a dot entry: legality asks no more than is
      needed. */
  lemma IllegalNamesCollide(a: Wide)
    requires NUL !in a
    ensures !Legal(a) <==> a != [DOT] && a != [DOT, DOT] && (NameEqual(a, [DOT]) || NameEqual(a, [DOT, DOT]))
  {
    assert NUL !in Mapped(a);
    assert UpToNul(Mapped([DOT])) == [SOH];
    assert UpToNul(Mapped([DOT, DOT])) == [SOH, SOH];
  }

  lemma {:induction false} PrefixIsLess(a: Wide, b: Wide)
    requires b != [] && NUL !in a
    ensures LexLess(a, a + b)
    ensures b[0] == NUL ==> UpToNul(a + b) == a + [NUL]
  {
    if a == [] {
      assert a + b == b;
    } else {
      assert (a + b)[1..] == a[1..] + b;
      PrefixIsLess(a[1..], b);
    }
  }

  /** A name that is cut at its first NUL comes before the whole name. */
  lemma CutNameIsLess(name: Wide)
    requires NUL in name
    ensures NameLess(BeforeNul(name), name)
  {
    hide UpToNul, LexLess, BeforeNul, Mapped;
    var m := BeforeNul(name);
    var rest := name[|m|..];
    assert name == m + rest && rest[0] == NUL;
    PrefixIsLess(m, rest);
    PrefixIsLess(m, [NUL]);
    MappedIsLess(m);
    NotMapped(name);
  }

  lemma NotMapped(name: Wide)
    requires NUL in name
    ensures Mapped(name) == name
  {
  }

  lemma MappedIsLess(m: Wide)
    requires NUL !in m && LexLess(m, m + [NUL])
    ensures UpToNul(Mapped(m)) == Mapped(m) && LexLess(Mapped(m), m + [NUL])
  {
  }

  /** "." comes before "..", and both before every other legal name that is not empty. */
  lemma DotsComeFirst(name: Wide)
    requires Legal(name) && name != [] && name != [DOT] && name != [DOT, DOT]
    ensures NameLess([DOT], [DOT, DOT]) && NameLess([DOT, DOT], name)
  {
    assert UpToNul(Mapped([DOT])) == [SOH] && UpToNul(Mapped([DOT, DOT])) == [SOH, SOH];
    assert name[0] in name && name[0] > 0;
    assert [SOH, SOH][1..] == [SOH];
    assert [SOH][1..] == [];
    if name[0] == SOH {
      assert |name| > 1;
      assert name[1] in name;
      assert LexLess([SOH], name[1..]) by {
        assert name[1..][0] == name[1];
        if name[1] == SOH { assert name[2] == name[1..][1] && |name| > 2; }
      }
    }
  }

  /** Of two names that agree up to a NUL the shorter one comes first, whatever is behind it. */
  lemma LengthBreaksTies(name: Wide, a: Wide, b: Wide)
    requires NUL !in name
    ensures NameLess(name + [NUL] + a, name + [NUL] + b) <==> |a| < |b|
    ensures NameEqual(name + [NUL] + a, name + [NUL] + b) <==> |a| == |b|
  {
    var s, t := name + [NUL] + a, name + [NUL] + b;
    assert s[|name|] == t[|name|] == NUL;
    NotMapped(s);
    NotMapped(t);
    assert s == name + ([NUL] + a) && t == name + ([NUL] + b);
    PrefixIsLess(name, [NUL] + a);
    PrefixIsLess(name, [NUL] + b);
    Trichotomy(UpToNul(s), UpToNul(s));
    hide UpToNul, LexLess, Mapped;
  }

  /** On names without NUL the order is plain lexicographic order after the dots are mapped. */
  lemma NulFreeOrderIsLexicographic(a: Wide, b: Wide)
    requires NUL !in a && NUL !in b
    ensures NameLess(a, b) <==> LexLess(Mapped(a), Mapped(b))
  {
    assert NUL !in Mapped(a) && NUL !in Mapped(b);
  }
}
