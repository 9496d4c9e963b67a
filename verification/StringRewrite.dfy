/** What removing and replacing all occurrences in core/src/stringex.c means for the contents of a string. */
module StringRewrite {
  import opened CStrings
  import opened Wrappers

  ghost predicate Occurs(s: string, pat: string) {
    exists i: nat :: At(s, i, pat)
  }

  /** strstr finds an occurrence whenever there is one. */
  lemma FindIffOccurs(s: string, pat: string)
    requires '\0' !in s
    ensures Find(s, 0, pat).Some? <==> Occurs(s, pat)
  {
    hide Find, At;
    if Find(s, 0, pat).Some? {
      assert At(s, Find(s, 0, pat).value, pat);
    } else if i: nat :| At(s, i, pat) {
      AtEnds(s, i, pat);
      NotFound(s, 0, pat, i);
    }
  }

  lemma {:induction false} NotFound(s: string, p: nat, pat: string, i: nat)
    requires p <= i && At(s, i, pat) && p <= |s| && '\0' !in s
    ensures Find(s, p, pat).Some?
    decreases i - p
  {
    hide At;
    AtEnds(s, i, pat);
    if p < i {
      NotFound(s, p + 1, pat, i);
    }
  }

  // ----- removing -----

  /** Rescans after every removal, so an occurrence that forms where two parts meet goes as well. */
  function RemoveAll(s: string, pat: string): string
    requires |pat| > 0
    decreases |s|
  {
    match Find(s, 0, pat)
    case None => s
    case Some(p) => RemoveAll(s[..p] + s[p + |pat|..], pat)
  }

  lemma {:induction false} RemoveAllLeavesNone(s: string, pat: string)
    requires |pat| > 0 && '\0' !in s
    ensures !Occurs(RemoveAll(s, pat), pat) && |RemoveAll(s, pat)| <= |s|
    ensures !Occurs(s, pat) ==> RemoveAll(s, pat) == s
    decreases |s|
  {
    hide Find, At;
    FindIffOccurs(s, pat);
    if Find(s, 0, pat).Some? {
      var p := Find(s, 0, pat).value;
      AtEnds(s, p, pat);
      RemoveAllLeavesNone(s[..p] + s[p + |pat|..], pat);
    }
  }

  // ----- replacing -----

  function Replaced(s: string, p: nat, pattern: string, replacement: string): string
    requires p + |pattern| <= |s|
  {
    s[..p] + replacement + s[p + |pattern|..]
  }

  /** One turn of the loop: the search starts from the beginning every time. */
  function ReplaceOnce(s: string, pattern: string, replacement: string): string {
    match Find(s, 0, pattern)
    case None => s
    case Some(p) => Replaced(s, p, pattern, replacement)
  }

  function Iterate(s: string, pattern: string, replacement: string, n: nat): string
    decreases n
  {
    if n == 0 then s else Iterate(ReplaceOnce(s, pattern, replacement), pattern, replacement, n - 1)
  }

  /** After n turns the loop ends. */
  ghost predicate DoneAfter(s: string, pattern: string, replacement: string, n: nat) {
    Find(Iterate(s, pattern, replacement, n), 0, pattern) == None
  }

  /** The inputs on which string_replace_substr_all returns. */
  ghost predicate Converges(s: string, pattern: string, replacement: string) {
    |pattern| == 0 || exists n: nat :: DoneAfter(s, pattern, replacement, n)
  }

  lemma {:induction false} DoneStays(s: string, pattern: string, replacement: string, n: nat)
    requires Find(s, 0, pattern) == None
    ensures Iterate(s, pattern, replacement, n) == s
    decreases n
  {
    hide Find;
    if n > 0 {
      DoneStays(s, pattern, replacement, n - 1);
    }
  }

  /** The result does not depend on how many more turns are counted. */
  lemma {:induction false} ResultIsUnique(s: string, pattern: string, replacement: string, m: nat, n: nat)
    requires DoneAfter(s, pattern, replacement, m) && DoneAfter(s, pattern, replacement, n)
    ensures Iterate(s, pattern, replacement, m) == Iterate(s, pattern, replacement, n)
    decreases m + n
  {
    hide Find, ReplaceOnce;
    if m == 0 {
      DoneStays(s, pattern, replacement, n);
    } else if n == 0 {
      DoneStays(s, pattern, replacement, m);
    } else {
      ResultIsUnique(ReplaceOnce(s, pattern, replacement), pattern, replacement, m - 1, n - 1);
    }
  }

  /** A shorter new text makes the string shorter with every turn. */
  lemma {:induction false} ShorterConverges(s: string, pattern: string, replacement: string)
    requires |replacement| < |pattern|
    ensures Converges(s, pattern, replacement)
    decreases |s|
  {
    hide Find, At;
    match Find(s, 0, pattern)
    case None => assert DoneAfter(s, pattern, replacement, 0);
    case Some(p) =>
      AtEnds(s, p, pattern);
      var s' := Replaced(s, p, pattern, replacement);
      ShorterConverges(s', pattern, replacement);
      var n: nat :| DoneAfter(s', pattern, replacement, n);
      assert DoneAfter(s, pattern, replacement, n + 1);
  }

  /** When the old text occurs in the new one, the loop never ends once it has begun. */
  lemma {:induction false} GrowingNeverEnds(s: string, pattern: string, replacement: string, n: nat)
    requires Occurs(replacement, pattern) && Occurs(s, pattern) && '\0' !in s && '\0' !in replacement
    ensures !DoneAfter(s, pattern, replacement, n)
    decreases n
  {
    hide Find, At;
    FindIffOccurs(s, pattern);
    var p := Find(s, 0, pattern).value;
    AtEnds(s, p, pattern);
    if n > 0 {
      var s' := Replaced(s, p, pattern, replacement);
      var i: nat :| At(replacement, i, pattern);
      AtEnds(replacement, i, pattern);
      AtConcat(s', 0, s[..p], replacement + s[p + |pattern|..]);
      assert s' == s[..p] + (replacement + s[p + |pattern|..]);
      AtAll(s');
      AtConcat(s', p, replacement, s[p + |pattern|..]);
      AtWithin(s', p, replacement, i, pattern);
      GrowingNeverEnds(s', pattern, replacement, n - 1);
    }
  }

  lemma ConvergesIffAbsent(s: string, pattern: string, replacement: string)
    requires |pattern| > 0 && Occurs(replacement, pattern) && '\0' !in s && '\0' !in replacement
    ensures Converges(s, pattern, replacement) <==> !Occurs(s, pattern)
  {
    hide Find, At, Occurs;
    FindIffOccurs(s, pattern);
    if Occurs(s, pattern) {
      forall n: nat ensures !DoneAfter(s, pattern, replacement, n) {
        GrowingNeverEnds(s, pattern, replacement, n);
      }
    } else {
      assert DoneAfter(s, pattern, replacement, 0);
    }
  }

  // ----- removing, turn by turn -----

  /** Removing is replacing by nothing; the loop of the removal has no test for an empty pattern. */
  ghost predicate RemovalEnds(s: string, pat: string) {
    exists n: nat :: DoneAfter(s, pat, "", n)
  }

  /** The removal loop ends, on any string, exactly for patterns that are not empty. */
  lemma RemovalEndsIff(s: string, pat: string)
    ensures RemovalEnds(s, pat) <==> |pat| > 0
  {
    hide Iterate;
    if |pat| > 0 {
      ShorterConverges(s, pat, "");
    } else {
      forall n: nat ensures !DoneAfter(s, pat, "", n) {
        EmptyIsAlwaysFound(Iterate(s, pat, "", n));
      }
    }
  }

  lemma EmptyIsAlwaysFound(s: string)
    ensures Find(s, 0, "") == Some(0)
  {
  }

  /** And what it leaves is the limit of its turns. */
  lemma {:induction false} RemoveAllIsLimit(s: string, pat: string, n: nat)
    requires |pat| > 0 && DoneAfter(s, pat, "", n)
    ensures Iterate(s, pat, "", n) == RemoveAll(s, pat)
    decreases n
  {
    hide Find, At;
    match Find(s, 0, pat)
    case None => DoneStays(s, pat, "", n);
    case Some(p) =>
      AtEnds(s, p, pat);
      assert Replaced(s, p, pat, "") == s[..p] + s[p + |pat|..];
      RemoveAllIsLimit(s[..p] + s[p + |pat|..], pat, n - 1);
  }

  // ----- texts of the same length -----

  const BASE: nat := 0x11_0000

  /** A string as a number whose digits are its characters. */
  function Weight(s: string): nat {
    if |s| == 0 then 0 else BASE * Weight(s[..|s| - 1]) + s[|s| - 1] as nat
  }

  function Scale(n: nat): (m: nat)
    ensures m > 0
  {
    if n == 0 then 1 else BASE * Scale(n - 1)
  }

  lemma {:induction false} WeightBound(s: string)
    ensures Weight(s) < Scale(|s|)
  {
    if |s| > 0 {
      WeightBound(s[..|s| - 1]);
    }
  }

  lemma {:induction false} WeightConcat(a: string, b: string)
    ensures Weight(a + b) == Weight(a) * Scale(|b|) + Weight(b)
    decreases |b|
  {
    if |b| == 0 {
      assert a + b == a;
    } else {
      var n := |b| - 1;
      WeightConcat(a, b[..n]);
      assert (a + b)[..|a| + n] == a + b[..n];
      Shifted(Weight(a), Scale(n), Weight(b[..n]));
    }
  }

  lemma Shifted(x: nat, m: nat, y: nat)
    ensures BASE * (x * m + y) == x * (BASE * m) + BASE * y
  {
  }

  lemma {:induction false} WeightDetermines(x: string, y: string)
    requires |x| == |y| && Weight(x) == Weight(y)
    ensures x == y
  {
    if |x| > 0 {
      var n := |x| - 1;
      WeightDetermines(x[..n], y[..n]);
      assert x == x[..n] + [x[n]] && y == y[..n] + [y[n]];
    }
  }

  /** A replacement of the same length moves the weight in the direction from pattern to replacement. */
  lemma ReplacedWeight(s: string, p: nat, pattern: string, replacement: string)
    requires At(s, p, pattern) && |pattern| == |replacement|
    ensures p + |pattern| <= |s| && |Replaced(s, p, pattern, replacement)| == |s|
    ensures Weight(pattern) < Weight(replacement) ==> Weight(s) < Weight(Replaced(s, p, pattern, replacement))
    ensures Weight(pattern) > Weight(replacement) ==> Weight(s) > Weight(Replaced(s, p, pattern, replacement))
  {
    hide Weight, Scale;
    var a, c := s[..p], s[p + |pattern|..];
    assert s == (a + pattern) + c;
    WeightConcat(a, pattern);
    WeightConcat(a + pattern, c);
    WeightConcat(a, replacement);
    WeightConcat(a + replacement, c);
    var m := Weight(a) * Scale(|pattern|);
    Monotone(m + Weight(pattern), m + Weight(replacement), Scale(|c|));
  }

  lemma Monotone(x: nat, y: nat, m: nat)
    requires m > 0
    ensures x < y ==> x * m < y * m
    ensures x > y ==> x * m > y * m
  {
  }

  lemma {:induction false} SameLengthConverges(s: string, pattern: string, replacement: string)
    requires |pattern| == |replacement| && pattern != replacement
    ensures Converges(s, pattern, replacement)
    decreases if Weight(pattern) > Weight(replacement) then Weight(s) else Scale(|s|) - Weight(s)
  {
    hide Find, At, Weight, Scale;
    if Weight(pattern) == Weight(replacement) {
      WeightDetermines(pattern, replacement);
    }
    match Find(s, 0, pattern)
    case None => assert DoneAfter(s, pattern, replacement, 0);
    case Some(p) =>
      ReplacedWeight(s, p, pattern, replacement);
      var s' := Replaced(s, p, pattern, replacement);
      WeightBound(s');
      SameLengthConverges(s', pattern, replacement);
      var n: nat :| DoneAfter(s', pattern, replacement, n);
      assert DoneAfter(s, pattern, replacement, n + 1);
  }

  /**
   With a replacement that is not longer than the pattern the loop ends, unless it puts back what it
   takes out.
   */
  lemma NotLongerConvergesIff(s: string, pattern: string, replacement: string)
    requires 0 < |pattern| && |replacement| <= |pattern| && '\0' !in s && '\0' !in replacement
    ensures Converges(s, pattern, replacement) <==> !(pattern == replacement && Occurs(s, pattern))
  {
    hide Converges, At;
    if pattern == replacement {
      AtAll(pattern);
      ConvergesIffAbsent(s, pattern, replacement);
    } else if |replacement| < |pattern| {
      ShorterConverges(s, pattern, replacement);
    } else {
      SameLengthConverges(s, pattern, replacement);
    }
  }

  // ----- a longer text that never ends without holding the pattern -----

  function Repeat(c: char, n: nat): (s: string)
    ensures |s| == n && forall i :: 0 <= i < n ==> s[i] == c
  {
    seq(n, _ => c)
  }

  /** m times b, then two a and a b, then k times a. */
  function Spiral(m: nat, k: nat): string {
    Repeat('b', m) + "aab" + Repeat('a', k)
  }

  lemma FindFirst(s: string, q: nat)
    requires q + 1 < |s| && s[q] == 'a' && s[q + 1] == 'b'
    requires forall i :: 0 <= i < q ==> s[i] != '\0' && (s[i] == 'b' || s[i + 1] == 'a')
    ensures Find(s, 0, "ab") == Some(q)
  {
    hide Find, At;
    AtConcat(s, q, "a", "b");
    AtChar(s, q, 'a');
    AtChar(s, q + 1, 'b');
    assert "a" + "b" == "ab";
    forall i | 0 <= i < q ensures !At(s, i, "ab") && Peek(s, i) != '\0' {
      AtIndex(s, i, "ab", 0);
      AtIndex(s, i, "ab", 1);
    }
    FindIff(s, 0, "ab", q);
  }

  /** Two turns lead from one such string to the next. */
  lemma SpiralTurns(m: nat, k: nat)
    ensures Find(Spiral(m, k), 0, "ab") == Some(m + 1)
    ensures var s := ReplaceOnce(Spiral(m, k), "ab", "bbaa");
      Find(s, 0, "ab") == Some(m) && ReplaceOnce(s, "ab", "bbaa") == Spiral(m + 2, k + 2)
  {
    hide Find;
    var s0 := Spiral(m, k);
    FindFirst(s0, m + 1);
    var s1 := ReplaceOnce(s0, "ab", "bbaa");
    assert s1 == Repeat('b', m) + "abbaa" + Repeat('a', k);
    FindFirst(s1, m);
    assert ReplaceOnce(s1, "ab", "bbaa") == Repeat('b', m) + "bbaabaa" + Repeat('a', k);
    assert Repeat('b', m) + "bb" == Repeat('b', m + 2) && "aa" + Repeat('a', k) == Repeat('a', k + 2);
  }

  lemma {:induction false} SpiralNeverEnds(m: nat, k: nat, n: nat)
    ensures !DoneAfter(Spiral(m, k), "ab", "bbaa", n)
    decreases n
  {
    hide Find, ReplaceOnce, Spiral;
    SpiralTurns(m, k);
    var s0 := Spiral(m, k);
    var s1 := ReplaceOnce(s0, "ab", "bbaa");
    if n == 1 {
      assert Iterate(s0, "ab", "bbaa", 1) == Iterate(s1, "ab", "bbaa", 0) == s1;
    } else if n >= 2 {
      assert Iterate(s0, "ab", "bbaa", n) == Iterate(s1, "ab", "bbaa", n - 1);
      assert Iterate(s1, "ab", "bbaa", n - 1) == Iterate(Spiral(m + 2, k + 2), "ab", "bbaa", n - 2);
      SpiralNeverEnds(m + 2, k + 2, n - 2);
    }
  }

  /** So the loop can run for ever on a string although the pattern does not stand in the replacement. */
  lemma AbsentFromReplacementIsNotEnough()
    ensures !Occurs("bbaa", "ab") && !Converges("aab", "ab", "bbaa")
  {
    hide Find, At, DoneAfter;
    forall i: nat ensures !At("bbaa", i, "ab") {
      AtIndex("bbaa", i, "ab", 0);
      AtIndex("bbaa", i, "ab", 1);
    }
    assert Spiral(0, 0) == "aab";
    forall n: nat ensures !DoneAfter("aab", "ab", "bbaa", n) {
      SpiralNeverEnds(0, 0, n);
    }
  }

  // ----- one pass from left to right -----

  predicate Disjoint(x: string, y: string) {
    forall i, j :: 0 <= i < |x| && 0 <= j < |y| ==> x[i] != y[j]
  }

  /** The first k characters of y are the last k of x. */
  predicate Bordering(x: string, y: string, k: nat) {
    0 < k < |x| && k < |y| && x[|x| - k..] == y[..k]
  }

  /** Neither text stands in the other, and no end of one is a beginning of the other. */
  ghost predicate Independent(x: string, y: string) {
    && !Occurs(x, y) && !Occurs(y, x)
    && forall k: nat :: !Bordering(x, y, k) && !Bordering(y, x, k)
  }

  lemma DisjointIsIndependent(x: string, y: string)
    requires |x| > 0 && |y| > 0 && Disjoint(x, y)
    ensures Independent(x, y)
  {
    hide At;
    forall i: nat ensures !At(x, i, y) && !At(y, i, x) {
      AtIndex(x, i, y, 0);
      AtIndex(y, i, x, 0);
    }
    forall k: nat ensures !Bordering(x, y, k) && !Bordering(y, x, k) {
      if Bordering(x, y, k) {
        SharedCharacter(x, y, k);
      }
      if Bordering(y, x, k) {
        SharedCharacter(y, x, k);
      }
    }
  }

  lemma SharedCharacter(x: string, y: string, k: nat)
    requires Bordering(x, y, k)
    ensures x[|x| - k] == y[0]
  {
    assert x[|x| - k..][0] == y[..k][0];
  }

  /** Every occurrence replaced once, from left to right, the new text not looked at again. */
  function SinglePass(s: string, pattern: string, replacement: string): string
    requires |pattern| > 0
    decreases |s|
  {
    match Find(s, 0, pattern)
    case None => s
    case Some(p) => s[..p] + replacement + SinglePass(s[p + |pattern|..], pattern, replacement)
  }

  /** Where a text stands, the slices of it stand. */
  lemma AtSlices(t: string, p: nat, x: string, a: nat, b: nat)
    requires At(t, p, x) && a <= b <= |x|
    ensures At(t, p + a, x[a..b])
    ensures x[0..b] == x[..b] && x[a..|x|] == x[a..]
  {
    assert x == x[..a] + (x[a..b] + x[b..]);
    hide At;
    AtConcat(t, p, x[..a], x[a..b] + x[b..]);
    AtConcat(t, p + a, x[a..b], x[b..]);
  }

  /** Two texts of the same length that stand at one place are the same. */
  lemma AtSame(t: string, p: nat, x: string, y: string)
    requires At(t, p, x) && At(t, p, y) && |x| == |y|
    ensures x == y
  {
  }

  /** No occurrence of pattern touches a text that is independent of it. */
  lemma NoOverlap(a: string, x: string, b: string, pattern: string, i: nat)
    requires Independent(x, pattern) && At(a + x + b, i, pattern)
    ensures i + |pattern| <= |a| || |a| + |x| <= i
  {
    hide At, Occurs, Bordering;
    var s := a + x + b;
    var n, m, e := |a|, |a| + |x|, i + |pattern|;
    assert s == a + (x + b);
    AtAll(s);
    AtConcat(s, 0, a, x + b);
    AtConcat(s, n, x, b);
    if i < n < e && e < m {
      AtSlices(s, i, pattern, n - i, |pattern|);
      AtSlices(s, n, x, 0, e - n);
      AtSame(s, n, pattern[n - i..], x[..e - n]);
      BorderingIs(pattern, x, e - n);
    } else if i < m && n < e {
      Inside(s, n, x, i, pattern);
      if n < i < m < e {
        AtSlices(s, n, x, i - n, |x|);
        AtSlices(s, i, pattern, 0, m - i);
        AtSame(s, i, x[i - n..], pattern[..m - i]);
        BorderingIs(x, pattern, m - i);
      }
    }
  }

  lemma BorderingIs(x: string, y: string, k: nat)
    requires 0 < k < |x| && k < |y| && x[|x| - k..] == y[..k]
    ensures Bordering(x, y, k)
  {
  }

  /** A text that lies within another one occurs in it. */
  lemma Inside(s: string, n: nat, x: string, i: nat, y: string)
    requires At(s, n, x) && At(s, i, y)
    ensures n <= i && i + |y| <= n + |x| ==> Occurs(x, y)
    ensures i <= n && n + |x| <= i + |y| ==> Occurs(y, x)
  {
    hide At;
    if n <= i && i + |y| <= n + |x| {
      AtWithin(s, n, x, i - n, y);
    }
    if i <= n && n + |x| <= i + |y| {
      AtWithin(s, i, y, n - i, x);
    }
  }

  /** In front of text that is done nothing changes: the first occurrence is the first one behind it. */
  lemma FindBehind(a: string, x: string, b: string, pattern: string)
    requires |pattern| > 0 && Independent(x, pattern)
    requires '\0' !in a && '\0' !in x
    requires forall i: nat :: i + |pattern| <= |a| ==> !At(a, i, pattern)
    ensures Find(a + x + b, 0, pattern) ==
      match Find(b, 0, pattern) case None => None case Some(q) => Some(|a| + |x| + q)
  {
    hide Find, At, Independent;
    var s := a + x + b;
    var n := |a| + |x|;
    assert s == a + (x + b) && s == (a + x) + b;
    AtAll(s);
    AtConcat(s, 0, a, x + b);
    AtConcat(s, 0, a + x, b);
    forall i | 0 <= i < n ensures !At(s, i, pattern) && Peek(s, i) != '\0' {
      if i + |pattern| <= |a| {
        AtWithin(s, 0, a, i, pattern);
      } else if At(s, i, pattern) {
        NoOverlap(a, x, b, pattern, i);
      }
      assert s[i] == if i < |a| then a[i] else x[i - |a|];
    }
    FindSkips(s, 0, pattern, n);
    FindShift(s, n, b, 0, pattern);
  }

  lemma {:induction false} FindShift(s: string, n: nat, b: string, p: nat, pattern: string)
    requires At(s, n, b) && n + |b| == |s| && p <= |b|
    ensures Find(s, n + p, pattern) == match Find(b, p, pattern) case None => None case Some(q) => Some(n + q)
    decreases |b| - p
  {
    hide Find, At;
    AtEnds(s, n + p, pattern);
    AtEnds(b, p, pattern);
    if p + |pattern| <= |b| {
      AtWithin(s, n, b, p, pattern);
    }
    assert p < |b| ==> s[n + p] == b[p] by {
      if p < |b| {
        AtIndex(s, n, b, p);
      }
    }
    FindStep(s, n + p, pattern);
    FindStep(b, p, pattern);
    if p < |b| {
      FindShift(s, n, b, p + 1, pattern);
    }
  }

  /** The turns of the loop on the whole string are those on the part behind the finished text. */
  lemma {:induction false} IterateBehind(a: string, x: string, b: string, pattern: string, replacement: string, n: nat)
    requires |pattern| > 0 && Independent(x, pattern) && '\0' !in a && '\0' !in x
    requires forall i: nat :: i + |pattern| <= |a| ==> !At(a, i, pattern)
    ensures Iterate(a + x + b, pattern, replacement, n) == a + x + Iterate(b, pattern, replacement, n)
    ensures DoneAfter(a + x + b, pattern, replacement, n) <==> DoneAfter(b, pattern, replacement, n)
    decreases n
  {
    hide Find, At, Independent;
    FindBehind(a, x, b, pattern);
    if n > 0 {
      var b' := ReplaceOnce(b, pattern, replacement);
      if Find(b, 0, pattern).Some? {
        AtEnds(b, Find(b, 0, pattern).value, pattern);
        ReplaceBehind(a + x, b, Find(b, 0, pattern).value, pattern, replacement);
      }
      IterateBehind(a, x, b', pattern, replacement, n - 1);
    }
  }

  lemma ReplaceBehind(c: string, b: string, q: nat, pattern: string, replacement: string)
    requires q + |pattern| <= |b|
    ensures Replaced(c + b, |c| + q, pattern, replacement) == c + Replaced(b, q, pattern, replacement)
  {
    assert (c + b)[..|c| + q] == c + b[..q];
    assert (c + b)[|c| + q + |pattern|..] == b[q + |pattern|..];
  }

  /** With a replacement that is independent of the pattern, rescanning is one pass from left to right. */
  lemma {:induction false} RescanIsSinglePass(s: string, pattern: string, replacement: string) returns (n: nat)
    requires |pattern| > 0 && Independent(replacement, pattern) && '\0' !in s && '\0' !in replacement
    ensures DoneAfter(s, pattern, replacement, n) && Iterate(s, pattern, replacement, n) == SinglePass(s, pattern, replacement)
    decreases |s|
  {
    hide Find, At, Independent;
    match Find(s, 0, pattern)
    case None => n := 0;
    case Some(p) =>
      AtEnds(s, p, pattern);
      FindIff(s, 0, pattern, p);
      var rest := s[p + |pattern|..];
      var m := RescanIsSinglePass(rest, pattern, replacement);
      forall i: nat | i + |pattern| <= |s[..p]| ensures !At(s[..p], i, pattern) {
        AtSlice(s, 0, p);
        AtWithin(s, 0, s[..p], i, pattern);
        assert s[0..p] == s[..p];
      }
      IterateBehind(s[..p], replacement, rest, pattern, replacement, m);
      n := m + 1;
  }

  /** So the loop ends for every such input, and its result is that of the single pass. */
  lemma IndependentIsSinglePass(s: string, pattern: string, replacement: string, n: nat)
    requires |pattern| > 0 && Independent(replacement, pattern) && '\0' !in s && '\0' !in replacement
    ensures Converges(s, pattern, replacement)
    ensures DoneAfter(s, pattern, replacement, n) ==>
      Iterate(s, pattern, replacement, n) == SinglePass(s, pattern, replacement)
  {
    hide DoneAfter, Iterate, SinglePass, Independent;
    var m := RescanIsSinglePass(s, pattern, replacement);
    if DoneAfter(s, pattern, replacement, n) {
      ResultIsUnique(s, pattern, replacement, m, n);
    }
  }

  /** In particular a new text that is not empty and shares no character with the old one. */
  lemma DisjointIsSinglePass(s: string, pattern: string, replacement: string, n: nat)
    requires |pattern| > 0 && |replacement| > 0 && Disjoint(replacement, pattern)
    requires '\0' !in s && '\0' !in replacement
    ensures Converges(s, pattern, replacement)
    ensures DoneAfter(s, pattern, replacement, n) ==>
      Iterate(s, pattern, replacement, n) == SinglePass(s, pattern, replacement)
  {
    hide DoneAfter, Iterate, SinglePass, Independent, Disjoint;
    DisjointIsIndependent(replacement, pattern);
    IndependentIsSinglePass(s, pattern, replacement, n);
  }
}
