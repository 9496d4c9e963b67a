/** C strings, the cursor that reads them, and strstr. */
module CStrings {

  import opened Wrappers

  /**
   `*p` for a text t with its terminating NUL behind it. A NUL inside t ends the text early, as it
   does in C; the position |t| may be read, nothing behind it.
   */
  function Peek(t: string, p: nat): char
    requires p <= |t|
  {
    if p < |t| then t[p] else '\0'
  }

  /** isspace in the C locale. */
  predicate IsCSpace(c: char) {
    c == ' ' || 9 as char <= c <= 13 as char
  }

  /** Tabs, line feeds, vertical tabs, form feeds, carriage returns and spaces only, by their codes. */
  predicate Blank(s: string) {
    forall i :: 0 <= i < |s| ==> s[i] as int in {0x9, 0xA, 0xB, 0xC, 0xD, 0x20}
  }

  /** The text x stands at position p of t. */
  predicate At(t: string, p: nat, x: string) {
    p + |x| <= |t| && t[p..p + |x|] == x
  }

  lemma AtConcat(t: string, p: nat, x: string, y: string)
    ensures At(t, p, x + y) <==> At(t, p, x) && At(t, p + |x|, y)
  {
    if p + |x| + |y| <= |t| {
      assert t[p..p + |x + y|] == t[p..p + |x|] + t[p + |x|..p + |x| + |y|];
      if At(t, p, x + y) {
        assert x == (x + y)[..|x|] && y == (x + y)[|x|..];
        assert t[p..p + |x|] == t[p..p + |x + y|][..|x|];
        assert t[p + |x|..p + |x| + |y|] == t[p..p + |x + y|][|x|..];
      }
    }
  }

  lemma AtChar(t: string, p: nat, c: char)
    ensures At(t, p, [c]) <==> p < |t| && t[p] == c
  {
  }

  const CRLF := "\r\n"

  lemma CrlfAt(s: string, i: nat)
    ensures At(s, i, CRLF) <==> i + 1 < |s| && s[i] == '\r' && s[i + 1] == '\n'
  {
    AtConcat(s, i, "\r", "\n");
    AtChar(s, i, '\r');
    AtChar(s, i + 1, '\n');
  }

  lemma AtText(t: string, p: nat, x: string)
    requires At(t, p, x)
    ensures p + |x| <= |t| && t[p..p + |x|] == x
  {
  }

  lemma AtSlice(t: string, p: nat, q: nat)
    requires p <= q <= |t|
    ensures At(t, p, t[p..q])
  {
  }

  lemma AtAll(t: string)
    ensures At(t, 0, t)
  {
  }

  lemma AtStart(s: string, x: string)
    ensures At(s, 0, x) <==> x <= s
  {
    if x <= s {
      assert s[0..|x|] == x;
    }
  }

  lemma AtIndex(t: string, p: nat, x: string, i: nat)
    requires i < |x|
    ensures At(t, p, x) ==> p + i < |t| && t[p + i] == x[i]
  {
    if At(t, p, x) {
      assert t[p..p + |x|][i] == t[p + i];
    }
  }

  lemma AtWithin(t: string, p: nat, x: string, i: nat, y: string)
    requires At(t, p, x) && i + |y| <= |x|
    ensures At(t, p + i, y) <==> At(x, i, y)
  {
    var inX, inT := x[i..i + |y|], t[p + i..p + i + |y|];
    assert inX == inT by {
      forall k | 0 <= k < |y| ensures inX[k] == inT[k] {
        assert t[p..p + |x|][i + k] == t[p + i + k];
      }
    }
  }

  /** What a reader of a char* sees: everything before the first NUL. */
  function Visible(s: string): (r: string)
    ensures '\0' !in r
  {
    if |s| == 0 || s[0] == '\0' then "" else [s[0]] + Visible(s[1..])
  }

  lemma {:induction false} VisibleIsAll(s: string)
    requires '\0' !in s
    ensures Visible(s) == s
  {
    if |s| > 0 {
      VisibleIsAll(s[1..]);
    }
  }

  /** What stands behind the first NUL is not seen. */
  lemma {:induction false} VisibleBefore(s: string, rest: string)
    requires '\0' !in s
    ensures Visible(s + ['\0'] + rest) == s
  {
    if |s| > 0 {
      VisibleBefore(s[1..], rest);
      assert (s + ['\0'] + rest)[1..] == s[1..] + ['\0'] + rest;
    }
  }

  /** What strlen and strcpy see of a buffer. */
  method ReadCString(a: array<char>, end: nat) returns (s: string)
    requires end < a.Length && a[end] == '\0'
    ensures s == Visible(a[..end])
  {
    s := [];
    var i := 0;
    while a[i] != '\0'
      invariant i <= end && s + Visible(a[i..end]) == Visible(a[..end])
      decreases end - i
    {
      assert a[i..end][1..] == a[i + 1..end];
      s := s + [a[i]];
      i := i + 1;
    }
  }

  // ----- strstr -----

  /** The first place of pat at or behind p and before the terminating NUL. */
  function Find(t: string, p: nat, pat: string): (r: Option<nat>)
    requires p <= |t|
    ensures r.Some? ==> p <= r.value && At(t, r.value, pat)
    decreases |t| - p
  {
    if At(t, p, pat) then Some(p)
    else if Peek(t, p) == '\0' then None
    else Find(t, p + 1, pat)
  }

  lemma {:induction false} FindIff(t: string, p: nat, pat: string, q: nat)
    requires p <= |t|
    ensures Find(t, p, pat) == Some(q) <==>
      && p <= q && At(t, q, pat)
      && (forall i :: p <= i < q ==> !At(t, i, pat) && Peek(t, i) != '\0')
    decreases |t| - p
  {
    hide At;
    FindStep(t, p, pat);
    if !At(t, p, pat) && Peek(t, p) != '\0' {
      FindIff(t, p + 1, pat, q);
    }
    AtEnds(t, q, pat);
  }

  lemma FindStep(t: string, p: nat, pat: string)
    requires p <= |t|
    ensures Find(t, p, pat) ==
      if At(t, p, pat) then Some(p) else if Peek(t, p) == '\0' then None else Find(t, p + 1, pat)
  {
  }

  lemma NothingFound(pat: string)
    requires |pat| > 0
    ensures Find("", 0, pat) == None
  {
  }

  lemma AtEnds(t: string, q: nat, pat: string)
    ensures At(t, q, pat) ==> q + |pat| <= |t|
  {
  }

  /** A stretch without the pattern and without NUL may be skipped. */
  lemma {:induction false} FindSkips(t: string, p: nat, pat: string, q: nat)
    requires p <= q <= |t|
    requires forall i :: p <= i < q ==> !At(t, i, pat) && Peek(t, i) != '\0'
    ensures Find(t, p, pat) == Find(t, q, pat)
    decreases q - p
  {
    hide At;
    if p < q {
      FindSkips(t, p + 1, pat, q);
    }
  }

  /** The search for the pattern as the loop of strstr makes it. */
  method FindSubstring(t: string, p: nat, pat: string) returns (r: Option<nat>)
    requires p <= |t|
    ensures r == Find(t, p, pat)
  {
    var q := p;
    while !At(t, q, pat)
      invariant p <= q <= |t| && Find(t, q, pat) == Find(t, p, pat)
      decreases |t| - q
    {
      if Peek(t, q) == '\0' {
        return None;
      }
      q := q + 1;
    }
    return Some(q);
  }
}
