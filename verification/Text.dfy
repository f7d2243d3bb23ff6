/** Byte strings as the C code sees them. A byte is a `char` here. */
module Text {
  const NUL: char := 0 as char

  /** The loop of first_of, from place `i` on. */
  function FirstFrom(s: string, c: char, i: nat): (p: int)
    requires i <= |s|
    ensures p == -1 || (i <= p < |s| && s[p] == c)
    decreases |s| - i
  {
    if i == |s| then -1 else if s[i] == c then i else FirstFrom(s, c, i + 1)
  }

  /** first_of: the first place of `c`, or -1. */
  function FirstOf(s: string, c: char): (p: int)
    ensures p == -1 || (0 <= p < |s| && s[p] == c)
  {
    FirstFrom(s, c, 0)
  }

  lemma NoneBefore(s: string, c: char, i: nat)
    requires i <= |s|
    ensures var p := FirstFrom(s, c, i); forall k | i <= k < (if p < 0 then |s| else p) :: s[k] != c
    decreases |s| - i
  {
    if i < |s| && s[i] != c {
      NoneBefore(s, c, i + 1);
    }
  }

  lemma FirstFromIs(s: string, c: char, i: nat, p: nat)
    requires i <= p < |s| && s[p] == c && forall k | i <= k < p :: s[k] != c
    ensures FirstFrom(s, c, i) == p
  {
    NoneBefore(s, c, i);
  }

  lemma FirstOfIs(s: string, c: char, p: nat)
    requires p < |s| && s[p] == c && forall k | 0 <= k < p :: s[k] != c
    ensures FirstOf(s, c) == p
  {
    FirstFromIs(s, c, 0, p);
  }

  /** There is one exactly when one is found. */
  lemma FoundIfThere(s: string, c: char)
    ensures FirstOf(s, c) >= 0 <==> c in s
  {
    NoneBefore(s, c, 0);
  }

  /** A C string ends at its first NUL. */
  function CStr(s: string): string {
    var p := FirstOf(s, NUL);
    if p < 0 then s else s[..p]
  }

  lemma CStrOfClean(s: string)
    requires NUL !in s
    ensures CStr(s) == s
  {
    FoundIfThere(s, NUL);
  }

  function ToLower(c: char): char {
    if 'A' <= c <= 'Z' then (c as int + 32) as char else c
  }

  function Lower(s: string): (r: string)
    ensures |r| == |s|
  {
    seq(|s|, i requires 0 <= i < |s| => ToLower(s[i]))
  }

  /** strstr, as a yes-or-no question. */
  predicate Contains(s: string, t: string) {
    exists i | 0 <= i <= |s| :: t <= s[i..]
  }

  function WithoutCr(s: string): string {
    if s == [] then [] else WithoutCr(s[..|s| - 1]) + if s[|s| - 1] == '\r' then [] else [s[|s| - 1]]
  }

  /** `b` with `data` written over it from `off` on. */
  function Splice(b: string, off: nat, data: string): (r: string)
    requires off + |data| <= |b|
    ensures |r| == |b|
  {
    b[..off] + data + b[off + |data|..]
  }

  lemma SpliceTwice(b: string, off: nat, x: string, y: string)
    requires off + |x| + |y| <= |b|
    ensures Splice(Splice(b, off, x), off + |x|, y) == Splice(b, off, x + y)
  {
  }

  lemma SpliceNothing(b: string, off: nat)
    requires off <= |b|
    ensures Splice(b, off, []) == b
  {
  }

  /** A NUL at `n` hides everything after it. */
  lemma CStrStops(s: string, n: nat)
    requires n < |s| && s[n] == NUL
    ensures CStr(s) == CStr(s[..n])
  {
    NoneBefore(s, NUL, 0);
    NoneBefore(s[..n], NUL, 0);
    var p := FirstOf(s, NUL);
    if p < n {
      assert s[..n][p] == NUL;
      FirstOfIs(s[..n], NUL, p);
      assert s[..n][..p] == s[..p];
    } else {
      FoundIfThere(s[..n], NUL);
    }
  }

  lemma CStrTwice(s: string)
    ensures CStr(CStr(s)) == CStr(s)
  {
    NoneBefore(s, NUL, 0);
    FoundIfThere(CStr(s), NUL);
  }

  // What these functions are.

  /** strstr finds `t` exactly in the texts that hold it. */
  lemma ContainsIs(s: string, t: string)
    ensures Contains(s, t) <==> exists a, b :: Holds(s, a, t, b)
  {
    if Contains(s, t) {
      var i :| 0 <= i <= |s| && t <= s[i..];
      assert s == s[..i] + t + s[i..][|t|..];
      assert Holds(s, s[..i], t, s[i..][|t|..]);
    }
    if a, b :| Holds(s, a, t, b) {
      assert s[|a|..] == t + b;
    }
  }

  ghost predicate Holds(s: string, a: string, t: string, b: string) {
    s == a + t + b
  }

  /** The string up to the first NUL. */
  lemma CStrIsFront(s: string)
    ensures CStr(s) <= s && NUL !in CStr(s) && (CStr(s) == s || s[|CStr(s)|] == NUL)
  {
    NoneBefore(s, NUL, 0);
  }

  /** Capital letters become the small ones in the same places of the alphabet. */
  lemma LowerIs(s: string)
    ensures |Lower(s)| == |s| && forall i | 0 <= i < |s| :: IsLowerOf(Lower(s)[i], s[i])
  {
  }

  predicate IsLowerOf(l: char, c: char) {
    if c < 'A' || 'Z' < c then l == c else 'a' <= l <= 'z' && l as int - 'a' as int == c as int - 'A' as int
  }

  lemma {:induction false} WithoutCrAppend(a: string, b: string)
    ensures WithoutCr(a + b) == WithoutCr(a) + WithoutCr(b)
    decreases |b|
  {
    if b == [] {
      assert a + b == a;
    } else {
      var front, c := b[..|b| - 1], b[|b| - 1];
      assert (a + b)[..|a + b| - 1] == a + front;
      WithoutCrAppend(a, front);
    }
  }

  /** Carriage returns are taken out, and nothing else: what stands between them is kept, in order
      and in number. */
  lemma CrIsTakenOut(a: string, b: string)
    ensures '\r' !in WithoutCr(a) && ('\r' !in a ==> WithoutCr(a) == a)
    ensures WithoutCr(a + "\r" + b) == WithoutCr(a) + WithoutCr(b)
    ensures forall c | c != '\r' :: multiset(WithoutCr(a))[c] == multiset(a)[c]
  {
    OthersStay(a);
    WithoutCrAppend(a, "\r");
    WithoutCrAppend(a + "\r", b);
    assert "\r"[..0] == [] && WithoutCr("\r") == [];
    assert WithoutCr(a) + [] == WithoutCr(a);
  }

  lemma {:induction false} OthersStay(s: string)
    ensures '\r' !in WithoutCr(s) && ('\r' !in s ==> WithoutCr(s) == s)
    ensures forall c | c != '\r' :: multiset(WithoutCr(s))[c] == multiset(s)[c]
  {
    if s != [] {
      var front, c := s[..|s| - 1], s[|s| - 1];
      OthersStay(front);
      assert s == front + [c];
    }
  }
}
