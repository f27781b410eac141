/** String helpers shared by the condition parser and the amenity classifier:
    Python's `sub in s` substring test and `str.replace`. */
module Text {

  predicate IsLetter(c: char) {
    'a' <= c <= 'z' || 'A' <= c <= 'Z'
  }

  /** No character of `s` is an ASCII letter. */
  predicate NoLetter(s: string) {
    forall i | 0 <= i < |s| :: !IsLetter(s[i])
  }

  predicate AllLetters(s: string) {
    forall i | 0 <= i < |s| :: IsLetter(s[i])
  }

  /** Python's `sub in s`: `sub` occurs at some position of `s`. */
  predicate Contains(s: string, sub: string)
    decreases |s|
  {
    sub <= s || (s != [] && Contains(s[1..], sub))
  }

  /** `sub` occurs in `s` starting at index `i`. */
  predicate OccursAt(s: string, sub: string, i: int) {
    0 <= i <= |s| - |sub| && s[i..i + |sub|] == sub
  }

  /** `Contains` agrees with the positional definition of a substring, in both directions. */
  lemma {:induction false} ContainsAt(s: string, sub: string)
    ensures Contains(s, sub) <==> exists i :: OccursAt(s, sub, i)
  {
    if sub <= s {
      assert OccursAt(s, sub, 0);
    } else if s == [] {
      assert forall i :: !OccursAt(s, sub, i);
    } else {
      ContainsAt(s[1..], sub);
      if exists i :: OccursAt(s, sub, i) {
        var i :| OccursAt(s, sub, i);
        assert i != 0;
        assert OccursAt(s[1..], sub, i - 1);
      }
      if exists i :: OccursAt(s[1..], sub, i) {
        var i :| OccursAt(s[1..], sub, i);
        assert OccursAt(s, sub, i + 1);
      }
    }
  }

  /** Python's `s.replace(pat, rep)`: every occurrence of `pat`, scanning left to right
      without overlap, is replaced by `rep`. */
  function Replace(s: string, pat: string, rep: string): string
    requires pat != []
    decreases |s|
  {
    if s == [] then []
    else if pat <= s then rep + Replace(s[|pat|..], pat, rep)
    else [s[0]] + Replace(s[1..], pat, rep)
  }

  /** A string that does not contain the first character of `pat` is left unchanged. */
  lemma {:induction false} ReplaceAbsent(s: string, pat: string, rep: string)
    requires pat != []
    requires forall i | 0 <= i < |s| :: s[i] != pat[0]
    ensures Replace(s, pat, rep) == s
  {
    if s != [] {
      assert !(pat <= s) by {
        if |pat| <= |s| {
          assert s[..|pat|][0] == s[0];
        }
      }
      ReplaceAbsent(s[1..], pat, rep);
    }
  }

  /** A replacement whose text holds a letter cannot remove every letter. */
  lemma {:induction false} ReplaceKeepsLetter(s: string, pat: string, rep: string)
    requires pat != [] && rep != [] && AllLetters(rep)
    requires !NoLetter(s)
    ensures !NoLetter(Replace(s, pat, rep))
  {
    if pat <= s {
      assert Replace(s, pat, rep)[0] == rep[0];
    } else if IsLetter(s[0]) {
      assert Replace(s, pat, rep)[0] == s[0];
    } else {
      var i :| 0 <= i < |s| && IsLetter(s[i]);
      assert s[1..][i - 1] == s[i];
      ReplaceKeepsLetter(s[1..], pat, rep);
      var j :| 0 <= j < |Replace(s[1..], pat, rep)| && IsLetter(Replace(s[1..], pat, rep)[j]);
      assert Replace(s, pat, rep)[j + 1] == Replace(s[1..], pat, rep)[j];
    }
  }

  /** Replacement distributes over a concatenation when no occurrence of `pat` can straddle
      the seam, that is when `y` does not start with a character of `pat`. */
  lemma {:induction false} ReplaceConcat(x: string, y: string, pat: string, rep: string)
    requires pat != []
    requires y == [] || forall i | 0 <= i < |pat| :: pat[i] != y[0]
    ensures Replace(x + y, pat, rep) == Replace(x, pat, rep) + Replace(y, pat, rep)
    decreases |x|
  {
    if x == [] {
      assert x + y == y;
    } else if pat <= x + y {
      assert forall i | 0 <= i < |pat| :: pat[i] == (x + y)[i];
      assert y != [] ==> (x + y)[|x|] == y[0];
      assert pat <= x;
      assert (x + y)[|pat|..] == x[|pat|..] + y;
      ReplaceConcat(x[|pat|..], y, pat, rep);
    } else {
      assert !(pat <= x);
      assert (x + y)[1..] == x[1..] + y;
      ReplaceConcat(x[1..], y, pat, rep);
    }
  }
}
