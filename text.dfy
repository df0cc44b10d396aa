/**
 Ordinal, case-insensitive string operations (`StringComparison.OrdinalIgnoreCase`
 and `StringComparer.OrdinalIgnoreCase`), with the case mapping restricted to
 the ASCII letters.
 */
module Text {

  /** The case fold of one character: ASCII letters go to upper case. No
      lower-case letter survives the fold, letters and only letters fold to
      letters, and every character that is not a lower-case letter is its own
      fold. */
  function Fold(c: char): (d: char)
    ensures !('a' <= d <= 'z')
    ensures ('a' <= c <= 'z' || 'A' <= c <= 'Z') <==> 'A' <= d <= 'Z'
    ensures !('a' <= c <= 'z') ==> d == c
  {
    if 'a' <= c <= 'z' then (c as int - 32) as char else c
  }

  /** `c` is the lower-case ASCII letter whose upper case is `e`. */
  predicate LowerOf(c: char, e: char) {
    'a' <= c <= 'z' && e as int == c as int - 32
  }

  /** Two characters fold alike exactly when they are equal or are the two
      cases of one ASCII letter. */
  lemma FoldAlikeIff(c: char, e: char)
    ensures Fold(c) == Fold(e) <==> c == e || LowerOf(c, e) || LowerOf(e, c)
  {
    if 'a' <= c <= 'z' && 'a' <= e <= 'z' {
      assert Fold(c) as int == c as int - 32 && Fold(e) as int == e as int - 32;
    } else if 'a' <= c <= 'z' {
      assert Fold(c) as int == c as int - 32;
    } else if 'a' <= e <= 'z' {
      assert Fold(e) as int == e as int - 32;
    }
  }

  /** The string with every character folded. */
  function FoldAll(s: string): (t: string)
    ensures |t| == |s|
    ensures forall i :: 0 <= i < |s| ==> t[i] == Fold(s[i])
  {
    if s == [] then [] else [Fold(s[0])] + FoldAll(s[1..])
  }

  /** True when `s` and `t` are equal ignoring case: same length, and the
      characters at each position fold alike. */
  function EqualsIgnoreCase(s: string, t: string): (b: bool)
    ensures b <==> |s| == |t| && forall i :: 0 <= i < |s| ==> Fold(s[i]) == Fold(t[i])
  {
    var fs, ft := FoldAll(s), FoldAll(t);
    assert |s| == |t| && (forall i :: 0 <= i < |s| ==> Fold(s[i]) == Fold(t[i])) ==> fs == ft by {
      if |s| == |t| && forall i :: 0 <= i < |s| ==> Fold(s[i]) == Fold(t[i]) {
        assert forall i :: 0 <= i < |fs| ==> fs[i] == ft[i];
      }
    }
    fs == ft
  }

  /** Folding commutes with slicing. */
  lemma FoldAllSlice(h: string, i: int, j: int)
    requires 0 <= i <= j <= |h|
    ensures FoldAll(h[i..j]) == FoldAll(h)[i..j]
  {
    var a, b := FoldAll(h[i..j]), FoldAll(h)[i..j];
    forall k | 0 <= k < |a| ensures a[k] == b[k] {
      assert h[i..j][k] == h[i + k];
    }
  }

  /** True when `n` is a prefix of `h`, character by character. */
  predicate IsPrefix(n: string, h: string) {
    |n| <= |h| && h[..|n|] == n
  }

  /** True when `n` occurs in `h` at some position, scanning from the left. */
  predicate Occurs(n: string, h: string)
    decreases |h|
  {
    IsPrefix(n, h) || (h != [] && Occurs(n, h[1..]))
  }

  /** The slice of `h` starting at `i` equals `n` ignoring case. */
  predicate MatchesAt(h: string, n: string, i: int) {
    0 <= i <= |h| - |n| && EqualsIgnoreCase(h[i..i + |n|], n)
  }

  /** `h.Contains(n, StringComparison.OrdinalIgnoreCase)`: some slice of `h`
      equals `n` ignoring case; the empty string is contained in every string. */
  function ContainsIgnoreCase(h: string, n: string): (b: bool)
    ensures b <==> exists i :: MatchesAt(h, n, i)
    ensures n == [] ==> b
  {
    var fn, fh := FoldAll(n), FoldAll(h);
    OccursIffSlice(fn, fh);
    assert forall i :: OccursAt(fn, fh, i) <==> MatchesAt(h, n, i) by {
      forall i ensures OccursAt(fn, fh, i) <==> MatchesAt(h, n, i) {
        if 0 <= i <= |h| - |n| {
          FoldAllSlice(h, i, i + |n|);
        }
      }
    }
    assert n == [] ==> MatchesAt(h, n, 0);
    Occurs(fn, fh)
  }

  /** True when `n` occurs in `h` starting at index `i`. */
  predicate OccursAt(n: string, h: string, i: int) {
    0 <= i <= |h| - |n| && h[i..i + |n|] == n
  }

  /** The scan finds `n` exactly when `n` is some slice of `h`. */
  lemma {:induction false} OccursIffSlice(n: string, h: string)
    ensures Occurs(n, h) <==> exists i :: OccursAt(n, h, i)
    decreases |h|
  {
    if Occurs(n, h) {
      if IsPrefix(n, h) {
        assert OccursAt(n, h, 0);
      } else {
        OccursIffSlice(n, h[1..]);
        var i :| OccursAt(n, h[1..], i);
        assert h[i + 1..i + 1 + |n|] == h[1..][i..i + |n|];
        assert OccursAt(n, h, i + 1);
      }
    }
    if exists i :: OccursAt(n, h, i) {
      var i :| OccursAt(n, h, i);
      if i == 0 {
        assert IsPrefix(n, h);
      } else {
        assert h[1..][i - 1..i - 1 + |n|] == h[i..i + |n|];
        assert OccursAt(n, h[1..], i - 1);
        OccursIffSlice(n, h[1..]);
      }
    }
  }

  /** Ordinal lexicographic order on strings: `s` sorts no later than `t`. */
  predicate LexLe(s: string, t: string) {
    s == [] || (t != [] && (s[0] < t[0] || (s[0] == t[0] && LexLe(s[1..], t[1..]))))
  }

  /** `StringComparer.OrdinalIgnoreCase.Compare(s, t) <= 0` for non-null
      strings: the empty string sorts first, and strings equal ignoring case
      compare equal. */
  function LeIgnoreCase(s: string, t: string): (b: bool)
    ensures s == [] ==> b
    ensures EqualsIgnoreCase(s, t) ==> b
  {
    LexLeTotal(FoldAll(s), FoldAll(t));
    LexLe(FoldAll(s), FoldAll(t))
  }

  lemma {:induction false} LexLeTotal(s: string, t: string)
    ensures LexLe(s, t) || LexLe(t, s)
  {
    if s != [] && t != [] && s[0] == t[0] {
      LexLeTotal(s[1..], t[1..]);
    }
  }

  lemma {:induction false} LexLeTrans(s: string, t: string, u: string)
    requires LexLe(s, t) && LexLe(t, u)
    ensures LexLe(s, u)
  {
    if s != [] && t != [] && u != [] && s[0] == t[0] && t[0] == u[0] {
      LexLeTrans(s[1..], t[1..], u[1..]);
    }
  }

  /** Ordinal order is antisymmetric: two strings each sorting no later than
      the other are equal. */
  lemma {:induction false} LexLeAntisym(s: string, t: string)
    requires LexLe(s, t) && LexLe(t, s)
    ensures s == t
  {
    if s != [] && t != [] {
      LexLeAntisym(s[1..], t[1..]);
      assert s == [s[0]] + s[1..];
      assert t == [t[0]] + t[1..];
    }
  }

  /** The ignore-case order is a total preorder, and it ties exactly the strings
      that are equal ignoring case. */
  lemma LeIgnoreCaseTotalPreorder(s: string, t: string, u: string)
    ensures LeIgnoreCase(s, s)
    ensures LeIgnoreCase(s, t) || LeIgnoreCase(t, s)
    ensures LeIgnoreCase(s, t) && LeIgnoreCase(t, u) ==> LeIgnoreCase(s, u)
    ensures LeIgnoreCase(s, t) && LeIgnoreCase(t, s) <==> EqualsIgnoreCase(s, t)
  {
    LexLeTotal(FoldAll(s), FoldAll(s));
    LexLeTotal(FoldAll(s), FoldAll(t));
    if LeIgnoreCase(s, t) && LeIgnoreCase(t, u) {
      LexLeTrans(FoldAll(s), FoldAll(t), FoldAll(u));
    }
    if LeIgnoreCase(s, t) && LeIgnoreCase(t, s) {
      LexLeAntisym(FoldAll(s), FoldAll(t));
    }
    if EqualsIgnoreCase(s, t) {
      LexLeTotal(FoldAll(s), FoldAll(t));
    }
  }
}
