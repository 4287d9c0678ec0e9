/**
 * Text comparisons used by the job queries: Django's case-insensitive
 * substring lookup (`icontains`) and the code-point lexicographic order
 * that `order_by` applies to a character column.
 */
module Text {
  import opened Wrappers

  /**
   * Python truthiness of an optional text value, as in `if salary:`:
   * a missing value and the empty string are both false.
   */
  predicate Supplied(o: Option<string>)
  {
    o.Some? && o.value != ""
  }

  predicate IsUpper(c: char)
  {
    'A' <= c <= 'Z'
  }

  /** ASCII lower-casing of one character. */
  function LowerChar(c: char): (r: char)
    ensures !IsUpper(r)
    ensures !IsUpper(c) ==> r == c
  {
    if IsUpper(c) then (c as int + 32) as char else c
  }

  function Lower(s: string): (r: string)
    ensures |r| == |s|
    ensures forall i :: 0 <= i < |s| ==> r[i] == LowerChar(s[i])
  {
    seq(|s|, i requires 0 <= i < |s| => LowerChar(s[i]))
  }

  predicate IsPrefix(p: string, s: string)
  {
    |p| <= |s| && s[..|p|] == p
  }

  /** `t in s` on Python strings: `t` occurs in `s` as a contiguous block. */
  predicate Contains(s: string, t: string)
    decreases |s|
  {
    IsPrefix(t, s) || (|s| > 0 && Contains(s[1..], t))
  }

  /** `t` occurs in `s` starting at index `i`. */
  predicate OccursAt(s: string, t: string, i: int)
  {
    0 <= i && i + |t| <= |s| && s[i..i + |t|] == t
  }

  /** The recursive scan `Contains` finds exactly the occurrences at some index. */
  lemma {:induction false} ContainsIffOccurs(s: string, t: string)
    ensures Contains(s, t) <==> exists i :: OccursAt(s, t, i)
    decreases |s|
  {
    if IsPrefix(t, s) {
      assert OccursAt(s, t, 0);
    } else if |s| > 0 {
      ContainsIffOccurs(s[1..], t);
      if Contains(s[1..], t) {
        var i :| OccursAt(s[1..], t, i);
        assert s[1..][i..i + |t|] == s[i + 1..i + 1 + |t|];
        assert OccursAt(s, t, i + 1);
      }
      if exists i :: OccursAt(s, t, i) {
        var i :| OccursAt(s, t, i);
        assert i != 0;
        assert s[1..][i - 1..i - 1 + |t|] == s[i..i + |t|];
        assert OccursAt(s[1..], t, i - 1);
      }
    } else {
      assert forall i :: !OccursAt(s, t, i);
    }
  }

  /** Django's `field__icontains=needle`, with ASCII case folding. */
  predicate IContains(field: string, needle: string)
  {
    Contains(Lower(field), Lower(needle))
  }

  /** The empty needle matches every field, so skipping an empty parameter selects the same jobs as applying it. */
  lemma EmptyNeedleMatchesAll(field: string)
    ensures IContains(field, "")
  {
    assert Lower("") == "";
  }

  /** `icontains` ignores the case of the needle: needles that lower-case alike select alike. */
  lemma {:induction false} IContainsIgnoresCase(field: string, needle: string)
    ensures IContains(field, needle) <==> IContains(field, Lower(needle))
  {
    assert Lower(Lower(needle)) == Lower(needle);
  }

  /** `a <= b` on strings, compared code point by code point as Python and a binary collation do. */
  predicate LexLe(a: string, b: string)
    decreases |a|
  {
    |a| == 0 || (|b| > 0 && (a[0] < b[0] || (a[0] == b[0] && LexLe(a[1..], b[1..]))))
  }

  /** `a < b` in the same order. */
  predicate LexLt(a: string, b: string)
  {
    LexLe(a, b) && !LexLe(b, a)
  }

  lemma {:induction false} LexLeTotal(a: string, b: string)
    ensures LexLe(a, b) || LexLe(b, a)
    decreases |a|
  {
    if |a| > 0 && |b| > 0 && a[0] == b[0] {
      LexLeTotal(a[1..], b[1..]);
    }
  }

  lemma {:induction false} LexLeTransitive(a: string, b: string, c: string)
    requires LexLe(a, b) && LexLe(b, c)
    ensures LexLe(a, c)
    decreases |a|
  {
    if |a| > 0 && a[0] == b[0] && b[0] == c[0] {
      LexLeTransitive(a[1..], b[1..], c[1..]);
    }
  }
}
