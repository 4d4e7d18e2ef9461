/** The Python string operations the dashboard uses on column names:
    `startswith`, `replace(p, "")` and the ordering `sorted` applies. */
module Strings {

  /** `s.startswith(p)`. */
  predicate StartsWith(s: string, p: string) {
    |p| <= |s| && s[..|p|] == p
  }

  /** `p` occurs in `s` starting at index `i`. */
  predicate OccursAt(p: string, s: string, i: int) {
    0 <= i <= |s| - |p| && s[i..i + |p|] == p
  }

  /** `p in s`: `p` occurs somewhere in `s` as a contiguous piece. */
  predicate Occurs(p: string, s: string) {
    exists i | 0 <= i <= |s| - |p| :: OccursAt(p, s, i)
  }

  /** `s.replace(p, "")`: scanning left to right, every non-overlapping
      occurrence of `p` is deleted (not only a leading one). Python leaves
      `s` as it is when `p` is empty. */
  function RemoveAll(s: string, p: string): (r: string)
    ensures |r| <= |s|
    decreases |s|
  {
    if p == [] || s == [] then s
    else if StartsWith(s, p) then RemoveAll(s[|p|..], p)
    else [s[0]] + RemoveAll(s[1..], p)
  }

  /** Where `p` does not occur, nothing is removed. */
  lemma {:induction false} RemoveAllAbsent(s: string, p: string)
    requires !Occurs(p, s)
    ensures RemoveAll(s, p) == s
  {
    if p != [] && s != [] {
      assert !StartsWith(s, p) by {
        assert !OccursAt(p, s, 0);
      }
      assert !Occurs(p, s[1..]) by {
        forall i | 0 <= i <= |s[1..]| - |p| ensures !OccursAt(p, s[1..], i) {
          assert !OccursAt(p, s, i + 1);
          assert s[1..][i..i + |p|] == s[i + 1..i + 1 + |p|];
        }
      }
      RemoveAllAbsent(s[1..], p);
      assert s == [s[0]] + s[1..];
    }
  }

  /** Removing `p` from `p + x`, where `p` does not occur again in `x`,
      gives back `x`: the name shown for a column is the column name
      without its prefix, and prefixing it again gives the column. */
  lemma StripPrefix(x: string, p: string)
    requires p != []
    requires !Occurs(p, x)
    ensures RemoveAll(p + x, p) == x
  {
    var s := p + x;
    assert StartsWith(s, p);
    assert s[|p|..] == x;
    RemoveAllAbsent(x, p);
  }

  /** `<=` on Python strings: lexicographic by code point, a proper prefix
      coming first. */
  predicate LexLe(a: string, b: string) {
    if a == [] then true
    else if b == [] then false
    else if a[0] != b[0] then a[0] < b[0]
    else LexLe(a[1..], b[1..])
  }

  lemma {:induction false} LexLeTotal(a: string, b: string)
    ensures LexLe(a, b) || LexLe(b, a)
  {
    if a != [] && b != [] && a[0] == b[0] {
      LexLeTotal(a[1..], b[1..]);
    }
  }

  lemma {:induction false} LexLeTransitive(a: string, b: string, c: string)
    requires LexLe(a, b) && LexLe(b, c)
    ensures LexLe(a, c)
  {
    if a != [] && b != [] && c != [] && a[0] == b[0] == c[0] {
      LexLeTransitive(a[1..], b[1..], c[1..]);
    }
  }

  lemma {:induction false} LexLeAntisymmetric(a: string, b: string)
    requires LexLe(a, b) && LexLe(b, a)
    ensures a == b
  {
    if a != [] && b != [] {
      LexLeAntisymmetric(a[1..], b[1..]);
      assert a == [a[0]] + a[1..] && b == [b[0]] + b[1..];
    }
  }
}
