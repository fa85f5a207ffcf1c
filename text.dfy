/**
 * The text semantics the list query relies on: PostgreSQL's `ILIKE '%k%'`
 * (a case-insensitive substring test) and the ordering `ORDER BY` applies to
 * text columns, taken here as lexicographic order on character codes.
 */
module Text {

  /** Lower-casing of one character (ASCII letters only). */
  function LowerChar(c: char): char {
    if 'A' <= c <= 'Z' then (c as int + 32) as char else c
  }

  function Lower(s: string): string {
    seq(|s|, i requires 0 <= i < |s| => LowerChar(s[i]))
  }

  /** `n` occurs in `h` starting at position `i`. */
  predicate OccursAt(h: string, n: string, i: int) {
    0 <= i && i + |n| <= |h| && h[i..i + |n|] == n
  }

  /** Substring test, scanning `h` from the left. */
  predicate Contains(h: string, n: string)
    decreases |h|
  {
    (|n| <= |h| && h[..|n|] == n) || (h != [] && Contains(h[1..], n))
  }

  /** An occurrence past the first character is an occurrence in the rest, one position earlier. */
  lemma OccursShift(h: string, n: string, i: int)
    requires h != [] && i >= 0
    ensures OccursAt(h, n, i + 1) <==> OccursAt(h[1..], n, i)
  {
    if i + 1 + |n| <= |h| {
      assert h[i + 1..i + 1 + |n|] == h[1..][i..i + |n|];
    }
  }

  /** What the scan finds occurs in `h` ... */
  lemma {:induction false} ContainsOccurs(h: string, n: string)
    requires Contains(h, n)
    ensures exists i :: OccursAt(h, n, i)
    decreases |h|
  {
    if |n| <= |h| && h[..|n|] == n {
      assert OccursAt(h, n, 0);
    } else {
      ContainsOccurs(h[1..], n);
      var i :| OccursAt(h[1..], n, i);
      OccursShift(h, n, i);
    }
  }

  /** ... and every occurrence is found. */
  lemma {:induction false} OccursContains(h: string, n: string, i: int)
    requires OccursAt(h, n, i)
    ensures Contains(h, n)
    decreases |h|
  {
    if i == 0 {
      assert h[..|n|] == h[0..|n|];
    } else {
      OccursShift(h, n, i - 1);
      OccursContains(h[1..], n, i - 1);
    }
  }

  /** The scan finds `n` exactly when `n` occurs somewhere in `h`. */
  lemma ContainsIffOccurs(h: string, n: string)
    ensures Contains(h, n) <==> exists i :: OccursAt(h, n, i)
  {
    if Contains(h, n) {
      ContainsOccurs(h, n);
    }
    if exists i :: OccursAt(h, n, i) {
      var i :| OccursAt(h, n, i);
      OccursContains(h, n, i);
    }
  }

  /** `value ILIKE '%keyword%'`, without wildcard characters inside the keyword. */
  predicate ILike(value: string, keyword: string) {
    Contains(Lower(value), Lower(keyword))
  }

  /** Lower-casing the keyword first, as the list query does for text columns, does not change the match. */
  lemma ILikeLowerKeyword(value: string, keyword: string)
    ensures ILike(value, Lower(keyword)) == ILike(value, keyword)
  {
    assert Lower(Lower(keyword)) == Lower(keyword);
  }

  /** Every value matches itself, and the empty keyword matches every value. */
  lemma ILikeSelf(value: string)
    ensures ILike(value, value)
    ensures ILike(value, "")
  {
    assert Lower(value)[..|Lower(value)|] == Lower(value);
    assert Lower(value)[..0] == Lower("");
  }

  /** Lexicographic order on strings: a proper prefix comes first, otherwise the first differing character decides. */
  predicate LexLe(a: string, b: string) {
    if a == [] then true
    else if b == [] then false
    else if a[0] != b[0] then a[0] < b[0]
    else LexLe(a[1..], b[1..])
  }

  /** The order is total ... */
  lemma {:induction false} LexLeTotal(a: string, b: string)
    ensures LexLe(a, b) || LexLe(b, a)
  {
    if a != [] && b != [] && a[0] == b[0] {
      LexLeTotal(a[1..], b[1..]);
    }
  }

  /** ... transitive ... */
  lemma {:induction false} LexLeTransitive(a: string, b: string, c: string)
    requires LexLe(a, b) && LexLe(b, c)
    ensures LexLe(a, c)
  {
    if a != [] && b != [] && c != [] && a[0] == b[0] && b[0] == c[0] {
      LexLeTransitive(a[1..], b[1..], c[1..]);
    }
  }

  /** ... and antisymmetric. */
  lemma {:induction false} LexLeAntisymmetric(a: string, b: string)
    requires LexLe(a, b) && LexLe(b, a)
    ensures a == b
  {
    if a != [] && b != [] {
      LexLeAntisymmetric(a[1..], b[1..]);
      assert a == [a[0]] + a[1..] && b == [b[0]] + b[1..];
    }
  }
}
