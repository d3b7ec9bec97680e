/**
 * The three string operations the backend relies on: lower-casing (`str.lower`),
 * substring containment (`keyword in text`) and the order SQLite uses for
 * `ORDER BY` on a TEXT column (binary collation, i.e. code point by code point).
 */
module Text {

  // ---------------------------------------------------------------------------
  // Lower-casing (ASCII letters only)
  // ---------------------------------------------------------------------------

  predicate IsUpper(c: char) {
    'A' <= c <= 'Z'
  }

  function LowerChar(c: char): (d: char)
    ensures !IsUpper(d)
    ensures IsUpper(c) ==> d as int == c as int + 32
    ensures !IsUpper(c) ==> d == c
  {
    if IsUpper(c) then (c as int + 32) as char else c
  }

  /** `s.lower()` restricted to ASCII: every upper-case letter is mapped to its
      lower-case letter and nothing else changes. */
  function ToLower(s: string): (r: string)
    ensures |r| == |s|
    ensures forall i :: 0 <= i < |s| ==> r[i] == LowerChar(s[i])
  {
    if s == [] then [] else [LowerChar(s[0])] + ToLower(s[1..])
  }

  /** Lower-casing a string without upper-case letters leaves it as it is. */
  lemma ToLowerOfLower(s: string)
    requires forall i :: 0 <= i < |s| ==> !IsUpper(s[i])
    ensures ToLower(s) == s
  {
  }

  // ---------------------------------------------------------------------------
  // Substring containment
  // ---------------------------------------------------------------------------

  /** `kw` occurs in `text` starting at position `i`. */
  predicate OccursAt(kw: string, text: string, i: int) {
    0 <= i <= |text| - |kw| && text[i..i + |kw|] == kw
  }

  /** Python's `kw in text`, searched from the left. */
  predicate Occurs(kw: string, text: string) {
    (|kw| <= |text| && text[..|kw|] == kw) || (|text| > 0 && Occurs(kw, text[1..]))
  }

  /** The left-to-right search finds `kw` exactly when `kw` occurs at some position. */
  lemma {:induction false} OccursIff(kw: string, text: string)
    ensures Occurs(kw, text) <==> exists i :: OccursAt(kw, text, i)
  {
    if |kw| <= |text| && text[..|kw|] == kw {
      assert OccursAt(kw, text, 0);
    } else if |text| > 0 {
      OccursIff(kw, text[1..]);
      if Occurs(kw, text[1..]) {
        var i :| OccursAt(kw, text[1..], i);
        assert text[1..][i..i + |kw|] == text[i + 1..i + 1 + |kw|];
        assert OccursAt(kw, text, i + 1);
      }
      if i :| OccursAt(kw, text, i) {
        assert i != 0;
        assert text[1..][i - 1..i - 1 + |kw|] == text[i..i + |kw|];
        assert OccursAt(kw, text[1..], i - 1);
      }
    }
  }

  /** A witness position proves an occurrence. */
  lemma OccurrenceAt(kw: string, text: string, i: int)
    requires OccursAt(kw, text, i)
    ensures Occurs(kw, text)
  {
    OccursIff(kw, text);
  }

  /** No occurrence when the `j`-th character of `kw` is missing from every
      position of `text` where it would have to stand. */
  lemma NoOccurrence(kw: string, text: string, j: int)
    requires 0 <= j < |kw|
    requires forall i :: j <= i <= |text| - |kw| + j ==> text[i] != kw[j]
    ensures !Occurs(kw, text)
  {
    OccursIff(kw, text);
    forall i | OccursAt(kw, text, i) ensures false {
      OccursAtChar(kw, text, i, j);
    }
  }

  /** No occurrence of the lower-cased `kw` when its lower-case `j`-th
      character is missing wherever it would have to stand. */
  lemma NoLowerOccurrence(kw: string, text: string, j: int)
    requires 0 <= j < |kw| && !IsUpper(kw[j])
    requires forall i :: j <= i <= |text| - |kw| + j ==> text[i] != kw[j]
    ensures !Occurs(ToLower(kw), text)
  {
    NoOccurrence(ToLower(kw), text, j);
  }

  /** An occurrence at `i` puts the `j`-th character of `kw` at `i + j`. */
  lemma OccursAtChar(kw: string, text: string, i: int, j: int)
    requires OccursAt(kw, text, i) && 0 <= j < |kw|
    ensures text[i + j] == kw[j]
  {
    assert text[i..i + |kw|][j] == kw[j];
  }

  // ---------------------------------------------------------------------------
  // String order (SQLite's BINARY collation)
  // ---------------------------------------------------------------------------

  /** `a <= b` in lexicographic order by character code, a proper prefix first. */
  predicate Le(a: string, b: string) {
    if a == [] then true
    else if b == [] then false
    else if a[0] != b[0] then a[0] < b[0]
    else Le(a[1..], b[1..])
  }

  lemma {:induction false} LeReflexive(a: string)
    ensures Le(a, a)
  {
    if a != [] {
      LeReflexive(a[1..]);
    }
  }

  lemma {:induction false} LeTotal(a: string, b: string)
    ensures Le(a, b) || Le(b, a)
  {
    if a != [] && b != [] && a[0] == b[0] {
      LeTotal(a[1..], b[1..]);
    }
  }

  lemma {:induction false} LeAntisymmetric(a: string, b: string)
    requires Le(a, b) && Le(b, a)
    ensures a == b
  {
    if a != [] && b != [] {
      LeAntisymmetric(a[1..], b[1..]);
      assert a == [a[0]] + a[1..] && b == [b[0]] + b[1..];
    }
  }

  lemma {:induction false} LeTransitive(a: string, b: string, c: string)
    requires Le(a, b) && Le(b, c)
    ensures Le(a, c)
  {
    if a != [] && b != [] && c != [] && a[0] == b[0] && b[0] == c[0] {
      LeTransitive(a[1..], b[1..], c[1..]);
    }
  }
}
