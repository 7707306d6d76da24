/** The two string operations the catalog search needs: lower-casing and substring search.
    Lower-casing is ASCII only. */
module Text {

  predicate IsUpper(c: char)
  {
    'A' <= c <= 'Z'
  }

  /** Lower-cases one ASCII capital letter and leaves every other character alone. */
  function LowerChar(c: char): char
  {
    if IsUpper(c) then (c as int + 32) as char else c
  }

  /** `s.lower()` on ASCII text. */
  function Lower(s: string): (r: string)
    ensures |r| == |s|
    ensures forall i :: 0 <= i < |s| ==> r[i] == LowerChar(s[i])
  {
    if s == [] then [] else [LowerChar(s[0])] + Lower(s[1..])
  }

  /** Lower-cased text has no capital letters left, so lower-casing twice changes nothing. */
  lemma LowerIdempotent(s: string)
    ensures forall i :: 0 <= i < |s| ==> !IsUpper(Lower(s)[i])
    ensures Lower(Lower(s)) == Lower(s)
  {
  }

  /** q occurs in s starting at offset i. */
  predicate OccursAt(s: string, q: string, i: int)
  {
    0 <= i && i + |q| <= |s| && s[i..i + |q|] == q
  }

  /** Python's `q in s` for strings, scanning s from the left. */
  function Contains(s: string, q: string): (r: bool)
    decreases |s|
  {
    if |q| <= |s| && s[..|q|] == q then true
    else if |s| <= |q| then false
    else Contains(s[1..], q)
  }

  /** Dropping the first character of s moves every occurrence one place to the left. */
  lemma OccursShift(s: string, q: string, i: nat)
    requires s != []
    ensures OccursAt(s[1..], q, i) <==> OccursAt(s, q, i + 1)
  {
    if i + 1 + |q| <= |s| {
      assert s[1..][i..i + |q|] == s[i + 1..i + 1 + |q|];
    }
  }

  /** Contains finds q exactly when q occurs somewhere in s. */
  lemma {:induction false} ContainsOccurs(s: string, q: string)
    ensures Contains(s, q) <==> exists i :: OccursAt(s, q, i)
    decreases |s|
  {
    if |q| <= |s| && s[..|q|] == q {
      assert OccursAt(s, q, 0);
    } else {
      assert !OccursAt(s, q, 0) by {
        if |q| <= |s| { assert s[0..|q|] == s[..|q|]; }
      }
      if |s| <= |q| {
        forall i | OccursAt(s, q, i) ensures i == 0 { }
      } else {
        ContainsOccurs(s[1..], q);
        forall i | OccursAt(s, q, i) ensures OccursAt(s[1..], q, i - 1) {
          OccursShift(s, q, i - 1);
        }
        forall i | OccursAt(s[1..], q, i) ensures OccursAt(s, q, i + 1) {
          OccursShift(s, q, i);
        }
      }
    }
  }

  /** The empty string is a substring of every string, so an empty query matches everything. */
  lemma ContainsEmpty(s: string)
    ensures Contains(s, "")
  {
  }
}
