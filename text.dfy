/**
 * The two string primitives the validity heuristic is built from:
 * ASCII lower-casing (Python's `str.lower`, restricted to ASCII) and
 * substring containment (Python's `needle in hay` on strings).
 */
module Text {

  predicate IsUpper(c: char) {
    'A' <= c <= 'Z'
  }

  /** Lower-cases one character: ASCII upper-case letters map to their
      lower-case partner, every other character is left alone. */
  function LowerChar(c: char): (d: char)
    ensures !IsUpper(d)
    ensures !IsUpper(c) ==> d == c
    ensures IsUpper(c) ==> 'a' <= d <= 'z' && d as int - c as int == 'a' as int - 'A' as int
  {
    if IsUpper(c) then (c as int - 'A' as int + 'a' as int) as char else c
  }

  /** The lower-case form of a string: every character lower-cased where it stands. */
  function Lower(s: string): (r: string)
    ensures |r| == |s| && IsLowerCase(r)
    ensures forall i :: 0 <= i < |s| && !IsUpper(s[i]) ==> r[i] == s[i]
    ensures forall i :: 0 <= i < |s| && IsUpper(s[i]) ==> r[i] == LowerChar(s[i])
  {
    seq(|s|, i requires 0 <= i < |s| => LowerChar(s[i]))
  }

  /** No character of `s` is an ASCII upper-case letter. */
  predicate IsLowerCase(s: string) {
    forall i :: 0 <= i < |s| ==> !IsUpper(s[i])
  }

  /** A string already in lower case is its own lower-case form. */
  lemma LowerFixesLowerCase(s: string)
    requires IsLowerCase(s)
    ensures Lower(s) == s
  {
  }

  /** Lower-casing twice is lower-casing once. */
  lemma LowerIdempotent(s: string)
    ensures Lower(Lower(s)) == Lower(s)
  {
    LowerFixesLowerCase(Lower(s));
  }

  /** `a` and `b` spell the same word up to ASCII case: position by
      position the characters are equal, or one is an upper-case letter and
      the other its lower-case partner. */
  predicate SameIgnoringCase(a: string, b: string) {
    |a| == |b| &&
    forall i :: 0 <= i < |a| ==>
      a[i] == b[i] ||
      (IsUpper(a[i]) && b[i] as int == a[i] as int + ('a' as int - 'A' as int)) ||
      (IsUpper(b[i]) && a[i] as int == b[i] as int + ('a' as int - 'A' as int))
  }

  /** Lower-casing forgets case and nothing else: two strings have the same
      lower-case form exactly when they are equal up to ASCII case. */
  lemma LowerEqualIffSameIgnoringCase(a: string, b: string)
    ensures Lower(a) == Lower(b) <==> SameIgnoringCase(a, b)
  {
    if Lower(a) == Lower(b) {
      forall i | 0 <= i < |a|
        ensures a[i] == b[i] ||
          (IsUpper(a[i]) && b[i] as int == a[i] as int + ('a' as int - 'A' as int)) ||
          (IsUpper(b[i]) && a[i] as int == b[i] as int + ('a' as int - 'A' as int))
      {
        assert LowerChar(a[i]) == Lower(a)[i] == Lower(b)[i] == LowerChar(b[i]);
      }
    }
  }

  /** `needle` sits in `hay` starting at position `k`. */
  predicate OccursAt(needle: string, hay: string, k: int) {
    0 <= k && k + |needle| <= |hay| && hay[k..k + |needle|] == needle
  }

  /** Python's `needle in hay`: a left-to-right scan for a window equal
      to `needle`. */
  function Contains(needle: string, hay: string): (r: bool)
    ensures r ==> |needle| <= |hay|
    ensures needle == [] ==> r
    ensures |needle| <= |hay| && hay[..|needle|] == needle ==> r
    decreases |hay|
  {
    if |needle| > |hay| then false
    else if hay[..|needle|] == needle then true
    else Contains(needle, hay[1..])
  }

  /** The scan finds `needle` exactly when `needle` occurs at some position of `hay`. */
  lemma {:induction false} ContainsIffOccurs(needle: string, hay: string)
    ensures Contains(needle, hay) <==> exists k :: OccursAt(needle, hay, k)
    decreases |hay|
  {
    if |needle| > |hay| {
      forall k | OccursAt(needle, hay, k) ensures false { }
    } else if hay[..|needle|] == needle {
      assert OccursAt(needle, hay, 0);
    } else {
      ContainsIffOccurs(needle, hay[1..]);
      var tail := hay[1..];
      forall k | OccursAt(needle, hay, k) ensures OccursAt(needle, tail, k - 1) {
        assert k != 0;
        assert tail[k - 1..k - 1 + |needle|] == hay[k..k + |needle|];
      }
      forall k | OccursAt(needle, tail, k) ensures OccursAt(needle, hay, k + 1) {
        assert tail[k..k + |needle|] == hay[k + 1..k + 1 + |needle|];
      }
    }
  }

  /** The empty string is contained in every string. */
  lemma EmptyContained(hay: string)
    ensures Contains("", hay)
  {
    ContainsIffOccurs("", hay);
    assert OccursAt("", hay, 0);
  }
}
