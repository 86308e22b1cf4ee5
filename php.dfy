/**
 The few PHP built-ins that wp_verify_nonce relies on, on strings as
 sequences of characters: `empty()` on a string, `substr()` with a negative
 offset and `hash_equals()`.
 */
module Php {

  /** PHP `empty($s)` for a string `$s`: both "" and "0" are empty. */
  predicate IsEmpty(s: string)
    ensures IsEmpty(s) ==> |s| <= 1
    ensures |s| == 1 ==> (IsEmpty(s) <==> s[0] == '0')
  {
    s == "" || s == "0"
  }

  function Min(a: int, b: int): int {
    if a <= b then a else b
  }

  /** PHP `substr($s, -back, $length)` for a non-negative length: `length`
      characters from `back` before the end when they fit, the rest of the
      string from there when they do not, and the first `length` characters
      (or the whole string) when the string is shorter than `back`. */
  function SubstrFromEnd(s: string, back: nat, length: nat): (r: string)
    ensures back <= |s| && length <= back ==> r == s[|s| - back .. |s| - back + length]
    ensures back <= |s| && back < length ==> r == s[|s| - back ..]
    ensures |s| < back ==> r == s[..Min(length, |s|)]
    ensures |r| <= length
  {
    var start := if back > |s| then 0 else |s| - back;
    var end := if start + length > |s| then |s| else start + length;
    s[start..end]
  }

  /** PHP `hash_equals($known, $user)`: true exactly when both strings are
      the same, in particular false whenever the lengths differ. */
  predicate HashEquals(known: string, user: string) {
    known == user
  }

  /** `hash_equals` compares character by character and fails on a length
      mismatch; the order of its arguments does not change the answer. */
  lemma HashEqualsCharwise(known: string, user: string)
    ensures HashEquals(known, user) <==>
      |known| == |user| && forall i :: 0 <= i < |known| ==> known[i] == user[i]
    ensures HashEquals(known, user) == HashEquals(user, known)
  {
  }
}
