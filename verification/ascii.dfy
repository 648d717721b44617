/** ASCII case mapping, the part of String.prototype.toUpperCase the model
    covers: a..z become A..Z and every other character is left alone. */
module Ascii {

  /** True for the lower-case ASCII letters a..z. */
  predicate IsLower(c: char) {
    'a' <= c <= 'z'
  }

  /** True for the upper-case ASCII letters A..Z. */
  predicate IsUpper(c: char) {
    'A' <= c <= 'Z'
  }

  /** Upper-cases one character. */
  function UpperChar(c: char): (r: char)
    ensures IsLower(c) ==> IsUpper(r) && r as int == c as int - 32
    ensures !IsLower(c) ==> r == c
  {
    if IsLower(c) then (c as int - 32) as char else c
  }

  /** Upper-cases a string, one character at a time from the front. */
  function ToUpper(s: string): string
  {
    if |s| == 0 then "" else [UpperChar(s[0])] + ToUpper(s[1..])
  }

  /** ToUpper keeps the length and maps every position through UpperChar. */
  lemma {:induction false} ToUpperPointwise(s: string)
    ensures |ToUpper(s)| == |s|
    ensures forall k :: 0 <= k < |s| ==> ToUpper(s)[k] == UpperChar(s[k])
  {
    if |s| > 0 {
      ToUpperPointwise(s[1..]);
    }
  }

  /** True when a and b are the same string up to ASCII case. */
  predicate EqualsIgnoringCase(a: string, b: string) {
    |a| == |b| && forall k :: 0 <= k < |a| ==> UpperChar(a[k]) == UpperChar(b[k])
  }

  /** True when s has no lower-case ASCII letter, so that ToUpper leaves it
      as it is. */
  predicate NoLower(s: string) {
    forall k :: 0 <= k < |s| ==> !IsLower(s[k])
  }

  /** Comparing the upper-cased form with an upper-case literal is the same
      as comparing the two strings up to ASCII case, in both directions. */
  lemma ToUpperEqualsIff(s: string, t: string)
    requires NoLower(t)
    ensures ToUpper(s) == t <==> EqualsIgnoringCase(s, t)
  {
    ToUpperPointwise(s);
    if EqualsIgnoringCase(s, t) {
      assert forall k :: 0 <= k < |s| ==> ToUpper(s)[k] == t[k] by {
        forall k | 0 <= k < |s|
          ensures ToUpper(s)[k] == t[k]
        {
          assert UpperChar(t[k]) == t[k];
        }
      }
    }
  }
}
