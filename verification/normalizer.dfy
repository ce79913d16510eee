/** The text normaliser: lower-case the raw input, then delete every character
    that is not a letter a-z or a comma. */
module Normalizer {
  import opened Alphabet

  /** Lower-casing of one character, restricted to ASCII: 'A'..'Z' become
      'a'..'z' and every other character is kept. */
  function LowerChar(c: char): char {
    if 'A' <= c <= 'Z' then ((c as int) + 32) as char else c
  }

  /** Lower-casing keeps exactly the allowed characters and the upper-case
      letters allowed, and lower-casing twice is lower-casing once. */
  lemma LowerCharFacts(c: char)
    ensures Allowed(LowerChar(c)) <==> Allowed(c) || 'A' <= c <= 'Z'
    ensures Allowed(c) ==> LowerChar(c) == c
    ensures LowerChar(LowerChar(c)) == LowerChar(c)
  {
  }

  /** Lower-cases every character of `s`, position by position. */
  function Lowercase(s: string): (r: string)
    ensures |r| == |s|
    ensures forall i :: 0 <= i < |s| ==> r[i] == LowerChar(s[i])
  {
    seq(|s|, i requires 0 <= i < |s| => LowerChar(s[i]))
  }

  /** Deletes every character outside a-z and comma, keeping the order of the
      rest: the `replaceAll` with the `notAllowed` pattern. */
  function RemoveNotAllowed(s: string): (r: string)
    ensures OverAlphabet(r)
    ensures |r| <= |s|
    ensures OverAlphabet(s) ==> r == s
  {
    if s == [] then []
    else if Allowed(s[0]) then [s[0]] + RemoveNotAllowed(s[1..])
    else RemoveNotAllowed(s[1..])
  }

  /** A character survives the deletion exactly when it occurs in the input
      and is allowed. */
  lemma {:induction false} RemoveNotAllowedMembers(s: string, c: char)
    ensures c in RemoveNotAllowed(s) <==> c in s && Allowed(c)
  {
    if s != [] {
      RemoveNotAllowedMembers(s[1..], c);
      assert c in s <==> c == s[0] || c in s[1..];
    }
  }

  /** Deleting characters works piece by piece: a single pass over the whole
      string is the concatenation of the passes over its parts. */
  lemma {:induction false} RemoveNotAllowedAppend(a: string, b: string)
    ensures RemoveNotAllowed(a + b) == RemoveNotAllowed(a) + RemoveNotAllowed(b)
  {
    if a == [] {
      assert a + b == b;
    } else {
      var ab := a + b;
      assert ab[0] == a[0] && ab[1..] == a[1..] + b;
      RemoveNotAllowedAppend(a[1..], b);
      var head := if Allowed(a[0]) then [a[0]] else [];
      assert RemoveNotAllowed(ab) == head + RemoveNotAllowed(ab[1..]);
      assert RemoveNotAllowed(a) == head + RemoveNotAllowed(a[1..]);
    }
  }

  /** The normaliser: lower-case, then delete what is not allowed. */
  function Simplify(raw: string): (r: string)
    ensures OverAlphabet(r)
    ensures |r| <= |raw|
  {
    RemoveNotAllowed(Lowercase(raw))
  }

  /** A character occurs in the normalised text exactly when it is allowed
      and some character of the raw text lower-cases to it. */
  lemma SimplifyMembers(raw: string, c: char)
    ensures c in Simplify(raw) <==> Allowed(c) && exists i :: 0 <= i < |raw| && LowerChar(raw[i]) == c
  {
    var lowered := Lowercase(raw);
    RemoveNotAllowedMembers(lowered, c);
    if c in lowered {
      var i :| 0 <= i < |lowered| && lowered[i] == c;
      assert LowerChar(raw[i]) == c;
    }
  }

  /** A normalised string is left alone by the normaliser, and only a
      normalised string is. */
  lemma SimplifyFixedPoints(s: string)
    ensures Simplify(s) == s <==> OverAlphabet(s)
  {
    if OverAlphabet(s) {
      assert Lowercase(s) == s;
    }
  }

  /** Normalising twice is normalising once. */
  lemma SimplifyIdempotent(raw: string)
    ensures Simplify(Simplify(raw)) == Simplify(raw)
  {
    SimplifyFixedPoints(Simplify(raw));
  }
}
