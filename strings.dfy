/**
 * String helpers shared by the CSV splitter and the row classifier: counting
 * and deleting one character, JavaScript's `Array.prototype.join`, and the
 * ASCII part of `String.prototype.toLowerCase`.
 *
 * Every recursive definition peels off the LAST element, so that a loop that
 * walks a string from left to right can keep `x == F(s[..i])` as invariant.
 */
module Strings {

  /** Number of occurrences of `c` in `s`. */
  function CountChar(s: string, c: char): nat
  {
    if s == [] then 0
    else CountChar(s[..|s| - 1], c) + (if s[|s| - 1] == c then 1 else 0)
  }

  /** `s` with every occurrence of `c` deleted. */
  function RemoveChar(s: string, c: char): string
  {
    if s == [] then []
    else RemoveChar(s[..|s| - 1], c) + (if s[|s| - 1] == c then [] else [s[|s| - 1]])
  }

  /** Deleting a character that does not occur changes nothing. */
  lemma {:induction false} RemoveAbsentChar(s: string, c: char)
    requires c !in s
    ensures RemoveChar(s, c) == s
  {
    if s != [] {
      var init := s[..|s| - 1];
      assert forall k :: 0 <= k < |init| ==> init[k] == s[k];
      RemoveAbsentChar(init, c);
      assert init + [s[|s| - 1]] == s;
    }
  }

  /** The parts with `sep` between consecutive ones (`parts.join(sep)`). */
  function Join(parts: seq<string>, sep: string): string
  {
    if parts == [] then ""
    else if |parts| == 1 then parts[0]
    else Join(parts[..|parts| - 1], sep) + sep + parts[|parts| - 1]
  }

  /** Appending a character to the last part appends it to the joined string. */
  lemma JoinExtendLast(parts: seq<string>, last: string, sep: string, c: char)
    ensures Join(parts + [last + [c]], sep) == Join(parts + [last], sep) + [c]
  {
    if parts != [] {
      assert (parts + [last + [c]])[..|parts|] == parts;
      assert (parts + [last])[..|parts|] == parts;
    }
  }

  /** Starting a new, empty last part appends one separator to the joined string. */
  lemma JoinNewPart(parts: seq<string>, sep: string)
    requires parts != []
    ensures Join(parts + [""], sep) == Join(parts, sep) + sep
  {
    assert (parts + [""])[..|parts|] == parts;
  }

  /** `s.startsWith(prefix)`. */
  predicate StartsWith(s: string, prefix: string)
  {
    if prefix == [] then true
    else s != [] && s[0] == prefix[0] && StartsWith(s[1..], prefix[1..])
  }

  /** `StartsWith` is Dafny's prefix relation on sequences. */
  lemma {:induction false} StartsWithIsPrefix(s: string, prefix: string)
    ensures StartsWith(s, prefix) <==> prefix <= s
  {
    if prefix != [] && s != [] {
      StartsWithIsPrefix(s[1..], prefix[1..]);
      assert prefix <= s <==> prefix[0] == s[0] && prefix[1..] <= s[1..];
    }
  }

  predicate IsUpper(c: char)
  {
    'A' <= c <= 'Z'
  }

  /** Lower-casing of one character, restricted to ASCII letters. */
  function LowerChar(c: char): char
  {
    if IsUpper(c) then (c as int - 'A' as int + 'a' as int) as char else c
  }

  /** `s.toLowerCase()` for ASCII text. */
  function ToLower(s: string): string
  {
    if s == [] then [] else ToLower(s[..|s| - 1]) + [LowerChar(s[|s| - 1])]
  }

  /** Lower-casing works character by character and keeps the length. */
  lemma {:induction false} ToLowerAt(s: string)
    ensures |ToLower(s)| == |s|
    ensures forall i :: 0 <= i < |s| ==> ToLower(s)[i] == LowerChar(s[i])
  {
    if s != [] {
      ToLowerAt(s[..|s| - 1]);
    }
  }

  /** `a` and `b` are the same letter up to ASCII case. */
  predicate SameIgnoringCase(a: char, b: char)
  {
    a == b
    || (IsUpper(a) && b as int == a as int + 32)
    || (IsUpper(b) && a as int == b as int + 32)
  }

  /** `s` and `t` spell the same text up to ASCII case. */
  predicate EqualIgnoringCase(s: string, t: string)
  {
    |s| == |t| && forall i :: 0 <= i < |s| ==> SameIgnoringCase(s[i], t[i])
  }

  /**
   * Comparing `s.toLowerCase()` with a text that has no upper-case letter is
   * exactly a comparison that ignores case.
   */
  lemma LowerEqualsIgnoringCase(s: string, t: string)
    requires forall i :: 0 <= i < |t| ==> !IsUpper(t[i])
    ensures ToLower(s) == t <==> EqualIgnoringCase(s, t)
  {
    ToLowerAt(s);
    if EqualIgnoringCase(s, t) {
      forall i | 0 <= i < |s|
        ensures ToLower(s)[i] == t[i]
      {
        assert SameIgnoringCase(s[i], t[i]);
      }
    }
  }
}
