/** The Python string built-ins the scraper relies on, over `seq<char>`:
    `sep.join(parts)`, `sub in s`, `s.startswith(prefix)` and `s.lower()`. */
module Strings {

  /** `sep.join(parts)`: the parts in order, `sep` between neighbours.
      Built from the right, the way a loop that does `acc += sep + part` builds it. */
  function Join(sep: string, parts: seq<string>): string
  {
    if |parts| == 0 then ""
    else if |parts| == 1 then parts[0]
    else Join(sep, parts[..|parts| - 1]) + sep + parts[|parts| - 1]
  }

  /** Joining a longer list extends the join of its prefix by the separator and the new part. */
  lemma JoinSnoc(sep: string, parts: seq<string>, part: string)
    requires parts != []
    ensures Join(sep, parts + [part]) == Join(sep, parts) + sep + part
  {
    assert (parts + [part])[..|parts|] == parts;
  }

  /** The join of a non-empty prefix of `parts` is a prefix of the join of `parts`. */
  lemma {:induction false} JoinPrefix(sep: string, parts: seq<string>, k: nat)
    requires 1 <= k <= |parts|
    ensures Join(sep, parts[..k]) <= Join(sep, parts)
    decreases |parts| - k
  {
    if k < |parts| {
      JoinPrefix(sep, parts, k + 1);
      assert parts[..k + 1][..k] == parts[..k];
      assert Join(sep, parts[..k + 1]) == Join(sep, parts[..k]) + sep + parts[k];
    } else {
      assert parts[..k] == parts;
    }
  }

  /** Every part of a join appears in it, so its length bounds the join's from below;
      in particular a list whose first part is non-empty joins to a non-empty string. */
  lemma JoinFirstPart(sep: string, parts: seq<string>)
    requires parts != []
    ensures parts[0] <= Join(sep, parts)
  {
    JoinPrefix(sep, parts, 1);
    assert parts[..1] == [parts[0]];
  }

  /** `s.startswith(prefix)`. */
  predicate StartsWith(s: string, prefix: string)
  {
    |prefix| <= |s| && s[..|prefix|] == prefix
  }

  /** `sub in s`: `sub` occurs in `s` at some position. */
  predicate Contains(s: string, sub: string)
    decreases |s|
  {
    StartsWith(s, sub) || (|s| > 0 && Contains(s[1..], sub))
  }

  /** `sub` occurs in `s` starting at index `i`. */
  predicate OccursAt(s: string, sub: string, i: int)
  {
    0 <= i <= |s| - |sub| && s[i..i + |sub|] == sub
  }

  /** The recursive definition agrees with the positional one: `sub in s` iff `sub`
      occurs in `s` at some index. */
  lemma {:induction false} ContainsAt(s: string, sub: string)
    ensures Contains(s, sub) <==> exists i :: OccursAt(s, sub, i)
  {
    if Contains(s, sub) {
      if StartsWith(s, sub) {
        assert OccursAt(s, sub, 0);
      } else {
        ContainsAt(s[1..], sub);
        var i :| OccursAt(s[1..], sub, i);
        assert s[i + 1..i + 1 + |sub|] == s[1..][i..i + |sub|];
        assert OccursAt(s, sub, i + 1);
      }
    }
    if exists i :: OccursAt(s, sub, i) {
      var i :| OccursAt(s, sub, i);
      if i == 0 {
        assert StartsWith(s, sub);
      } else {
        assert s[1..][i - 1..i - 1 + |sub|] == s[i..i + |sub|];
        assert OccursAt(s[1..], sub, i - 1);
        ContainsAt(s[1..], sub);
      }
    }
  }

  /** An occurrence in `s` is still an occurrence once something is put in front of `s`. */
  lemma ContainsAfterPrefix(prefix: string, s: string, sub: string)
    requires Contains(s, sub)
    ensures Contains(prefix + s, sub)
  {
    ContainsAt(s, sub);
    var i :| OccursAt(s, sub, i);
    assert (prefix + s)[|prefix| + i..|prefix| + i + |sub|] == s[i..i + |sub|];
    assert OccursAt(prefix + s, sub, |prefix| + i);
    ContainsAt(prefix + s, sub);
  }

  /** `c.lower()` for ASCII: upper-case letters map to lower case, everything else is kept. */
  function LowerChar(c: char): char
  {
    if 'A' <= c <= 'Z' then (c as int - 'A' as int + 'a' as int) as char else c
  }

  /** `s.lower()`, restricted to ASCII case mapping. */
  function Lower(s: string): string
  {
    seq(|s|, i requires 0 <= i < |s| => LowerChar(s[i]))
  }

  /** Lowering keeps the length, leaves no ASCII capital, turns each capital into the
      letter 32 code points above it, and leaves every other character as it was. */
  lemma LowerChangesOnlyCapitals(s: string)
    ensures |Lower(s)| == |s|
    ensures forall i :: 0 <= i < |s| ==> !('A' <= Lower(s)[i] <= 'Z')
    ensures forall i :: 0 <= i < |s| && 'A' <= s[i] <= 'Z' ==> Lower(s)[i] as int == s[i] as int + 32
    ensures forall i :: 0 <= i < |s| && !('A' <= s[i] <= 'Z') ==> Lower(s)[i] == s[i]
  {
  }
}
