/**
 * The string operations the label heuristic and the entry filter are built from:
 * `str.lower`, `str.replace(" ", "")`, the substring test `p in s` and
 * `str.endswith`. Characters are modelled as ASCII as far as case is concerned.
 */
module Text {

  /** An ASCII upper-case letter. */
  predicate IsUpper(c: char)
  {
    'A' <= c <= 'Z'
  }

  /** `str.lower` on one character, restricted to ASCII letters. */
  function LowerChar(c: char): (d: char)
    ensures !IsUpper(d)
    ensures !IsUpper(c) ==> d == c
    ensures IsUpper(c) ==> 'a' <= d <= 'z' && d as int - 'a' as int == c as int - 'A' as int
  {
    if IsUpper(c) then (c as int - 'A' as int + 'a' as int) as char else c
  }

  /** `s.lower()`: every character lower-cased, position by position. */
  function Lower(s: string): (r: string)
    ensures |r| == |s|
    ensures forall i :: 0 <= i < |s| ==> r[i] == LowerChar(s[i])
  {
    seq(|s|, i requires 0 <= i < |s| => LowerChar(s[i]))
  }

  /** `s.replace(" ", "")`: drops every U+0020 space and nothing else (tabs stay). */
  function RemoveSpaces(s: string): string
  {
    if s == [] then []
    else if s[0] == ' ' then RemoveSpaces(s[1..])
    else [s[0]] + RemoveSpaces(s[1..])
  }

  /** Space removal keeps every other character, as often as it occurs. */
  lemma {:induction false} RemoveSpacesKeepsOthers(s: string)
    ensures multiset(RemoveSpaces(s)) == multiset(s)[' ' := 0]
  {
    if s != [] {
      assert s == [s[0]] + s[1..];
      RemoveSpacesKeepsOthers(s[1..]);
    }
  }

  /** The normal form both sides of the label test are compared in: lower-cased, spaces removed. */
  function Normalize(s: string): string
  {
    RemoveSpaces(Lower(s))
  }

  /**
   * The normal form holds no space and no upper-case letter, and only characters
   * that stand, lower-cased, in `s`.
   */
  lemma NormalizeChars(s: string)
    ensures ' ' !in Normalize(s)
    ensures forall c :: c in Normalize(s) ==> !IsUpper(c) && exists i :: 0 <= i < |s| && LowerChar(s[i]) == c
  {
    var r := Normalize(s);
    RemoveSpacesKeepsOthers(Lower(s));
    assert multiset(r)[' '] == 0;
    forall c | c in r
      ensures !IsUpper(c) && exists i :: 0 <= i < |s| && LowerChar(s[i]) == c
    {
      assert multiset(r)[c] > 0;
      assert c in Lower(s);
    }
  }

  /** `p` occurs in `s` starting at index `i`. */
  predicate OccursAt(p: string, s: string, i: nat)
  {
    i + |p| <= |s| && s[i..i + |p|] == p
  }

  /** `s.startswith(p)`, character by character. */
  predicate StartsWith(s: string, p: string)
  {
    |p| <= |s| && (p == [] || (s[0] == p[0] && StartsWith(s[1..], p[1..])))
  }

  /** The character-by-character test agrees with comparing the first `|p|` characters at once. */
  lemma {:induction false} StartsWithIff(s: string, p: string)
    ensures StartsWith(s, p) <==> |p| <= |s| && s[..|p|] == p
  {
    if p != [] && |p| <= |s| {
      StartsWithIff(s[1..], p[1..]);
      assert s[..|p|] == [s[0]] + s[1..][..|p| - 1];
      assert p == [p[0]] + p[1..];
    }
  }

  /** Python's substring test `p in s` (true for the empty `p`): try each start position in turn. */
  function Contains(p: string, s: string): bool
    decreases |s|
  {
    if StartsWith(s, p) then true
    else if s == [] then false
    else Contains(p, s[1..])
  }

  /** The scan finds `p` exactly when `p` occurs somewhere in `s`. */
  lemma {:induction false} ContainsIff(p: string, s: string)
    ensures Contains(p, s) <==> exists i: nat :: OccursAt(p, s, i)
    decreases |s|
  {
    StartsWithIff(s, p);
    if StartsWith(s, p) {
      assert OccursAt(p, s, 0);
    } else if |s| < |p| {
      assert forall i: nat :: !OccursAt(p, s, i);
      if s != [] {
        ContainsIff(p, s[1..]);
        assert forall i: nat :: !OccursAt(p, s[1..], i);
      }
    } else {
      ShiftOccurrence(p, s);
      ContainsIff(p, s[1..]);
    }
  }

  /** Occurrences in `s[1..]` are the occurrences in `s` past index 0, shifted by one. */
  lemma ShiftOccurrence(p: string, s: string)
    requires |s| >= |p| && s[..|p|] != p
    ensures (exists i: nat :: OccursAt(p, s, i)) <==> (exists i: nat :: OccursAt(p, s[1..], i))
  {
    forall i: nat | OccursAt(p, s, i)
      ensures i >= 1 && OccursAt(p, s[1..], i - 1)
    {
      assert s[1..][i - 1..i - 1 + |p|] == s[i..i + |p|];
    }
    forall i: nat | OccursAt(p, s[1..], i)
      ensures OccursAt(p, s, i + 1)
    {
      assert s[1..][i..i + |p|] == s[i + 1..i + 1 + |p|];
    }
  }

  /** `s.endswith(suffix)`. */
  predicate EndsWith(s: string, suffix: string)
  {
    |suffix| <= |s| && s[|s| - |suffix|..] == suffix
  }

  /** `EndsWith` agrees with the definition by splitting: `s` is some prefix followed by `suffix`. */
  lemma EndsWithIffSplit(s: string, suffix: string)
    ensures EndsWith(s, suffix) <==> exists u: string :: u + suffix == s
  {
    if EndsWith(s, suffix) {
      var u := s[..|s| - |suffix|];
      assert u + suffix == s;
    }
    if u: string :| u + suffix == s {
      assert s[|s| - |suffix|..] == (u + suffix)[|u|..];
    }
  }

  /** Lower-casing and space removal both distribute over concatenation. */
  lemma {:induction false} RemoveSpacesAppend(a: string, b: string)
    ensures RemoveSpaces(a + b) == RemoveSpaces(a) + RemoveSpaces(b)
  {
    if a != [] {
      assert (a + b)[1..] == a[1..] + b;
      RemoveSpacesAppend(a[1..], b);
    } else {
      assert a + b == b;
    }
  }

  /** A space between two strings disappears: space removal splits there. */
  lemma RemoveSpacesAround(a: string, b: string)
    ensures RemoveSpaces(a + " " + b) == RemoveSpaces(a) + RemoveSpaces(b)
  {
    RemoveSpacesAppend(a + " ", b);
    RemoveSpacesAppend(a, " ");
    assert RemoveSpaces(" ") == RemoveSpaces([]);
  }

  lemma NormalizeAppend(a: string, b: string)
    ensures Normalize(a + b) == Normalize(a) + Normalize(b)
  {
    assert Lower(a + b) == Lower(a) + Lower(b);
    RemoveSpacesAppend(Lower(a), Lower(b));
  }

  /** A string with no space is left unchanged by space removal. */
  lemma {:induction false} RemoveSpacesNoSpace(s: string)
    requires ' ' !in s
    ensures RemoveSpaces(s) == s
  {
    if s != [] {
      assert ' ' !in s[1..] by {
        forall c | c in s[1..] ensures c != ' ' { assert c in s; }
      }
      RemoveSpacesNoSpace(s[1..]);
    }
  }

  /** Normalizing twice is the same as normalizing once. */
  lemma NormalizeIdempotent(s: string)
    ensures Normalize(Normalize(s)) == Normalize(s)
  {
    var n := Normalize(s);
    NormalizeChars(s);
    assert Lower(n) == n by {
      forall i | 0 <= i < |n| ensures Lower(n)[i] == n[i] {
        assert n[i] in n;
      }
    }
    RemoveSpacesNoSpace(n);
  }

  /**
   * Only U+0020 is removed: a tab stays where it was in the normal form, so,
   * unlike a space, it still separates the characters on either side.
   */
  lemma TabIsKept(a: string, b: string)
    ensures Normalize(a + "\t" + b) == Normalize(a) + "\t" + Normalize(b)
  {
    NormalizeAppend(a + "\t", b);
    NormalizeAppend(a, "\t");
    assert Lower("\t") == "\t";
    assert RemoveSpaces("\t") == "\t" + RemoveSpaces([]);
  }

}
