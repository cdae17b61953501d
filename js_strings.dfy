/**
 * The JavaScript string operations the anonymiser relies on, over strings as
 * sequences of characters: `toLowerCase`, `startsWith`, `endsWith`,
 * `includes`, `indexOf`, `replace` with a string pattern, and `split` on a
 * one-character separator.
 */
module JsStrings {

  predicate IsAsciiUpper(c: char) { 'A' <= c <= 'Z' }

  predicate IsAsciiLower(c: char) { 'a' <= c <= 'z' }

  /** `toLowerCase` of one character, restricted to ASCII letters. */
  function LowerChar(c: char): (d: char)
    ensures !IsAsciiUpper(c) ==> d == c
    ensures IsAsciiUpper(c) ==> IsAsciiLower(d) && d as int - 'a' as int == c as int - 'A' as int
  {
    if IsAsciiUpper(c) then (c as int + 32) as char else c
  }

  /** No character of `s` is an upper-case ASCII letter. */
  predicate IsLowerCase(s: string) {
    forall i :: 0 <= i < |s| ==> !IsAsciiUpper(s[i])
  }

  /** `s.toLowerCase()`, restricted to ASCII letters. */
  function ToLower(s: string): (r: string)
    ensures |r| == |s|
  {
    if s == [] then [] else [LowerChar(s[0])] + ToLower(s[1..])
  }

  /** Lower-casing works character by character, and its result is lower case. */
  lemma {:induction false} ToLowerPointwise(s: string)
    ensures forall i :: 0 <= i < |s| ==> ToLower(s)[i] == LowerChar(s[i])
    ensures IsLowerCase(ToLower(s))
  {
    if s != [] {
      ToLowerPointwise(s[1..]);
      assert ToLower(s) == [LowerChar(s[0])] + ToLower(s[1..]);
    }
  }

  /** Lower-casing leaves lower-case text alone. */
  lemma ToLowerOfLowerCase(s: string)
    requires IsLowerCase(s)
    ensures ToLower(s) == s
  {
    ToLowerPointwise(s);
  }

  /** The same ASCII letter in either case, or the same character. */
  predicate SameIgnoringCase(x: char, y: char) {
    x == y ||
    (IsAsciiUpper(x) && IsAsciiLower(y) && y as int - 'a' as int == x as int - 'A' as int) ||
    (IsAsciiLower(x) && IsAsciiUpper(y) && x as int - 'a' as int == y as int - 'A' as int)
  }

  /** `a` and `b` spell the same text up to the case of ASCII letters. */
  predicate EqualIgnoringCase(a: string, b: string) {
    |a| == |b| && forall i :: 0 <= i < |a| ==> SameIgnoringCase(a[i], b[i])
  }

  /** Two texts lower-case alike exactly when they are equal up to letter case. */
  lemma ToLowerEqualIffIgnoringCase(a: string, b: string)
    ensures ToLower(a) == ToLower(b) <==> EqualIgnoringCase(a, b)
  {
    ToLowerPointwise(a);
    ToLowerPointwise(b);
    if ToLower(a) == ToLower(b) {
      forall i | 0 <= i < |a| ensures SameIgnoringCase(a[i], b[i]) {
        assert LowerChar(a[i]) == LowerChar(b[i]);
      }
    }
    if EqualIgnoringCase(a, b) {
      forall i | 0 <= i < |a| ensures ToLower(a)[i] == ToLower(b)[i] {
        assert SameIgnoringCase(a[i], b[i]);
      }
    }
  }

  /** `EMAIL`, `Email` and `email` all lower-case to `email`. */
  lemma EmailCasings()
    ensures ToLower("EMAIL") == ToLower("Email") == ToLower("email") == "email"
    ensures EqualIgnoringCase("EMAIL", "Email")
  {
    ToLowerEqualIffIgnoringCase("EMAIL", "Email");
  }

  /** A character that is not an ASCII letter occurs in `ToLower(s)` exactly where it occurs in `s`. */
  lemma ToLowerKeepsNonLetter(s: string, c: char)
    requires !IsAsciiUpper(c) && !IsAsciiLower(c)
    ensures c in ToLower(s) <==> c in s
  {
    ToLowerPointwise(s);
    if c in s {
      var i :| 0 <= i < |s| && s[i] == c;
      assert ToLower(s)[i] == c;
    }
    if c in ToLower(s) {
      var i :| 0 <= i < |s| && ToLower(s)[i] == c;
      assert s[i] == c;
    }
  }

  /**
   * `s` agrees with `t` from position `i` on, for the characters `t[k..]`.
   * Defined one character at a time, so that it unfolds on literals.
   */
  predicate AgreeFrom(s: string, t: string, i: nat, k: nat)
    decreases |t| - k
  {
    if k >= |t| then i + |t| <= |s|
    else i + k < |s| && s[i + k] == t[k] && AgreeFrom(s, t, i, k + 1)
  }

  /** `t` occurs in `s` at position `i`. */
  predicate OccursAt(s: string, t: string, i: nat) {
    i + |t| <= |s| && s[i..i + |t|] == t
  }

  lemma {:induction false} AgreeFromIsPointwise(s: string, t: string, i: nat, k: nat)
    requires k <= |t|
    ensures AgreeFrom(s, t, i, k) <==>
            i + |t| <= |s| && forall m :: k <= m < |t| ==> s[i + m] == t[m]
    decreases |t| - k
  {
    if k < |t| {
      AgreeFromIsPointwise(s, t, i, k + 1);
    }
  }

  lemma AgreeFromZeroIsOccurrence(s: string, t: string, i: nat)
    ensures AgreeFrom(s, t, i, 0) <==> OccursAt(s, t, i)
  {
    AgreeFromIsPointwise(s, t, i, 0);
    if OccursAt(s, t, i) {
      forall m | 0 <= m < |t| ensures s[i + m] == t[m] {
        assert s[i..i + |t|][m] == s[i + m];
      }
    }
  }

  /** `s.startsWith(t)`. */
  predicate StartsWith(s: string, t: string) {
    AgreeFrom(s, t, 0, 0)
  }

  lemma StartsWithIsPrefix(s: string, t: string)
    ensures StartsWith(s, t) <==> t <= s
  {
    AgreeFromZeroIsOccurrence(s, t, 0);
  }

  /** `s.endsWith(t)`. */
  predicate EndsWith(s: string, t: string) {
    |t| <= |s| && AgreeFrom(s, t, |s| - |t|, 0)
  }

  lemma EndsWithIsSuffix(s: string, t: string)
    ensures EndsWith(s, t) <==> |t| <= |s| && s[|s| - |t|..] == t
  {
    if |t| <= |s| {
      AgreeFromZeroIsOccurrence(s, t, |s| - |t|);
    }
  }

  /** One mismatch in the aligned tail rules out the suffix. */
  lemma MismatchNotSuffix(s: string, t: string, k: nat)
    requires k < |t| <= |s| && s[|s| - |t| + k] != t[k]
    ensures !EndsWith(s, t)
  {
    EndsWithIsSuffix(s, t);
  }

  lemma {:induction false} AgreeFromBound(s: string, t: string, i: nat, k: nat)
    ensures AgreeFrom(s, t, i, k) ==> i + |t| <= |s|
    decreases |t| - k
  {
    if k < |t| {
      AgreeFromBound(s, t, i, k + 1);
    }
  }

  /** Position of the first occurrence of `t` in `s` at or after `i`, or -1 when there is none. */
  function IndexOfFrom(s: string, t: string, i: nat): (r: int)
    ensures r == -1 || (i <= r && r + |t| <= |s|)
    decreases |s| - i
  {
    AgreeFromBound(s, t, i, 0);
    if AgreeFrom(s, t, i, 0) then i
    else if i < |s| then IndexOfFrom(s, t, i + 1)
    else -1
  }

  /** `IndexOfFrom` finds an occurrence, and none lies between `i` and it. */
  lemma {:induction false} IndexOfFromSpec(s: string, t: string, i: nat)
    ensures var r := IndexOfFrom(s, t, i);
            (r == -1 || (i <= r && OccursAt(s, t, r))) &&
            forall j :: i <= j && (r == -1 || j < r) ==> !OccursAt(s, t, j)
    decreases |s| - i
  {
    AgreeFromZeroIsOccurrence(s, t, i);
    if !AgreeFrom(s, t, i, 0) && i < |s| {
      IndexOfFromSpec(s, t, i + 1);
    }
  }

  /** `s.indexOf(t)`: the first position at which `t` occurs in `s`, or -1. */
  function IndexOf(s: string, t: string): (r: int)
    ensures r == -1 || (0 <= r && r + |t| <= |s|)
  {
    IndexOfFrom(s, t, 0)
  }

  /** `indexOf` gives the first occurrence, or -1 when there is none. */
  lemma IndexOfSpec(s: string, t: string)
    ensures var r := IndexOf(s, t);
            (r == -1 || (0 <= r && OccursAt(s, t, r))) &&
            forall j: nat :: (r == -1 || j < r) ==> !OccursAt(s, t, j)
  {
    IndexOfFromSpec(s, t, 0);
  }

  /** `s.includes(t)`. */
  predicate Contains(s: string, t: string) {
    IndexOf(s, t) >= 0
  }

  lemma ContainsIsOccurrence(s: string, t: string)
    ensures Contains(s, t) <==> exists i: nat :: OccursAt(s, t, i)
  {
    IndexOfSpec(s, t);
  }

  /** A text lacking one of the pattern's characters does not contain the pattern. */
  lemma MissingCharNotContained(s: string, t: string, k: nat)
    requires k < |t| && t[k] !in s
    ensures !Contains(s, t)
  {
    ContainsIsOccurrence(s, t);
    MissingCharNoOccurrence(s, t, k);
  }

  /** The same, position by position: the pattern occurs nowhere. */
  lemma MissingCharNoOccurrence(s: string, t: string, k: nat)
    requires k < |t| && t[k] !in s
    ensures forall i: nat :: !OccursAt(s, t, i)
  {
  }

  /** Looking for a one-character string is looking for the character. */
  lemma ContainsChar(s: string, c: char)
    ensures Contains(s, [c]) <==> c in s
  {
    IndexOfSpec(s, [c]);
    if c in s {
      var i :| 0 <= i < |s| && s[i] == c;
      assert OccursAt(s, [c], i);
    }
    if Contains(s, [c]) {
      var i := IndexOf(s, [c]);
      assert s[i..i + 1][0] == s[i];
    }
  }

  /**
   * `s.replace(t, "")` with a string pattern: removes the FIRST occurrence of
   * `t`, wherever it is, and leaves `s` unchanged when `t` does not occur.
   */
  function RemoveFirst(s: string, t: string): (r: string)
    ensures !Contains(s, t) ==> r == s
    ensures Contains(s, t) ==> |r| + |t| == |s|
  {
    var i := IndexOf(s, t);
    if i < 0 then s else s[..i] + s[i + |t|..]
  }

  /** Removing a prefix removes exactly it. */
  lemma RemoveFirstPrefix(p: string, s: string)
    ensures RemoveFirst(p + s, p) == s
  {
    IndexOfSpec(p + s, p);
    assert OccursAt(p + s, p, 0);
    assert (p + s)[|p|..] == s;
  }

  /** The occurrence removed is the first one: `p + t + q` loses `t` when `t` does not occur earlier. */
  lemma RemoveFirstOccurrence(p: string, t: string, q: string)
    requires forall i: nat :: i < |p| ==> !OccursAt(p + t + q, t, i)
    ensures RemoveFirst(p + t + q, t) == p + q
  {
    var s := p + t + q;
    IndexOfSpec(s, t);
    assert OccursAt(s, t, |p|) by {
      assert s[|p|..|p| + |t|] == t;
    }
    assert IndexOf(s, t) == |p|;
    assert s[..|p|] + s[|p| + |t|..] == p + q;
  }

  /** Removing an absent pattern changes nothing. */
  lemma RemoveFirstAbsent(s: string, t: string)
    requires forall i: nat :: !OccursAt(s, t, i)
    ensures RemoveFirst(s, t) == s
  {
    IndexOfSpec(s, t);
  }

  /**
   * `s.split(d)` for a one-character separator `d`: the maximal `d`-free
   * pieces between separators, always at least one (`"".split(d)` is `[""]`).
   */
  function Split(s: string, d: char): (parts: seq<string>)
    ensures |parts| >= 1
    ensures forall p :: p in parts ==> d !in p
    ensures Join(parts, d) == s
  {
    if s == [] then [""]
    else
      var rest := Split(s[1..], d);
      if s[0] == d then [""] + rest
      else [[s[0]] + rest[0]] + rest[1..]
  }

  /** `parts.join(d)`: the pieces with `d` between consecutive ones. */
  function Join(parts: seq<string>, d: char): string
  {
    if |parts| == 0 then ""
    else if |parts| == 1 then parts[0]
    else parts[0] + [d] + Join(parts[1..], d)
  }

  /** Splitting the join of `d`-free pieces gives the pieces back. */
  lemma {:induction false} SplitJoin(parts: seq<string>, d: char)
    requires |parts| >= 1
    requires forall p :: p in parts ==> d !in p
    ensures Split(Join(parts, d), d) == parts
    decreases |parts|, |parts[0]|
  {
    var s := Join(parts, d);
    if s != [] && parts[0] == [] {
      assert |parts| > 1;
      assert s == [d] + Join(parts[1..], d);
      assert s[1..] == Join(parts[1..], d);
      SplitJoin(parts[1..], d);
      assert parts == [""] + parts[1..];
    } else if s != [] {
      var tail := [parts[0][1..]] + parts[1..];
      assert d !in parts[0][1..] by {
        assert parts[0] in parts;
        forall j | 0 <= j < |parts[0][1..]| ensures parts[0][1..][j] != d {
          assert parts[0][1..][j] == parts[0][j + 1];
        }
      }
      assert forall p :: p in tail ==> d !in p;
      assert parts[0] == [parts[0][0]] + parts[0][1..];
      if |parts| == 1 {
        assert s[1..] == Join(tail, d);
      } else {
        assert tail[1..] == parts[1..];
        assert s[1..] == Join(tail, d);
      }
      assert parts[0][0] in parts[0];
      SplitJoin(tail, d);
      assert parts == [[s[0]] + tail[0]] + tail[1..];
    }
  }
}
