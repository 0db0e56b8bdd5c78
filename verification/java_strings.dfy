/**
 The three `java.lang.String` operations the admission logic relies on:
 `trim`, `startsWith` and `contains`. A Dafny `char` is a Unicode scalar
 value, whereas a Java string is a sequence of UTF-16 units, so a character
 outside the Basic Multilingual Plane is one `char` here and two units in
 Java. For well-formed strings (ASCII hosts, decoded file text) the three
 operations answer as Java's do: `trim` only looks at units up to U+0020,
 and matching scalar values matches their UTF-16 encodings.
 */
module JavaStrings {

  /** `String.trim` strips every unit whose code is at most U+0020. */
  predicate IsTrimmable(c: char) {
    c <= ' '
  }

  /** Drops the trimmable prefix: the result is a suffix of `s` that does
      not start with a trimmable unit, and everything dropped was trimmable. */
  function TrimStart(s: string): (r: string)
    ensures |r| <= |s| && r == s[|s| - |r|..]
    ensures |r| > 0 ==> !IsTrimmable(r[0])
    ensures forall i :: 0 <= i < |s| - |r| ==> IsTrimmable(s[i])
    decreases |s|
  {
    if |s| > 0 && IsTrimmable(s[0]) then TrimStart(s[1..]) else s
  }

  /** Drops the trimmable suffix: the result is a prefix of `s` that does
      not end with a trimmable unit, and everything dropped was trimmable. */
  function TrimEnd(s: string): (r: string)
    ensures |r| <= |s| && r == s[..|r|]
    ensures |r| > 0 ==> !IsTrimmable(r[|r| - 1])
    ensures forall i :: |r| <= i < |s| ==> IsTrimmable(s[i])
    decreases |s|
  {
    if |s| > 0 && IsTrimmable(s[|s| - 1]) then TrimEnd(s[..|s| - 1]) else s
  }

  /** A string `trim` leaves alone: empty, or not starting or ending with a
      trimmable unit. */
  predicate IsTrimmed(s: string) {
    |s| == 0 || (!IsTrimmable(s[0]) && !IsTrimmable(s[|s| - 1]))
  }

  /** `sub` occurs in `s` starting at offset `i`. */
  predicate OccursAt(s: string, sub: string, i: int) {
    0 <= i && i + |sub| <= |s| && s[i..i + |sub|] == sub
  }

  /** `String.trim`: the piece of `s` that starts after the leading
      trimmable units and is trimmed itself. */
  function Trim(s: string): (r: string)
    ensures IsTrimmed(r)
    ensures OccursAt(s, r, |s| - |TrimStart(s)|)
  {
    var t := TrimStart(s);
    var r := TrimEnd(t);
    TrimmedPiece(s, t, r);
    r
  }

  /** `trim` removes only trimmable units: everything of `s` before and
      after the result is trimmable. */
  lemma TrimOnlyStrips(s: string)
    ensures forall i :: 0 <= i < |s| - |TrimStart(s)| ==> IsTrimmable(s[i])
    ensures forall i :: |s| - |TrimStart(s)| + |Trim(s)| <= i < |s| ==> IsTrimmable(s[i])
  {
    var t := TrimStart(s);
    TrimmedPiece(s, t, TrimEnd(t));
  }

  /** A prefix `r` of a suffix `t` of `s` sits in `s` where `t` starts, and
      what `t` loses after `r` is what `s` has after it. */
  lemma TrimmedPiece(s: string, t: string, r: string)
    requires |t| <= |s| && t == s[|s| - |t|..]
    requires |r| <= |t| && r == t[..|r|]
    requires forall i :: |r| <= i < |t| ==> IsTrimmable(t[i])
    ensures OccursAt(s, r, |s| - |t|)
    ensures forall i :: |s| - |t| + |r| <= i < |s| ==> IsTrimmable(s[i])
  {
    var k := |s| - |t|;
    forall i | k + |r| <= i < |s| ensures IsTrimmable(s[i]) {
      assert s[i] == t[i - k];
    }
    assert s[k..k + |r|] == t[..|r|];
  }

  /** `trim` is the identity exactly on trimmed strings. */
  lemma TrimFixedPoint(s: string)
    ensures Trim(s) == s <==> IsTrimmed(s)
  {
    if IsTrimmed(s) {
      assert TrimStart(s) == s;
      assert TrimEnd(s) == s;
    }
  }

  /** `String.startsWith`. */
  predicate StartsWith(s: string, prefix: string) {
    |prefix| <= |s| && s[..|prefix|] == prefix
  }

  /** `String.contains`: `sub` occurs at some offset of `s`. */
  function Contains(s: string, sub: string): (r: bool)
    ensures r <==> exists i :: OccursAt(s, sub, i)
    decreases |s|
  {
    if StartsWith(s, sub) then
      assert OccursAt(s, sub, 0);
      true
    else if |s| == 0 then
      false
    else
      var r := Contains(s[1..], sub);
      assert forall i :: OccursAt(s, sub, i + 1) <==> OccursAt(s[1..], sub, i) by {
        forall i ensures OccursAt(s, sub, i + 1) <==> OccursAt(s[1..], sub, i) {
          if 0 <= i && i + 1 + |sub| <= |s| {
            var here, there := s[i + 1..i + 1 + |sub|], s[1..][i..i + |sub|];
            forall k | 0 <= k < |sub| ensures here[k] == there[k] {
              assert here[k] == s[i + 1 + k] == there[k];
            }
            assert here == there;
          }
        }
      }
      assert !OccursAt(s, sub, 0);
      assert (exists i :: OccursAt(s, sub, i)) ==> exists i :: OccursAt(s[1..], sub, i) by {
        if exists i :: OccursAt(s, sub, i) {
          var i :| OccursAt(s, sub, i);
          assert OccursAt(s[1..], sub, i - 1);
        }
      }
      r
  }
}
