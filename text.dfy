/**
 * The few `java.lang.String` / `Character` operations the game relies on:
 * `trim`, `String.toLowerCase` and `Character.isLetter`. Lower-casing and the
 * letter test are restricted to ASCII; `trim` is modelled exactly (it drops
 * every leading and trailing character whose code is at most U+0020).
 */
module Text {

  /** A character that `String.trim` removes from either end. */
  predicate IsTrimmable(c: char) {
    c <= ' '
  }

  /** Drops trailing trimmable characters. */
  function TrimEnd(s: string): (r: string)
    ensures |r| <= |s| && r == s[..|r|]
    ensures r == [] || !IsTrimmable(r[|r| - 1])
    ensures forall i :: |r| <= i < |s| ==> IsTrimmable(s[i])
  {
    if |s| > 0 && IsTrimmable(s[|s| - 1]) then TrimEnd(s[..|s| - 1]) else s
  }

  /** Drops leading trimmable characters. */
  function TrimStart(s: string): (r: string)
    ensures |r| <= |s| && r == s[|s| - |r|..]
    ensures r == [] || !IsTrimmable(r[0])
    ensures forall i :: 0 <= i < |s| - |r| ==> IsTrimmable(s[i])
  {
    if |s| > 0 && IsTrimmable(s[0]) then TrimStart(s[1..]) else s
  }

  /**
   * `String.trim`: the part of `s` left after dropping trimmable characters
   * from both ends; it is empty or starts and ends with a kept character.
   */
  function Trim(s: string): (r: string)
    ensures |r| <= |s|
    ensures r == [] || (!IsTrimmable(r[0]) && !IsTrimmable(r[|r| - 1]))
  {
    TrimStart(TrimEnd(s))
  }

  /** What `trim` keeps is one slice of the input, with only trimmable characters around it. */
  lemma TrimIsSlice(s: string)
    ensures exists i :: KeptBetween(s, Trim(s), i)
  {
    var e := TrimEnd(s);
    var r := Trim(s);
    var i := |e| - |r|;
    assert r == TrimStart(e);
    assert r == s[i..i + |r|] by {
      assert e == s[..|e|] && r == e[i..];
    }
    assert forall j :: 0 <= j < i ==> IsTrimmable(s[j]) by {
      forall j | 0 <= j < i ensures IsTrimmable(s[j]) {
        assert s[j] == e[j];
      }
    }
    assert KeptBetween(s, r, i);
  }

  /** `r` is `s[i..i + |r|]` and everything of `s` outside it is trimmable. */
  predicate KeptBetween(s: string, r: string, i: nat) {
    && i + |r| <= |s| && r == s[i..i + |r|]
    && (forall j :: 0 <= j < i ==> IsTrimmable(s[j]))
    && (forall j :: i + |r| <= j < |s| ==> IsTrimmable(s[j]))
  }

  /** `name.trim().isEmpty()` holds exactly when every character of `name` is trimmable. */
  lemma TrimEmptyIffBlank(s: string)
    ensures Trim(s) == [] <==> forall i :: 0 <= i < |s| ==> IsTrimmable(s[i])
  {
    var e := TrimEnd(s);
    if Trim(s) == [] {
      forall i | 0 <= i < |s| ensures IsTrimmable(s[i]) {
        if i < |e| {
          assert s[i] == e[i];
        }
      }
    } else {
      var k := |e| - |Trim(s)|;
      assert e[k] == s[k] && !IsTrimmable(s[k]);
    }
  }

  /** A trailing trimmable character does not change the trim. */
  lemma TrimDropsLast(s: string)
    requires s != [] && IsTrimmable(s[|s| - 1])
    ensures Trim(s) == Trim(s[..|s| - 1])
  {
    assert TrimEnd(s) == TrimEnd(s[..|s| - 1]);
  }

  /** A string with no trimmable character at either end is its own trim. */
  lemma TrimUntrimmedEnds(s: string)
    requires s == [] || (!IsTrimmable(s[0]) && !IsTrimmable(s[|s| - 1]))
    ensures Trim(s) == s
  {
  }

  /** `Character.isLetter`, restricted to ASCII. */
  predicate IsLetter(c: char) {
    'a' <= c <= 'z' || 'A' <= c <= 'Z'
  }

  predicate IsLowerLetter(c: char) {
    'a' <= c <= 'z'
  }

  /** Lower-casing of one character, restricted to ASCII: `A`..`Z` map to `a`..`z`, everything else is kept. */
  function LowerChar(c: char): (r: char)
    ensures IsLetter(c) <==> IsLetter(r)
    ensures IsLetter(c) ==> IsLowerLetter(r) && (r as int - c as int) % 32 == 0
    ensures !('A' <= c <= 'Z') ==> r == c
  {
    if 'A' <= c <= 'Z' then (c as int + 32) as char else c
  }

  /**
   * `String.toLowerCase`, restricted to ASCII. On ASCII input the mapping
   * goes character by character, so the length is kept; Java's full Unicode
   * and locale-dependent mapping can change the length and map `I`
   * differently.
   */
  function Lower(s: string): (r: string)
    ensures |r| == |s|
    ensures forall i :: 0 <= i < |s| ==> r[i] == LowerChar(s[i])
  {
    seq(|s|, i requires 0 <= i < |s| => LowerChar(s[i]))
  }
}
