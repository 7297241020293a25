/**
 * The string operations the record reader relies on: Python's `str.strip()`
 * (with no argument) and `str.split(sep)` with an explicit, non-empty separator,
 * together with the `join` that undoes a split.
 */
module Text {

  /** Python's `str.isspace()` for one code point. */
  predicate IsSpace(c: char) {
    || ('\t' <= c <= '\r')
    || ('\U{1C}' <= c <= '\U{1F}')
    || c == ' '
    || c == '\U{85}'
    || c == '\U{A0}'
    || c == '\U{1680}'
    || ('\U{2000}' <= c <= '\U{200A}')
    || c == '\U{2028}'
    || c == '\U{2029}'
    || c == '\U{202F}'
    || c == '\U{205F}'
    || c == '\U{3000}'
  }

  /** The index of the first non-whitespace character of `s` at or after `i`, or `|s|`. */
  function SkipSpaces(s: string, i: nat): (k: nat)
    requires i <= |s|
    ensures i <= k <= |s|
    ensures forall m :: i <= m < k ==> IsSpace(s[m])
    ensures k < |s| ==> !IsSpace(s[k])
    decreases |s| - i
  {
    if i < |s| && IsSpace(s[i]) then SkipSpaces(s, i + 1) else i
  }

  /**
   * Walking down from `j`, but not below `lo`: the end of the last
   * non-whitespace character, or `lo`.
   */
  function SkipSpacesBack(s: string, j: nat, lo: nat): (k: nat)
    requires lo <= j <= |s|
    ensures lo <= k <= j
    ensures forall m :: k <= m < j ==> IsSpace(s[m])
    ensures k > lo ==> !IsSpace(s[k - 1])
    decreases j
  {
    if j > lo && IsSpace(s[j - 1]) then SkipSpacesBack(s, j - 1, lo) else j
  }

  /**
   * Python's `str.strip()`: the characters of `s` between its leading and
   * its trailing whitespace.
   */
  function Strip(s: string): string
  {
    var i := SkipSpaces(s, 0);
    s[i..SkipSpacesBack(s, |s|, i)]
  }

  /**
   * `Strip(s)` is the slice `s[i..j]` where everything before `i` and from
   * `j` on is whitespace, and the slice neither starts nor ends with
   * whitespace.
   */
  lemma StripMeaning(s: string)
    ensures exists i, j :: 0 <= i <= j <= |s| && Strip(s) == s[i..j]
                        && (forall m :: 0 <= m < i ==> IsSpace(s[m]))
                        && (forall m :: j <= m < |s| ==> IsSpace(s[m]))
    ensures var r := Strip(s); r == [] || (!IsSpace(r[0]) && !IsSpace(r[|r| - 1]))
  {
    var i := SkipSpaces(s, 0);
    var j := SkipSpacesBack(s, |s|, i);
    assert Strip(s) == s[i..j];
    if i < j {
      assert Strip(s)[0] == s[i];
      assert Strip(s)[j - i - 1] == s[j - 1];
    }
  }

  /** `sep` occurs in `t` starting at position `i`. */
  predicate OccursAt(t: string, sep: string, i: nat) {
    i + |sep| <= |t| && t[i..i + |sep|] == sep
  }

  /** `sep in t`: `sep` occurs somewhere in `t`. */
  ghost predicate Contains(t: string, sep: string) {
    exists i: nat :: OccursAt(t, sep, i)
  }

  /**
   * Python's `s.split(sep)` for a non-empty `sep`: the pieces between the
   * leftmost non-overlapping occurrences of `sep`. There is always at least
   * one piece, and the first one is a prefix of `s`.
   */
  function Split(s: string, sep: string): (r: seq<string>)
    requires sep != []
    ensures |r| >= 1
    ensures r[0] <= s
    decreases |s|
  {
    if |s| < |sep| then [s]
    else if s[..|sep|] == sep then [""] + Split(s[|sep|..], sep)
    else
      var rest := Split(s[1..], sep);
      [[s[0]] + rest[0]] + rest[1..]
  }

  /** Python's `sep.join(parts)` for a non-empty list of parts. */
  function Join(parts: seq<string>, sep: string): string
    requires |parts| >= 1
  {
    if |parts| == 1 then parts[0] else parts[0] + sep + Join(parts[1..], sep)
  }

  lemma JoinCons(c: char, parts: seq<string>, sep: string)
    requires |parts| >= 1
    ensures Join([[c] + parts[0]] + parts[1..], sep) == [c] + Join(parts, sep)
  {
  }

  /** Joining the pieces of a split with the same separator gives back the string. */
  lemma {:induction false} SplitJoin(s: string, sep: string)
    requires sep != []
    ensures Join(Split(s, sep), sep) == s
    decreases |s|
  {
    if |s| < |sep| {
    } else if s[..|sep|] == sep {
      var rest := Split(s[|sep|..], sep);
      SplitJoin(s[|sep|..], sep);
      assert ([""] + rest)[1..] == rest;
      assert s == sep + s[|sep|..];
    } else {
      var rest := Split(s[1..], sep);
      SplitJoin(s[1..], sep);
      JoinCons(s[0], rest, sep);
      assert s == [s[0]] + s[1..];
    }
  }

  /** No piece of a split contains the separator. */
  lemma {:induction false} SplitPiecesFree(s: string, sep: string)
    requires sep != []
    ensures forall k :: 0 <= k < |Split(s, sep)| ==> !Contains(Split(s, sep)[k], sep)
    decreases |s|
  {
    var r := Split(s, sep);
    if |s| < |sep| {
      forall i: nat ensures !OccursAt(s, sep, i) {}
    } else if s[..|sep|] == sep {
      SplitPiecesFree(s[|sep|..], sep);
      var rest := Split(s[|sep|..], sep);
      assert r == [""] + rest;
      forall k | 0 <= k < |r| ensures !Contains(r[k], sep) {
        if k == 0 {
          forall i: nat ensures !OccursAt(r[0], sep, i) {}
        } else {
          assert r[k] == rest[k - 1];
        }
      }
    } else {
      SplitPiecesFree(s[1..], sep);
      var rest := Split(s[1..], sep);
      var head := [s[0]] + rest[0];
      assert r == [head] + rest[1..];
      assert head <= s;
      forall i: nat ensures !OccursAt(head, sep, i) {
        if i == 0 {
          if |sep| <= |head| {
            assert s[..|sep|] == head[..|sep|];
          }
        } else if i + |sep| <= |head| {
          assert head[i..i + |sep|] == rest[0][i - 1..i - 1 + |sep|];
          assert !OccursAt(rest[0], sep, i - 1);
        }
      }
      forall k | 0 <= k < |r| ensures !Contains(r[k], sep) {
        if k > 0 {
          assert r[k] == rest[k];
        }
      }
    }
  }
}
