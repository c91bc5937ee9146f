/**
 * The two pieces of Python string handling the scraper relies on: the substring
 * test `pat in s` and `s.split(sep)`.
 */
module Text {

  /** `pat` occurs in `s` starting at offset `i`. */
  predicate OccursAt(s: string, pat: string, i: nat) {
    i + |pat| <= |s| && s[i..i + |pat|] == pat
  }

  /** Python's `pat in s`: scans the offsets of `s` from the left. */
  function Contains(s: string, pat: string): bool
    decreases |s|
  {
    if |s| < |pat| then false
    else if s[..|pat|] == pat then true
    else Contains(s[1..], pat)
  }

  /** The scan finds `pat` exactly when `pat` occurs somewhere in `s`. */
  lemma {:induction false} ContainsIffOccurs(s: string, pat: string)
    ensures Contains(s, pat) <==> exists i: nat :: OccursAt(s, pat, i)
    decreases |s|
  {
    if |s| < |pat| {
    } else if s[..|pat|] == pat {
      assert OccursAt(s, pat, 0);
    } else {
      ContainsIffOccurs(s[1..], pat);
      if Contains(s[1..], pat) {
        var j: nat :| OccursAt(s[1..], pat, j);
        assert s[1..][j..j + |pat|] == s[j + 1..j + 1 + |pat|];
        assert OccursAt(s, pat, j + 1);
      }
      if exists i: nat :: OccursAt(s, pat, i) {
        var i: nat :| OccursAt(s, pat, i);
        assert i != 0 by {
          assert s[..|pat|] == s[0..|pat|];
        }
        assert s[1..][i - 1..i - 1 + |pat|] == s[i..i + |pat|];
        assert OccursAt(s[1..], pat, i - 1);
      }
    }
  }

  /**
   * Python's `s.split(sep)`: the pieces of `s` between occurrences of `sep`, in order;
   * there is always at least one. Defined by peeling off the last character.
   */
  function Split(s: string, sep: char): (parts: seq<string>)
    ensures |parts| >= 1
    ensures forall k :: 0 <= k < |parts| ==> sep !in parts[k]
    decreases |s|
  {
    if s == [] then [[]]
    else
      var init := Split(s[..|s| - 1], sep);
      var c := s[|s| - 1];
      if c == sep then init + [[]]
      else init[..|init| - 1] + [init[|init| - 1] + [c]]
  }

  /** Python's `sep.join(parts)`. */
  function Join(parts: seq<string>, sep: char): string
    decreases |parts|
  {
    if parts == [] then []
    else if |parts| == 1 then parts[0]
    else Join(parts[..|parts| - 1], sep) + [sep] + parts[|parts| - 1]
  }

  /** Joining after a new empty last piece adds a separator. */
  lemma JoinNewPiece(parts: seq<string>, sep: char)
    requires |parts| >= 1
    ensures Join(parts + [[]], sep) == Join(parts, sep) + [sep]
  {
  }

  /** Joining after extending the last piece by `c` extends the joined text by `c`. */
  lemma JoinExtendLast(parts: seq<string>, c: char, sep: char)
    requires |parts| >= 1
    ensures Join(parts[..|parts| - 1] + [parts[|parts| - 1] + [c]], sep) == Join(parts, sep) + [c]
  {
  }

  /** Splitting loses nothing: joining the pieces back with `sep` gives `s`. */
  lemma {:induction false} JoinSplit(s: string, sep: char)
    ensures Join(Split(s, sep), sep) == s
    decreases |s|
  {
    if s != [] {
      var front := s[..|s| - 1];
      var c := s[|s| - 1];
      var init := Split(front, sep);
      JoinSplit(front, sep);
      assert s == front + [c];
      if c == sep {
        assert Split(s, sep) == init + [[]];
        JoinNewPiece(init, sep);
      } else {
        assert Split(s, sep) == init[..|init| - 1] + [init[|init| - 1] + [c]];
        JoinExtendLast(init, c, sep);
      }
    }
  }

  /**
   * The text after the last `sep` of `s` (all of `s` when it has none): a suffix of `s`
   * without `sep` that is either all of `s` or preceded by `sep`.
   */
  function AfterLast(s: string, sep: char): (t: string)
    ensures sep !in t
    ensures |t| <= |s| && t == s[|s| - |t|..]
    ensures |t| < |s| ==> s[|s| - |t| - 1] == sep
    decreases |s|
  {
    if s == [] then []
    else if s[|s| - 1] == sep then []
    else
      var front := s[..|s| - 1];
      var prev := AfterLast(front, sep);
      var j := |front| - |prev|;
      assert s == front + [s[|s| - 1]];
      assert s[j..] == front[j..] + [s[|s| - 1]];
      assert j > 0 ==> s[j - 1] == front[j - 1];
      prev + [s[|s| - 1]]
  }

  /** The last piece of `s.split(sep)` is the text after the last `sep` of `s`. */
  lemma {:induction false} LastPiece(s: string, sep: char)
    ensures Split(s, sep)[|Split(s, sep)| - 1] == AfterLast(s, sep)
    decreases |s|
  {
    if s != [] {
      LastPiece(s[..|s| - 1], sep);
    }
  }
}
