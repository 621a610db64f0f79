/** The string operations the tracker relies on: substring search, Python's
    `str.lower` as far as ASCII goes, and `str.strip`. */
module Text {

  /** `q` occurs in `s` starting at position k. */
  predicate OccursAt(s: string, q: string, k: nat)
  {
    k <= |s| - |q| && s[k..k + |q|] == q
  }

  /** `q` is a substring of `s` (Python's `q in s`). */
  ghost predicate Contains(s: string, q: string)
  {
    exists k: nat :: OccursAt(s, q, k)
  }

  /** `s.startswith(q)`, compared character by character. */
  function StartsWith(s: string, q: string): bool
  {
    if q == [] then true
    else if s == [] then false
    else s[0] == q[0] && StartsWith(s[1..], q[1..])
  }

  /** The prefix test answers yes exactly when `q` occurs at position 0. */
  lemma {:induction false} StartsWithSpec(s: string, q: string)
    ensures StartsWith(s, q) <==> OccursAt(s, q, 0)
  {
    if q != [] && s != [] {
      StartsWithSpec(s[1..], q[1..]);
      if |q| <= |s| {
        assert s[..|q|] == [s[0]] + s[1..][..|q| - 1];
        assert q == [q[0]] + q[1..];
      }
    }
  }

  /** Decides `q in s` by trying each start position in turn. */
  function HasInfix(s: string, q: string): bool
  {
    StartsWith(s, q) || (s != [] && HasInfix(s[1..], q))
  }

  /** The search answers yes exactly when `q` occurs somewhere in `s`. */
  lemma {:induction false} HasInfixSpec(s: string, q: string)
    ensures HasInfix(s, q) <==> Contains(s, q)
  {
    StartsWithSpec(s, q);
    if StartsWith(s, q) {
    } else if s == [] {
      assert forall k: nat :: !OccursAt(s, q, k);
    } else {
      HasInfixSpec(s[1..], q);
      assert forall k: nat :: OccursAt(s[1..], q, k) <==> OccursAt(s, q, k + 1) by {
        forall k: nat ensures OccursAt(s[1..], q, k) <==> OccursAt(s, q, k + 1) {
          if k <= |s[1..]| - |q| {
            assert s[1..][k..k + |q|] == s[k + 1..k + 1 + |q|];
          }
        }
      }
      if HasInfix(s, q) {
        var k: nat :| OccursAt(s[1..], q, k);
        assert OccursAt(s, q, k + 1);
      }
      if Contains(s, q) {
        var k: nat :| OccursAt(s, q, k);
        assert k != 0;
        assert OccursAt(s[1..], q, k - 1);
      }
    }
  }

  function LowerChar(c: char): char
  {
    if 'A' <= c <= 'Z' then (c as int + 32) as char else c
  }

  /** `s.lower()` on the ASCII letters; every other character is kept. */
  function AsciiLower(s: string): string
  {
    if s == [] then [] else [LowerChar(s[0])] + AsciiLower(s[1..])
  }

  /** Lower-casing keeps the length and lowers each character in place. */
  lemma {:induction false} AsciiLowerSpec(s: string)
    ensures |AsciiLower(s)| == |s|
    ensures forall i :: 0 <= i < |s| ==> AsciiLower(s)[i] == LowerChar(s[i])
  {
    if s != [] {
      AsciiLowerSpec(s[1..]);
      assert forall i :: 1 <= i < |s| ==> AsciiLower(s)[i] == AsciiLower(s[1..])[i - 1];
    }
  }

  /** The characters Python's `str.isspace` accepts. */
  predicate IsSpace(c: char)
  {
    var n := c as int;
    || 9 <= n <= 13 || 28 <= n <= 32 || n == 0x85 || n == 0xA0 || n == 0x1680
    || 0x2000 <= n <= 0x200A || n == 0x2028 || n == 0x2029 || n == 0x202F || n == 0x205F || n == 0x3000
  }

  predicate AllSpace(s: string)
  {
    forall i :: 0 <= i < |s| ==> IsSpace(s[i])
  }

  /** `r` is `s[i..j]` and everything outside that slice is whitespace. */
  ghost predicate TrimmedSlice(s: string, r: string, i: int, j: int)
  {
    0 <= i <= j <= |s| && r == s[i..j] && AllSpace(s[..i]) && AllSpace(s[j..])
  }

  /** The length of the run of whitespace that `s` starts with. */
  function LeadingSpace(s: string): (n: nat)
    ensures n <= |s| && forall k :: 0 <= k < n ==> IsSpace(s[k])
    ensures n < |s| ==> !IsSpace(s[n])
  {
    if s != [] && IsSpace(s[0]) then
      var m := LeadingSpace(s[1..]);
      m + 1
    else 0
  }

  /** The length of the run of whitespace that `s` ends with. */
  function TrailingSpace(s: string): (n: nat)
    ensures n <= |s| && forall k :: |s| - n <= k < |s| ==> IsSpace(s[k])
    ensures n < |s| ==> !IsSpace(s[|s| - n - 1])
  {
    if s != [] && IsSpace(s[|s| - 1]) then
      var init := s[..|s| - 1];
      var m := TrailingSpace(init);
      m + 1
    else 0
  }

  /** `s.strip()`: `s` without its leading and trailing whitespace. */
  function Strip(s: string): string
  {
    var i := LeadingSpace(s);
    if i == |s| then []
    else
      s[i..|s| - TrailingSpace(s)]
  }

  /** What `strip` leaves: a slice of `s` with only whitespace cut off
      either side, and that neither starts nor ends with whitespace. */
  lemma StripTrims(s: string)
    ensures Strip(s) == [] || (!IsSpace(Strip(s)[0]) && !IsSpace(Strip(s)[|Strip(s)| - 1]))
    ensures exists i, j :: TrimmedSlice(s, Strip(s), i, j)
  {
    var i := LeadingSpace(s);
    if i == |s| {
      assert s[..i] == s;
      assert TrimmedSlice(s, Strip(s), i, i);
    } else {
      var j := |s| - TrailingSpace(s);
      assert TrimmedSlice(s, Strip(s), i, j);
    }
  }

  /** Stripping twice strips nothing more. */
  lemma StripIdempotent(s: string)
    ensures Strip(Strip(s)) == Strip(s)
  {
    StripTrims(s);
    var r := Strip(s);
    if r != [] {
      assert LeadingSpace(r) == 0;
      assert TrailingSpace(r) == 0;
      assert r[0..|r|] == r;
    }
  }

  /** A cell of blanks strips to the empty string. */
  lemma AllSpaceStripsToEmpty(s: string)
    requires AllSpace(s)
    ensures Strip(s) == []
  {
    assert LeadingSpace(s) == |s|;
  }
}
