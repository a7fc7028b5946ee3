/**
 The few Python string operations the meter code relies on: `str.strip()`,
 `str.startswith` and slicing `s[lo:hi]` with non-negative bounds, plus the
 whitespace `float()` skips around a number. The serial link is configured
 for seven data bits, so only ASCII whitespace is considered.
 */
module Text {

  /** What `str.strip()` removes from ASCII text (`str.isspace`): space, TAB..CR and the separators 0x1C..0x1F. */
  const StrSpaces: set<char> := {' ', '\t', '\n', '\U{0B}', '\U{0C}', '\r', '\U{1C}', '\U{1D}', '\U{1E}', '\U{1F}'}

  /** What `float()` skips around a number in ASCII text: space and TAB..CR only. */
  const FloatSpaces: set<char> := {' ', '\t', '\n', '\U{0B}', '\U{0C}', '\r'}

  /** Number of characters of `ws` at the front of `s`. */
  function LeadingSpaces(s: string, ws: set<char>): (n: nat)
    ensures n <= |s|
    ensures forall i :: 0 <= i < n ==> s[i] in ws
    ensures n < |s| ==> s[n] !in ws
    decreases |s|
  {
    if |s| == 0 || s[0] !in ws then 0 else 1 + LeadingSpaces(s[1..], ws)
  }

  /** Number of characters of `ws` at the back of `s`. */
  function TrailingSpaces(s: string, ws: set<char>): (n: nat)
    ensures n <= |s|
    ensures forall i :: |s| - n <= i < |s| ==> s[i] in ws
    ensures n < |s| ==> s[|s| - n - 1] !in ws
    decreases |s|
  {
    if |s| == 0 || s[|s| - 1] !in ws then 0 else 1 + TrailingSpaces(s[..|s| - 1], ws)
  }

  /** `s` without the characters of `ws` at either end. */
  function Trim(s: string, ws: set<char>): string {
    var a := LeadingSpaces(s, ws);
    if a == |s| then [] else s[a..|s| - TrailingSpaces(s, ws)]
  }

  /** `str.strip()`. */
  function Strip(s: string): string {
    Trim(s, StrSpaces)
  }

  /**
   What `Trim` keeps: the infix of `s` that neither starts nor ends with a
   character of `ws`, such that everything around it belongs to `ws`.
   */
  lemma {:induction false} TrimSpec(s: string, ws: set<char>)
    ensures |Trim(s, ws)| <= |s|
    ensures LeadingSpaces(s, ws) + |Trim(s, ws)| <= |s|
    ensures Trim(s, ws) == s[LeadingSpaces(s, ws)..LeadingSpaces(s, ws) + |Trim(s, ws)|]
    ensures forall i :: 0 <= i < |s| && !(LeadingSpaces(s, ws) <= i < LeadingSpaces(s, ws) + |Trim(s, ws)|) ==> s[i] in ws
    ensures |Trim(s, ws)| > 0 ==> Trim(s, ws)[0] !in ws && Trim(s, ws)[|Trim(s, ws)| - 1] !in ws
  {
    var a := LeadingSpaces(s, ws);
    if a < |s| {
      var t := TrailingSpaces(s, ws);
      assert a < |s| - t by {
        assert s[a] !in ws;
      }
      assert Trim(s, ws) == s[a..|s| - t];
    }
  }

  /** `s.startswith(p)`. */
  predicate StartsWith(s: string, p: string) {
    |p| <= |s| && s[..|p|] == p
  }

  /** Python's `s[lo:hi]` for non-negative bounds: both bounds are clamped to `len(s)`. */
  function Slice(s: string, lo: nat, hi: nat): string {
    var a := if lo < |s| then lo else |s|;
    var b := if hi < |s| then hi else |s|;
    if a <= b then s[a..b] else []
  }

  /**
   What a clamped slice holds: the characters of `s` from `lo` on, as many as
   fit below both `hi` and the end of `s`, and nothing when `lo` is past
   either of them.
   */
  lemma {:induction false} SliceSpec(s: string, lo: nat, hi: nat)
    ensures forall k :: 0 <= k < |Slice(s, lo, hi)| ==> lo + k < |s| && Slice(s, lo, hi)[k] == s[lo + k]
    ensures lo <= hi <= |s| ==> |Slice(s, lo, hi)| == hi - lo
    ensures lo <= |s| <= hi ==> |Slice(s, lo, hi)| == |s| - lo
    ensures |s| <= lo || hi <= lo ==> Slice(s, lo, hi) == []
  {
    var a := if lo < |s| then lo else |s|;
    var b := if hi < |s| then hi else |s|;
    if a <= b {
      assert Slice(s, lo, hi) == s[a..b];
    } else {
      assert Slice(s, lo, hi) == [];
    }
  }

  /** A string that neither starts nor ends with a character of `ws` is its own trim. */
  lemma {:induction false} TrimOfTrimmed(s: string, ws: set<char>)
    requires |s| > 0 ==> s[0] !in ws && s[|s| - 1] !in ws
    ensures Trim(s, ws) == s
  {
    if |s| > 0 {
      assert LeadingSpaces(s, ws) == 0;
      assert TrailingSpaces(s, ws) == 0;
    }
  }

  /** Trimming twice is trimming once. */
  lemma {:induction false} TrimIdempotent(s: string, ws: set<char>)
    ensures Trim(Trim(s, ws), ws) == Trim(s, ws)
  {
    TrimSpec(s, ws);
    TrimOfTrimmed(Trim(s, ws), ws);
  }

  /** Trimming removes only characters of `ws`, so it neither adds nor loses any other character. */
  lemma {:induction false} TrimKeeps(s: string, c: char, ws: set<char>)
    requires c !in ws
    ensures c in Trim(s, ws) <==> c in s
  {
    TrimSpec(s, ws);
    var r := Trim(s, ws);
    var a := LeadingSpaces(s, ws);
    if c in s {
      var i :| 0 <= i < |s| && s[i] == c;
      assert a <= i < a + |r|;
      assert r[i - a] == c;
    }
    if c in r {
      var i :| 0 <= i < |r| && r[i] == c;
      assert s[a + i] == c;
    }
  }
}
