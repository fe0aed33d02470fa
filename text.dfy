/** Option type used for the results of the line scans. */
module Wrappers {
  datatype Option<+T> = None | Some(value: T)
}

/**
 * Whitespace trimming as Python's str.rstrip() and str.strip() do it with no
 * argument, over a fixed set of whitespace characters.
 */
module Text {

  /** Space, tab, line feed, carriage return, vertical tab and form feed. */
  predicate IsSpace(c: char) {
    c == ' ' || c == '\t' || c == '\n' || c == '\r' || c == '\U{B}' || c == '\U{C}'
  }

  predicate AllSpace(s: string) {
    forall i :: 0 <= i < |s| ==> IsSpace(s[i])
  }

  /** str.rstrip(): drops whitespace from the end. */
  function RStrip(s: string): string
    decreases |s|
  {
    if |s| > 0 && IsSpace(s[|s| - 1]) then RStrip(s[..|s| - 1]) else s
  }

  /** str.lstrip(): drops whitespace from the start. */
  function LStrip(s: string): string
    decreases |s|
  {
    if |s| > 0 && IsSpace(s[0]) then LStrip(s[1..]) else s
  }

  /** str.strip(): drops whitespace from both ends. */
  function Strip(s: string): string {
    LStrip(RStrip(s))
  }

  /**
   * RStrip(s) is a prefix of s that does not end in whitespace, and all it
   * cuts off is whitespace.
   */
  lemma {:induction false} RStripSpec(s: string)
    ensures RStrip(s) <= s
    ensures RStrip(s) == [] || !IsSpace(RStrip(s)[|RStrip(s)| - 1])
    ensures AllSpace(s[|RStrip(s)|..])
    decreases |s|
  {
    if |s| > 0 && IsSpace(s[|s| - 1]) {
      var init := s[..|s| - 1];
      RStripSpec(init);
      var r := RStrip(init);
      assert r <= s;
      forall k | |r| <= k < |s| ensures IsSpace(s[k]) {
        if k < |init| {
          assert s[k] == init[|r|..][k - |r|];
        }
      }
    }
  }

  /**
   * LStrip(s) is a suffix of s that does not start with whitespace, and all
   * it cuts off is whitespace.
   */
  lemma {:induction false} LStripSpec(s: string)
    ensures |LStrip(s)| <= |s| && LStrip(s) == s[|s| - |LStrip(s)|..]
    ensures LStrip(s) == [] || !IsSpace(LStrip(s)[0])
    ensures AllSpace(s[..|s| - |LStrip(s)|])
    decreases |s|
  {
    if |s| > 0 && IsSpace(s[0]) {
      LStripSpec(s[1..]);
      var r := LStrip(s[1..]);
      assert s[..|s| - |r|] == [s[0]] + s[1..][..|s[1..]| - |r|];
    }
  }

  /**
   * Strip(s) is the slice of s between two all-whitespace ends, neither
   * starts nor ends with whitespace, and is empty exactly when s is all
   * whitespace.
   */
  lemma StripSpec(s: string)
    ensures Strip(s) == [] <==> AllSpace(s)
    ensures Strip(s) == [] || (!IsSpace(Strip(s)[0]) && !IsSpace(Strip(s)[|Strip(s)| - 1]))
    ensures exists i :: 0 <= i <= |s| - |Strip(s)| && Strip(s) == s[i..i + |Strip(s)|]
                        && AllSpace(s[..i]) && AllSpace(s[i + |Strip(s)|..])
  {
    var t := RStrip(s);
    var r := LStrip(t);
    RStripSpec(s);
    LStripSpec(t);
    StripSlice(s, t, r);
    StripEmpty(s, t, r);
    var i := |t| - |r|;
    assert r == s[i..i + |r|];
    if r != [] {
      assert r[|r| - 1] == t[|t| - 1];
    }
  }

  /** The strip of s lies in s between two all-whitespace ends. */
  lemma StripSlice(s: string, t: string, r: string)
    requires t <= s && AllSpace(s[|t|..])
    requires |r| <= |t| && r == t[|t| - |r|..] && AllSpace(t[..|t| - |r|])
    ensures 0 <= |t| - |r| <= |s| - |r| && r == s[|t| - |r|..|t|]
    ensures AllSpace(s[..|t| - |r|]) && AllSpace(s[|t|..])
  {
    var i := |t| - |r|;
    assert s[..i] == t[..i];
  }

  /** The strip of s is empty exactly when s is all whitespace. */
  lemma StripEmpty(s: string, t: string, r: string)
    requires t <= s && (t == [] || !IsSpace(t[|t| - 1])) && AllSpace(s[|t|..])
    requires |r| <= |t| && r == t[|t| - |r|..] && (r == [] || !IsSpace(r[0])) && AllSpace(t[..|t| - |r|])
    ensures r == [] <==> AllSpace(s)
  {
    var i := |t| - |r|;
    assert t == s[..|t|];
    if r != [] {
      assert s[i] == r[0];
    }
  }

  /** RStrip(s) is the only prefix of s that has no trailing whitespace and leaves only whitespace behind. */
  lemma RStripUnique(s: string, p: string)
    requires p <= s && (p == [] || !IsSpace(p[|p| - 1])) && AllSpace(s[|p|..])
    ensures RStrip(s) == p
  {
    RStripSpec(s);
    TrimmedPrefixUnique(s, RStrip(s), p);
  }

  lemma TrimmedPrefixUnique(s: string, p: string, q: string)
    requires p <= s && (p == [] || !IsSpace(p[|p| - 1])) && AllSpace(s[|p|..])
    requires q <= s && (q == [] || !IsSpace(q[|q| - 1])) && AllSpace(s[|q|..])
    ensures p == q
  {
    assert p == s[..|p|] && q == s[..|q|];
  }

  /** LStrip(s) is the only suffix of s that has no leading whitespace and leaves only whitespace before it. */
  lemma LStripUnique(s: string, p: string)
    requires |p| <= |s| && p == s[|s| - |p|..] && (p == [] || !IsSpace(p[0])) && AllSpace(s[..|s| - |p|])
    ensures LStrip(s) == p
  {
    LStripSpec(s);
    TrimmedSuffixUnique(s, LStrip(s), p);
  }

  lemma TrimmedSuffixUnique(s: string, p: string, q: string)
    requires |p| <= |s| && p == s[|s| - |p|..] && (p == [] || !IsSpace(p[0])) && AllSpace(s[..|s| - |p|])
    requires |q| <= |s| && q == s[|s| - |q|..] && (q == [] || !IsSpace(q[0])) && AllSpace(s[..|s| - |q|])
    ensures p == q
  {
  }

  /** Stripping a text laid out as whitespace, a trimmed core and whitespace yields the core. */
  lemma StripUnique(a: string, r: string, b: string)
    requires AllSpace(a) && AllSpace(b)
    requires r == [] || (!IsSpace(r[0]) && !IsSpace(r[|r| - 1]))
    ensures Strip(a + r + b) == r
  {
    var s := a + r + b;
    if r == [] {
      StripSpec(s);
      assert AllSpace(s) by {
        forall k | 0 <= k < |s| ensures IsSpace(s[k]) {
          if k < |a| { assert s[k] == a[k]; } else { assert s[k] == b[k - |a|]; }
        }
      }
    } else {
      assert s[|a + r|..] == b;
      RStripUnique(s, a + r);
      assert (a + r)[..|a|] == a;
      LStripUnique(a + r, r);
    }
  }

  lemma RStripIdempotent(s: string)
    ensures RStrip(RStrip(s)) == RStrip(s)
  {
    RStripSpec(s);
    var r := RStrip(s);
    assert r[|r|..] == [];
    RStripUnique(r, r);
  }
}
