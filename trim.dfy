/**
  Trailing-whitespace trimming of received text, written in both revisions of
  the driver as `response.erase(response.find_last_not_of(" \n\r\t") + 1)`.
*/
module Trim {
  import opened CppString

  /** The characters the driver strips from the end of a response. */
  const TRAILING: set<char> := {' ', '\n', '\r', '\t'}

  /** Whether every character of `s` is one of the stripped characters. */
  predicate AllTrailing(s: string) {
    forall i :: 0 <= i < |s| ==> s[i] in TRAILING
  }

  /**
    The trimmed text. When the text is all whitespace, `find_last_not_of`
    yields `npos` and `npos + 1` wraps round to 0, so everything is erased.
  */
  function TrimTrailing(s: string): (r: string)
    requires Fits(s)
    ensures |r| <= |s| && r == s[..|r|]
    ensures r == [] || r[|r| - 1] !in TRAILING
    ensures AllTrailing(s[|r|..])
  {
    Erase(s, SizeT(FindLastNotOf(s, TRAILING) + 1))
  }

  /**
    Trimming has exactly one possible result: the prefix that does not end in
    whitespace and leaves only whitespace behind.
  */
  lemma TrimIsUnique(s: string, p: string)
    requires Fits(s)
    requires |p| <= |s| && p == s[..|p|]
    requires p == [] || p[|p| - 1] !in TRAILING
    requires AllTrailing(s[|p|..])
    ensures p == TrimTrailing(s)
  {
  }

  /** An all-whitespace text trims to the present but empty string (the `npos + 1` wrap). */
  lemma {:induction false} AllTrailingTrimsToEmpty(s: string)
    requires Fits(s) && AllTrailing(s)
    ensures FindLastNotOf(s, TRAILING) == NPOS
    ensures SizeT(FindLastNotOf(s, TRAILING) + 1) == 0
    ensures TrimTrailing(s) == []
  {
  }

  /** Trimming is idempotent. */
  lemma TrimIdempotent(s: string)
    requires Fits(s)
    ensures TrimTrailing(TrimTrailing(s)) == TrimTrailing(s)
  {
    var r := TrimTrailing(s);
    TrimIsUnique(r, r);
  }

  /** Text that does not end in whitespace is left as it is. */
  lemma TrimKeepsCleanText(s: string)
    requires Fits(s)
    requires s == [] || s[|s| - 1] !in TRAILING
    ensures TrimTrailing(s) == s
  {
    TrimIsUnique(s, s);
  }
}
