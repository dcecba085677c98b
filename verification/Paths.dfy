/** The path functions the stores rely on (Go's path/filepath on a Unix host). */
module Paths {

  /** Everything after the last slash. */
  function LastElement(s: string): (r: string)
    ensures |r| <= |s| && '/' !in r
    ensures r == s <==> '/' !in s
  {
    if s == "" then ""
    else if s[|s| - 1] == '/' then ""
    else
      var t := s[..|s| - 1];
      assert s == t + [s[|s| - 1]];
      LastElement(t) + [s[|s| - 1]]
  }

  function StripTrailing(s: string): (r: string)
    ensures r <= s
    ensures r == "" || r[|r| - 1] != '/'
    ensures s == "" || s[|s| - 1] != '/' ==> r == s
    ensures s != "" && s[|s| - 1] == '/' ==> r != s
  {
    if s != "" && s[|s| - 1] == '/' then StripTrailing(s[..|s| - 1]) else s
  }

  /** filepath.Base */
  function Base(s: string): string {
    if s == "" then "."
    else
      var t := LastElement(StripTrailing(s));
      if t == "" then "/" else t
  }

  /** A name is its own base exactly when it is one component, or the root itself. */
  lemma OwnBaseIff(s: string)
    ensures Base(s) == s <==> s == "/" || (s != "" && '/' !in s)
  {
    if s != "" {
      var t := StripTrailing(s);
      if s[|s| - 1] == '/' {
        assert '/' in s;
        if s == "/" { assert s[..0] == "" && t == ""; }
        else { assert LastElement(t) != s; }
      } else {
        assert t == s;
        assert LastElement(s) == LastElement(s[..|s| - 1]) + [s[|s| - 1]];
      }
    }
  }
}
