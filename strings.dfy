/** The few functions of Go's strings package that the conversion uses. */
module Strings {

  predicate HasPrefix(s: string, prefix: string) {
    |prefix| <= |s| && s[..|prefix|] == prefix
  }

  predicate HasSuffix(s: string, suffix: string) {
    |suffix| <= |s| && s[|s| - |suffix|..] == suffix
  }

  function TrimPrefix(s: string, prefix: string): (r: string)
    ensures HasPrefix(s, prefix) ==> prefix + r == s
    ensures !HasPrefix(s, prefix) ==> r == s
  {
    if HasPrefix(s, prefix) then s[|prefix|..] else s
  }

  /** `strings.Contains`: `sub` occurs somewhere in `s`. */
  predicate Contains(s: string, sub: string)
    decreases |s|
  {
    HasPrefix(s, sub) || (|s| > 0 && Contains(s[1..], sub))
  }

  /** An occurrence of a string starting with `c` cannot begin inside a
      prefix free of `c`. */
  lemma {:induction false} ContainsSkipsPrefix(x: string, t: string, sub: string)
    requires |sub| > 0 && sub[0] !in x
    requires Contains(x + t, sub)
    ensures Contains(t, sub)
    decreases |x|
  {
    if x == [] {
      assert x + t == t;
    } else {
      assert (x + t)[0] == x[0] != sub[0];
      assert !HasPrefix(x + t, sub);
      assert (x + t)[1..] == x[1..] + t;
      ContainsSkipsPrefix(x[1..], t, sub);
    }
  }
}
