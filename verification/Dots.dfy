/** The searches for a '.' in a string that tokens and configuration paths are taken apart with. */
module Dots {
  import opened Klines

  /** `find('.')` */
  function FirstDot(s: string): (p: Option<nat>)
    ensures p.None? ==> '.' !in s
    ensures p.Some? ==> p.value < |s| && s[p.value] == '.' && forall k | 0 <= k < p.value :: s[k] != '.'
  {
    if s == [] then None
    else if s[0] == '.' then Some(0)
    else
      match FirstDot(s[1..])
      case None => None
      case Some(k) =>
        assert forall m | 0 < m < k + 1 :: s[m] == s[1..][m - 1];
        Some(k + 1)
  }

  /** `rfind('.')` */
  function LastDot(s: string): (p: Option<nat>)
    ensures p.None? ==> '.' !in s
    ensures p.Some? ==> p.value < |s| && s[p.value] == '.' && forall k | p.value < k < |s| :: s[k] != '.'
  {
    if s == [] then None
    else if s[|s| - 1] == '.' then Some(|s| - 1)
    else LastDot(s[..|s| - 1])
  }
}
