/** The few Python `str` operations the pipeline relies on. */
module PyStr {

  /** `s.endswith(suffix)`. */
  predicate EndsWith(s: string, suffix: string) {
    |suffix| <= |s| && s[|s| - |suffix|..] == suffix
  }

  /** Index `k` holds the last occurrence of `c` in `s`. */
  predicate IsLast(s: string, c: char, k: int) {
    0 <= k < |s| && s[k] == c && forall j :: k < j < |s| ==> s[j] != c
  }

  /** `s.rfind(c, 0, end)` for a one-character needle: the highest index
      below `end` holding `c`, or -1 when there is none. */
  function RFindBefore(s: string, c: char, end: nat): (r: int)
    requires end <= |s|
    ensures -1 <= r < end
    ensures 0 <= r ==> s[r] == c
    ensures forall j :: r < j < end ==> s[j] != c
    decreases end
  {
    if end == 0 then -1
    else if s[end - 1] == c then end - 1
    else RFindBefore(s, c, end - 1)
  }

  /** `s.rfind(c)`. */
  function RFind(s: string, c: char): (r: int)
    ensures -1 <= r < |s|
    ensures r == -1 <==> c !in s
    ensures 0 <= r ==> IsLast(s, c, r)
  {
    RFindBefore(s, c, |s|)
  }

  /** The last occurrence is the one `rfind` finds. */
  lemma RFindUnique(s: string, c: char, k: int)
    requires IsLast(s, c, k)
    ensures RFind(s, c) == k
  {
  }

  /** `s.rsplit(c, 1)[0]`: everything before the last `c`, or all of `s`
      when `c` does not occur. */
  function RSplitHead(s: string, c: char): (head: string)
    ensures c !in s ==> head == s
    ensures forall k :: IsLast(s, c, k) ==> head == s[..k]
  {
    var i := RFind(s, c);
    if i < 0 then s else s[..i]
  }
}
