/** Small facts about strings shared by the parsing parts of the model. */
module Text {
  import opened Wrappers

  /** Index of the first occurrence of `c` in `s`. */
  function FirstIndexOf(s: string, c: char): (r: Option<nat>)
    ensures r.None? <==> c !in s
    ensures r.Some? ==> r.value < |s| && s[r.value] == c && c !in s[..r.value]
  {
    if |s| == 0 then None
    else if s[0] == c then Some(0)
    else
      match FirstIndexOf(s[1..], c)
      case None => None
      case Some(k) =>
        assert s[..k + 1] == [s[0]] + s[1..][..k];
        Some(k + 1)
  }

  /** A position holding `c` with no `c` before it is the one `FirstIndexOf` finds. */
  lemma FirstIndexOfIs(s: string, c: char, k: nat)
    requires k < |s| && s[k] == c && c !in s[..k]
    ensures FirstIndexOf(s, c) == Some(k)
  {
    var r := FirstIndexOf(s, c);
    assert forall m :: 0 <= m < k ==> s[m] == s[..k][m];
  }
}
