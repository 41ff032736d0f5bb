/**
 * Text helpers shared by the colour codec and the number reader: an
 * optional value, and the first occurrence of a character in a string (the
 * occurrence a string-pattern `replace` acts on).
 */
module Text {

  datatype Option<T> = None | Some(value: T)

  /** The position of the first occurrence of `c` in `s`. */
  function IndexOf(s: string, c: char): (i: nat)
    requires c in s
    ensures i < |s| && s[i] == c && c !in s[..i]
  {
    if s[0] == c then 0
    else
      assert c in s[1..] by { var j :| 0 <= j < |s| && s[j] == c; assert s[1..][j - 1] == c; }
      1 + IndexOf(s[1..], c)
  }

  /** The first occurrence is at `k` when `s[k]` is one and nothing before is. */
  lemma IndexOfAt(s: string, c: char, k: nat)
    requires k < |s| && s[k] == c && c !in s[..k]
    ensures c in s && IndexOf(s, c) == k
  {
    assert c in s;
  }
}
