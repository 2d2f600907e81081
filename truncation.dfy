/** The two text shorteners of the site: `truncate(text, n)` of `js/main.js`
    (by `substring`) and `trunc(s, n = 160)` of `assets/app.js` (by `slice`).
    Both return '' for a missing or empty text and otherwise cut the text to
    `n` characters followed by an ellipsis when it is longer than `n`. */
module Truncation {
  import opened Wrappers

  const Ellipsis: string := "\U{2026}"

  /** The end index `String.prototype.substring(0, n)` uses: `n` clamped to `[0, len]`. */
  function SubstringEnd(len: nat, n: int): (e: nat)
    ensures e <= len
    ensures 0 <= n <= len ==> e == n
  {
    if n < 0 then 0 else if n > len then len else n
  }

  /** The end index `String.prototype.slice(0, n)` uses: a negative `n` counts
      from the end, and the result is clamped to `[0, len]`. */
  function SliceEnd(len: nat, n: int): (e: nat)
    ensures e <= len
    ensures 0 <= n <= len ==> e == n
    ensures n < 0 <= len + n ==> e == len + n
  {
    if n < 0 then (if len + n < 0 then 0 else len + n)
    else if n > len then len else n
  }

  /** `truncate(text, n)` of `js/main.js`. */
  function Truncate(text: Option<string>, n: int): (r: string)
    ensures text == None || text == Some("") ==> r == ""
    ensures text.Some? && |text.value| <= n ==> r == text.value
    ensures text.Some? && text.value != "" && |text.value| > n ==>
              |r| == (if n < 0 then 0 else n) + 1 && r[|r| - 1] == '\U{2026}' &&
              r[..|r| - 1] <= text.value
  {
    if text == None || text == Some("") then ""
    else if |text.value| > n then text.value[..SubstringEnd(|text.value|, n)] + Ellipsis
    else text.value
  }

  /** `trunc(s, n)` of `assets/app.js`; `None` for `n` is the default 160. */
  function Trunc(s: Option<string>, n: Option<int>): (r: string)
    ensures s == None || s == Some("") ==> r == ""
    ensures s.Some? && |s.value| <= n.GetOr(160) ==> r == s.value
    ensures s.Some? && 0 <= n.GetOr(160) < |s.value| ==>
              |r| == n.GetOr(160) + 1 && r[|r| - 1] == '\U{2026}' && r[..|r| - 1] <= s.value
  {
    var limit := n.GetOr(160);
    if s == None || s == Some("") then ""
    else if |s.value| > limit then s.value[..SliceEnd(|s.value|, limit)] + Ellipsis
    else s.value
  }

  /** Shortening an already shortened text changes nothing. */
  lemma {:induction false} TruncateIdempotent(text: Option<string>, n: nat)
    ensures Truncate(Some(Truncate(text, n)), n) == Truncate(text, n)
  {
    var r := Truncate(text, n);
    if text.Some? && |text.value| > n {
      var t := text.value;
      assert r == t[..n] + Ellipsis;
      assert r[..n] == t[..n];
    }
  }

  /** For a non-negative limit the two shorteners agree. */
  lemma TruncAgreesWithTruncate(s: Option<string>, n: nat)
    ensures Trunc(s, Some(n)) == Truncate(s, n)
  {
  }

  /** With no limit given, `trunc` behaves as `truncate(…, 160)`. */
  lemma TruncDefault(s: Option<string>)
    ensures Trunc(s, None) == Truncate(s, 160)
  {
    TruncAgreesWithTruncate(s, 160);
  }

  /** For a negative limit they differ: `slice` counts from the end while
      `substring` clamps to 0. */
  lemma NegativeLimitDiffers()
    ensures Trunc(Some("abc"), Some(-1)) == "ab" + Ellipsis
    ensures Truncate(Some("abc"), -1) == Ellipsis
  {
    assert "abc"[..2] == "ab";
    assert "abc"[..0] == "";
  }
}
