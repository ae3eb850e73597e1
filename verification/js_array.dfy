/** The two JavaScript array accesses the snippet loader uses: `Array.prototype.slice`
    with its relative-index rules, and reading an element into a template
    literal, where a missing element prints as `undefined`. */
module JsArray {

  /** How `slice` turns an argument into a position in `[0, len]`: a negative
      index counts back from the end, and both ends are clamped. */
  function Clamp(k: int, len: nat): (r: nat)
    ensures r <= len
    ensures 0 <= k <= len ==> r == k
    ensures k > len ==> r == len
    ensures k < 0 && 0 <= len + k ==> r == len + k
    ensures len + k < 0 ==> r == 0
  {
    if k < 0 then (if len + k < 0 then 0 else len + k)
    else if k < len then k
    else len
  }

  /** `s.slice(start, end)`: the elements from the clamped start up to (not
      including) the clamped end, or nothing when the range is empty. */
  function Slice<T>(s: seq<T>, start: int, end: int): (r: seq<T>)
    ensures |r| == if Clamp(start, |s|) < Clamp(end, |s|) then Clamp(end, |s|) - Clamp(start, |s|) else 0
    ensures forall i :: 0 <= i < |r| ==> r[i] == s[Clamp(start, |s|) + i]
  {
    var a := Clamp(start, |s|);
    var b := Clamp(end, |s|);
    if a < b then s[a..b] else []
  }

  /** For non-negative bounds, `slice` is the ordinary subsequence cut at the
      end of the array. */
  lemma SliceNonNegative<T>(s: seq<T>, start: nat, end: nat)
    ensures start < end && start < |s| ==>
      Slice(s, start, end) == s[start..if end < |s| then end else |s|]
    ensures end <= start || |s| <= start ==> Slice(s, start, end) == []
  {
  }

  /** `s[i]` interpolated into a template literal. */
  function ElementText(s: seq<string>, i: nat): (t: string)
    ensures i < |s| ==> t == s[i]
    ensures i >= |s| ==> t == "undefined"
  {
    if i < |s| then s[i] else "undefined"
  }
}
