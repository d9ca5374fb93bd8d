/** Allocation maps as sequences of bits, least significant bit of each byte first. */
module Bitmaps {
  function FirstFree(s: seq<bool>): (f: nat)
    ensures f <= |s| && (f < |s| ==> !s[f])
    ensures forall i :: 0 <= i < f ==> s[i]
  {
    if s == [] || !s[0] then 0 else 1 + FirstFree(s[1..])
  }

  lemma {:induction false} FirstFreeIs(s: seq<bool>, f: nat)
    requires f <= |s| && (f < |s| ==> !s[f])
    requires forall i :: 0 <= i < f ==> s[i]
    ensures FirstFree(s) == f
  {
  }

  /** s with the bits [a, b) set to v. */
  function Stroke(s: seq<bool>, a: int, b: int, v: bool): (t: seq<bool>)
    ensures |t| == |s|
  {
    seq(|s|, i requires 0 <= i < |s| => if a <= i < b then v else s[i])
  }

  /** Allocating n bits from the first free one, as far as the map reaches. */
  function Allocated(s: seq<bool>, n: nat): seq<bool> {
    Stroke(s, FirstFree(s), FirstFree(s) + n, true)
  }

  function Cleared(s: seq<bool>, b: nat, n: nat): seq<bool> {
    Stroke(s, b, b + n, false)
  }

  lemma StrokeEmpty(s: seq<bool>, a: int, v: bool)
    ensures Stroke(s, a, a, v) == s
  {
  }

  lemma StrokeNext(s: seq<bool>, a: int, b: int, v: bool)
    requires a <= b && 0 <= b < |s|
    ensures Stroke(s, a, b + 1, v) == Stroke(s, a, b, v)[b := v]
  {
  }

  lemma StrokeOn(s: seq<bool>, a: int, b: int, c: int, v: bool)
    requires a <= b <= c
    ensures Stroke(Stroke(s, a, b, v), b, c, v) == Stroke(s, a, c, v)
  {
  }

  lemma StrokeBeyond(s: seq<bool>, a: int, b: int, v: bool)
    requires |s| <= b
    ensures Stroke(s, a, b, v) == Stroke(s, a, |s|, v)
  {
  }
}
