/** Element-wise mapping over sequences, shared by the two parsers. */
module Sequences {
  /** `[f(x) for x in s]`. */
  function MapSeq<A, B>(f: A -> B, s: seq<A>): (r: seq<B>)
    ensures |r| == |s|
  {
    if |s| == 0 then [] else MapSeq(f, s[..|s| - 1]) + [f(s[|s| - 1])]
  }

  /** The mapping keeps order: element `i` of the result is `f` of element
      `i`. */
  lemma {:induction false} MapSeqAt<A, B>(f: A -> B, s: seq<A>, i: int)
    requires 0 <= i < |s|
    ensures MapSeq(f, s)[i] == f(s[i])
  {
    var init := s[..|s| - 1];
    if i < |s| - 1 {
      MapSeqAt(f, init, i);
    }
  }
}
