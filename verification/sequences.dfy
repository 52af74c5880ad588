/** Small facts about sequences, kept apart so that proving them does not
    drag the rest of a proof's context along. */
module Sequences {

  /** A non-empty sequence is its head followed by its tail. */
  lemma HeadTail<T>(s: seq<T>)
    requires |s| >= 1
    ensures [s[0]] + s[1..] == s
  {
  }

  /** Re-associating a sequence split at its head. */
  lemma HeadTailAppend<T>(x: seq<T>, y: seq<T>)
    requires |x| >= 1
    ensures [x[0]] + (x[1..] + y) == x + y
  {
    assert x == [x[0]] + x[1..];
  }

  lemma AppendAssoc<T>(a: seq<T>, b: seq<T>, c: seq<T>)
    ensures (a + b) + c == a + (b + c)
  {
  }
}
