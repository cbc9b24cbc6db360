/** Small shared vocabulary: an optional value and Python's `"".join(parts)`. */
module Common {

  /** Python's `None` or a present value. */
  datatype Option<T> = None | Some(value: T)

  /** `"".join(parts)`: the parts laid end to end. */
  function Concat(parts: seq<string>): (r: string)
    ensures forall i :: 0 <= i < |parts| ==> |parts[i]| <= |r|
    ensures (forall i :: 0 <= i < |parts| ==> parts[i] == "") ==> r == ""
  {
    if parts == [] then [] else Concat(parts[..|parts| - 1]) + parts[|parts| - 1]
  }

  /** Joining distributes over list concatenation. */
  lemma {:induction false} ConcatAppend(a: seq<string>, b: seq<string>)
    ensures Concat(a + b) == Concat(a) + Concat(b)
    decreases |b|
  {
    if b == [] {
      assert a + b == a;
    } else {
      var b' := b[..|b| - 1];
      assert (a + b)[..|a + b| - 1] == a + b';
      assert (a + b)[|a + b| - 1] == b[|b| - 1];
      ConcatAppend(a, b');
      calc {
        Concat(a + b);
        Concat(a + b') + b[|b| - 1];
        Concat(a) + Concat(b') + b[|b| - 1];
        Concat(a) + Concat(b);
      }
    }
  }

  /** Joining one-character parts yields one character per part, in order. */
  lemma {:induction false} ConcatOfSingletons(parts: seq<string>)
    requires forall i :: 0 <= i < |parts| ==> |parts[i]| == 1
    ensures |Concat(parts)| == |parts|
    ensures forall i :: 0 <= i < |parts| ==> Concat(parts)[i] == parts[i][0]
  {
    if parts != [] {
      ConcatOfSingletons(parts[..|parts| - 1]);
    }
  }
}
