/** One list made of another: some items left out, the others in order, one output each. */
module Picking {

  /** The outputs are made of the inputs to keep, all of them, in order; `from` says which is made of which. */
  predicate Picked<A, B>(outputs: seq<B>, inputs: seq<A>, from: seq<nat>, keep: A -> bool, says: (B, A) -> bool) {
    && |from| == |outputs|
    && (forall k | 0 <= k < |from| :: from[k] < |inputs| && says(outputs[k], inputs[from[k]]))
    && (forall j, k | 0 <= j < k < |from| :: from[j] < from[k])
    && (forall i | 0 <= i < |inputs| :: keep(inputs[i]) <==> i in from)
  }

  lemma PickedNext<A, B>(outputs: seq<B>, inputs: seq<A>, from: seq<nat>, keep: A -> bool, says: (B, A) -> bool,
                         a: A, more: seq<B>)
    requires Picked(outputs, inputs, from, keep, says)
    requires if keep(a) then |more| == 1 && says(more[0], a) else more == []
    ensures Picked(outputs + more, inputs + [a], from + if keep(a) then [|inputs|] else [], keep, says)
  {
  }
}
