/** Shared by the other modules: bytes, options, concatenation, a product's sign. */
module Basics {

  type Byte = x: int | 0 <= x < 256

  datatype Option<T> = None | Some(value: T)

  function Min(a: nat, b: nat): nat {
    if a <= b then a else b
  }

  function Flatten<T>(chunks: seq<seq<T>>): seq<T> {
    if chunks == [] then [] else Flatten(chunks[..|chunks| - 1]) + chunks[|chunks| - 1]
  }

  lemma {:induction false} FlattenNothing<T>()
    ensures Flatten<T>([]) == []
  {
  }

  lemma {:induction false} FlattenOneMore<T>(w: seq<seq<T>>, chunk: seq<T>)
    ensures Flatten(w + [chunk]) == Flatten(w) + chunk
  {
    assert (w + [chunk])[..|w|] == w;
  }

  lemma {:induction false} FlattenFirst<T>(w: seq<seq<T>>)
    requires w != []
    ensures Flatten(w) == w[0] + Flatten(w[1..])
    decreases |w|
  {
    hide Flatten;
    var last := |w| - 1;
    FlattenNothing<T>();
    FlattenOneMore(w[..last], w[last]);
    assert w == w[..last] + [w[last]];
    if last == 0 {
      assert w[..0] == [] && w[1..] == [];
    } else {
      FlattenFirst(w[..last]);
      assert w[1..] == w[..last][1..] + [w[last]];
      FlattenOneMore(w[..last][1..], w[last]);
    }
  }

  lemma {:induction false} Associate<T>(a: seq<T>, b: seq<T>, c: seq<T>)
    ensures a + b + c == a + (b + c)
  {
  }

  lemma {:induction false} ProductNonNegative(a: real, b: real)
    requires 0.0 <= a && 0.0 <= b
    ensures 0.0 <= a * b
  {
  }
}
