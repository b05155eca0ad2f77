/** The option type the modules share. */
module Options {
  datatype Option<+T> = None | Some(value: T)

  /** xs before the sequence o holds, if it holds one. */
  function Prepend<T>(xs: seq<T>, o: Option<seq<T>>): Option<seq<T>> {
    if o.None? then None else Some(xs + o.value)
  }

  lemma PrependTwice<T>(xs: seq<T>, ys: seq<T>, o: Option<seq<T>>)
    ensures Prepend(xs, Prepend(ys, o)) == Prepend(xs + ys, o)
    ensures Prepend([], o) == o
  {
    if o.Some? {
      assert xs + (ys + o.value) == xs + ys + o.value;
      assert [] + o.value == o.value;
    }
  }
}
