/**
 The few Ruby values the PigSpec harness handles: `nil`-or-value slots, the
 argument that is either a `Hash` or an object of some other class, and
 `Array#zip`, which pads the shorter side with `nil`.
 */
module RubyCore {

  /** A slot that may hold `nil` (None) or a value. */
  datatype Option<+T> = None | Some(value: T)

  /** String interpolation of a slot: `"#{nil}"` is the empty string. */
  function Show(o: Option<string>): string
  {
    match o
    case None => ""
    case Some(s) => s
  }

  /** `a[i]` on a Ruby array: `nil` past the end. */
  function At<T>(a: seq<T>, i: nat): (r: Option<T>)
    ensures r.Some? <==> i < |a|
  {
    if i < |a| then Some(a[i]) else None
  }

  /** No key occurs twice: the shape of every Ruby `Hash`. */
  predicate KeysDistinct(ps: seq<(string, string)>)
  {
    forall i, j | 0 <= i < j < |ps| :: ps[i].0 != ps[j].0
  }

  /** The entries of a `Hash`, in insertion order, keys and values already stringified. */
  type Pairs = ps: seq<(string, string)> | KeysDistinct(ps) witness []

  /**
   An argument the harness expects to be a `Hash`; anything else is only seen
   through the name of its class (`NilClass`, `Array`, ...).
   */
  datatype Value = Hash(pairs: Pairs) | Other(className: string)

  /**
   `xs.zip(ys)`: one pair per element of the receiver `xs`; the partner is the
   element of `ys` at the same position, or `nil` when `ys` is shorter.
   */
  function Zip<T>(xs: seq<T>, ys: seq<T>): (r: seq<(T, Option<T>)>)
    ensures |r| == |xs|
    ensures forall i | 0 <= i < |r| :: r[i].0 == xs[i] && r[i].1 == At(ys, i)
  {
    if |xs| == 0 then []
    else
      var tail := Zip(xs[1..], if |ys| == 0 then [] else ys[1..]);
      [(xs[0], At(ys, 0))] + tail
  }
}
