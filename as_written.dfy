/** The id computation of addTodo exactly as App.js writes it, on JavaScript
    numbers reduced to what matters here: finite integers and the
    `-Infinity` that `Math.max()` returns for no arguments. */
module AsWritten {
  import opened Todos

  datatype JsNumber = NegInfinity | Finite(n: int)

  /** `Math.max(...xs)`: `-Infinity` for no arguments. */
  function JsMax(xs: seq<JsNumber>): (m: JsNumber)
    ensures m == NegInfinity <==> forall i :: 0 <= i < |xs| ==> xs[i] == NegInfinity
    ensures m.Finite? ==> forall i :: 0 <= i < |xs| ==> xs[i].Finite? ==> xs[i].n <= m.n
    ensures m.Finite? ==> exists i :: 0 <= i < |xs| && xs[i] == m
  {
    if xs == [] then NegInfinity
    else
      var rest := JsMax(xs[1..]);
      match (xs[0], rest)
      case (NegInfinity, _) => rest
      case (Finite(a), NegInfinity) => xs[0]
      case (Finite(a), Finite(b)) => if a >= b then xs[0] else rest
  }

  /** `x + 1`: `-Infinity + 1` is still `-Infinity`. */
  function JsPlusOne(x: JsNumber): (y: JsNumber)
    ensures y.Finite? <==> x.Finite?
    ensures x.Finite? ==> y.n == x.n + 1
  {
    match x
    case NegInfinity => NegInfinity
    case Finite(n) => Finite(n + 1)
  }

  /** `Math.max(...todos.map(t => t.id)) + 1` over the current ids. */
  function NextIdAsWritten(ids: seq<JsNumber>): (n: JsNumber)
    ensures (forall i :: 0 <= i < |ids| ==> ids[i] == NegInfinity) ==> n == NegInfinity
    ensures JsMax(ids).Finite? ==> n == Finite(JsMax(ids).n + 1)
  {
    JsPlusOne(JsMax(ids))
  }

  /** Once every item is deleted, two adds in a row give both new items the
      id `-Infinity`: the ids are no longer unique, so toggling or deleting
      one of them acts on both. */
  lemma EmptyListAddsDuplicateIds()
    ensures var first := NextIdAsWritten([]);
            var second := NextIdAsWritten([first]);
            first == second == NegInfinity
  {
  }

  /** The ids of a list as JavaScript numbers. */
  function JsIds(s: seq<Todo>): (ids: seq<JsNumber>)
    ensures |ids| == |s|
    ensures forall i :: 0 <= i < |s| ==> ids[i] == Finite(s[i].id)
  {
    if s == [] then [] else [Finite(s[0].id)] + JsIds(s[1..])
  }

  /** On a non-empty list the maximum as written is the model's MaxId. */
  lemma {:induction false} JsMaxAgrees(s: seq<Todo>)
    requires s != []
    ensures JsMax(JsIds(s)) == Finite(MaxId(s))
  {
    var ids := JsIds(s);
    assert ids[1..] == JsIds(s[1..]);
    if |s| > 1 {
      JsMaxAgrees(s[1..]);
    }
  }

  /** Outside the empty list, the model's id choice is exactly the one App.js
      makes; the fallback 1 only replaces `-Infinity`. */
  lemma NextIdAgrees(s: seq<Todo>)
    ensures s != [] ==> NextIdAsWritten(JsIds(s)) == Finite(NextId(s))
    ensures s == [] ==> NextIdAsWritten(JsIds(s)) == NegInfinity && NextId(s) == 1
  {
    if s != [] {
      JsMaxAgrees(s);
    }
  }
}
