/**
 * The slice of JavaScript's value model that the dashboard pages rely on
 * when they read measurement fields of unknown shape: numbers (including
 * `NaN` and the infinities), `null`/`undefined`, optional property access
 * `m?.p` and nullish coalescing `a ?? b`.
 */
module JsValues {

  import opened Wrappers

  datatype JsNumber = Finite(value: real) | NaN | Infinity | NegativeInfinity

  datatype JsValue =
    | Undefined
    | Null
    | Bool(b: bool)
    | Num(n: JsNumber)
    | Str(s: string)
    | Object(props: map<string, JsValue>)
  {
    predicate IsNullish() { Undefined? || Null? }
  }

  /**
   * `v?.key`: `undefined` on a nullish receiver or a missing property; the
   * primitives carry no data properties of their own.
   */
  function Get(v: JsValue, key: string): (r: JsValue)
    ensures v.IsNullish() ==> r == Undefined
    ensures v.Object? && key in v.props ==> r == v.props[key]
    ensures !v.Object? || key !in v.props ==> r == Undefined
  {
    if v.Object? && key in v.props then v.props[key] else Undefined
  }

  /** `a ?? b`: `b` exactly when `a` is `null` or `undefined`. */
  function Coalesce(a: JsValue, b: JsValue): (r: JsValue)
    ensures r == a || r == b
    ensures r.IsNullish() ==> a.IsNullish() && r == b
    ensures !a.IsNullish() ==> r == a
  {
    if a.IsNullish() then b else a
  }

  /** The first value of `vs` that is not nullish, or `undefined` when there is none. */
  function FirstPresent(vs: seq<JsValue>): (r: JsValue)
    ensures r == Undefined || r in vs
    ensures r.IsNullish() <==> forall i :: 0 <= i < |vs| ==> vs[i].IsNullish()
  {
    if vs == [] then Undefined
    else if !vs[0].IsNullish() then vs[0]
    else FirstPresent(vs[1..])
  }

  /** A chain `a ?? b ?? c` yields the first operand that is present, or the last one. */
  lemma {:induction false} CoalesceChain(a: JsValue, b: JsValue, c: JsValue)
    ensures var r := Coalesce(Coalesce(a, b), c);
            r == (if FirstPresent([a, b, c]).IsNullish() then c else FirstPresent([a, b, c]))
  {
    assert [a, b, c][1..] == [b, c];
    assert [b, c][1..] == [c];
    assert [c][1..] == [];
  }

  /** `safeNum`: the number itself when it is finite, `null` otherwise (strings are not parsed). */
  function SafeNum(v: JsValue): (r: Option<real>)
    ensures r.Some? <==> v.Num? && v.n.Finite?
    ensures r.Some? ==> v == Num(Finite(r.value))
  {
    match v
    case Num(Finite(x)) => Some(x)
    case _ => None
  }

  /** The JavaScript value a `number | null` result stands for. */
  function OfNullableNumber(x: Option<real>): JsValue {
    match x
    case Some(v) => Num(Finite(v))
    case None => Null
  }

  /** `safeNum` fixes its own results: feeding a result back returns it unchanged. */
  lemma SafeNumIdempotent(v: JsValue)
    ensures SafeNum(OfNullableNumber(SafeNum(v))) == SafeNum(v)
  {
  }
}
