/** The JSON document value shared by patch.ts, json.ts and misc.ts, and the
    runtime type predicates of misc.ts (src_js/misc.ts:11-90). */
module JsonValue {

  /** `JData` of src_js/json.ts:5-7. Numbers are integers in this model. */
  datatype JData =
    | Null
    | Bool(b: bool)
    | Num(n: int)
    | Str(s: string)
    | Arr(items: seq<JData>)
    | Obj(fields: map<string, JData>)

  predicate IsNil(x: JData) { x.Null? }

  predicate IsBoolean(x: JData) { x.Bool? }

  /** `Number.isInteger`: every number of this model is an integer. */
  predicate IsInteger(x: JData) { x.Num? }

  predicate IsNumber(x: JData) { x.Num? }

  predicate IsString(x: JData) { x.Str? }

  predicate IsArray(x: JData) { x.Arr? }

  /** `typeof x == 'object' && !isArray(x) && !isNil(x)`. */
  predicate IsObject(x: JData) { x.Obj? && !IsArray(x) && !IsNil(x) }

  function Indicator(b: bool): nat { if b then 1 else 0 }

  /** How many of the six kind predicates (all but isInteger) hold. */
  function KindCount(x: JData): nat {
    Indicator(IsNil(x)) + Indicator(IsBoolean(x)) + Indicator(IsNumber(x))
    + Indicator(IsString(x)) + Indicator(IsArray(x)) + Indicator(IsObject(x))
  }

  /** The doc comments of misc.ts: on a JSON value exactly one kind predicate
      holds, and isInteger implies isNumber. */
  lemma KindPredicatesExclusive(x: JData)
    ensures KindCount(x) == 1
    ensures IsInteger(x) ==> IsNumber(x)
  {
  }

  /** JavaScript truthiness of a JSON value. */
  predicate Truthy(x: JData) {
    match x
    case Null => false
    case Bool(b) => b
    case Num(n) => n != 0
    case Str(s) => s != []
    case _ => true
  }
}
