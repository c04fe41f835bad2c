/**
 * JSON values: what `JSON.stringify` writes and `JSON.parse` reads back.
 * The observer uses them twice: as the serialised form compared to decide
 * whether a node is dirty, and as the deep copies taken by `applyChanges`.
 */
module Json {

  /** A property key. JavaScript keys are strings; the canonical array
      indices ("0", "1", ...) are kept apart from other names so that an
      array's elements and its `length` are told apart. */
  datatype Prop = Named(name: string) | Index(i: nat)

  /** The `length` property of an array. */
  const LengthProp: Prop := Named("length")

  /** The observer's private bookkeeping key, excluded from dirtiness. */
  const IdProp: Prop := Named("__id")

  /** A JSON value. Member order of objects is not kept (see README). */
  datatype Json =
    | JNull
    | JBool(b: bool)
    | JNum(n: int)
    | JStr(s: string)
    | JArray(items: seq<Json>)
    | JObject(members: map<Prop, Json>)
  {
    predicate IsContainer() { JArray? || JObject? }
  }

  /** `fuel` levels of nesting are enough to write `j` out completely:
      every array or object consumes one level. */
  predicate FuelEnough(j: Json, fuel: nat)
  {
    match j
    case JArray(items) =>
      fuel >= 1 && forall i :: 0 <= i < |items| ==> FuelEnough(items[i], fuel - 1)
    case JObject(m) =>
      fuel >= 1 && forall k :: k in m ==> FuelEnough(m[k], fuel - 1)
    case _ => true
  }

  /** More fuel never hurts. */
  lemma {:induction false} FuelEnoughMono(j: Json, f: nat, g: nat)
    requires FuelEnough(j, f) && f <= g
    ensures FuelEnough(j, g)
  {
    match j
    case JArray(items) =>
      forall i | 0 <= i < |items| ensures FuelEnough(items[i], g - 1) {
        FuelEnoughMono(items[i], f - 1, g - 1);
      }
    case JObject(m) =>
      forall k | k in m ensures FuelEnough(m[k], g - 1) {
        FuelEnoughMono(m[k], f - 1, g - 1);
      }
    case _ =>
  }
}
