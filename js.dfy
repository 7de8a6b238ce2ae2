/**
  JavaScript values as the catalogue code sees them: strings, integers,
  booleans, `null`, arrays and plain objects. An object is its list of
  own enumerable entries in insertion order, which is the order
  `Object.entries` and `Object.keys` report.
 */
module Js {

  datatype Option<+T> = None | Some(value: T)

  datatype JsVal =
    | Str(s: string)
    | Num(n: int)
    | Bool(b: bool)
    | Null
    | Arr(items: seq<JsVal>)
    | Obj(entries: seq<(string, JsVal)>)

  type Entries = seq<(string, JsVal)>

  /** `Object.keys(o)` */
  function Keys(e: Entries): (ks: seq<string>)
    ensures |ks| == |e|
    ensures forall i :: 0 <= i < |e| ==> ks[i] == e[i].0
  {
    seq(|e|, i requires 0 <= i < |e| => e[i].0)
  }

  /** No key occurs twice, as in every JavaScript object. */
  predicate DistinctKeys(e: Entries) {
    forall i, j :: 0 <= i < j < |e| ==> e[i].0 != e[j].0
  }

  /** Distinct keys at every level of a value. */
  predicate WellFormed(v: JsVal) {
    match v
    case Obj(e) => DistinctKeys(e) && forall i :: 0 <= i < |e| ==> WellFormed(e[i].1)
    case Arr(xs) => forall i :: 0 <= i < |xs| ==> WellFormed(xs[i])
    case _ => true
  }

  /** No array anywhere in the value. */
  predicate ArrayFree(v: JsVal) {
    match v
    case Obj(e) => forall i :: 0 <= i < |e| ==> ArrayFree(e[i].1)
    case Arr(_) => false
    case _ => true
  }

  /** The position of key `k`, or -1 when `k in o` is false. */
  function KeyIndex(e: Entries, k: string): (r: int)
    ensures -1 <= r < |e|
    ensures r == -1 <==> k !in Keys(e)
    ensures r >= 0 ==> e[r].0 == k
    ensures forall j :: 0 <= j < |e| && (r == -1 || j < r) ==> e[j].0 != k
  {
    if e == [] then -1
    else if e[0].0 == k then 0
    else
      var j := KeyIndex(e[1..], k);
      assert Keys(e) == [e[0].0] + Keys(e[1..]);
      if j == -1 then -1 else j + 1
  }

  /** The first position holding `k` is the one `KeyIndex` reports. */
  lemma KeyIndexIs(e: Entries, k: string, a: int)
    requires -1 <= a < |e|
    requires a >= 0 ==> e[a].0 == k
    requires forall j :: 0 <= j < |e| && (a == -1 || j < a) ==> e[j].0 != k
    ensures KeyIndex(e, k) == a
  {
  }

  /** `k in o ? o[k] : undefined` */
  function Get(e: Entries, k: string): (r: Option<JsVal>)
    ensures r.Some? <==> k in Keys(e)
    ensures r.Some? ==> (k, r.value) in e
  {
    var i := KeyIndex(e, k);
    if i == -1 then None else Some(e[i].1)
  }

  /**
    `o[k] = v`: an existing key keeps its position and takes the new value,
    a new key is appended at the end.
   */
  function Put(e: Entries, k: string, v: JsVal): (r: Entries)
    ensures Get(r, k) == Some(v)
    ensures forall k' :: k' != k ==> Get(r, k') == Get(e, k')
    ensures Keys(r) == if k in Keys(e) then Keys(e) else Keys(e) + [k]
    ensures DistinctKeys(e) ==> DistinctKeys(r)
    ensures forall p :: p in r ==> p in e || p == (k, v)
  {
    var i := KeyIndex(e, k);
    var r := if i == -1 then e + [(k, v)] else e[i := (k, v)];
    PutFacts(e, k, v, i, r);
    r
  }

  /** Helper for `Put`: changing only the entry for `k` leaves every other lookup alone. */
  lemma PutFacts(e: Entries, k: string, v: JsVal, i: int, r: Entries)
    requires i == KeyIndex(e, k)
    requires r == if i == -1 then e + [(k, v)] else e[i := (k, v)]
    ensures KeyIndex(r, k) == (if i == -1 then |e| else i)
    ensures forall k' :: k' != k ==> KeyIndex(r, k') == KeyIndex(e, k')
    ensures Keys(r) == if k in Keys(e) then Keys(e) else Keys(e) + [k]
    ensures DistinctKeys(e) ==> DistinctKeys(r)
  {
    KeyIndexIs(r, k, if i == -1 then |e| else i);
    PutOthers(e, k, v, i, r);
    if i == -1 {
      assert Keys(r) == Keys(e) + [k];
    } else {
      assert Keys(r) == Keys(e);
    }
  }

  /** Helper for `PutFacts`: every other key is found where it was. */
  lemma PutOthers(e: Entries, k: string, v: JsVal, i: int, r: Entries)
    requires i == KeyIndex(e, k)
    requires r == if i == -1 then e + [(k, v)] else e[i := (k, v)]
    ensures forall k' :: k' != k ==> KeyIndex(r, k') == KeyIndex(e, k')
  {
    forall k' | k' != k
      ensures KeyIndex(r, k') == KeyIndex(e, k')
    {
      var b := KeyIndex(e, k');
      assert forall j :: 0 <= j < |r| ==> r[j].0 == k || (j < |e| && r[j] == e[j]);
      KeyIndexIs(r, k', b);
    }
  }

  /** JavaScript's `!x || typeof x !== 'object'` is false exactly for these. */
  predicate IsObjectLike(v: JsVal) {
    v.Obj? || v.Arr?
  }

  /** Reading `o[p0][p1]...` through nested objects; `None` once a step finds no object or no key. */
  function Lookup(v: JsVal, p: seq<string>): Option<JsVal>
    decreases |p|
  {
    if p == [] then Some(v)
    else match v
      case Obj(e) => (match Get(e, p[0]) case Some(c) => Lookup(c, p[1..]) case None => None)
      case _ => None
  }
}
