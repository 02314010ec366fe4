/**
 The generic tree a YAML configuration document is deserialised into, as the
 PHP matcher sees it: scalars and PHP arrays. A PHP array is an ordered list of
 (key, value) entries whose keys are integers or strings; a YAML sequence is the
 array whose keys are 0, 1, 2, ... and a YAML mapping the array of its pairs.
 */
module Values {

  /** A PHP array key. */
  datatype Key = IntKey(n: int) | StrKey(s: string)

  /** A PHP value as produced by the YAML deserialiser (floats are not modelled). */
  datatype Value =
    | Null
    | Bool(b: bool)
    | Int(i: int)
    | Str(s: string)
    | Arr(entries: seq<(Key, Value)>)

  /** Entry `i` is the first one stored under `k`. */
  predicate FirstWithKey(entries: seq<(Key, Value)>, k: Key, i: int)
  {
    && 0 <= i < |entries|
    && entries[i].0 == k
    && forall j :: 0 <= j < i ==> entries[j].0 != k
  }

  /**
   The value stored under `k`, or `Null` when there is none (`$a[$k] ?? null`).
   Should the list hold `k` twice, the first entry wins.
   */
  function Lookup(entries: seq<(Key, Value)>, k: Key): (r: Value)
    ensures r != Null ==> (k, r) in entries
    ensures (forall i :: 0 <= i < |entries| ==> entries[i].0 != k) ==> r == Null
    ensures forall i {:trigger FirstWithKey(entries, k, i)} :: FirstWithKey(entries, k, i) ==> r == entries[i].1
  {
    if entries == [] then Null
    else if entries[0].0 == k then entries[0].1
    else
      assert forall i {:trigger FirstWithKey(entries, k, i)} ::
          FirstWithKey(entries, k, i) ==> FirstWithKey(entries[1..], k, i - 1);
      Lookup(entries[1..], k)
  }

  /** `$container[$k] ?? null`; a scalar has no entries. */
  function Get(container: Value, k: Key): Value
  {
    if container.Arr? then Lookup(container.entries, k) else Null
  }

  /** `$container['name'] ?? null` for one of the reserved string keys. */
  function Field(container: Value, name: string): Value
  {
    Get(container, StrKey(name))
  }

  /** PHP `isset($container['name'])`: the entry exists and is not null. */
  predicate IsSet(container: Value, name: string)
  {
    Field(container, name) != Null
  }

  /** The entries `foreach` visits: those of an array, none for a scalar. */
  function Iterated(v: Value): seq<(Key, Value)>
  {
    if v.Arr? then v.entries else []
  }

  /** The values of an array in order (what `in_array` and `array_intersect` see). */
  function ValuesOf(v: Value): (r: seq<Value>)
    ensures |r| == |Iterated(v)|
    ensures forall i :: 0 <= i < |r| ==> r[i] == Iterated(v)[i].1
  {
    var es := Iterated(v);
    seq(|es|, i requires 0 <= i < |es| => es[i].1)
  }

  /** A YAML sequence: the array with keys 0, 1, ... holding `items`. */
  function ListOf(items: seq<Value>): (r: Value)
    ensures r.Arr?
    ensures |r.entries| == |items|
    ensures forall i :: 0 <= i < |items| ==> r.entries[i] == (IntKey(i), items[i])
    ensures ValuesOf(r) == items
  {
    Arr(seq(|items|, i requires 0 <= i < |items| => (IntKey(i), items[i])))
  }

  /** PHP `empty()`: null, false, 0, "", "0" and the empty array. */
  predicate IsEmpty(v: Value)
  {
    match v
    case Null => true
    case Bool(b) => !b
    case Int(i) => i == 0
    case Str(s) => s == "" || s == "0"
    case Arr(es) => es == []
  }

  /** The array key a scalar becomes when used as an offset: `true` and `false` become 1 and 0. */
  function OffsetKey(v: Value): Key
    requires !v.Null? && !v.Arr?
  {
    match v
    case Bool(b) => IntKey(if b then 1 else 0)
    case Int(i) => IntKey(i)
    case Str(s) => StrKey(s)
  }
}
