/** The dynamic values that flow through the toolkit: decoded JSON documents,
    spreadsheet cells, records and the results of processing callbacks. Python's
    truth values and its dict operations are defined here once for every module. */
module Values {

  datatype Option<T> = None | Some(value: T)

  datatype Value =
    | Null
    | Bool(b: bool)
    | Num(n: int)
    | Str(s: string)
    | List(items: seq<Value>)
    | Map(entries: seq<(string, Value)>)

  /** A Python dict: its key/value pairs in insertion order. */
  type Dict = seq<(string, Value)>

  predicate IsContainer(v: Value) {
    v.List? || v.Map?
  }

  /** Python truth value: None, False, 0, "", [] and {} are false, everything else true. */
  predicate Truthy(v: Value) {
    match v
    case Null => false
    case Bool(b) => b
    case Num(n) => n != 0
    case Str(s) => s != ""
    case List(items) => items != []
    case Map(entries) => entries != []
  }

  /** `type(v).__name__` */
  function TypeName(v: Value): string {
    match v
    case Null => "NoneType"
    case Bool(_) => "bool"
    case Num(_) => "int"
    case Str(_) => "str"
    case List(_) => "list"
    case Map(_) => "dict"
  }

  function Keys(d: Dict): seq<string> {
    seq(|d|, i requires 0 <= i < |d| => d[i].0)
  }

  predicate Distinct(ks: seq<string>) {
    forall i, j :: 0 <= i < j < |ks| ==> ks[i] != ks[j]
  }

  /** Position of the first pair with key `k`. */
  function IndexOf(d: Dict, k: string): (i: nat)
    requires k in Keys(d)
    ensures i < |d| && d[i].0 == k
    ensures forall j :: 0 <= j < i ==> d[j].0 != k
  {
    if d[0].0 == k then 0
    else
      assert k in Keys(d[1..]) by { var j :| 0 <= j < |d| && Keys(d)[j] == k; assert Keys(d[1..])[j - 1] == k; }
      1 + IndexOf(d[1..], k)
  }

  /** The first pair whose key is `k` is the one `IndexOf` finds. */
  lemma IndexOfFirst(d: Dict, k: string, i: nat)
    requires i < |d| && d[i].0 == k
    requires forall j :: 0 <= j < i ==> d[j].0 != k
    ensures k in Keys(d) && IndexOf(d, k) == i
  {
    assert Keys(d)[i] == k;
  }

  /** `d.get(k, default)` */
  function Get(d: Dict, k: string, default: Value): Value {
    if k in Keys(d) then d[IndexOf(d, k)].1 else default
  }

  /** `d[k] = v`: a present key keeps its position and takes the new value; a new key is appended. */
  function Put(d: Dict, k: string, v: Value): Dict {
    if k in Keys(d) then d[IndexOf(d, k) := (k, v)] else d + [(k, v)]
  }

  /** Dict assignment keeps the keys unique, adds `k` at the end only when it was new,
      and afterwards `k` maps to `v` while every other key keeps its value. */
  lemma PutSpec(d: Dict, k: string, v: Value)
    requires Distinct(Keys(d))
    ensures Keys(Put(d, k, v)) == if k in Keys(d) then Keys(d) else Keys(d) + [k]
    ensures Distinct(Keys(Put(d, k, v)))
    ensures Get(Put(d, k, v), k, Null) == v
    ensures forall k' :: k' != k ==> Get(Put(d, k, v), k', Null) == Get(d, k', Null)
  {
    var r := Put(d, k, v);
    if k in Keys(d) {
      assert Keys(r) == Keys(d);
    } else {
      assert Keys(r) == Keys(d) + [k];
    }
    forall k' | k' != k
      ensures Get(r, k', Null) == Get(d, k', Null)
    {
      if k' in Keys(d) {
        var i := IndexOf(d, k');
        assert Keys(r)[i] == k';
        var j := IndexOf(r, k');
        assert Keys(d)[j] == k';
        assert i == j;
      } else {
        assert k' !in Keys(r);
      }
    }
    if k in Keys(d) {
      IndexOfFirst(r, k, IndexOf(d, k));
    } else {
      forall j | 0 <= j < |d| ensures r[j].0 != k { assert Keys(d)[j] == d[j].0; }
      IndexOfFirst(r, k, |d|);
    }
  }
}
