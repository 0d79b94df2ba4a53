/** Values and dictionaries as the pipeline's Python code sees them. */
module Records {

  datatype Option<+T> = None | Some(value: T)

  datatype Result<+T, +E> = Success(value: T) | Failure(error: E)

  /** A cell of a row, or a value of a parsed oracle reply. */
  datatype Value = Null | Bool(b: bool) | Int(i: int) | Text(s: string)

  /** Python truthiness: `None`, `False`, `0` and `""` are falsy. */
  predicate Truthy(v: Value)
  {
    match v
    case Null => false
    case Bool(b) => b
    case Int(i) => i != 0
    case Text(s) => s != ""
  }

  /** A Python `dict` from field name to value: its entries in insertion order. */
  type Dict = seq<(string, Value)>

  ghost predicate DistinctKeys(d: Dict)
  {
    forall i, j :: 0 <= i < j < |d| ==> d[i].0 != d[j].0
  }

  /** The keys of `d`. */
  function Keys(d: Dict): (r: set<string>)
    ensures forall i :: 0 <= i < |d| ==> d[i].0 in r
    ensures forall x :: x in r ==> exists i :: 0 <= i < |d| && d[i].0 == x
    decreases |d|
  {
    if |d| == 0 then {} else {d[0].0} + Keys(d[1..])
  }

  /** `d.get(k)`: the value stored under `k`, if any. */
  function Lookup(d: Dict, k: string): (r: Option<Value>)
    ensures r.Some? <==> k in Keys(d)
    ensures r.Some? ==> (k, r.value) in d
    ensures DistinctKeys(d) ==> forall i :: 0 <= i < |d| && d[i].0 == k ==> r == Some(d[i].1)
    decreases |d|
  {
    if |d| == 0 then None
    else if d[0].0 == k then Some(d[0].1)
    else Lookup(d[1..], k)
  }

  /** `d[k] = v`: an existing key keeps its place and takes the new value; a new key goes last. */
  function Set(d: Dict, k: string, v: Value): (r: Dict)
    ensures Lookup(r, k) == Some(v)
    ensures forall k' :: k' != k ==> Lookup(r, k') == Lookup(d, k')
    ensures Keys(r) == Keys(d) + {k}
    decreases |d|
  {
    if |d| == 0 then [(k, v)]
    else if d[0].0 == k then
      var r := [(k, v)] + d[1..];
      assert r[1..] == d[1..];
      r
    else
      var r := [d[0]] + Set(d[1..], k, v);
      assert r[1..] == Set(d[1..], k, v);
      r
  }

  /** `d[k] = v` adds an entry only for a new key, and never repeats a key. */
  lemma {:induction false} SetShape(d: Dict, k: string, v: Value)
    ensures |Set(d, k, v)| == if k in Keys(d) then |d| else |d| + 1
    ensures DistinctKeys(d) ==> DistinctKeys(Set(d, k, v))
    decreases |d|
  {
    if |d| > 0 && d[0].0 != k {
      SetShape(d[1..], k, v);
      var r := Set(d, k, v);
      if DistinctKeys(d) {
        assert d[0].0 !in Keys(d[1..]) by {
          forall i | 0 <= i < |d[1..]| ensures d[1..][i].0 != d[0].0 {
            assert d[1..][i] == d[i + 1];
          }
        }
        forall i, j | 0 <= i < j < |r| ensures r[i].0 != r[j].0 {
          if i == 0 {
            assert r[j].0 in Keys(Set(d[1..], k, v)) by { assert r[j] == Set(d[1..], k, v)[j - 1]; }
          } else {
            assert r[i] == Set(d[1..], k, v)[i - 1] && r[j] == Set(d[1..], k, v)[j - 1];
          }
        }
      }
    }
  }

  /** `d.update(e)`: the entries of `e`, in order, each stored with `Set`. */
  function Update(d: Dict, e: Dict): Dict
    decreases |e|
  {
    if |e| == 0 then d else Update(Set(d, e[0].0, e[0].1), e[1..])
  }

  /** After `d.update(e)` a key reads its value from `e` when `e` has it, and from `d` otherwise. */
  lemma {:induction false} UpdateLookup(d: Dict, e: Dict, k: string)
    requires DistinctKeys(e)
    ensures Lookup(Update(d, e), k) == if k in Keys(e) then Lookup(e, k) else Lookup(d, k)
    decreases |e|
  {
    if |e| > 0 {
      var d' := Set(d, e[0].0, e[0].1);
      var e' := e[1..];
      assert DistinctKeys(e');
      UpdateLookup(d', e', k);
      if k == e[0].0 {
        assert k !in Keys(e') by {
          forall i | 0 <= i < |e'| ensures e'[i].0 != k {
            assert e'[i] == e[i + 1];
          }
        }
      }
    }
  }

  /** `d.update(e)` keeps every key of `d`, adds those of `e`, and keeps keys distinct. */
  lemma {:induction false} UpdateKeys(d: Dict, e: Dict)
    ensures Keys(Update(d, e)) == Keys(d) + Keys(e)
    ensures DistinctKeys(d) ==> DistinctKeys(Update(d, e))
    decreases |e|
  {
    if |e| > 0 {
      var e' := e[1..];
      UpdateKeys(Set(d, e[0].0, e[0].1), e');
      SetShape(d, e[0].0, e[0].1);
    }
  }
}
