/** A Python `dict` restricted to what the form parser does with one: string keys,
    assignment `d[k] = v`, lookup, and iteration in insertion order. Re-assigning a
    key that is already present replaces its value where it stands; a new key goes
    at the end. */
module OrderedDict {
  import opened Wrappers

  /** The two kinds of value the program stores: strings from the model's response
      and the integer computed for "Calculated Age". */
  datatype Value = Str(text: string) | Num(n: int)

  type Entry = (string, Value)

  /** The entries in iteration order. */
  type Dict = seq<Entry>

  /** The keys in iteration order, i.e. `list(d)`. */
  function KeysOf(d: seq<Entry>): (ks: seq<string>)
    ensures |ks| == |d|
    ensures forall i :: 0 <= i < |d| ==> ks[i] == d[i].0
  {
    seq(|d|, i requires 0 <= i < |d| => d[i].0)
  }

  /** The representation invariant of a dictionary: no key twice. */
  predicate UniqueKeys(d: Dict) {
    forall i, j :: 0 <= i < j < |d| ==> d[i].0 != d[j].0
  }

  /** The position of key `k`: the first entry holding it. */
  function IndexOf(d: Dict, k: string): (i: int)
    requires k in KeysOf(d)
    ensures 0 <= i < |d| && d[i].0 == k
    ensures forall j :: 0 <= j < i ==> d[j].0 != k
  {
    if d[0].0 == k then 0
    else
      assert forall j :: 1 <= j < |d| ==> KeysOf(d[1..])[j - 1] == KeysOf(d)[j];
      1 + IndexOf(d[1..], k)
  }

  /** `d.get(k)` */
  function Get(d: Dict, k: string): (r: Option<Value>)
    ensures r.Some? <==> k in KeysOf(d)
    ensures UniqueKeys(d) ==> forall i :: 0 <= i < |d| && d[i].0 == k ==> r == Some(d[i].1)
  {
    if k in KeysOf(d) then
      var i := IndexOf(d, k);
      assert UniqueKeys(d) ==> forall j :: 0 <= j < |d| && d[j].0 == k ==> j == i;
      Some(d[i].1)
    else
      None
  }

  /** `d[k] = v`, as the value of the dictionary afterwards. */
  function Put(d: Dict, k: string, v: Value): (r: Dict)
    ensures k in KeysOf(d) ==> KeysOf(r) == KeysOf(d)
    ensures k in KeysOf(d) && UniqueKeys(d) ==>
      |r| == |d| && forall i :: 0 <= i < |d| ==> r[i] == (if d[i].0 == k then (k, v) else d[i])
    ensures k !in KeysOf(d) ==> r == d + [(k, v)]
  {
    if k in KeysOf(d) then
      var i := IndexOf(d, k);
      var r := d[i := (k, v)];
      assert KeysOf(r) == KeysOf(d);
      r
    else
      d + [(k, v)]
  }

  /** Assignment keeps the dictionary invariant. */
  lemma PutUnique(d: Dict, k: string, v: Value)
    requires UniqueKeys(d)
    ensures UniqueKeys(Put(d, k, v))
  {
    var r := Put(d, k, v);
    if k in KeysOf(d) {
      assert KeysOf(r) == KeysOf(d);
      forall i, j | 0 <= i < j < |r| ensures r[i].0 != r[j].0 {
        assert r[i].0 == KeysOf(r)[i] == KeysOf(d)[i] == d[i].0;
        assert r[j].0 == KeysOf(r)[j] == KeysOf(d)[j] == d[j].0;
      }
    } else {
      forall i, j | 0 <= i < j < |r| ensures r[i].0 != r[j].0 {
        if j == |d| {
          assert r[i].0 == KeysOf(d)[i];
        }
      }
    }
  }

  /** Assignment keeps the set of keys apart from `k`, and adds `k`. */
  lemma PutKeys(d: Dict, k: string, v: Value)
    requires UniqueKeys(d)
    ensures UniqueKeys(Put(d, k, v))
    ensures forall x :: x in KeysOf(Put(d, k, v)) <==> x in KeysOf(d) || x == k
    ensures k in KeysOf(d) ==> KeysOf(Put(d, k, v)) == KeysOf(d)
    ensures k !in KeysOf(d) ==> KeysOf(Put(d, k, v)) == KeysOf(d) + [k]
  {
    PutUnique(d, k, v);
    var r := Put(d, k, v);
    if k !in KeysOf(d) {
      assert KeysOf(r) == KeysOf(d) + [k];
    }
  }

  /** After `d[k] = v`, `d[k]` is `v` and every other key reads as before. */
  lemma GetPut(d: Dict, k: string, v: Value, x: string)
    requires UniqueKeys(d)
    ensures Get(Put(d, k, v), x) == if x == k then Some(v) else Get(d, x)
  {
    var r := Put(d, k, v);
    PutKeys(d, k, v);
    if x in KeysOf(r) {
      var i :| 0 <= i < |r| && r[i].0 == x;
      if k !in KeysOf(d) && i == |d| {
      } else {
        assert d[i].0 == x;
      }
    }
  }

  /** The first entry holding `k` is the one at `i` when no earlier entry holds it. */
  lemma IndexOfAt(d: Dict, k: string, i: int)
    requires 0 <= i < |d| && d[i].0 == k && forall j :: 0 <= j < i ==> d[j].0 != k
    ensures k in KeysOf(d) && IndexOf(d, k) == i
  {
    assert KeysOf(d)[i] == k;
  }

  /** Assigning the same key twice leaves what the second assignment alone leaves. */
  lemma PutTwice(d: Dict, k: string, v1: Value, v2: Value)
    ensures Put(Put(d, k, v1), k, v2) == Put(d, k, v2)
  {
    var d1 := Put(d, k, v1);
    if k in KeysOf(d) {
      var i := IndexOf(d, k);
      assert d1 == d[i := (k, v1)];
      IndexOfAt(d1, k, i);
      assert d1[i := (k, v2)] == d[i := (k, v2)];
    } else {
      assert d1 == d + [(k, v1)];
      IndexOfAt(d1, k, |d|);
      assert d1[|d| := (k, v2)] == d + [(k, v2)];
    }
  }

  /** The dictionary built by assigning `d[k] = v` for each pair of `ps` in turn,
      starting from `{}`. */
  function FromPairs(ps: seq<Entry>): (d: Dict)
    ensures UniqueKeys(d)
    ensures forall k :: k in KeysOf(d) <==> k in KeysOf(ps)
    decreases |ps|
  {
    if ps == [] then []
    else
      var n := |ps| - 1;
      var prev := FromPairs(ps[..n]);
      FromPairsStep(ps, prev);
      Put(prev, ps[n].0, ps[n].1)
  }

  /** One more pair is one more assignment. */
  lemma FromPairsSnoc(ps: seq<Entry>, e: Entry)
    ensures FromPairs(ps + [e]) == Put(FromPairs(ps), e.0, e.1)
  {
    assert (ps + [e])[..|ps|] == ps;
  }

  /** The key set after one more assignment, the inductive step of `FromPairs`. */
  lemma FromPairsStep(ps: seq<Entry>, prev: Dict)
    requires |ps| > 0 && UniqueKeys(prev)
    requires forall k :: k in KeysOf(prev) <==> k in KeysOf(ps[..|ps| - 1])
    ensures UniqueKeys(Put(prev, ps[|ps| - 1].0, ps[|ps| - 1].1))
    ensures forall k :: k in KeysOf(Put(prev, ps[|ps| - 1].0, ps[|ps| - 1].1)) <==> k in KeysOf(ps)
  {
    var n := |ps| - 1;
    PutKeys(prev, ps[n].0, ps[n].1);
    assert KeysOf(ps) == KeysOf(ps[..n]) + [ps[n].0];
  }

  /** For a key assigned more than once, the last assignment decides its value. */
  lemma {:induction false} FromPairsLastWins(ps: seq<Entry>, i: int)
    requires 0 <= i < |ps|
    requires forall j :: i < j < |ps| ==> ps[j].0 != ps[i].0
    ensures Get(FromPairs(ps), ps[i].0) == Some(ps[i].1)
    decreases |ps|
  {
    var n := |ps| - 1;
    var prev := FromPairs(ps[..n]);
    assert FromPairs(ps) == Put(prev, ps[n].0, ps[n].1);
    GetPut(prev, ps[n].0, ps[n].1, ps[i].0);
    if i < n {
      var qs := ps[..n];
      assert qs[i] == ps[i];
      assert forall j :: i < j < |qs| ==> qs[j].0 != qs[i].0 by {
        forall j | i < j < |qs| ensures qs[j].0 != qs[i].0 {
          assert qs[j] == ps[j];
        }
      }
      FromPairsLastWins(qs, i);
    }
  }

  /** Key `x` is assigned somewhere in `ps` before `y` is first assigned. */
  predicate AssignedBefore(ps: seq<Entry>, x: string, y: string) {
    exists i :: 0 <= i < |ps| && ps[i].0 == x && forall j :: 0 <= j <= i ==> ps[j].0 != y
  }

  /** Keys are iterated in the order of their first assignment: a key that comes
      earlier in the dictionary was assigned before the later key ever was. */
  lemma {:induction false} FromPairsOrder(ps: seq<Entry>, a: int, b: int)
    requires 0 <= a < b < |FromPairs(ps)|
    ensures AssignedBefore(ps, FromPairs(ps)[a].0, FromPairs(ps)[b].0)
    decreases |ps|
  {
    var n := |ps| - 1;
    var qs := ps[..n];
    var prev := FromPairs(qs);
    var d := FromPairs(ps);
    var k := ps[n].0;
    assert d == Put(prev, k, ps[n].1);
    PutKeys(prev, k, ps[n].1);
    var x, y := d[a].0, d[b].0;
    if b < |prev| {
      FromPairsOrder(qs, a, b);
      assert KeysOf(d)[a] == KeysOf(prev)[a] && KeysOf(d)[b] == KeysOf(prev)[b];
      var i :| 0 <= i < |qs| && qs[i].0 == x && forall j :: 0 <= j <= i ==> qs[j].0 != y;
      assert ps[i] == qs[i];
      forall j | 0 <= j <= i ensures ps[j].0 != y {
        assert ps[j] == qs[j];
      }
    } else {
      assert k !in KeysOf(prev);
      assert d == prev + [(k, ps[n].1)];
      assert y == k;
      assert x == prev[a].0 && x in KeysOf(prev);
      assert x in KeysOf(qs);
      var i :| 0 <= i < |qs| && KeysOf(qs)[i] == x;
      assert ps[i].0 == x;
      forall j | 0 <= j <= i ensures ps[j].0 != y {
        assert ps[j].0 == KeysOf(qs)[j];
      }
    }
  }
}
