/**
 * The sequence, array and dictionary helpers of Utils.cs. Enumerables are
 * finite sequences; a `Func` is a Dafny function value; an `Action` whose
 * effects are unknown is modelled by the list of calls made to it.
 */
module Collections {
  import opened Base

  // ---- DistinctBy ----

  /** The keys of the elements of `s`. */
  function KeysOf<T, V(==)>(s: seq<T>, select: T -> V): set<V>
  {
    if s == [] then {} else KeysOf(s[..|s| - 1], select) + {select(s[|s| - 1])}
  }

  lemma {:induction false} KeysOfMembership<T, V>(s: seq<T>, select: T -> V, v: V)
    ensures v in KeysOf(s, select) <==> exists j :: 0 <= j < |s| && select(s[j]) == v
  {
    if s != [] {
      var init := s[..|s| - 1];
      KeysOfMembership(init, select, v);
      if v in KeysOf(init, select) {
        var j :| 0 <= j < |init| && select(init[j]) == v;
        assert select(s[j]) == v;
      }
      if exists j :: 0 <= j < |s| && select(s[j]) == v {
        var j :| 0 <= j < |s| && select(s[j]) == v;
        if j < |init| {
          assert select(init[j]) == v;
        }
      }
    }
  }

  /** Reference definition of `DistinctBy`: an element is kept when no earlier element has its key. */
  function Distinct<T, V(==)>(s: seq<T>, select: T -> V): seq<T>
  {
    if s == [] then []
    else
      var init, last := s[..|s| - 1], s[|s| - 1];
      Distinct(init, select) + (if select(last) in KeysOf(init, select) then [] else [last])
  }

  /** Element `s[i]` is the first of `s` with its key. */
  ghost predicate IsFirst<T, V>(s: seq<T>, i: int, select: T -> V)
    requires 0 <= i < |s|
  {
    forall j :: 0 <= j < i ==> select(s[j]) != select(s[i])
  }

  /**
   * `DistinctBy` as the source runs it: walk the input once, remembering the
   * keys seen in a set, and yield an element whose key is new.
   */
  method DistinctBy<T, V(==)>(vs: seq<T>, select: T -> V) returns (r: seq<T>)
    ensures r == Distinct(vs, select)
  {
    var seen: set<V> := {};
    r := [];
    for i := 0 to |vs|
      invariant seen == KeysOf(vs[..i], select)
      invariant r == Distinct(vs[..i], select)
    {
      var key := select(vs[i]);
      assert vs[..i + 1][..i] == vs[..i];
      if key in seen {
        continue;
      }
      seen := seen + {key};
      r := r + [vs[i]];
    }
    assert vs[..|vs|] == vs;
  }

  /** No two elements of the result share a key. */
  lemma {:induction false} DistinctKeysUnique<T, V>(s: seq<T>, select: T -> V)
    ensures var d := Distinct(s, select);
      forall i, j :: 0 <= i < j < |d| ==> select(d[i]) != select(d[j])
  {
    if s != [] {
      var init, last := s[..|s| - 1], s[|s| - 1];
      DistinctKeysUnique(init, select);
      DistinctSameKeys(init, select);
      var d0 := Distinct(init, select);
      var d := Distinct(s, select);
      if select(last) !in KeysOf(init, select) {
        forall i | 0 <= i < |d0| ensures select(d[i]) != select(last) {
          KeysOfMembership(d0, select, select(d[i]));
          assert select(d0[i]) in KeysOf(d0, select);
        }
      }
    }
  }

  /** Every key of the input is the key of some element of the result. */
  lemma {:induction false} DistinctSameKeys<T, V>(s: seq<T>, select: T -> V)
    ensures KeysOf(Distinct(s, select), select) == KeysOf(s, select)
  {
    if s != [] {
      var init, last := s[..|s| - 1], s[|s| - 1];
      DistinctSameKeys(init, select);
      var d0 := Distinct(init, select);
      assert KeysOf(s, select) == KeysOf(init, select) + {select(last)};
      if select(last) !in KeysOf(init, select) {
        var d := d0 + [last];
        assert d[..|d| - 1] == d0 && d[|d| - 1] == last;
        assert KeysOf(d, select) == KeysOf(d0, select) + {select(last)};
      } else {
        assert Distinct(s, select) == d0 + [];
        assert d0 + [] == d0;
      }
    }
  }

  /**
   * The result is, in input order, exactly the first element for each key:
   * `idx` lists the positions it was taken from, strictly increasing, each one
   * a first occurrence, and every first occurrence is among them.
   */
  lemma {:induction false} DistinctIsFirstOccurrences<T, V>(s: seq<T>, select: T -> V) returns (idx: seq<nat>)
    ensures |idx| == |Distinct(s, select)|
    ensures forall k :: 0 <= k < |idx| ==> idx[k] < |s| && Distinct(s, select)[k] == s[idx[k]] && IsFirst(s, idx[k], select)
    ensures forall k, l :: 0 <= k < l < |idx| ==> idx[k] < idx[l]
    ensures forall i :: 0 <= i < |s| && IsFirst(s, i, select) ==> i in idx
  {
    if s == [] {
      idx := [];
    } else {
      var n := |s| - 1;
      var init, last := s[..n], s[n];
      var idx0 := DistinctIsFirstOccurrences(init, select);
      assert forall i :: 0 <= i < n ==> (IsFirst(s, i, select) <==> IsFirst(init, i, select));
      KeysOfMembership(init, select, select(last));
      if select(last) in KeysOf(init, select) {
        idx := idx0;
      } else {
        idx := idx0 + [n];
      }
    }
  }

  // ---- ConcatArrays ----

  /** `arrays.Sum(a => a.Length)`. */
  function TotalLength(arrays: seq<seq<byte>>): nat
  {
    if arrays == [] then 0 else TotalLength(arrays[..|arrays| - 1]) + |arrays[|arrays| - 1]|
  }

  /** Reference definition: the arrays' contents one after another. */
  function Flatten(arrays: seq<seq<byte>>): seq<byte>
  {
    if arrays == [] then [] else Flatten(arrays[..|arrays| - 1]) + arrays[|arrays| - 1]
  }

  lemma {:induction false} FlattenLength(arrays: seq<seq<byte>>)
    ensures |Flatten(arrays)| == TotalLength(arrays)
  {
    if arrays != [] {
      FlattenLength(arrays[..|arrays| - 1]);
    }
  }

  /** Concatenating a list of lists is concatenating their flattenings. */
  lemma {:induction false} FlattenAppend(xs: seq<seq<byte>>, ys: seq<seq<byte>>)
    ensures Flatten(xs + ys) == Flatten(xs) + Flatten(ys)
    decreases |ys|
  {
    if ys != [] {
      var m := |ys| - 1;
      assert (xs + ys)[..|xs + ys| - 1] == xs + ys[..m];
      FlattenAppend(xs, ys[..m]);
    } else {
      assert xs + ys == xs;
    }
  }

  lemma {:induction false} TotalLengthPrefix(arrays: seq<seq<byte>>, k: nat)
    requires k <= |arrays|
    ensures TotalLength(arrays[..k]) <= TotalLength(arrays)
    decreases |arrays|
  {
    if k < |arrays| {
      assert arrays[..|arrays| - 1][..k] == arrays[..k];
      TotalLengthPrefix(arrays[..|arrays| - 1], k);
    } else {
      assert arrays[..k] == arrays;
    }
  }

  /**
   * `ConcatArrays`: allocate the total length, then copy each array in at a
   * running offset.
   */
  method ConcatArrays(arrays: seq<seq<byte>>) returns (outarr: array<byte>)
    ensures outarr.Length == TotalLength(arrays)
    ensures outarr[..] == Flatten(arrays)
  {
    outarr := new byte[TotalLength(arrays)];
    var offset := 0;
    for k := 0 to |arrays|
      invariant offset == TotalLength(arrays[..k]) <= outarr.Length
      invariant outarr[..offset] == Flatten(arrays[..k])
    {
      var arr := arrays[k];
      assert arrays[..k + 1][..k] == arrays[..k];
      TotalLengthPrefix(arrays, k + 1);
      forall i | 0 <= i < |arr| {
        outarr[offset + i] := arr[i];
      }
      assert outarr[..offset + |arr|] == outarr[..offset] + arr;
      offset := offset + |arr|;
    }
    assert arrays[..|arrays|] == arrays;
  }

  // ---- Last, ButLast ----

  /** `Last`: the final element; an empty array throws InvalidDataException. */
  function Last<T>(a: seq<T>): (r: Result<T>)
    ensures r.Failure? <==> |a| == 0
    ensures r.Failure? ==> r.error == InvalidData
    ensures r.Success? ==> r.value == a[|a| - 1]
  {
    if |a| == 0 then Failure(InvalidData) else Success(a[|a| - 1])
  }

  /** `ButLast`: all but the final element; `Take(-1)` makes it empty for an empty input. */
  function ButLast<T>(coll: seq<T>): (r: seq<T>)
    ensures |r| == if coll == [] then 0 else |coll| - 1
    ensures r <= coll
  {
    if coll == [] then [] else coll[..|coll| - 1]
  }

  /** `ButLast` and `Last` split a non-empty sequence, and undo appending one element. */
  lemma ButLastLast<T>(s: seq<T>, x: T)
    ensures s != [] ==> Last(s).Success? && ButLast(s) + [Last(s).value] == s
    ensures Last(s + [x]) == Success(x) && ButLast(s + [x]) == s
  {
    assert (s + [x])[..|s|] == s;
  }

  // ---- GetOrDefault ----

  /**
   * `GetOrDefault` (both the IDictionary and the Dictionary overload): the
   * value under `key`, or `default(V)`, given here as `dflt`.
   */
  function GetOrDefault<K, V>(dict: map<K, V>, key: K, dflt: V): (r: V)
    ensures key in dict ==> r == dict[key]
    ensures key !in dict ==> r == dflt
  {
    if key in dict then dict[key] else dflt
  }

  // ---- Keep ----

  /** `Keep`: `Select(func)` then drop the results that compare equal to `default`, given as `zero`. */
  function Keep<A, B(==)>(coll: seq<A>, func: A -> B, zero: B): (r: seq<B>)
    ensures |r| <= |coll|
    ensures zero !in r
  {
    if coll == [] then []
    else (if func(coll[0]) != zero then [func(coll[0])] else []) + Keep(coll[1..], func, zero)
  }

  /** The results are exactly the non-default images of the input. */
  lemma {:induction false} KeepMembership<A, B>(coll: seq<A>, func: A -> B, zero: B, y: B)
    ensures y in Keep(coll, func, zero) <==> y != zero && exists i :: 0 <= i < |coll| && func(coll[i]) == y
  {
    if coll != [] {
      KeepMembership(coll[1..], func, zero, y);
      if exists i :: 0 <= i < |coll| && func(coll[i]) == y {
        var i :| 0 <= i < |coll| && func(coll[i]) == y;
        if i > 0 {
          assert func(coll[1..][i - 1]) == y;
        }
      }
      if exists i :: 0 <= i < |coll[1..]| && func(coll[1..][i]) == y {
        var i :| 0 <= i < |coll[1..]| && func(coll[1..][i]) == y;
        assert func(coll[i + 1]) == y;
      }
    }
  }

  /** Order is kept: `Keep` of a concatenation is the concatenation of the `Keep`s. */
  lemma {:induction false} KeepAppend<A, B>(xs: seq<A>, ys: seq<A>, func: A -> B, zero: B)
    ensures Keep(xs + ys, func, zero) == Keep(xs, func, zero) + Keep(ys, func, zero)
  {
    if xs != [] {
      assert (xs + ys)[1..] == xs[1..] + ys;
      KeepAppend(xs[1..], ys, func, zero);
    } else {
      assert xs + ys == ys;
    }
  }

  // ---- DoIndexed ----

  /**
   * `DoIndexed(coll, f)`: calls `f(idx, item)` for every item in order with a
   * counter from 0. The calls made are returned.
   */
  method DoIndexed<T>(coll: seq<T>) returns (calls: seq<(int, T)>)
    ensures |calls| == |coll|
    ensures forall i :: 0 <= i < |coll| ==> calls[i] == (i, coll[i])
  {
    var idx := 0;
    calls := [];
    for k := 0 to |coll|
      invariant idx == k == |calls|
      invariant forall i :: 0 <= i < k ==> calls[i] == (i, coll[i])
    {
      calls := calls + [(idx, coll[k])];
      idx := idx + 1;
    }
  }
}
