/** `drop_duplicates(subset=..., keep='first' | 'last')` on a sequence of
    records: the records are reduced to the key the subset selects, and a
    record survives when no earlier (resp. later) record has the same key.
    Survivors keep their relative order. */
module Dedupe {

  /** Positions of the `true` entries of `mask`, in increasing order. */
  function TrueIndices(mask: seq<bool>): (r: seq<nat>)
    ensures forall j :: 0 <= j < |r| ==> r[j] < |mask| && mask[r[j]]
    ensures forall i :: 0 <= i < |mask| && mask[i] ==> i in r
    ensures forall a, b :: 0 <= a < b < |r| ==> r[a] < r[b]
  {
    if |mask| == 0 then []
    else
      var p := TrueIndices(mask[..|mask| - 1]);
      if mask[|mask| - 1] then p + [|mask| - 1] else p
  }

  predicate InRange<T>(s: seq<T>, idx: seq<nat>) {
    forall j :: 0 <= j < |idx| ==> idx[j] < |s|
  }

  /** The elements of `s` at the positions `idx`. */
  function Pick<T>(s: seq<T>, idx: seq<nat>): (r: seq<T>)
    requires InRange(s, idx)
    ensures |r| == |idx|
    ensures forall j :: 0 <= j < |idx| ==> r[j] == s[idx[j]]
  {
    seq(|idx|, j requires 0 <= j < |idx| => s[idx[j]])
  }

  function Keys<T, K>(s: seq<T>, key: T -> K): (ks: seq<K>)
    ensures |ks| == |s|
    ensures forall i :: 0 <= i < |s| ==> ks[i] == key(s[i])
  {
    seq(|s|, i requires 0 <= i < |s| => key(s[i]))
  }

  /** Position `i` holds the first occurrence of its key. */
  function FirstMask<K(==)>(ks: seq<K>): (m: seq<bool>)
    ensures |m| == |ks|
    ensures forall i :: 0 <= i < |ks| ==> (m[i] <==> ks[i] !in ks[..i])
  {
    seq(|ks|, i requires 0 <= i < |ks| => ks[i] !in ks[..i])
  }

  /** Position `i` holds the last occurrence of its key. */
  function LastMask<K(==)>(ks: seq<K>): (m: seq<bool>)
    ensures |m| == |ks|
    ensures forall i :: 0 <= i < |ks| ==> (m[i] <==> ks[i] !in ks[i + 1..])
  {
    seq(|ks|, i requires 0 <= i < |ks| => ks[i] !in ks[i + 1..])
  }

  function FirstIndices<K(==)>(ks: seq<K>): seq<nat> {
    TrueIndices(FirstMask(ks))
  }

  function LastIndices<K(==)>(ks: seq<K>): seq<nat> {
    TrueIndices(LastMask(ks))
  }

  /** `keep='first'`. */
  function KeepFirst<T, K(==)>(s: seq<T>, key: T -> K): (r: seq<T>)
    ensures |r| <= |s|
    ensures forall a, b :: 0 <= a < b < |r| ==> key(r[a]) != key(r[b])
    ensures forall i :: 0 <= i < |s| ==> exists j :: 0 <= j < |r| && key(r[j]) == key(s[i])
  {
    FirstSurvivors(s, key);
    Pick(s, FirstIndices(Keys(s, key)))
  }

  /** `keep='last'`. */
  function KeepLast<T, K(==)>(s: seq<T>, key: T -> K): (r: seq<T>)
    ensures |r| <= |s|
    ensures forall a, b :: 0 <= a < b < |r| ==> key(r[a]) != key(r[b])
    ensures forall i :: 0 <= i < |s| ==> exists j :: 0 <= j < |r| && key(r[j]) == key(s[i])
  {
    LastSurvivors(s, key);
    Pick(s, LastIndices(Keys(s, key)))
  }

  lemma FirstSurvivors<T, K>(s: seq<T>, key: T -> K)
    ensures var r := Pick(s, FirstIndices(Keys(s, key)));
      && |r| <= |s|
      && (forall a, b :: 0 <= a < b < |r| ==> key(r[a]) != key(r[b]))
      && (forall i :: 0 <= i < |s| ==> exists j :: 0 <= j < |r| && key(r[j]) == key(s[i]))
  {
    IndicesBound(FirstMask(Keys(s, key)));
    FirstSurvivorsDistinct(s, key);
    FirstSurvivorsCover(s, key);
  }

  lemma FirstSurvivorsDistinct<T, K>(s: seq<T>, key: T -> K)
    ensures var r := Pick(s, FirstIndices(Keys(s, key)));
      forall a, b :: 0 <= a < b < |r| ==> key(r[a]) != key(r[b])
  {
    var ks := Keys(s, key);
    var idx := FirstIndices(ks);
    var r := Pick(s, idx);
    forall a, b | 0 <= a < b < |r|
      ensures key(r[a]) != key(r[b])
    {
      assert ks[idx[a]] in ks[..idx[b]];
    }
  }

  lemma FirstSurvivorsCover<T, K>(s: seq<T>, key: T -> K)
    ensures var r := Pick(s, FirstIndices(Keys(s, key)));
      forall i :: 0 <= i < |s| ==> exists j :: 0 <= j < |r| && key(r[j]) == key(s[i])
  {
    var ks := Keys(s, key);
    var idx := FirstIndices(ks);
    var r := Pick(s, idx);
    forall i | 0 <= i < |s|
      ensures exists j :: 0 <= j < |r| && key(r[j]) == key(s[i])
    {
      var f := FirstOccurrence(ks, i);
      var j :| 0 <= j < |idx| && idx[j] == f;
      assert key(r[j]) == ks[f];
    }
  }

  lemma LastSurvivors<T, K>(s: seq<T>, key: T -> K)
    ensures var r := Pick(s, LastIndices(Keys(s, key)));
      && |r| <= |s|
      && (forall a, b :: 0 <= a < b < |r| ==> key(r[a]) != key(r[b]))
      && (forall i :: 0 <= i < |s| ==> exists j :: 0 <= j < |r| && key(r[j]) == key(s[i]))
  {
    IndicesBound(LastMask(Keys(s, key)));
    LastSurvivorsDistinct(s, key);
    LastSurvivorsCover(s, key);
  }

  lemma LastSurvivorsDistinct<T, K>(s: seq<T>, key: T -> K)
    ensures var r := Pick(s, LastIndices(Keys(s, key)));
      forall a, b :: 0 <= a < b < |r| ==> key(r[a]) != key(r[b])
  {
    var ks := Keys(s, key);
    var idx := LastIndices(ks);
    var r := Pick(s, idx);
    forall a, b | 0 <= a < b < |r|
      ensures key(r[a]) != key(r[b])
    {
      assert ks[idx[b]] in ks[idx[a] + 1..];
    }
  }

  lemma LastSurvivorsCover<T, K>(s: seq<T>, key: T -> K)
    ensures var r := Pick(s, LastIndices(Keys(s, key)));
      forall i :: 0 <= i < |s| ==> exists j :: 0 <= j < |r| && key(r[j]) == key(s[i])
  {
    var ks := Keys(s, key);
    var idx := LastIndices(ks);
    var r := Pick(s, idx);
    forall i | 0 <= i < |s|
      ensures exists j :: 0 <= j < |r| && key(r[j]) == key(s[i])
    {
      var f := LastOccurrence(ks, i);
      var j :| 0 <= j < |idx| && idx[j] == f;
      assert key(r[j]) == ks[f];
    }
  }

  lemma {:induction false} IndicesBound(mask: seq<bool>)
    ensures |TrueIndices(mask)| <= |mask|
    decreases |mask|
  {
    if |mask| > 0 {
      IndicesBound(mask[..|mask| - 1]);
    }
  }

  /** The first position carrying the key found at `i`. */
  lemma {:induction false} FirstOccurrence<K>(ks: seq<K>, i: nat) returns (f: nat)
    requires i < |ks|
    ensures f <= i && ks[f] == ks[i] && ks[f] !in ks[..f]
    decreases i
  {
    if ks[i] in ks[..i] {
      var i' :| 0 <= i' < i && ks[i'] == ks[i];
      f := FirstOccurrence(ks, i');
    } else {
      f := i;
    }
  }

  /** The last position carrying the key found at `i`. */
  lemma {:induction false} LastOccurrence<K>(ks: seq<K>, i: nat) returns (f: nat)
    requires i < |ks|
    ensures i <= f < |ks| && ks[f] == ks[i] && ks[f] !in ks[f + 1..]
    decreases |ks| - i
  {
    if ks[i] in ks[i + 1..] {
      var k :| 0 <= k < |ks[i + 1..]| && ks[i + 1..][k] == ks[i];
      f := LastOccurrence(ks, i + 1 + k);
    } else {
      f := i;
    }
  }

  /** Survivors of `keep='first'` are the first records of their key, in
      input order. */
  lemma KeepFirstSelects<T, K>(s: seq<T>, key: T -> K)
    ensures var idx := FirstIndices(Keys(s, key));
      && InRange(s, idx)
      && KeepFirst(s, key) == Pick(s, idx)
      && (forall a, b :: 0 <= a < b < |idx| ==> idx[a] < idx[b])
      && (forall j :: 0 <= j < |idx| ==> key(s[idx[j]]) !in Keys(s, key)[..idx[j]])
      && (forall i :: 0 <= i < |s| && key(s[i]) !in Keys(s, key)[..i] ==> i in idx)
  {
    var ks := Keys(s, key);
    var m := FirstMask(ks);
    var idx := TrueIndices(m);
    assert forall j :: 0 <= j < |idx| ==> idx[j] < |m| && m[idx[j]] && ks[idx[j]] == key(s[idx[j]]);
    assert forall i :: 0 <= i < |s| && key(s[i]) !in ks[..i] ==> m[i];
  }

  /** Survivors of `keep='last'` are the last records of their key, in
      input order. */
  lemma KeepLastSelects<T, K>(s: seq<T>, key: T -> K)
    ensures var idx := LastIndices(Keys(s, key));
      && InRange(s, idx)
      && KeepLast(s, key) == Pick(s, idx)
      && (forall a, b :: 0 <= a < b < |idx| ==> idx[a] < idx[b])
      && (forall j :: 0 <= j < |idx| ==> key(s[idx[j]]) !in Keys(s, key)[idx[j] + 1..])
      && (forall i :: 0 <= i < |s| && key(s[i]) !in Keys(s, key)[i + 1..] ==> i in idx)
  {
    var ks := Keys(s, key);
    var m := LastMask(ks);
    var idx := TrueIndices(m);
    assert forall j :: 0 <= j < |idx| ==> idx[j] < |m| && m[idx[j]] && ks[idx[j]] == key(s[idx[j]]);
    assert forall i :: 0 <= i < |s| && key(s[i]) !in ks[i + 1..] ==> m[i];
  }

  /** `x` is the `i`-th of `s`, and no later element shares its key. */
  ghost predicate LastOfKey<T, K>(s: seq<T>, key: T -> K, x: T, i: int) {
    0 <= i < |s| && s[i] == x && forall i' :: i < i' < |s| ==> key(s[i']) != key(x)
  }

  /** The `j`-th survivor of `keep='last'` is an element no later element
      shares a key with. */
  lemma KeepLastAt<T, K>(s: seq<T>, key: T -> K, j: nat)
    requires j < |KeepLast(s, key)|
    ensures exists i :: LastOfKey(s, key, KeepLast(s, key)[j], i)
  {
    KeepLastSelects(s, key);
    var ks := Keys(s, key);
    var idx := LastIndices(ks);
    var i := idx[j];
    forall i' | i < i' < |s|
      ensures key(s[i']) != key(s[i])
    {
      assert ks[i'] in ks[i + 1..];
    }
    assert LastOfKey(s, key, KeepLast(s, key)[j], i);
  }

  /** Survivors are elements of the input. */
  lemma KeptFrom<T, K>(s: seq<T>, key: T -> K)
    ensures forall x :: x in KeepLast(s, key) ==> exists m :: 0 <= m < |s| && s[m] == x
  {
    KeepLastSelects(s, key);
    var idx := LastIndices(Keys(s, key));
    forall x | x in KeepLast(s, key)
      ensures exists m :: 0 <= m < |s| && s[m] == x
    {
      var j :| 0 <= j < |idx| && KeepLast(s, key)[j] == x;
      assert s[idx[j]] == x;
    }
  }

  /** Two sequences with the same key at every position lose the same
      positions. */
  lemma KeepFirstAligned<T, U, K>(s: seq<T>, ks: T -> K, t: seq<U>, kt: U -> K)
    requires Keys(s, ks) == Keys(t, kt)
    ensures |KeepFirst(s, ks)| == |KeepFirst(t, kt)|
    ensures forall j :: 0 <= j < |KeepFirst(s, ks)| ==> ks(KeepFirst(s, ks)[j]) == kt(KeepFirst(t, kt)[j])
  {
    var idx := FirstIndices(Keys(s, ks));
    assert idx == FirstIndices(Keys(t, kt));
    forall j | 0 <= j < |idx|
      ensures ks(s[idx[j]]) == kt(t[idx[j]])
    {
      assert Keys(s, ks)[idx[j]] == Keys(t, kt)[idx[j]];
    }
  }
}
