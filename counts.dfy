/** Counter tables keyed by strings: `std::map<string, int>` and the nested
    `std::map<string, std::map<string, int>>` of the classifier, and their
    sums over keys. */
module Counts {
  import opened Text

  /** A lookup that does not insert (`find`): a missing key counts 0. */
  function Get(m: map<Bytes, int>, k: Bytes): int {
    if k in m then m[k] else 0
  }

  /** The inner table of `outer` for `k`, empty when `k` is missing. */
  function Row(outer: map<Bytes, map<Bytes, int>>, k: Bytes): map<Bytes, int> {
    if k in outer then outer[k] else map[]
  }

  /** `outer[k][k2]` read without inserting: `find` on the outer table,
      then on the row found; 0 when either lookup misses. */
  function Get2(outer: map<Bytes, map<Bytes, int>>, k: Bytes, k2: Bytes): (n: int)
    ensures k in outer && k2 in outer[k] ==> n == outer[k][k2]
    ensures !(k in outer && k2 in outer[k]) ==> n == 0
  {
    Get(Row(outer, k), k2)
  }

  /** `m[k]++`: `operator[]` inserts a zero for a missing key first. */
  function Bump(m: map<Bytes, int>, k: Bytes): (r: map<Bytes, int>)
    ensures r.Keys == m.Keys + {k}
    ensures r[k] == Get(m, k) + 1
    ensures forall j :: j != k ==> Get(r, j) == Get(m, j)
  {
    m[k := Get(m, k) + 1]
  }

  /** `outer[k][k2]++`: both levels of `operator[]` insert missing keys. */
  function Bump2(outer: map<Bytes, map<Bytes, int>>, k: Bytes, k2: Bytes): (r: map<Bytes, map<Bytes, int>>)
    ensures r.Keys == outer.Keys + {k}
    ensures Row(r, k).Keys == Row(outer, k).Keys + {k2}
    ensures Get2(r, k, k2) == Get2(outer, k, k2) + 1
    ensures forall j, j2 :: (j != k || j2 != k2) ==> Get2(r, j, j2) == Get2(outer, j, j2)
  {
    outer[k := Bump(Row(outer, k), k2)]
  }

  /** `m[k]++` once for each key `k` of `ks`. */
  function BumpAll(m: map<Bytes, int>, ks: set<Bytes>): (r: map<Bytes, int>)
    ensures r.Keys == m.Keys + ks
  {
    map k | k in m.Keys + ks :: Get(m, k) + if k in ks then 1 else 0
  }

  /** Bumping the keys of a set one at a time bumps each of them once. */
  lemma BumpAllInsert(m: map<Bytes, int>, ks: set<Bytes>, k: Bytes)
    requires k !in ks
    ensures BumpAll(m, ks + {k}) == Bump(BumpAll(m, ks), k)
  {
  }

  /** `outer[k][k2]++` once for each `k2` of `ks`: the row of `k` is
      created only when there is something to count in it. */
  function BumpRow(outer: map<Bytes, map<Bytes, int>>, k: Bytes, ks: set<Bytes>): map<Bytes, map<Bytes, int>> {
    if ks == {} then outer else outer[k := BumpAll(Row(outer, k), ks)]
  }

  lemma BumpRowInsert(outer: map<Bytes, map<Bytes, int>>, k: Bytes, ks: set<Bytes>, k2: Bytes)
    requires k2 !in ks
    ensures
      BumpRow(outer, k, ks + {k2}) == Bump2(BumpRow(outer, k, ks), k, k2)
  {
    BumpAllInsert(Row(outer, k), ks, k2);
    if ks == {} {
      assert BumpAll(Row(outer, k), {}) == Row(outer, k);
    }
  }

  /** The inner tables of `outer` read at one inner key: the column `k2`. */
  function Column(outer: map<Bytes, map<Bytes, int>>, k2: Bytes): (c: map<Bytes, int>)
    ensures c.Keys == outer.Keys
  {
    map k | k in outer :: Get(outer[k], k2)
  }

  /** Replacing one inner table changes its column in one entry. */
  lemma ColumnOfUpdate(outer: map<Bytes, map<Bytes, int>>, k: Bytes, row: map<Bytes, int>, k2: Bytes)
    ensures Column(outer[k := row], k2) == Column(outer, k2)[k := Get(row, k2)]
  {
  }

  /** Some element of a non-empty set. */
  ghost function Pick(s: set<Bytes>): (x: Bytes)
    requires s != {}
    ensures x in s
  {
    var x :| x in s; x
  }

  /** The sum of the values of `m`. */
  ghost function Total(m: map<Bytes, int>): int
    decreases |m|
  {
    if m == map[] then 0
    else var k := Pick(m.Keys); m[k] + Total(m - {k})
  }

  /** The sum does not depend on which key is taken out first. */
  lemma {:induction false} TotalRemove(m: map<Bytes, int>, k: Bytes)
    requires k in m
    ensures Total(m) == m[k] + Total(m - {k})
    decreases |m|
  {
    var j := Pick(m.Keys);
    if j != k {
      assert (m - {j}) - {k} == (m - {k}) - {j};
      TotalRemove(m - {j}, k);
      TotalRemove(m - {k}, j);
    }
  }

  /** Setting one entry changes the sum by the difference. */
  lemma TotalUpdate(m: map<Bytes, int>, k: Bytes, v: int)
    ensures Total(m[k := v]) == Total(m) - Get(m, k) + v
  {
    TotalRemove(m[k := v], k);
    if k in m {
      assert m[k := v] - {k} == m - {k};
      TotalRemove(m, k);
    } else {
      assert m[k := v] - {k} == m;
    }
  }

  /** The product of two reals, as a named function: products of equal
      factors are then equal by congruence, without arithmetic reasoning. */
  function Mul(a: real, b: real): real {
    a * b
  }

  /** Multiplying by one more factor at the end equals taking it into the
      inner product. */
  lemma MulRotate(a: real, b: real, c: real)
    ensures Mul(Mul(a, b), c) == Mul(a, Mul(c, b))
  {
  }

  /** The product of the values of `m`. */
  ghost function Product(m: map<Bytes, real>): real
    decreases |m|
  {
    if m == map[] then 1.0
    else var k := Pick(m.Keys); Mul(m[k], Product(m - {k}))
  }

  /** The product does not depend on which key is taken out first. */
  lemma {:induction false} ProductRemove(m: map<Bytes, real>, k: Bytes)
    requires k in m
    ensures Product(m) == Mul(m[k], Product(m - {k}))
    decreases |m|
  {
    var j := Pick(m.Keys);
    if j != k {
      var rest := m - {j} - {k};
      assert m - {k} - {j} == rest;
      calc {
        Product(m);
        Mul(m[j], Product(m - {j}));
        { ProductRemove(m - {j}, k); }
        Mul(m[j], Mul(m[k], Product(rest)));
        { MulSwap(m[j], m[k], Product(rest)); }
        Mul(m[k], Mul(m[j], Product(rest)));
        { ProductRemove(m - {k}, j); }
        Mul(m[k], Product(m - {k}));
      }
    }
  }

  /** Adding an entry multiplies the product by its value. */
  lemma ProductInsert(m: map<Bytes, real>, k: Bytes, v: real)
    requires k !in m
    ensures Product(m[k := v]) == Mul(v, Product(m))
  {
    assert m[k := v] - {k} == m;
    ProductRemove(m[k := v], k);
  }

  lemma MulSwap(a: real, b: real, c: real)
    ensures Mul(a, Mul(b, c)) == Mul(b, Mul(a, c))
  {
  }

  /** A product of probabilities is a probability. */
  lemma {:induction false} ProductOfProbabilities(m: map<Bytes, real>)
    requires forall k :: k in m ==> 0.0 < m[k] <= 1.0
    ensures 0.0 < Product(m) <= 1.0
    decreases |m|
  {
    if m != map[] {
      var k := Pick(m.Keys);
      ProductOfProbabilities(m - {k});
      MulProbabilities(m[k], Product(m - {k}));
    }
  }

  lemma MulProbabilities(a: real, b: real)
    requires 0.0 < a <= 1.0 && 0.0 < b <= 1.0
    ensures 0.0 < Mul(a, b) <= 1.0
  {
    assert a * b <= 1.0 * b;
  }
}
