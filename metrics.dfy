/** The server's total data usage: the sum of every value of the
    `bytesTransferredByUserId` map reported by the management API. */
module Metrics {

  /** Some key of a non-empty map; the sum below does not depend on which. */
  ghost function AnyKey(m: map<string, nat>): (k: string)
    requires m != map[]
    ensures k in m
  {
    var k :| k in m; k
  }

  /** The sum of all values of `m`, an empty map summing to zero. */
  ghost function MapSum(m: map<string, nat>): (sum: nat)
    decreases |m|
  {
    if m == map[] then 0
    else
      var k := AnyKey(m);
      assert |m - {k}| < |m| by { assert m.Keys - {k} < m.Keys; }
      m[k] + MapSum(m - {k})
  }

  /** Any key may be taken out first: the sum is independent of the order in
      which the values are added up. */
  lemma {:induction false} MapSumRemove(m: map<string, nat>, k: string)
    requires k in m
    ensures MapSum(m) == m[k] + MapSum(m - {k})
    decreases |m|
  {
    var j := AnyKey(m);
    if j != k {
      assert m - {j} - {k} == m - {k} - {j};
      assert |m - {j}| < |m| by { assert (m - {j}).Keys < m.Keys; }
      assert |m - {k}| < |m| by { assert (m - {k}).Keys < m.Keys; }
      MapSumRemove(m - {j}, k);
      MapSumRemove(m - {k}, j);
    }
  }

  /** Adding a new user's bytes adds them to the total. */
  lemma MapSumInsert(m: map<string, nat>, k: string, v: nat)
    requires k !in m
    ensures MapSum(m[k := v]) == MapSum(m) + v
  {
    MapSumRemove(m[k := v], k);
    assert m[k := v] - {k} == m;
  }

  /** No single user's usage exceeds the total. */
  lemma MapSumBound(m: map<string, nat>, k: string)
    requires k in m
    ensures m[k] <= MapSum(m)
  {
    MapSumRemove(m, k);
  }

  /** `{u1: 100, u2: 250}` sums to 350, and the empty map to 0. */
  lemma MapSumExample()
    ensures MapSum(map["u1" := 100, "u2" := 250]) == 350
    ensures MapSum(map[]) == 0
  {
    var m := map["u1" := 100, "u2" := 250];
    MapSumRemove(m, "u1");
    assert m - {"u1"} == map["u2" := 250];
    MapSumRemove(map["u2" := 250], "u2");
    assert map["u2" := 250] - {"u2"} == map[];
  }

  /** `Object.values(bytesTransferredByUserId).reduce((a, b) => a + b, 0)`. */
  method TotalUsage(bytesTransferredByUserId: map<string, nat>) returns (total: nat)
    ensures total == MapSum(bytesTransferredByUserId)
  {
    total := 0;
    var rest := bytesTransferredByUserId;
    while rest != map[]
      invariant total + MapSum(rest) == MapSum(bytesTransferredByUserId)
      decreases |rest|
    {
      var k :| k in rest;
      MapSumRemove(rest, k);
      total := total + rest[k];
      assert (rest - {k}).Keys < rest.Keys;
      rest := rest - {k};
    }
  }
}
