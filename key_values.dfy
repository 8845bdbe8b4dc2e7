/** MyHttp.getMap: a map from a flat key, value, key, value, ... argument list. */
module KeyValues {
  import opened Wrappers

  /** The pairs of an even-length list put into a map from left to right. */
  function PairsMap(kvs: seq<string>): map<string, string>
    requires |kvs| % 2 == 0
  {
    if kvs == [] then map[]
    else PairsMap(kvs[..|kvs| - 2])[kvs[|kvs| - 2] := kvs[|kvs| - 1]]
  }

  /** getMap's test for an argument list it refuses: null, empty or of odd length. */
  predicate Malformed(kvs: Option<seq<string>>) {
    kvs.None? || |kvs.value| == 0 || |kvs.value| % 2 == 1
  }

  /**
   * getMap(kvs...): None (Java's null) for a malformed argument list,
   * otherwise the map that puts each key kvs[i] (i even) to kvs[i + 1] in turn.
   */
  method GetMap(kvs: Option<seq<string>>) returns (r: Option<map<string, string>>)
    ensures r.None? <==> Malformed(kvs)
    ensures r.Some? ==> r.value == PairsMap(kvs.value)
  {
    if kvs.Some? && |kvs.value| > 0 && |kvs.value| % 2 == 0 {
      var a := kvs.value;
      var rq: map<string, string> := map[];
      var i := 0;
      while i < |a|
        invariant 0 <= i <= |a| && i % 2 == 0
        invariant rq == PairsMap(a[..i])
      {
        assert a[..i + 2][..i] == a[..i];
        rq := rq[a[i] := a[i + 1]];
        // the loop header's i++ and the ++i inside the body
        i := i + 2;
      }
      assert a[..i] == a;
      return Some(rq);
    }
    return None;
  }

  /** The keys of the map are exactly the elements at even positions. */
  lemma {:induction false} PairsMapKeys(kvs: seq<string>, k: string)
    requires |kvs| % 2 == 0
    ensures k in PairsMap(kvs) <==> exists i :: 0 <= i < |kvs| && i % 2 == 0 && kvs[i] == k
  {
    if kvs != [] {
      var n := |kvs|;
      var front := kvs[..n - 2];
      PairsMapKeys(front, k);
      if k in PairsMap(front) {
        var i :| 0 <= i < |front| && i % 2 == 0 && front[i] == k;
        assert kvs[i] == k;
      }
      if exists i :: 0 <= i < n && i % 2 == 0 && kvs[i] == k {
        var i :| 0 <= i < n && i % 2 == 0 && kvs[i] == k;
        if i < n - 2 {
          assert front[i] == k;
        }
      }
    }
  }

  /**
   * A key maps to the value that follows its last occurrence: a later
   * duplicate overwrites an earlier one.
   */
  lemma {:induction false} PairsMapLastWins(kvs: seq<string>, i: nat)
    requires |kvs| % 2 == 0 && i < |kvs| && i % 2 == 0
    requires forall j :: i < j < |kvs| && j % 2 == 0 ==> kvs[j] != kvs[i]
    ensures kvs[i] in PairsMap(kvs) && PairsMap(kvs)[kvs[i]] == kvs[i + 1]
  {
    var n := |kvs|;
    if i < n - 2 {
      var front := kvs[..n - 2];
      forall j | i < j < |front| && j % 2 == 0
        ensures front[j] != front[i]
      {
        assert front[j] == kvs[j];
      }
      PairsMapLastWins(front, i);
      assert kvs[n - 2] != kvs[i];
    }
  }
}
