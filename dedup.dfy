/**
 * De-duplication by key followed by validation, the shape of the cleaning
 * loop: a row is kept when its key is non-empty, no earlier row has the same
 * key, and the validation turns it into an output row. Stated once over any
 * row type, with the key and the validation as parameters.
 */
module Dedup {
  import opened Wrappers

  /** No row before position `k` has the key of row `k`. */
  predicate FirstOccurrence<R>(xs: seq<R>, key: R -> string, k: nat)
    requires k < |xs|
  {
    forall j :: 0 <= j < k ==> key(xs[j]) != key(xs[k])
  }

  /** Row `k` is kept. */
  predicate Survives<R, C>(xs: seq<R>, key: R -> string, check: R -> Option<C>, k: nat)
    requires k < |xs|
  {
    key(xs[k]) != [] && FirstOccurrence(xs, key, k) && check(xs[k]).Some?
  }

  /** The kept rows, in input order, defined one row at a time from the front. */
  function Select<R, C>(xs: seq<R>, key: R -> string, check: R -> Option<C>): (ys: seq<C>)
    ensures |ys| <= |xs|
    decreases |xs|
  {
    if xs == [] then []
    else
      var k := |xs| - 1;
      Select(xs[..k], key, check) + if Survives(xs, key, check, k) then [check(xs[k]).value] else []
  }

  /** The non-empty keys among the first `i` rows, kept or not. */
  function Seen<R>(xs: seq<R>, key: R -> string, i: nat): set<string>
    requires i <= |xs|
  {
    if i == 0 then {}
    else
      var t := key(xs[i - 1]);
      Seen(xs, key, i - 1) + if t != [] then {t} else {}
  }

  /** `Seen` holds exactly the non-empty keys of the first `i` rows. */
  lemma {:induction false} SeenMembers<R>(xs: seq<R>, key: R -> string, i: nat)
    requires i <= |xs|
    ensures forall x :: x in Seen(xs, key, i) <==> x != [] && exists j :: 0 <= j < i && key(xs[j]) == x
  {
    if i > 0 {
      SeenMembers(xs, key, i - 1);
    }
  }

  /** Whether a row survives does not depend on the rows after it. */
  lemma SurvivesPrefix<R, C>(xs: seq<R>, key: R -> string, check: R -> Option<C>, m: nat, k: nat)
    requires k < m <= |xs|
    ensures Survives(xs[..m], key, check, k) == Survives(xs, key, check, k)
  {
    var pre := xs[..m];
    assert forall j :: 0 <= j <= k ==> pre[j] == xs[j];
    assert FirstOccurrence(pre, key, k) == FirstOccurrence(xs, key, k);
  }

  /** SurvivesPrefix for every row of the prefix, with its rows named. */
  lemma SurvivesPrefixAll<R, C>(xs: seq<R>, key: R -> string, check: R -> Option<C>, m: nat)
    requires m <= |xs|
    ensures forall k :: 0 <= k < m ==> xs[..m][k] == xs[k]
    ensures forall k :: 0 <= k < m ==> Survives(xs[..m], key, check, k) == Survives(xs, key, check, k)
  {
    forall k | 0 <= k < m
      ensures Survives(xs[..m], key, check, k) == Survives(xs, key, check, k)
    {
      SurvivesPrefix(xs, key, check, m, k);
    }
  }

  /**
   * One more row: it is kept exactly when its key is non-empty, not yet
   * seen, and it validates; the key joins the seen set whenever it is
   * non-empty, whether or not the row validates.
   */
  lemma SelectStep<R, C>(xs: seq<R>, key: R -> string, check: R -> Option<C>, i: nat)
    requires i < |xs|
    ensures Select(xs[..i + 1], key, check)
            == Select(xs[..i], key, check)
               + if key(xs[i]) != [] && key(xs[i]) !in Seen(xs, key, i) && check(xs[i]).Some?
                 then [check(xs[i]).value] else []
    ensures Seen(xs, key, i + 1) == if key(xs[i]) != [] then Seen(xs, key, i) + {key(xs[i])} else Seen(xs, key, i)
  {
    var pre := xs[..i + 1];
    assert pre[..i] == xs[..i];
    assert pre[i] == xs[i];
    assert FirstOccurrence(pre, key, i) == FirstOccurrence(xs, key, i) by {
      assert forall j :: 0 <= j <= i ==> pre[j] == xs[j];
    }
    SeenMembers(xs, key, i);
  }

  /**
   * Where each kept row comes from: the kept rows are, in input order,
   * exactly the validated forms of the surviving rows, so they form a
   * subsequence of the input.
   */
  function Origins<R, C>(xs: seq<R>, key: R -> string, check: R -> Option<C>): (idx: seq<nat>)
    ensures |idx| == |Select(xs, key, check)|
    ensures forall t :: 0 <= t < |idx| ==>
              (idx[t] < |xs| && Survives(xs, key, check, idx[t]) && Select(xs, key, check)[t] == check(xs[idx[t]]).value)
    ensures forall s, t :: 0 <= s < t < |idx| ==> idx[s] < idx[t]
    ensures forall k :: 0 <= k < |xs| && Survives(xs, key, check, k) ==> k in idx
    decreases |xs|
  {
    if xs == [] then []
    else
      var n := |xs| - 1;
      var p := Origins(xs[..n], key, check);
      SurvivesPrefixAll(xs, key, check, n);
      var q := Select(xs[..n], key, check);
      if Survives(xs, key, check, n) then
        assert Select(xs, key, check) == q + [check(xs[n]).value];
        assert forall t :: 0 <= t < |p| ==> (p + [n])[t] == p[t];
        p + [n]
      else
        assert Select(xs, key, check) == q;
        p
  }

  /** When validation preserves the key, kept rows have pairwise distinct keys. */
  lemma SelectKeysDistinct<R, C>(xs: seq<R>, key: R -> string, check: R -> Option<C>, outKey: C -> string)
    requires forall r :: check(r).Some? ==> outKey(check(r).value) == key(r)
    ensures var ys := Select(xs, key, check);
            forall a, b :: 0 <= a < b < |ys| ==> outKey(ys[a]) != outKey(ys[b])
  {
    var ys := Select(xs, key, check);
    var idx := Origins(xs, key, check);
    forall a, b | 0 <= a < b < |ys|
      ensures outKey(ys[a]) != outKey(ys[b])
    {
      assert FirstOccurrence(xs, key, idx[b]);
      assert key(xs[idx[a]]) != key(xs[idx[b]]);
    }
  }

  /**
   * The first row with a key decides for the key: when it fails validation,
   * no kept row carries that key, however valid a later duplicate is.
   */
  lemma RejectedFirstShadows<R, C>(xs: seq<R>, key: R -> string, check: R -> Option<C>, outKey: C -> string, k: nat)
    requires forall r :: check(r).Some? ==> outKey(check(r).value) == key(r)
    requires k < |xs| && key(xs[k]) != [] && FirstOccurrence(xs, key, k) && check(xs[k]).None?
    ensures forall y :: y in Select(xs, key, check) ==> outKey(y) != key(xs[k])
  {
    var ys := Select(xs, key, check);
    var idx := Origins(xs, key, check);
    forall t | 0 <= t < |ys|
      ensures outKey(ys[t]) != key(xs[k])
    {
      var m := idx[t];
      assert FirstOccurrence(xs, key, m);
      if m < k {
        assert key(xs[m]) != key(xs[k]);
      } else if k < m {
        assert key(xs[k]) != key(xs[m]);
      }
    }
  }
}
