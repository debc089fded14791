/** Parts of a list: the items at some of its places, in the order they have there. */
module Selections {
  /** Places in a list of n, in order and each once. */
  ghost predicate Places(ks: seq<nat>, n: nat) {
    (forall i :: 0 <= i < |ks| ==> ks[i] < n) && forall i, j :: 0 <= i < j < |ks| ==> ks[i] < ks[j]
  }

  /** Places in a list's tail as places in the list; the first one too, if it is wanted. */
  function Consed(first: bool, ks: seq<nat>): (r: seq<nat>)
    ensures |r| == |ks| + if first then 1 else 0
  {
    (if first then [0] else []) + seq(|ks|, i requires 0 <= i < |ks| => ks[i] + 1)
  }

  /** The places where `yes` is true. */
  ghost predicate AreTrue(ks: seq<nat>, yes: seq<bool>) {
    Places(ks, |yes|) && forall k: nat :: k in ks <==> k < |yes| && yes[k]
  }

  lemma InConsed(first: bool, ks: seq<nat>, k: nat)
    ensures k in Consed(first, ks) <==> if k == 0 then first else k - 1 in ks
  {
    var r, d := Consed(first, ks), if first then 1 else 0;
    if k in r {
      var i :| 0 <= i < |r| && r[i] == k;
      assert i >= d ==> ks[i - d] == k - 1;
    }
    if k > 0 && k - 1 in ks {
      var i :| 0 <= i < |ks| && ks[i] == k - 1;
      assert r[i + d] == k;
    }
    assert first ==> r[0] == 0;
  }

  lemma ConsedAreTrue(first: bool, rest: seq<bool>, ks: seq<nat>)
    requires AreTrue(ks, rest)
    ensures AreTrue(Consed(first, ks), [first] + rest)
  {
    var yes := [first] + rest;
    forall k: nat
      ensures k in Consed(first, ks) <==> k < |yes| && yes[k]
    {
      hide Consed;
      InConsed(first, ks, k);
      assert k > 0 && k < |yes| ==> yes[k] == rest[k - 1];
      assert k > 0 ==> (k - 1 in ks <==> k - 1 < |rest| && rest[k - 1]);
    }
  }

  /** The items at those places. */
  ghost predicate Picks<T>(items: seq<T>, ks: seq<nat>, out: seq<T>) {
    Places(ks, |items|) && |out| == |ks| && forall i :: 0 <= i < |ks| ==> out[i] == items[ks[i]]
  }

  lemma ConsedPicks<T>(item: T, rest: seq<T>, first: bool, ks: seq<nat>, out: seq<T>)
    requires Picks(rest, ks, out)
    ensures Picks([item] + rest, Consed(first, ks), (if first then [item] else []) + out)
  {
  }

  ghost function Sifted<T>(items: seq<T>, yes: seq<bool>): (r: seq<T>)
    requires |yes| == |items|
  {
    if items == [] then [] else (if yes[0] then [items[0]] else []) + Sifted(items[1..], yes[1..])
  }

  lemma {:induction false} SiftedPicks<T>(items: seq<T>, yes: seq<bool>) returns (ks: seq<nat>)
    requires |yes| == |items|
    ensures AreTrue(ks, yes) && Picks(items, ks, Sifted(items, yes))
  {
    hide AreTrue, Picks, Consed;
    if items == [] {
      ks := [];
      PickNothing<T>();
    } else {
      var at := SiftedPicks(items[1..], yes[1..]);
      ks := Consed(yes[0], at);
      ConsedAreTrue(yes[0], yes[1..], at);
      ConsedPicks(items[0], items[1..], yes[0], at, Sifted(items[1..], yes[1..]));
      assert [items[0]] + items[1..] == items && [yes[0]] + yes[1..] == yes;
    }
  }

  lemma PickNothing<T>()
    ensures AreTrue([], []) && Picks<T>([], [], [])
  {
  }
}
