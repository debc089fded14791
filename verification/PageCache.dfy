/** The bounded page cache of `src/pager.rs`: CLOCK, with one reference bit per slot. One shard. */
module PageCache {
  import opened Options

  datatype Slot<T> = Slot(id: nat, page: T, referenced: bool)

  /** The slot j places after h on a ring of n. */
  function Ring(h: nat, j: nat, n: nat): (i: nat)
    requires h < n && j <= n
    ensures i < n
  {
    if h + j < n then h + j else h + j - n
  }

  /**
    The CLOCK rule.  The hand passed k slots, each with its bit set, and cleared those
    bits and nothing else; the slot it stops at has its bit clear.
  */
  ghost predicate SecondChance<T>(before: seq<Slot<T>>, hand: nat, k: nat, after: seq<Slot<T>>) {
    var n := |before|;
    && hand < n && k <= n && |after| == n
    && (forall j :: 0 <= j < k ==> before[Ring(hand, j, n)].referenced)
    && (forall j :: 0 <= j < k ==> after[Ring(hand, j, n)] == before[Ring(hand, j, n)].(referenced := false))
    && (forall j :: k <= j < n ==> after[Ring(hand, j, n)] == before[Ring(hand, j, n)])
    && !after[Ring(hand, k, n)].referenced
  }

  /** Sweeping changes bits only. */
  ghost predicate SamePages<T>(before: seq<Slot<T>>, after: seq<Slot<T>>) {
    && |before| == |after|
    && forall i :: 0 <= i < |after| ==> after[i].id == before[i].id && after[i].page == before[i].page
  }

  class PageCache<T(==)> {
    var slots: seq<Slot<T>>
    var index: map<nat, nat>
    var hand: nat
    const cap: nat

    /** `index` and `slots` are inverse to each other, and there are at most `cap` slots. */
    ghost predicate Valid()
      reads this
    {
      && 1 <= cap && |slots| <= cap && hand < cap && (|slots| < cap ==> hand == 0)
      && (forall i :: 0 <= i < |slots| ==> slots[i].id in index && index[slots[i].id] == i)
      && (forall id :: id in index ==> index[id] < |slots| && slots[index[id]].id == id)
    }

    /** Which page each cached id has. */
    ghost function Contents(): (r: map<nat, T>)
      reads this
      requires Valid()
    {
      map id | id in index :: slots[index[id]].page
    }

    constructor (capacity: nat)
      ensures Valid() && Contents() == map[] && cap == if capacity == 0 then 1 else capacity
    {
      cap := if capacity == 0 then 1 else capacity;
      slots := [];
      index := map[];
      hand := 0;
    }

    method Get(id: nat) returns (r: Option<T>)
      requires Valid()
      modifies this
      ensures Valid() && Contents() == old(Contents()) && index == old(index) && hand == old(hand)
      ensures r == if id in Contents() then Some(Contents()[id]) else None
      ensures r.Some? ==> slots == old(slots)[index[id] := old(slots)[index[id]].(referenced := true)]
      ensures r.None? ==> slots == old(slots)
    {
      if id !in index {
        return None;
      }
      var i := index[id];
      slots := slots[i := slots[i].(referenced := true)];
      r := Some(slots[i].page);
    }

    /**
      Where the entry goes: its own slot, a new one, or the slot of the CLOCK victim,
      which alone is forgotten.
    */
    method Insert(id: nat, page: T) returns (ghost k: nat, ghost swept: seq<Slot<T>>)
      requires Valid()
      modifies this
      ensures Valid() && id in Contents() && Contents()[id] == page
      ensures forall other :: other in Contents() && other != id ==>
        other in old(Contents()) && Contents()[other] == old(Contents()[other])
      ensures id in old(index) || |old(slots)| < cap ==> old(Contents().Keys) <= Contents().Keys && hand == old(hand)
      ensures id in old(index) ==>
        slots == old(slots)[old(index[id]) := old(slots[index[id]]).(page := page, referenced := true)]
      ensures id !in old(index) && |old(slots)| < cap ==> slots == old(slots) + [Slot(id, page, false)]
      ensures id !in old(index) && |old(slots)| == cap ==>
        && SecondChance(old(slots), old(hand), k, swept) && hand == (Ring(old(hand), k, cap) + 1) % cap
        && slots == swept[Ring(old(hand), k, cap) := Slot(id, page, false)]
        && Contents().Keys == old(Contents().Keys) - {old(slots)[Ring(old(hand), k, cap)].id} + {id}
    {
      k, swept := 0, slots;
      if id in index {
        var i := index[id];
        slots := slots[i := slots[i].(page := page, referenced := true)];
        return;
      }
      if |slots| < cap {
        index := index[id := |slots|];
        slots := slots + [Slot(id, page, false)];
        return;
      }
      k, swept := InsertOverVictim(id, page);
    }

    /** A full cache: the victim's slot is taken over, and the hand moves on. */
    method InsertOverVictim(id: nat, page: T) returns (ghost k: nat, ghost swept: seq<Slot<T>>)
      requires Valid() && id !in index && |slots| == cap
      modifies this
      ensures Valid() && id in Contents() && Contents()[id] == page
      ensures forall other :: other in Contents() && other != id ==>
        other in old(Contents()) && Contents()[other] == old(Contents()[other])
      ensures SecondChance(old(slots), old(hand), k, swept) && hand == (Ring(old(hand), k, cap) + 1) % cap
      ensures slots == swept[Ring(old(hand), k, cap) := Slot(id, page, false)]
      ensures Contents().Keys == old(Contents().Keys) - {old(slots)[Ring(old(hand), k, cap)].id} + {id}
    {
      k := FindVictim();
      swept := slots;
      label Swept:
      assert Contents() == old(Contents());
      var i := hand;
      hand := (hand + 1) % cap;
      Replace(i, id, page);
      assert old@Swept(slots[i]).id == old(slots)[i].id;
    }

    /** Slot i changes owner, in `slots` and in `index` at once. */
    method Replace(i: nat, id: nat, page: T)
      requires Valid() && id !in index && i < |slots|
      modifies this`slots, this`index
      ensures Valid() && id in Contents() && Contents()[id] == page
      ensures slots == old(slots)[i := Slot(id, page, false)]
      ensures Contents().Keys == old(Contents().Keys) - {old(slots)[i].id} + {id}
      ensures forall other :: other in Contents() && other != id ==>
        other in old(Contents()) && Contents()[other] == old(Contents()[other])
    {
      ghost var victim := slots[i].id;
      index := (index - {slots[i].id})[id := i];
      slots := slots[i := Slot(id, page, false)];
      assert index.Keys == old(index.Keys) - {victim} + {id};
    }

    /** The hand goes round at most once before it finds a slot with its bit clear. */
    method FindVictim() returns (ghost k: nat)
      requires Valid() && |slots| == cap
      modifies this`slots, this`hand
      ensures Valid() && SecondChance(old(slots), old(hand), k, slots) && SamePages(old(slots), slots)
      ensures hand == Ring(old(hand), k, cap)
    {
      k := 0;
      ghost var before, h := slots, hand;
      while slots[hand].referenced
        invariant k <= cap == |slots| && hand == Ring(h, k, cap) && SamePages(before, slots)
        invariant before == old(slots) && h == old(hand)
        invariant k > 0 ==> !slots[h].referenced
        invariant forall j :: 0 <= j < k ==> before[Ring(h, j, cap)].referenced
        invariant forall j :: 0 <= j < k ==> slots[Ring(h, j, cap)] == before[Ring(h, j, cap)].(referenced := false)
        invariant forall j :: k <= j < cap ==> slots[Ring(h, j, cap)] == before[Ring(h, j, cap)]
        decreases cap - k
      {
        RingIsInjective(h, k, cap);
        assert k < cap;
        slots := slots[hand := slots[hand].(referenced := false)];
        hand := (hand + 1) % cap;
        k := k + 1;
      }
    }
  }

  lemma RingIsInjective(h: nat, k: nat, n: nat)
    requires h < n && k <= n
    ensures forall j :: 0 <= j < n && j != k && (k < n || j != 0) ==> Ring(h, j, n) != Ring(h, k, n)
    ensures k < n ==> Ring(h, k + 1, n) == (Ring(h, k, n) + 1) % n
    ensures Ring(h, n, n) == h
  {
  }
}
