// The order in which a java.util.HashMap with Integer keys hands out its
// entries. The table starts at 16 slots and doubles whenever the number of
// keys passes three quarters of it; a key goes to the slot given by the low
// bits of its hash spread as h ^ (h >>> 16); iteration walks the slots in
// turn, and within a slot the keys in the order they were first put
// (a resize splits a slot's list without reordering it, and putting a key
// again replaces its value in place).
module JavaHashMap {

  predicate Distinct(s: seq<int>)
  {
    forall j, j' :: 0 <= j < j' < |s| ==> s[j] != s[j']
  }

  // The slots of a table after it has taken n distinct keys: the smallest
  // doubling of 16 whose three quarters is at least n.
  function TableSize(n: nat): (c: nat)
    ensures c >= 16 && 4 * n <= 3 * c
    ensures c == 16 || 3 * c < 8 * n
  {
    Grow(n, 16)
  }

  function Grow(n: nat, c: nat): (r: nat)
    requires c >= 16
    ensures r >= c && 4 * n <= 3 * r
    ensures r == c || 3 * r < 8 * n
    decreases 4 * n - 3 * c
  {
    if 4 * n <= 3 * c then c else Grow(n, 2 * c)
  }

  // Bitwise exclusive or of two naturals.
  function Xor(a: nat, b: nat): nat
  {
    if b == 0 then a
    else if a == 0 then b
    else 2 * Xor(a / 2, b / 2) + (a + b) % 2
  }

  // Integer.hashCode is the value itself, taken as a 32-bit word; HashMap
  // mixes its upper half into the lower one (h ^ (h >>> 16)).
  function Spread(q: int): (s: nat)
    ensures 0 <= q < 0x1_0000 ==> s == q
  {
    var h := q % 0x1_0000_0000;
    Xor(h, h / 0x1_0000)
  }

  // The slot of key q in a table of c slots (c is a power of two, so this
  // is the hash masked by c - 1).
  function Slot(q: int, c: nat): (b: nat)
    requires c > 0
    ensures b < c
  {
    Spread(q) % c
  }

  // The keys of slot b, in the order they were first put.
  function InSlot(order: seq<int>, c: nat, b: nat): seq<int>
    requires c > 0
  {
    if |order| == 0 then []
    else
      var q := order[|order| - 1];
      InSlot(order[..|order| - 1], c, b) + (if Slot(q, c) == b then [q] else [])
  }

  // The keys of slots b .. c - 1, slot by slot.
  function FromSlot(order: seq<int>, c: nat, b: nat): seq<int>
    requires c > 0
    decreases c - b
  {
    if b >= c then [] else InSlot(order, c, b) + FromSlot(order, c, b + 1)
  }

  // The iteration order of a map whose keys were first put in the given
  // order.
  function IterationOrder(order: seq<int>): seq<int>
  {
    FromSlot(order, TableSize(|order|), 0)
  }

  lemma {:induction false} InSlotMembers(order: seq<int>, c: nat, b: nat)
    requires c > 0
    ensures forall q :: q in InSlot(order, c, b) <==> q in order && Slot(q, c) == b
    ensures Distinct(order) ==> Distinct(InSlot(order, c, b))
  {
    if |order| > 0 {
      var init := order[..|order| - 1];
      InSlotMembers(init, c, b);
      assert order == init + [order[|order| - 1]];
    }
  }

  lemma {:induction false} FromSlotMembers(order: seq<int>, c: nat, b: nat)
    requires c > 0
    ensures forall q :: q in FromSlot(order, c, b) <==> q in order && b <= Slot(q, c)
    decreases c - b
  {
    if b < c {
      InSlotMembers(order, c, b);
      FromSlotMembers(order, c, b + 1);
    }
  }

  lemma {:induction false} FromSlotDistinct(order: seq<int>, c: nat, b: nat)
    requires c > 0 && Distinct(order)
    ensures Distinct(FromSlot(order, c, b))
    decreases c - b
  {
    if b < c {
      InSlotMembers(order, c, b);
      FromSlotMembers(order, c, b + 1);
      FromSlotDistinct(order, c, b + 1);
      var s, t := InSlot(order, c, b), FromSlot(order, c, b + 1);
      assert FromSlot(order, c, b) == s + t;
      forall j, j' | 0 <= j < j' < |s + t| ensures (s + t)[j] != (s + t)[j'] {
        if j < |s| && j' >= |s| {
          assert (s + t)[j] == s[j] && (s + t)[j'] == t[j' - |s|];
          assert Slot(s[j], c) == b && Slot(t[j' - |s|], c) > b;
        } else if j >= |s| {
          assert (s + t)[j] == t[j - |s|] && (s + t)[j'] == t[j' - |s|];
        } else {
          assert (s + t)[j] == s[j] && (s + t)[j'] == s[j'];
        }
      }
    }
  }

  // Iteration hands out each key once, and every key.
  lemma IterationOrderPermutes(order: seq<int>)
    requires Distinct(order)
    ensures Distinct(IterationOrder(order))
    ensures forall q :: q in IterationOrder(order) <==> q in order
  {
    FromSlotMembers(order, TableSize(|order|), 0);
    FromSlotDistinct(order, TableSize(|order|), 0);
  }

  // Keys below the table size each have a slot of their own: such a map
  // hands them out in ascending order, whatever order they were put in.
  lemma SmallKeysAscend(order: seq<int>)
    requires Distinct(order)
    requires TableSize(|order|) <= 0x1_0000
    requires forall j :: 0 <= j < |order| ==> 0 <= order[j] < TableSize(|order|)
    ensures forall j, j' :: 0 <= j < j' < |IterationOrder(order)| ==> IterationOrder(order)[j] < IterationOrder(order)[j']
  {
    SlotsAscend(order, TableSize(|order|), 0);
  }

  lemma {:induction false} SlotsAscend(order: seq<int>, c: nat, b: nat)
    requires 0 < c <= 0x1_0000 && Distinct(order)
    requires forall j :: 0 <= j < |order| ==> 0 <= order[j] < c
    ensures forall j :: 0 <= j < |FromSlot(order, c, b)| ==> b <= FromSlot(order, c, b)[j]
    ensures forall j, j' :: 0 <= j < j' < |FromSlot(order, c, b)| ==> FromSlot(order, c, b)[j] < FromSlot(order, c, b)[j']
    decreases c - b
  {
    if b < c {
      SlotsAscend(order, c, b + 1);
      var s := SmallSlot(order, c, b);
      var t := FromSlot(order, c, b + 1);
      assert FromSlot(order, c, b) == s + t;
      forall j, j' | 0 <= j < j' < |s + t| ensures (s + t)[j] < (s + t)[j'] {
        if j' >= |s| {
          assert (s + t)[j'] == t[j' - |s|];
        }
      }
    }
  }

  lemma SlotOfSmall(q: int, c: nat)
    requires 0 <= q < c <= 0x1_0000
    ensures Slot(q, c) == q
  {
    assert Spread(q) == q;
    SmallRemainder(q, c);
  }

  lemma SmallRemainder(q: int, c: int)
    requires 0 <= q < c
    ensures q % c == q
  {
    assert q == 0 * c + q;
  }

  // With keys below the table size, slot b holds no key but b.
  lemma SmallSlot(order: seq<int>, c: nat, b: nat) returns (s: seq<int>)
    requires 0 < c <= 0x1_0000 && Distinct(order)
    requires forall j :: 0 <= j < |order| ==> 0 <= order[j] < c
    ensures s == InSlot(order, c, b)
    ensures Distinct(s) && forall j :: 0 <= j < |s| ==> s[j] == b
  {
    s := InSlot(order, c, b);
    InSlotMembers(order, c, b);
    forall j | 0 <= j < |s| ensures s[j] == b {
      assert s[j] in InSlot(order, c, b);
      var i :| 0 <= i < |order| && order[i] == s[j];
      SlotOfSmall(s[j], c);
    }
  }
}
