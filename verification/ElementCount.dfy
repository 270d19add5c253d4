/** src/algo/element_count.cpp: counting elements with the AVL map, then walking its nodes. */
module ElementCounts {
  import opened AvlTrees
  import opened AvlTreeArrays
  import PackedLists
  import opened ShadowLayouts

  /** Two words of meta data, the key and the value. */
  const MAP_NODE_SIZE: nat := 4

  /** The distinct elements in order of first occurrence. */
  function Distinct(s: seq<int>): (d: seq<int>)
    ensures |d| <= |s|
  {
    if s == [] then []
    else
      var rest, last := s[..|s| - 1], s[|s| - 1];
      if last in rest then Distinct(rest) else Distinct(rest) + [last]
  }

  lemma {:induction false} DistinctElements(s: seq<int>)
    ensures forall x :: x in s <==> x in Distinct(s)
    ensures forall i, j :: 0 <= i < j < |Distinct(s)| ==> Distinct(s)[i] != Distinct(s)[j]
  {
    if s != [] {
      DistinctElements(s[..|s| - 1]);
      assert s == s[..|s| - 1] + [s[|s| - 1]];
    }
  }

  /** Where an element occurs first. */
  function FirstPlace(s: seq<int>, x: int): (k: nat)
    requires x in s
    ensures k < |s| && s[k] == x && forall j :: 0 <= j < k ==> s[j] != x
  {
    if s[0] == x then 0
    else
      assert s == [s[0]] + s[1..];
      1 + FirstPlace(s[1..], x)
  }

  /** The distinct elements are in the order in which they occur first. */
  lemma {:induction false} DistinctOrder(s: seq<int>, i: nat, j: nat)
    requires i < j < |Distinct(s)|
    ensures Distinct(s)[i] in s && Distinct(s)[j] in s && FirstPlace(s, Distinct(s)[i]) < FirstPlace(s, Distinct(s)[j])
  {
    hide FirstPlace;
    var rest, last := s[..|s| - 1], s[|s| - 1];
    var d := Distinct(rest);
    DistinctElements(s);
    DistinctElements(rest);
    assert s == rest + [last];
    FirstPlaces(rest, last, Distinct(s)[i]);
    if j < |d| {
      DistinctOrder(rest, i, j);
      FirstPlaces(rest, last, Distinct(s)[j]);
    }
  }

  lemma FirstPlaces(s: seq<int>, last: int, x: int)
    requires x in s
    ensures x in s + [last] && FirstPlace(s + [last], x) == FirstPlace(s, x)
  {
    assert (s + [last])[FirstPlace(s, x)] == x;
  }

  lemma {:induction false} DistinctPrefix(s: seq<int>, n: nat)
    requires n <= |s|
    ensures Distinct(s[..n]) <= Distinct(s)
  {
    if n == |s| {
      assert s[..n] == s;
    } else {
      DistinctPrefix(s[..|s| - 1], n);
      assert s[..|s| - 1][..n] == s[..n];
    }
  }

  function Sum(s: seq<int>, counts: multiset<int>): nat {
    if s == [] then 0 else counts[s[0]] + Sum(s[1..], counts)
  }

  lemma {:induction false} SumOfDistinct(d: seq<int>, m: multiset<int>)
    requires forall i, j :: 0 <= i < j < |d| ==> d[i] != d[j]
    requires forall x :: x in m <==> x in d
    ensures Sum(d, m) == |m|
  {
    if d == [] {
      assert forall x :: x !in m;
      assert m == multiset{};
    } else {
      var x, m' := d[0], m[d[0] := 0];
      assert x !in d[1..];
      assert forall y :: y in d[1..] ==> y in d;
      SumOfDistinct(d[1..], m');
      SumSame(d[1..], m, m');
      assert |m| == |m'| + m[x] by { assert m == m' + multiset{}[x := m[x]]; }
    }
  }

  lemma {:induction false} SumSame(d: seq<int>, m: multiset<int>, m': multiset<int>)
    requires forall x :: x in d ==> m[x] == m'[x]
    ensures Sum(d, m) == Sum(d, m')
  {
    if d != [] {
      SumSame(d[1..], m, m');
      var x := d[0];
      assert x in d;
      assert m[x] == m'[x];
    }
  }

  /** The counts of the distinct elements add up to the length of the input. */
  lemma CountsAddUp(s: seq<int>)
    ensures Sum(Distinct(s), multiset(s)) == |s|
  {
    hide Sum, Distinct;
    assert forall x :: x in multiset(s) <==> x in s;
    DistinctElements(s);
    SumOfDistinct(Distinct(s), multiset(s));
  }

  /** The map holds the counts of s, its nodes in order of first occurrence. */
  ghost predicate Counted(s: seq<int>, m: map<int, int>) {
    && (forall x :: x in m <==> x in s)
    && (forall x :: x in m ==> m[x] == multiset(s)[x])
  }

  ghost predicate InOrder(d: seq<int>, t: Tree<int>, used: seq<int>) {
    |used| == |d| && forall j :: 0 <= j < |d| ==> d[j] in Contents(t) && AddressOf(t, d[j]) == used[j]
  }

  lemma CountStep(t: seq<int>, x: int, m: map<int, int>)
    requires Counted(t, m)
    ensures Counted(t + [x], m[x := if x in m then m[x] + 1 else 1])
    ensures Distinct(t + [x]) == if x in m then Distinct(t) else Distinct(t) + [x]
  {
    assert (t + [x])[..|t|] == t;
    assert multiset(t + [x]) == multiset(t)[x := multiset(t)[x] + 1];
  }

  lemma DistinctEmpty(s: seq<int>)
    ensures s == [] ==> Distinct(s) == []
  {}

  lemma WithValueAddresses(t: Tree<int>, key: int, value: int)
    ensures forall k :: AddressOf(WithValue(t, key, value), k) == AddressOf(t, k)
  {
    forall k ensures AddressOf(WithValue(t, key, value), k) == AddressOf(t, k) {
      WithValueAddressOf(t, key, value, k);
    }
  }

  /** The counts of what has been read, in the map. */
  ghost predicate Holds(counts: AvlTree<int>, t: seq<int>)
    reads counts, counts.mem, counts.mem.data, counts.mem.blocks, counts.extraData
  {
    counts.Valid() && Counted(t, Contents(counts.tree)) && InOrder(Distinct(t), counts.tree, counts.mem.used)
  }

  /** Find, then insert or increment. */
  method CountElement(counts: AvlTree<int>, element: int, ghost t: seq<int>) returns (ok: bool)
    requires Holds(counts, t)
    modifies counts, counts.mem, counts.mem.data, counts.mem.blocks, counts.extraData
    ensures ok <==> |Distinct(t + [element])| <= counts.mem.capacity
    ensures ok ==> Holds(counts, t + [element])
    ensures counts.mem.data[0] == old(counts.mem.data[0])
  {
    hide Contents, AddressOf, Addresses, Height, Balanced, Ordered, Separated, IsTree, WithValue, PackedLists.Store,
         Distinct, Counted;
    CountStep(t, element, Contents(counts.tree));
    counts.mem.BlocksConserved();
    var addr, _ := counts.Find(element);
    ok := true;
    if addr == 0 {
      ok := counts.Insert(element, 1);
    } else {
      var count := counts.mem.blocks[addr].value;
      WithValueAddresses(counts.tree, element, count + 1);
      counts.SetValue(addr, count + 1, element);
    }
  }

  /** The first leaky section */
  method CountElements(arrIn: array<int>, counts: AvlTree<int>) returns (ok: bool)
    requires counts.Valid() && Contents(counts.tree) == map[] && counts.mem.used == []
    requires arrIn != counts.mem.data && arrIn != counts.extraData
    modifies counts, counts.mem, counts.mem.data, counts.mem.blocks, counts.extraData
    ensures ok <==> |Distinct(arrIn[..])| <= counts.mem.capacity
    ensures ok ==> counts.Valid() && Counted(arrIn[..], Contents(counts.tree))
                   && InOrder(Distinct(arrIn[..]), counts.tree, counts.mem.used)
    ensures counts.mem.data[0] == old(counts.mem.data[0])
  {
    ghost var s := arrIn[..];
    DistinctEmpty(s[..0]);
    for i := 0 to arrIn.Length
      invariant Holds(counts, s[..i]) && arrIn[..] == s && counts.mem.data[0] == old(counts.mem.data[0])
    {
      hide Holds, Distinct;
      assert s[..i + 1] == s[..i] + [arrIn[i]];
      ok := CountElement(counts, arrIn[i], s[..i]);
      if !ok {
        DistinctPrefix(s, i + 1);
        return;
      }
    }
    assert s[..arrIn.Length] == s;
    counts.mem.BlocksConserved();
    ok := true;
  }

  /** The second leaky section: one pair per node, in the order of the used list. */
  method WriteCounts(counts: AvlTree<int>, result: array<int>, ghost d: seq<int>)
    requires counts.Valid() && InOrder(d, counts.tree, counts.mem.used) && result.Length == 2 * |d|
    modifies result
    requires result != counts.mem.data && result != counts.extraData
    ensures forall i :: 0 <= i < |d| ==> result[2 * i] == d[i] && result[2 * i + 1] == Contents(counts.tree)[d[i]]
  {
    hide Contents, AddressOf, Addresses, Height, Balanced, Ordered, Separated, IsTree, PackedLists.Store;
    var addr := counts.mem.BeginAddress();
    UsedPositive(counts, 0);
    var k := 0;  // the position of the output iterator, in pairs
    while addr != 0
      invariant k <= |d| && addr == if k == |d| then 0 else counts.mem.used[k]
      invariant counts.Valid() && (k < |d| ==> addr > 0)
      invariant forall i :: 0 <= i < k ==> result[2 * i] == d[i] && result[2 * i + 1] == Contents(counts.tree)[d[i]]
      decreases |d| - k
    {
      var element, count := counts.GetElement(addr, k);
      AddressOfInjective(counts.tree, element, d[k]);
      result[2 * k], result[2 * k + 1] := element, count;
      addr := counts.mem.NextAddress(addr, k);
      k := k + 1;
      UsedPositive(counts, k);
    }
  }

  lemma UsedPositive(counts: AvlTree<int>, k: nat)
    requires counts.Valid()
    ensures k < |counts.mem.used| ==> counts.mem.used[k] > 0
  {
    if k < |counts.mem.used| {
      counts.mem.UsedInRange(k);
    }
  }

  /** Counts the elements of the input; the result array receives pairs of element and count.  Two leaky
      sections: the nob arrays of the map, registered again for the second one with the length that its
      word 0 tells, and an iterator.  They open for up to 974 elements. */
  method ElementCount(arrIn: array<int>, uniqElements: nat, result: array<int>) returns (ok: bool)
    requires 2 <= uniqElements && result.Length == 2 * uniqElements && arrIn != result
    modifies result
    ensures ok <==> |Distinct(arrIn[..])| == uniqElements <= 974
    ensures ok ==> forall i :: 0 <= i < uniqElements ==>
      result[2 * i] == Distinct(arrIn[..])[i] && result[2 * i + 1] == multiset(arrIn[..])[Distinct(arrIn[..])[i]]
  {
    hide Contents, AddressOf, Addresses, Height, Balanced, Ordered, Separated, IsTree, PackedLists.Store, Distinct, Opens,
         PackedLists.Hi;
    ghost var s := arrIn[..];
    var dataLen := 3 + uniqElements * (1 + MAP_NODE_SIZE);
    OpensIff(dataLen + 2, arrIn.Length, 0);
    OpensOneWay(dataLen + 2, result.Length);
    if !Opens(Lengths(dataLen + 2, 0, arrIn.Length, 0)) {
      DistinctEmpty(s);
      return false;
    }
    var counts := new AvlTree<int>(uniqElements, MAP_NODE_SIZE);
    ok := CountElements(arrIn, counts);
    if !ok {
      return;
    }
    var size := counts.Size();
    if size != uniqElements {
      return false;
    }
    assert arrIn[..] == s;
    ok := Opens(Lengths(PackedLists.Hi(counts.mem.data[0]) + 2, 0, 0, result.Length));
    if ok {
      WriteCounts(counts, result, Distinct(s));
    }
  }
}
