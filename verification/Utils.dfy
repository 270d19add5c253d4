/** `swap` and `fisher_yates_shuffle` of include/utils.h, with the random numbers as an argument. */
module Utils {
  function Swapped<T>(s: seq<T>, i: nat, j: nat): (r: seq<T>)
    requires i < |s| && j < |s|
    ensures |r| == |s| && r[i] == s[j] && r[j] == s[i]
    ensures forall k :: 0 <= k < |s| && k != i && k != j ==> r[k] == s[k]
  {
    s[i := s[j]][j := s[i]]
  }

  /** The swaps draw from all n elements, and there is none for the last element. */
  predicate Draws(js: seq<nat>, n: nat) {
    |js| == (if n == 0 then 0 else n - 1) && forall i :: 0 <= i < |js| ==> js[i] < n
  }

  /** After the first swaps, element i with element js[i]. */
  function Shuffled<T>(s: seq<T>, js: seq<nat>): (r: seq<T>)
    requires |js| <= |s| && forall i :: 0 <= i < |js| ==> js[i] < |s|
    ensures |r| == |s|
    decreases |js|
  {
    if js == [] then s else Swapped(Shuffled(s, js[..|js| - 1]), |js| - 1, js[|js| - 1])
  }

  lemma ShuffledOnce<T>(s: seq<T>)
    ensures Shuffled(s, []) == s
  {}

  lemma NextSwap<T>(s: seq<T>, js: seq<nat>, j: nat)
    requires |js| < |s| && j < |s| && forall i :: 0 <= i < |js| ==> js[i] < |s|
    ensures Shuffled(s, js + [j]) == Swapped(Shuffled(s, js), |js|, j)
  {
    assert (js + [j])[..|js|] == js;
  }

  lemma {:induction false} ShuffledKeeps<T>(s: seq<T>, js: seq<nat>)
    requires |js| <= |s| && forall i :: 0 <= i < |js| ==> js[i] < |s|
    ensures multiset(Shuffled(s, js)) == multiset(s)
    decreases |js|
  {
    if js != [] {
      ShuffledKeeps(s, js[..|js| - 1]);
    }
  }

  lemma SameRest<T>(s: seq<T>, t: seq<T>, n: nat)
    requires multiset(s) == multiset(t) && n <= |s| && n <= |t| && s[..n] == t[..n]
    ensures multiset(s[n..]) == multiset(t[n..]) && |s| == |t|
  {
    assert s == s[..n] + s[n..] && t == t[..n] + t[n..];
    assert multiset(s[n..]) == multiset(s) - multiset(s[..n]);
    assert multiset(t[n..]) == multiset(t) - multiset(t[..n]);
    assert |multiset(s)| == |s| && |multiset(t)| == |t|;
  }

  lemma PlaceOf<T>(s: seq<T>, x: T) returns (j: nat)
    requires x in multiset(s)
    ensures j < |s| && s[j] == x
  {
    j :| 0 <= j < |s| && s[j] == x;
  }

  /** The first n elements come out as in t, if the right numbers are drawn. */
  lemma {:induction false} FirstArranged<T>(s: seq<T>, t: seq<T>, n: nat) returns (js: seq<nat>)
    requires multiset(s) == multiset(t) && |s| == |t| && n <= |s|
    ensures |js| == n && forall i :: 0 <= i < |js| ==> js[i] < |s|
    ensures Shuffled(s, js)[..n] == t[..n]
  {
    hide Shuffled;
    js := [];
    if n > 0 {
      js := FirstArranged(s, t, n - 1);
      var cur := Shuffled(s, js);
      ShuffledKeeps(s, js);
      SameRest(cur, t, n - 1);
      assert t[n - 1] == t[n - 1..][0];
      var j := PlaceOf(cur[n - 1..], t[n - 1]);
      NextSwap(s, js, n - 1 + j);
      js := js + [n - 1 + j];
    }
  }

  /** Every arrangement of the elements can be drawn, and nothing else. */
  lemma ShuffleReaches<T>(s: seq<T>, t: seq<T>)
    ensures multiset(s) == multiset(t) <==> exists js :: Draws(js, |s|) && Shuffled(s, js) == t
  {
    hide Shuffled;
    if multiset(s) == multiset(t) {
      SameRest(s, t, 0);
      var n := if s == [] then 0 else |s| - 1;
      var js := FirstArranged(s, t, n);
      ShuffledKeeps(s, js);
      SameRest(Shuffled(s, js), t, n);
      LastElement(Shuffled(s, js), t, n);
      assert Draws(js, |s|) && Shuffled(s, js) == t;
    }
    forall js | Draws(js, |s|) && Shuffled(s, js) == t ensures multiset(s) == multiset(t) {
      ShuffledKeeps(s, js);
    }
  }

  lemma LastElement<T>(s: seq<T>, t: seq<T>, n: nat)
    requires |s| == |t| <= n + 1 && n <= |s| && s[..n] == t[..n] && multiset(s[n..]) == multiset(t[n..])
    ensures s == t
  {
    if n < |s| {
      assert s == s[..n] + [s[n]] && t == t[..n] + [t[n]];
      var j := PlaceOf(s[n..], t[n..][0]);
    }
  }

  method FisherYatesShuffle<T>(arr: array<T>, js: seq<nat>)
    requires Draws(js, arr.Length)
    modifies arr
    ensures arr[..] == Shuffled(old(arr[..]), js)
  {
    var i := 0;
    while i < arr.Length - 1
      invariant 0 <= i <= |js| && arr[..] == Shuffled(old(arr[..]), js[..i])
    {
      assert js[..i + 1][..i] == js[..i];
      arr[i], arr[js[i]] := arr[js[i]], arr[i];
      i := i + 1;
    }
    assert js[..|js|] == js;
  }
}
