/**
 * The password generator (web/generator.js): rejection sampling, Fisher-Yates, and the classes of a password.
 */
module Generator {
  import opened Wrappers
  import opened Bits
  import opened JsInt
  import opened Modular
  import opened Sequences
  import Strings

  const WORDS: nat := 0x1_0000_0000

  // ---- randomInt ----

  function Limit(max: nat): nat
    requires max > 0
  {
    WORDS / max * max
  }

  /** The words below bound that give the residue r. */
  ghost function WordsFor(bound: nat, max: nat, r: nat): set<nat>
    requires r < max
  {
    set x: nat | x < bound && x % max == r
  }

  /** One more round of max words has one more word with the residue r. */
  lemma NextRound(low: nat, q: nat, max: nat, r: nat)
    requires r < max && low == q * max
    ensures WordsFor(low + max, max, r) == WordsFor(low, max, r) + {low + r}
  {
    ModUnique(low + r, max, q, r);
    var more, less := WordsFor(low + max, max, r), WordsFor(low, max, r) + {low + r};
    forall x | x in more ensures x in less {
      if low <= x {
        ModUnique(x, max, q, x - low);
      }
    }
    assert more == less;
  }

  lemma {:induction false} CountWords(q: nat, max: nat, r: nat)
    requires r < max
    ensures |WordsFor(q * max, max, r)| == q
  {
    if q == 0 {
      assert WordsFor(0, max, r) == {};
    } else {
      hide WordsFor;
      CountWords(q - 1, max, r);
      var low := (q - 1) * max;
      Distribute(q - 1, 1, max);
      NextRound(low, q - 1, max, r);
      BelowLow(low, max, r);
    }
  }

  lemma BelowLow(low: nat, max: nat, r: nat)
    requires r < max
    ensures low + r !in WordsFor(low, max, r)
  {
  }

  predicate Accepted(x: u32, max: nat)
    requires max > 0
  {
    x < Limit(max)
  }

  /** Every residue is given by exactly floor(2^32 / max) of the accepted words. */
  lemma Unbiased(max: nat, r: nat)
    requires r < max
    ensures Limit(max) <= WORDS
    ensures |WordsFor(Limit(max), max, r)| == WORDS / max
  {
    CountWords(WORDS / max, max, r);
    LimitValue(max);
  }

  lemma LimitValue(max: nat)
    requires max > 0
    ensures Limit(max) == WORDS - WORDS % max
  {
  }

  /** Some word is accepted if and only if max is at most 2^32; beyond that the loop never ends. */
  lemma SomeWordAccepted(max: nat)
    requires max > 0
    ensures (exists x :: Accepted(x, max)) <==> max <= WORDS
  {
    LimitValue(max);
    if max <= WORDS {
      AtLeastOnce(max, WORDS / max);
      assert Accepted(0, max);
    } else {
      assert WORDS / max == 0 && Limit(max) == 0;
    }
  }

  /** The words that getRandomValues gives, one after the other. */
  class RandomSource {
    const words: seq<u32>
    var pos: nat

    constructor (words: seq<u32>)
      ensures this.words == words && pos == 0
    {
      this.words, pos := words, 0;
    }

    ghost predicate Valid()
      reads this
    {
      pos <= |words|
    }

    ghost predicate Spent()
      reads this
    {
      pos == |words|
    }

    /** Draws words until one is accepted: the first accepted word decides; none is left over if there is no such word. */
    method RandomInt(max: nat) returns (r: Option<nat>)
      requires Valid() && max > 0
      modifies this
      ensures Valid() && pos >= old(pos)
      ensures r.Some? ==> pos > old(pos) && Accepted(words[pos - 1], max) && r.value == words[pos - 1] % max < max
      ensures forall k :: old(pos) <= k < (if r.Some? then pos - 1 else pos) ==> !Accepted(words[k], max)
      ensures r.None? ==> Spent()
    {
      var limit := WORDS / max * max;
      while pos < |words|
        invariant old(pos) <= pos <= |words|
        invariant forall k :: old(pos) <= k < pos ==> !Accepted(words[k], max)
      {
        var x := words[pos];
        pos := pos + 1;
        if x < limit {
          return Some(x % max);
        }
      }
      r := None;
    }
  }

  // ---- Fisher-Yates ----

  function Swap<T>(s: seq<T>, i: nat, j: nat): (r: seq<T>)
    requires i < |s| && j < |s|
    ensures |r| == |s| && multiset(r) == multiset(s)
  {
    s[i := s[j]][j := s[i]]
  }

  /** One index for every step: the step for position i, from the last down to 1, draws from 0..i. */
  predicate Indices(n: nat, js: seq<nat>) {
    |js| == (if n == 0 then 0 else n - 1) && Steps(n, js)
  }

  predicate Steps(n: nat, js: seq<nat>) {
    forall k :: 0 <= k < |js| ==> js[k] < n - k
  }

  /** The elements after the first steps. */
  function Partly<T>(s: seq<T>, js: seq<nat>): (r: seq<T>)
    requires Steps(|s|, js)
    ensures |r| == |s|
  {
    if js == [] then s
    else
      var k := |js| - 1;
      assert js[k] < |s| - k;
      Swap(Partly(s, js[..k]), |s| - 1 - k, js[k])
  }

  /** What the shuffle makes of s when it draws the indices js. */
  function Shuffled<T>(s: seq<T>, js: seq<nat>): (r: seq<T>)
    requires Indices(|s|, js)
    ensures |r| == |s|
    decreases |s|
  {
    if |s| <= 1 then s
    else
      var i := |s| - 1;
      var t := Swap(s, i, js[0]);
      Shuffled(t[..i], js[1..]) + [t[i]]
  }

  predicate Distinct<T(==)>(s: seq<T>) {
    forall i, j :: 0 <= i < j < |s| ==> s[i] != s[j]
  }

  lemma {:induction false} ShuffledUnfolds<T>(s: seq<T>, js: seq<nat>)
    requires Indices(|s|, js) && |s| > 1
    ensures |js| == |s| - 1 && js[0] < |s| && Indices(|s| - 1, js[1..])
    ensures var i := |s| - 1;
            Shuffled(s, js) == Shuffled(Swap(s, i, js[0])[..i], js[1..]) + [Swap(s, i, js[0])[i]]
  {
    hide Swap;
  }

  ghost predicate Permuted<T>(s: seq<T>, t: seq<T>) {
    multiset(s) == multiset(t)
  }

  lemma PermutedSwap<T>(rest: seq<T>, s: seq<T>, i: nat, j: nat)
    requires j < |s| && i == |s| - 1 && Permuted(rest, Swap(s, i, j)[..i])
    ensures Permuted(rest + [Swap(s, i, j)[i]], s)
  {
    var t := Swap(s, i, j);
    assert t == t[..i] + [t[i]];
  }

  lemma {:induction false} ShufflePermuted<T>(s: seq<T>, js: seq<nat>)
    requires Indices(|s|, js)
    ensures Permuted(Shuffled(s, js), s)
    decreases |s|
  {
    if |s| > 1 {
      hide Swap, Shuffled, Indices, Permuted;
      ShuffledUnfolds(s, js);
      var i := |s| - 1;
      ShufflePermuted(Swap(s, i, js[0])[..i], js[1..]);
      PermutedSwap(Shuffled(Swap(s, i, js[0])[..i], js[1..]), s, i, js[0]);
    }
  }

  lemma {:induction false} ShufflePermutes<T>(s: seq<T>, js: seq<nat>)
    requires Indices(|s|, js)
    ensures multiset(Shuffled(s, js)) == multiset(s)
  {
    ShufflePermuted(s, js);
  }

  lemma SwapDistinct<T>(s: seq<T>, j: nat)
    requires Distinct(s) && j < |s|
    ensures Distinct(Swap(s, |s| - 1, j)[..|s| - 1])
  {
  }

  /** Different indices give different orders. */
  lemma {:induction false} ShuffleInjective<T>(s: seq<T>, js: seq<nat>, ks: seq<nat>)
    requires Distinct(s) && Indices(|s|, js) && Indices(|s|, ks)
    requires Shuffled(s, js) == Shuffled(s, ks)
    ensures js == ks
    decreases |s|
  {
    if |s| > 1 {
      hide Swap, Shuffled, Distinct, Steps;
      var i := |s| - 1;
      ShuffledParts(s, js);
      ShuffledParts(s, ks);
      DistinctAt(s, js[0], ks[0]);
      var t := Swap(s, i, js[0]);
      SwapDistinct(s, js[0]);
      ShuffleInjective(t[..i], js[1..], ks[1..]);
      assert js == [js[0]] + js[1..] && ks == [ks[0]] + ks[1..];
    }
  }

  /** The last element is settled by the first index, the others by the rest. */
  lemma {:induction false} ShuffledParts<T>(s: seq<T>, js: seq<nat>)
    requires |s| > 1 && Indices(|s|, js)
    ensures var i := |s| - 1;
            && js[0] < |s| && Indices(i, js[1..])
            && Shuffled(s, js)[i] == s[js[0]]
            && Shuffled(s, js)[..i] == Shuffled(Swap(s, i, js[0])[..i], js[1..])
  {
  }

  lemma DistinctAt<T>(s: seq<T>, i: nat, j: nat)
    requires Distinct(s) && i < |s| && j < |s| && s[i] == s[j]
    ensures i == j
  {
  }

  /** Every order of the elements is reached by some indices. */
  lemma {:induction false} ShuffleSurjective<T>(s: seq<T>, t: seq<T>) returns (js: seq<nat>)
    requires multiset(s) == multiset(t)
    ensures Indices(|s|, js) && Shuffled(s, js) == t
    decreases |s|
  {
    hide Swap, Steps, Shuffled;
    SameLength(s, t);
    if |s| <= 1 {
      js := [];
      OnlyOrder(s, t);
    } else {
      var i := |s| - 1;
      var j := LastSource(s, t);
      SwapEnds(s, i, j);
      var more := ShuffleSurjective(Swap(s, i, j)[..i], t[..i]);
      js := [j] + more;
      ShuffledFirst(s, j, more);
      assert t == t[..i] + [t[i]];
    }
  }

  lemma {:induction false} OnlyOrder<T>(s: seq<T>, t: seq<T>)
    requires multiset(s) == multiset(t) && |s| == |t| <= 1
    ensures Indices(|s|, []) && Shuffled(s, []) == t
  {
    if |s| == 1 {
      var j := SameElement(s, t, 0);
    }
  }

  lemma {:induction false} ShuffledFirst<T>(s: seq<T>, j: nat, more: seq<nat>)
    requires |s| > 1 && j < |s| && Indices(|s| - 1, more)
    ensures Indices(|s|, [j] + more)
    ensures var i := |s| - 1;
            Shuffled(s, [j] + more) == Shuffled(Swap(s, i, j)[..i], more) + [Swap(s, i, j)[i]]
  {
    hide Swap, Steps;
    FirstStep(|s|, j, more);
    assert ([j] + more)[1..] == more;
  }

  lemma FirstStep(n: nat, j: nat, more: seq<nat>)
    requires j < n && Indices(n - 1, more) && n > 1
    ensures Indices(n, [j] + more)
  {
  }

  lemma LastSource<T>(s: seq<T>, t: seq<T>) returns (j: nat)
    requires multiset(s) == multiset(t) && |s| == |t| > 0
    ensures j < |s| && s[j] == t[|t| - 1]
    ensures multiset(Swap(s, |s| - 1, j)[..|s| - 1]) == multiset(t[..|t| - 1])
  {
    var i := |s| - 1;
    j := SameElement(s, t, i);
    hide Swap;
    SwapEnds(s, i, j);
    WithoutLast(Swap(s, i, j));
    WithoutLast(t);
  }

  lemma SameElement<T>(s: seq<T>, t: seq<T>, i: nat) returns (j: nat)
    requires multiset(s) == multiset(t) && i < |t|
    ensures j < |s| && s[j] == t[i]
  {
    assert t[i] in multiset(t);
    assert t[i] in multiset(s);
    j :| 0 <= j < |s| && s[j] == t[i];
  }

  lemma SwapEnds<T>(s: seq<T>, i: nat, j: nat)
    requires i < |s| && j < |s|
    ensures Swap(s, i, j)[i] == s[j] && Swap(s, i, j)[j] == s[i]
  {
  }

  lemma WithoutLast<T>(s: seq<T>)
    requires |s| > 0
    ensures multiset(s) == multiset(s[..|s| - 1]) + multiset{s[|s| - 1]}
    ensures multiset(s[..|s| - 1]) == multiset(s) - multiset{s[|s| - 1]}
  {
    assert s == s[..|s| - 1] + [s[|s| - 1]];
  }

  /** The index sequences correspond one to one to the orders of distinct elements. */
  lemma ShuffleBijective<T(!new)>(s: seq<T>, t: seq<T>) returns (js: seq<nat>)
    requires Distinct(s) && multiset(s) == multiset(t)
    ensures Indices(|s|, js) && Shuffled(s, js) == t
    ensures forall ks :: Indices(|s|, ks) && Shuffled(s, ks) == t ==> ks == js
  {
    hide Indices, Shuffled, Distinct;
    js := ShuffleSurjective(s, t);
    forall ks | Indices(|s|, ks) && Shuffled(s, ks) == t ensures ks == js {
      ShuffleInjective(s, js, ks);
    }
  }

  lemma SameLength<T>(s: seq<T>, t: seq<T>)
    requires multiset(s) == multiset(t)
    ensures |s| == |t|
  {
    assert |multiset(s)| == |s| && |multiset(t)| == |t|;
  }

  /** In how many ways accepted words, one for each step, give these indices. */
  ghost function Ways(n: nat, js: seq<nat>): nat
    requires Indices(n, js)
  {
    if n <= 1 then 1 else |WordsFor(Limit(n), n, js[0])| * Ways(n - 1, js[1..])
  }

  ghost function Prefixed(w: nat, b: set<seq<nat>>): set<seq<nat>> {
    set more | more in b :: [w] + more
  }

  ghost function Product(a: set<nat>, b: set<seq<nat>>): set<seq<nat>> {
    set w, more | w in a && more in b :: [w] + more
  }

  /** The sequences of accepted words, one for each step, that give these indices. */
  ghost function Draws(n: nat, js: seq<nat>): set<seq<nat>>
    requires Indices(n, js)
  {
    if n <= 1 then {[]} else Product(WordsFor(Limit(n), n, js[0]), Draws(n - 1, js[1..]))
  }

  lemma PrefixedHas(w: nat, b: set<seq<nat>>, x: seq<nat>)
    ensures x in Prefixed(w, b) <==> x != [] && x[0] == w && x[1..] in b
  {
    if x != [] {
      assert x == [x[0]] + x[1..];
    }
    if x in Prefixed(w, b) {
      var more :| more in b && x == [w] + more;
      assert x[1..] == more;
    }
  }

  lemma ProductHas(a: set<nat>, b: set<seq<nat>>, x: seq<nat>)
    ensures x in Product(a, b) <==> x != [] && x[0] in a && x[1..] in b
  {
    if x != [] {
      assert x == [x[0]] + x[1..];
    }
    if x in Product(a, b) {
      var w, more :| w in a && more in b && x == [w] + more;
      assert x[0] == w && x[1..] == more;
    }
  }

  /** Such a sequence has an accepted word for each index, and the index is the word's residue. */
  lemma {:induction false} DrawsAre(n: nat, js: seq<nat>, words: seq<nat>)
    requires Indices(n, js)
    ensures words in Draws(n, js) <==>
              |words| == |js| && forall k :: 0 <= k < |js| ==> words[k] < Limit(n - k) && words[k] % (n - k) == js[k]
    decreases n
  {
    hide Limit, Product;
    if n > 1 {
      ProductHas(WordsFor(Limit(n), n, js[0]), Draws(n - 1, js[1..]), words);
      if words != [] {
        DrawsAre(n - 1, js[1..], words[1..]);
        assert forall k :: 0 < k < |words| ==> words[k] == words[1..][k - 1];
        assert forall k :: 0 < k < |js| ==> js[k] == js[1..][k - 1];
        assert forall k :: 0 <= k < |words| - 1 ==> words[1..][k] == words[k + 1];
        assert forall k :: 0 <= k < |js| - 1 ==> js[1..][k] == js[k + 1];
      }
    }
  }

  lemma {:induction false} PrefixedSize(w: nat, b: set<seq<nat>>)
    ensures |Prefixed(w, b)| == |b|
    decreases |b|
  {
    if b == {} {
      assert Prefixed(w, b) == {};
    } else {
      hide Prefixed;
      var m :| m in b;
      var rest := b - {m};
      PrefixedSize(w, rest);
      forall x ensures x in Prefixed(w, b) <==> x in Prefixed(w, rest) + {[w] + m} {
        PrefixedHas(w, b, x);
        PrefixedHas(w, rest, x);
        assert x == [w] + m <==> x != [] && x[0] == w && x[1..] == m;
      }
      assert Prefixed(w, b) == Prefixed(w, rest) + {[w] + m};
      PrefixedHas(w, rest, [w] + m);
    }
  }

  lemma ProductSplits(a: set<nat>, b: set<seq<nat>>, w: nat)
    requires w in a
    ensures Product(a, b) == Prefixed(w, b) + Product(a - {w}, b) && Prefixed(w, b) !! Product(a - {w}, b)
  {
    hide Product, Prefixed;
    forall x ensures x in Product(a, b) <==> x in Prefixed(w, b) || x in Product(a - {w}, b)
      ensures !(x in Prefixed(w, b) && x in Product(a - {w}, b))
    {
      ProductHas(a, b, x);
      ProductHas(a - {w}, b, x);
      PrefixedHas(w, b, x);
    }
  }

  lemma NoProduct(b: set<seq<nat>>)
    ensures Product({}, b) == {}
  {
  }

  lemma {:induction false} ProductSize(a: set<nat>, b: set<seq<nat>>)
    ensures |Product(a, b)| == |a| * |b|
    decreases |a|
  {
    hide Product, Prefixed;
    if a == {} {
      NoProduct(b);
    } else {
      var w :| w in a;
      var rest := a - {w};
      ProductSplits(a, b, w);
      ProductSize(rest, b);
      PrefixedSize(w, b);
      assert |a| == |rest| + 1;
      Distribute(|rest|, 1, |b|);
    }
  }

  /** Ways counts them. */
  lemma {:induction false} WaysCounts(n: nat, js: seq<nat>)
    requires Indices(n, js)
    ensures |Draws(n, js)| == Ways(n, js)
    decreases n
  {
    hide Limit, WordsFor, Product;
    if n > 1 {
      WaysCounts(n - 1, js[1..]);
      ProductSize(WordsFor(Limit(n), n, js[0]), Draws(n - 1, js[1..]));
    }
  }

  /** The same number of ways leads to every order of n elements. */
  lemma {:induction false} OrdersEquallyLikely(n: nat, js: seq<nat>, ks: seq<nat>)
    requires Indices(n, js) && Indices(n, ks)
    ensures |Draws(n, js)| == |Draws(n, ks)|
  {
    WaysCounts(n, js);
    WaysCounts(n, ks);
    SameWays(n, js, ks);
  }

  lemma {:induction false} SameWays(n: nat, js: seq<nat>, ks: seq<nat>)
    requires Indices(n, js) && Indices(n, ks)
    ensures Ways(n, js) == Ways(n, ks)
  {
    hide WordsFor, Limit;
    if n > 1 {
      Unbiased(n, js[0]);
      Unbiased(n, ks[0]);
      SameWays(n - 1, js[1..], ks[1..]);
    }
  }

  /** Doing the first step first, or as the recursion has it, makes no difference. */
  lemma {:induction false} PartlyFirst<T>(s: seq<T>, js: seq<nat>)
    requires 0 < |js| < |s| && Steps(|s|, js)
    ensures var t := Swap(s, |s| - 1, js[0]);
            Partly(s, js) == Partly(t[..|s| - 1], js[1..]) + [t[|s| - 1]]
    decreases |js|
  {
    hide Swap, Steps, Partly;
    var n, k := |s|, |js| - 1;
    StepsParts(n, js);
    var t := Swap(s, n - 1, js[0]);
    PartlyUnfolds(s, js);
    if k == 0 {
      assert js[..0] == [] && js[1..] == [];
      PartlyNothing(s);
      PartlyNothing(t[..n - 1]);
      assert t == t[..n - 1] + [t[n - 1]];
    } else {
      var before := js[..k];
      PartlyFirst(s, before);
      assert before[1..] == js[1..][..k - 1] && before[0] == js[0];
      assert js[1..][k - 1] == js[k];
      PartlyUnfolds(t[..n - 1], js[1..]);
      SwapInPrefix(Partly(t[..n - 1], before[1..]), t[n - 1], n - 1 - k, js[k]);
    }
  }

  lemma StepsParts(n: nat, js: seq<nat>)
    requires Steps(n, js) && 0 < |js| < n
    ensures js[0] < n && Steps(n - 1, js[1..]) && Steps(n, js[..|js| - 1]) && js[|js| - 1] < n - (|js| - 1)
  {
    assert forall k :: 0 <= k < |js| - 1 ==> js[1..][k] == js[k + 1];
  }

  /** One more step. */
  lemma {:induction false} PartlyNext<T>(s: seq<T>, js: seq<nat>, j: nat)
    requires Steps(|s|, js) && |js| < |s| && j < |s| - |js|
    ensures Steps(|s|, js + [j]) && Partly(s, js + [j]) == Swap(Partly(s, js), |s| - 1 - |js|, j)
  {
    hide Swap;
    StepsNext(|s|, js, j);
    hide Steps;
    var all := js + [j];
    assert all[..|all| - 1] == js && all[|all| - 1] == j;
    PartlyUnfolds(s, all);
  }

  lemma StepsNext(n: nat, js: seq<nat>, j: nat)
    requires Steps(n, js) && |js| < n && j < n - |js|
    ensures Steps(n, js + [j])
  {
  }

  lemma {:induction false} PartlyUnfolds<T>(s: seq<T>, js: seq<nat>)
    requires js != [] && Steps(|s|, js)
    ensures var k := |js| - 1;
            Steps(|s|, js[..k]) && js[k] < |s| - k && Partly(s, js) == Swap(Partly(s, js[..k]), |s| - 1 - k, js[k])
  {
  }

  lemma SwapInPrefix<T>(s: seq<T>, last: T, i: nat, j: nat)
    requires i < |s| && j < |s|
    ensures Swap(s + [last], i, j) == Swap(s, i, j) + [last]
  {
  }

  lemma {:induction false} PartlyIsShuffled<T>(s: seq<T>, js: seq<nat>)
    requires Indices(|s|, js)
    ensures Partly(s, js) == Shuffled(s, js)
    decreases |s|
  {
    hide Partly;
    if |s| > 1 {
      PartlyFirst(s, js);
      PartlyIsShuffled(Swap(s, |s| - 1, js[0])[..|s| - 1], js[1..]);
    } else {
      PartlyNothing(s);
    }
  }

  lemma {:induction false} PartlyNothing<T>(s: seq<T>)
    ensures Steps(|s|, []) && Partly(s, []) == s
  {
  }

  /** The loop, in place. Without enough words it stops early, with the elements still all there. */
  method Shuffle<T>(a: array<T>, source: RandomSource) returns (ghost js: seq<nat>, done: bool)
    requires source.Valid()
    modifies a, source
    ensures source.Valid()
    ensures multiset(a[..]) == multiset(old(a[..]))
    ensures !done ==> source.Spent()
    ensures done ==> Indices(a.Length, js) && a[..] == Shuffled(old(a[..]), js)
  {
    hide Swap, Steps, Partly;
    js := [];
    var i := a.Length - 1;
    PartlyNothing(a[..]);
    while i > 0
      invariant source.Valid() && (a.Length > 0 ==> 0 <= i) && |js| == a.Length - 1 - i <= a.Length
      invariant Steps(a.Length, js) && a[..] == Partly(old(a[..]), js)
      invariant multiset(a[..]) == multiset(old(a[..]))
    {
      var j := source.RandomInt(i + 1);
      if j.None? {
        return js, false;
      }
      PartlyNext(old(a[..]), js, j.value);
      SwapCells(a, i, j.value);
      js := js + [j.value];
      i := i - 1;
    }
    PartlyIsShuffled(old(a[..]), js);
    done := true;
  }

  method SwapCells<T>(a: array<T>, i: nat, j: nat)
    requires i < a.Length && j < a.Length
    modifies a
    ensures a[..] == Swap(old(a[..]), i, j)
  {
    var tmp := a[i];
    a[i] := a[j];
    a[j] := tmp;
  }

  // ---- generatePassword ----

  const AMBIGUOUS := "iIlL1oO0"
  const UPPER := "ABCDEFGHIJKLMNOPQRSTUVWXYZ"
  const LOWER := "abcdefghijklmnopqrstuvwxyz"
  const DIGITS := "0123456789"
  const SYMBOLS := "!@#$%^&*()-_=+[]{};:,.?"

  datatype Options = Options(length: int, upper: bool, lower: bool, digits: bool, symbols: bool, avoidAmbiguous: bool)

  function Strip(s: string): (r: string)
    ensures forall c :: c in r <==> c in s && c !in AMBIGUOUS
  {
    if s == "" then "" else (if s[0] in AMBIGUOUS then "" else [s[0]]) + Strip(s[1..])
  }

  function Letters(o: Options, s: string): string {
    if o.avoidAmbiguous then Strip(s) else s
  }

  predicate Ascending(s: string, first: char, n: nat) {
    |s| == n && forall k :: 0 <= k < n ==> s[k] as int == first as int + k
  }

  /** Neither a letter nor a digit. */
  predicate Sign(c: char) {
    '!' <= c < '0' || '9' < c < 'A' || 'Z' < c < 'a' || 'z' < c <= '~'
  }

  /** The classes are the alphabet twice, the ten digits and signs; signs are never taken for letters or digits. */
  lemma Alphabets()
    ensures Ascending(UPPER, 'A', 26) && Ascending(LOWER, 'a', 26) && Ascending(DIGITS, '0', 10)
    ensures forall c :: c in SYMBOLS ==> Sign(c) && c !in AMBIGUOUS
  {
    UpperAscends();
    LowerAscends();
    DigitsAscend();
    Signs();
  }

  lemma UpperAscends()
    ensures Ascending(UPPER, 'A', 26)
  {
  }

  lemma LowerAscends()
    ensures Ascending(LOWER, 'a', 26)
  {
  }

  lemma DigitsAscend()
    ensures Ascending(DIGITS, '0', 10)
  {
  }

  lemma Signs()
    ensures forall c :: c in SYMBOLS ==> Sign(c)
    ensures forall c :: c in AMBIGUOUS ==> !Sign(c)
  {
  }

  /** The enabled classes, in order. */
  function Classes(o: Options): (r: seq<string>)
    ensures |r| <= 4 && forall k :: 0 <= k < |r| ==> r[k] != ""
    ensures r == [] <==> !o.upper && !o.lower && !o.digits && !o.symbols
  {
    hide Strip, Letters;
    ClassesNotEmpty(o);
    (if o.upper then [Letters(o, UPPER)] else []) + (if o.lower then [Letters(o, LOWER)] else [])
    + (if o.digits then [Letters(o, DIGITS)] else []) + (if o.symbols then [SYMBOLS] else [])
  }

  lemma ClassesNotEmpty(o: Options)
    ensures Letters(o, UPPER) != "" && Letters(o, LOWER) != "" && Letters(o, DIGITS) != ""
  {
    hide Strip;
    Unambiguous();
    StripKeeps(UPPER, 0);
    StripKeeps(LOWER, 0);
    StripKeeps(DIGITS, 2);
  }

  lemma Unambiguous()
    ensures UPPER[0] !in AMBIGUOUS && LOWER[0] !in AMBIGUOUS && DIGITS[2] !in AMBIGUOUS
  {
    assert UPPER[0] == 'A' && LOWER[0] == 'a' && DIGITS[2] == '2';
  }

  lemma {:induction false} StripKeeps(s: string, k: nat)
    requires k < |s| && s[k] !in AMBIGUOUS
    ensures Strip(s) != ""
  {
    assert s[k] in Strip(s);
  }

  /** Strip is a filter: it decides character by character and keeps the order. */
  lemma {:induction false} StripIsFilter(s: string, t: string, c: char)
    ensures Strip([c]) == if c in AMBIGUOUS then "" else [c]
    ensures Strip(s + t) == Strip(s) + Strip(t)
    decreases |s|
  {
    assert [c][1..] == "";
    if s == "" {
      assert s + t == t;
    } else {
      StripIsFilter(s[1..], t, c);
      TailOfSum(s, t);
      Grouped(if s[0] in AMBIGUOUS then "" else [s[0]], Strip(s[1..]), Strip(t));
    }
  }

  datatype Outcome = Password(chars: string) | NoClass | OutOfWords

  predicate InClass(c: char, classes: seq<string>) {
    exists k :: 0 <= k < |classes| && c in classes[k]
  }

  method Pick(str: string, source: RandomSource) returns (c: Option<char>)
    requires str != "" && source.Valid()
    modifies source
    ensures source.Valid()
    ensures c.None? ==> source.Spent()
    ensures c.Some? ==> source.pos > 0 && Accepted(source.words[source.pos - 1], |str|)
    ensures c.Some? ==> c.value == str[source.words[source.pos - 1] % |str|]
  {
    var i := source.RandomInt(|str|);
    if i.None? {
      return None;
    }
    c := Some(str[i.value]);
  }

  /** One character of every class. */
  method OneOfEach(classes: seq<string>, source: RandomSource) returns (chars: Option<string>)
    requires source.Valid() && forall k :: 0 <= k < |classes| ==> classes[k] != ""
    modifies source
    ensures source.Valid()
    ensures chars.None? ==> source.Spent()
    ensures chars.Some? ==> |chars.value| == |classes| && forall j :: 0 <= j < |classes| ==> chars.value[j] in classes[j]
  {
    var s := "";
    for k := 0 to |classes|
      invariant source.Valid() && |s| == k && forall j :: 0 <= j < k ==> s[j] in classes[j]
    {
      var c := Pick(classes[k], source);
      if c.None? {
        return None;
      }
      s := s + [c.value];
    }
    chars := Some(s);
  }

  /** Characters of the pool up to the length. */
  method FillUp(first: string, length: int, pool: string, source: RandomSource) returns (chars: Option<string>)
    requires source.Valid() && pool != "" && (|first| <= length || first == "")
    modifies source
    ensures source.Valid()
    ensures chars.None? ==> source.Spent()
    ensures chars.Some? ==> first <= chars.value && |chars.value| == if length < 0 then 0 else length
    ensures chars.Some? ==> forall j :: |first| <= j < |chars.value| ==> chars.value[j] in pool
  {
    var s := first;
    while |s| < length
      invariant source.Valid() && first <= s && (|s| <= length || s == "")
      invariant forall j :: |first| <= j < |s| ==> s[j] in pool
    {
      var c := Pick(pool, source);
      if c.None? {
        return None;
      }
      s := s + [c.value];
    }
    chars := Some(s);
  }

  /** One character of every class if the length allows it, then characters of the pool, then a shuffle. */
  method GeneratePassword(o: Options, source: RandomSource) returns (r: Outcome)
    requires source.Valid()
    modifies source
    ensures source.Valid()
    ensures r.NoClass? <==> Classes(o) == []
    ensures r.OutOfWords? ==> source.Spent()
    ensures r.Password? ==> |r.chars| == if o.length < 0 then 0 else o.length
    ensures r.Password? ==> forall c :: c in r.chars ==> InClass(c, Classes(o))
    ensures r.Password? && o.length >= |Classes(o)| ==> AllClasses(r.chars, Classes(o))
  {
    hide Classes, InClass, AllClasses, Shuffled, Indices;
    var classes := Classes(o);
    if classes == [] {
      return NoClass;
    }
    var pool := Pool(classes);
    var first := Some("");
    if o.length >= |classes| {
      first := OneOfEach(classes, source);
      if first.None? {
        return OutOfWords;
      }
    }
    var chars := FillUp(first.value, o.length, pool, source);
    if chars.None? {
      return OutOfWords;
    }
    var a := new char[|chars.value|](k requires 0 <= k < |chars.value| => chars.value[k]);
    assert a[..] == chars.value;
    var js, done := Shuffle(a, source);
    if !done {
      return OutOfWords;
    }
    Covered(chars.value, a[..], classes, |first.value|);
    assert classes[..|classes|] == classes;
    r := Password(a[..]);
  }

  /** Every class has a character in s. */
  predicate AllClasses(s: string, classes: seq<string>) {
    forall k :: 0 <= k < |classes| ==> exists c :: c in s && c in classes[k]
  }

  function Pool(classes: seq<string>): (r: string)
    requires classes != [] && forall k :: 0 <= k < |classes| ==> classes[k] != ""
    ensures r != "" && forall c :: c in r ==> InClass(c, classes)
  {
    JoinedClasses(classes);
    Strings.Join(classes, "")
  }

  lemma {:induction false} JoinedClasses(classes: seq<string>)
    ensures forall c :: c in Strings.Join(classes, "") <==> InClass(c, classes)
    ensures (exists k :: 0 <= k < |classes| && classes[k] != "") ==> Strings.Join(classes, "") != ""
  {
    if |classes| == 1 {
      assert forall c :: c in classes[0] ==> InClass(c, classes);
    } else if |classes| > 1 {
      JoinedClasses(classes[1..]);
      assert Strings.Join(classes, "") == classes[0] + Strings.Join(classes[1..], "");
      forall c ensures InClass(c, classes) <==> c in classes[0] || InClass(c, classes[1..]) {
        InClassFirst(c, classes);
      }
      assert forall k :: 0 < k < |classes| ==> classes[k] == classes[1..][k - 1];
    }
  }

  lemma InClassFirst(c: char, classes: seq<string>)
    requires classes != []
    ensures InClass(c, classes) <==> c in classes[0] || InClass(c, classes[1..])
  {
    if InClass(c, classes[1..]) {
      var k :| 0 <= k < |classes[1..]| && c in classes[1..][k];
      assert c in classes[k + 1];
    }
    if InClass(c, classes) && c !in classes[0] {
      var k :| 0 <= k < |classes| && c in classes[k];
      assert c in classes[1..][k - 1];
    }
  }

  /** A permutation keeps the length, the membership of the pool and the coverage of the classes. */
  lemma Covered(chars: string, shuffled: string, classes: seq<string>, first: nat)
    requires multiset(shuffled) == multiset(chars) && first <= |chars| && first <= |classes|
    requires forall j :: 0 <= j < first ==> chars[j] in classes[j]
    requires forall j :: first <= j < |chars| ==> InClass(chars[j], classes)
    ensures |shuffled| == |chars|
    ensures forall c :: c in shuffled ==> InClass(c, classes)
    ensures AllClasses(shuffled, classes[..first])
  {
    SameLength(shuffled, chars);
    forall c | c in shuffled ensures InClass(c, classes) {
      assert c in multiset(shuffled);
      assert c in multiset(chars);
    }
    var some := classes[..first];
    forall k | 0 <= k < |some| ensures exists c :: c in shuffled && c in some[k] {
      assert chars[k] in multiset(chars);
      assert chars[k] in multiset(shuffled);
      assert chars[k] in shuffled && chars[k] in some[k];
    }
    assert AllClasses(shuffled, some);
  }
}
