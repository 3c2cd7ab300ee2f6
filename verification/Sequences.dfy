/** Small facts about sequences, to be used one at a time. */
module Sequences {
  lemma Grouped<T>(a: seq<T>, b: seq<T>, c: seq<T>)
    ensures a + b + c == a + (b + c)
  {
  }

  /** The tail of a concatenation. */
  lemma TailOfSum<T>(a: seq<T>, b: seq<T>)
    requires a != []
    ensures (a + b)[0] == a[0] && (a + b)[1..] == a[1..] + b
  {
  }

  lemma SubOfDrop<T>(s: seq<T>, from: nat, a: nat, b: nat)
    requires from + a <= from + b <= |s|
    ensures s[from..][a..b] == s[from + a..from + b]
  {
  }

  lemma DropOfDrop<T>(s: seq<T>, from: nat, a: nat)
    requires from + a <= |s|
    ensures s[from..][a..] == s[from + a..]
  {
  }

  /** Where the parts of a sum of four are. */
  lemma PartsOfFour<T>(a: seq<T>, b: seq<T>, c: seq<T>, d: seq<T>)
    ensures var s := a + (b + (c + d));
            && s[..|a|] == a && s[|a|..|a| + |b|] == b && s[|a| + |b|..|a| + |b| + |c|] == c && s[|a| + |b| + |c|..] == d
  {
  }
}
