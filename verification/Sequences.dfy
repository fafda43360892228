/** Cutting and joining sequences. */
module Sequences {

  lemma JoinTail<T>(a: seq<T>, b: seq<T>)
    requires a != []
    ensures (a + b)[0] == a[0] && (a + b)[1..] == a[1..] + b
  {
  }

  lemma JoinAssoc<T>(a: seq<T>, b: seq<T>, c: seq<T>)
    ensures (a + b) + c == a + (b + c)
  {
  }

  lemma MoveHead<T>(a: seq<T>, b: seq<T>)
    requires b != []
    ensures a + [b[0]] + b[1..] == a + b
  {
  }

  lemma Regroup<T>(a: seq<T>, x: T, b: seq<T>)
    ensures a + ([x] + b) == (a + [x]) + b
    ensures a + [x] <= a + ([x] + b)
  {
  }

  lemma DropLast<T>(s: seq<T>, k: nat)
    requires k < |s|
    ensures var t := s[..|s| - 1];
            s == t + [s[|s| - 1]] && t[|t| - k..] == t[|s| - 1 - k..] && t[..|t| - k] == s[..|s| - 1 - k]
  {
  }

  lemma SplitAt<T>(q: seq<T>, i: nat)
    requires i < |q|
    ensures q == q[..i] + ([q[i]] + q[i + 1..])
  {
  }
}
