/** What several modules need. */
module Helpers {
  datatype Option<T> = None | Some(value: T)

  lemma {:induction false} Assoc<T>(a: seq<T>, b: seq<T>, c: seq<T>)
    ensures a + (b + c) == (a + b) + c
  {
  }

  /** A whole falls apart into the pieces it was joined from. */
  lemma {:induction false} Parts<T>(l: seq<T>, m: seq<T>, r: seq<T>)
    ensures var whole := l + m + r;
      && whole[..|l|] == l && whole[|l|..|l| + |m|] == m && whole[|l| + |m|..] == r
  {
  }
}
