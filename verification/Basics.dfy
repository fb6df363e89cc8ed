/** What several modules share. */
module Basics {

  datatype Option<T> = None | Some(value: T)

  type Byte = n: int | 0 <= n < 256
  type Bytes = seq<Byte>

  /** How often a lost race for a version number is retried (engine/internal/named/version.go). */
  const MaxClaimAttempts := 64

  lemma {:induction false} SubsetSize<T>(a: set<T>, b: set<T>)
    requires a <= b
    ensures |a| <= |b|
  {
    if a != {} {
      var x :| x in a;
      SubsetSize(a - {x}, b - {x});
    }
  }

  /** A loop that rewrites a sequence from the front, one element further. */
  lemma Advance<T>(done: seq<T>, all: seq<T>, i: nat, x: T)
    requires |done| == i < |all|
    ensures |done + all[i..]| == |all| && (done + all[i..])[i] == all[i]
    ensures (done + all[i..])[i := x] == done + [x] + all[i + 1..]
  {
  }
}
