/**
 Shared vocabulary: optional values, bytes, and small facts about arithmetic and sequences.
 */
module Basics {
  datatype Option<+T> = None | Some(value: T)

  type Byte = x: int | 0 <= x < 256

  lemma MulMono(n: nat, a: nat, b: nat)
    requires a <= b
    ensures n * a <= n * b
  {
  }

  lemma DivIs(k: nat, n: nat, q: nat, r: nat)
    requires n > 0 && k == n * q + r && r < n
    ensures k / n == q && k % n == r
  {
    var p := k / n;
    assert k == n * p + k % n;
    if p < q { MulMono(n, p + 1, q); }
    if q < p { MulMono(n, q + 1, p); }
  }

  lemma {:induction false} SmallerSet<T>(a: set<T>, b: set<T>)
    requires a <= b
    ensures |a| <= |b|
  {
    if a != {} {
      var x :| x in a;
      SmallerSet(a - {x}, b - {x});
    }
  }

  /** One step and then the rest: what came out, what is held, what went in. */
  lemma Regroup<T>(out: seq<T>, held: seq<T>, put: seq<T>, next: seq<T>, outs: seq<T>, last: seq<T>, puts: seq<T>)
    requires out + next == held + put && outs + last == next + puts
    ensures (out + outs) + last == held + (put + puts)
  {
    assert (out + outs) + last == out + (outs + last);
    assert out + (next + puts) == (out + next) + puts;
    assert (held + put) + puts == held + (put + puts);
  }
}
