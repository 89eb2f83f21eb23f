/** Filling a buffer from the front through a running index, as the C builders do. */
module Buffers {

  /** The buffer holds `done` in front and is otherwise as it was. */
  predicate Written<T(==)>(now: seq<T>, done: seq<T>, was: seq<T>) {
    |done| <= |was| && now == done + was[|done|..]
  }

  /** `out[idx++] = b` */
  method Put<T>(out: array<T>, idx: nat, b: T, ghost done: seq<T>, ghost was: seq<T>) returns (next: nat)
    requires idx < out.Length && |done| == idx && Written(out[..], done, was)
    modifies out
    ensures next == idx + 1
    ensures Written(out[..], done + [b], was)
  {
    out[idx] := b;
    next := idx + 1;
  }

  /** `memcpy(out + idx, src, len); idx += len` */
  method Copy<T>(out: array<T>, idx: nat, src: seq<T>, ghost done: seq<T>, ghost was: seq<T>) returns (next: nat)
    requires idx + |src| <= out.Length && |done| == idx && Written(out[..], done, was)
    modifies out
    ensures next == idx + |src|
    ensures Written(out[..], done + src, was)
  {
    forall i | 0 <= i < |src| { out[idx + i] := src[i]; }
    next := idx + |src|;
  }

  /** Filling a position that was skipped earlier. */
  method Patch<T>(out: array<T>, at: nat, b: T, ghost done: seq<T>, ghost was: seq<T>)
    requires at < |done| && Written(out[..], done, was)
    modifies out
    ensures Written(out[..], done[at := b], was)
  {
    out[at] := b;
  }

  /** Reading back what has been written. */
  lemma Slice<T>(now: seq<T>, done: seq<T>, was: seq<T>, from: nat)
    requires from <= |done| && Written(now, done, was)
    ensures |done| <= |now| && now[from..|done|] == done[from..]
  {
  }

  lemma Skip<T>(now: seq<T>, done: seq<T>, was: seq<T>, n: nat)
    requires |done| + n <= |was| && Written(now, done, was)
    ensures Written(now, done + was[|done|..|done| + n], was)
  {
  }

  lemma Untouched<T>(was: seq<T>)
    ensures Written(was, [], was)
  {
  }
}
