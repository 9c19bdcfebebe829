/** Definitions shared by the models: options, bytes, concatenation and bounded suffixes. */
module Common {

  datatype Option<+T> = None | Some(value: T)

  type byte = b: int | 0 <= b < 256

  /** The limit both sides put on a frame's body, and the host on a file it uploads. */
  const MAX_FRAME_BYTES: nat := 0x100_0000

  function Min(a: int, b: int): int { if a < b then a else b }

  /** The parts glued together in order. */
  function Concat<T>(parts: seq<seq<T>>): seq<T> {
    if parts == [] then [] else parts[0] + Concat(parts[1..])
  }

  lemma AppendAssociates<T>(a: seq<T>, b: seq<T>, c: seq<T>)
    ensures a + (b + c) == a + b + c
  {
  }

  lemma {:induction false} ConcatAppend<T>(xs: seq<seq<T>>, ys: seq<seq<T>>)
    ensures Concat(xs + ys) == Concat(xs) + Concat(ys)
  {
    if xs == [] {
      assert xs + ys == ys;
    } else {
      ConcatAppend(xs[1..], ys);
      assert (xs + ys)[0] == xs[0] && (xs + ys)[1..] == xs[1..] + ys;
      AppendAssociates(xs[0], Concat(xs[1..]), Concat(ys));
    }
  }

  lemma ConcatOne<T>(x: seq<T>)
    ensures Concat([x]) == x
  {
    assert [x][1..] == [];
  }

  /** The last `n` elements, or everything when there are no more than `n`. */
  function LastN<T>(s: seq<T>, n: nat): seq<T> {
    if |s| <= n then s else s[|s| - n..]
  }

  /** Trimming before an append loses nothing that a trim after it would keep. */
  lemma LastNAppend<T>(s: seq<T>, t: seq<T>, n: nat)
    ensures LastN(LastN(s, n) + t, n) == LastN(s + t, n)
    ensures LastN(s + LastN(t, n), n) == LastN(s + t, n)
  {
    LastNOfSuffix(s + t, |s| - |LastN(s, n)|, LastN(s, n) + t, n);
    if |t| <= n {
      assert LastN(t, n) == t;
    } else {
      LastNOfSuffix(s + t, |s| + |t| - n, LastN(t, n), n);
      LastNOfSuffix(s + LastN(t, n), |s|, LastN(t, n), n);
    }
  }

  /** A suffix of at least `n` elements, or of all there are, has the same last `n`. */
  lemma LastNOfSuffix<T>(s: seq<T>, from: nat, suffix: seq<T>, n: nat)
    requires from <= |s| && suffix == s[from..] && (|suffix| >= n || from == 0)
    ensures LastN(suffix, n) == LastN(s, n)
  {
  }

  /** The end of an end. */
  lemma LastNOfLastN<T>(s: seq<T>, n: nat, m: nat)
    ensures LastN(LastN(s, n), m) == LastN(s, Min(m, n))
  {
    if m <= n {
      LastNOfSuffix(s, |s| - |LastN(s, n)|, LastN(s, n), m);
    }
  }
}
