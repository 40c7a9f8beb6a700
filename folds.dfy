/**
 * The ways the reader combines per-item results: a state threaded through
 * items that stops at the first error (the cells of a row), reading items
 * in order and stopping at the first that fails (the sheets of one
 * workbook), and concatenating what every item contributes (the files of a
 * folder). Each is stated over an arbitrary step or reader so that its
 * algebra is proved once, independently of what one item does.
 */
module Folds {
  import opened Wrappers

  /** Threads `st` through `step` over the items in order; the first error ends the pass. */
  function Steps<X, S, E>(xs: seq<X>, st: S, step: (S, X) -> Result<S, E>): Result<S, E>
  {
    if |xs| == 0 then Ok(st)
    else
      match Steps(xs[..|xs| - 1], st, step)
      case Err(e) => Err(e)
      case Ok(s) => step(s, xs[|xs| - 1])
  }

  /** One more item: its step runs on the state so far, unless the pass has already failed. */
  lemma StepsSnoc<X, S, E>(xs: seq<X>, st: S, step: (S, X) -> Result<S, E>, c: nat)
    requires c < |xs|
    ensures Steps(xs[..c + 1], st, step) ==
      match Steps(xs[..c], st, step)
      case Err(e) => Err(e)
      case Ok(s) => step(s, xs[c])
  {
    assert xs[..c + 1][..c] == xs[..c];
  }

  /** Once the first `k` items have failed, the items after them do not change the outcome. */
  lemma {:induction false} StepsKeepError<X, S, E>(xs: seq<X>, st: S, step: (S, X) -> Result<S, E>, k: nat, k': nat)
    requires k <= k' <= |xs|
    requires Steps(xs[..k], st, step).Err?
    ensures Steps(xs[..k'], st, step) == Steps(xs[..k], st, step)
    decreases k' - k
  {
    if k' > k {
      StepsKeepError(xs, st, step, k, k' - 1);
      StepsSnoc(xs, st, step, k' - 1);
    }
  }

  /** Reads every item in order; the first failure is the outcome, otherwise the records concatenate. */
  function ReadAll<X, T, E>(xs: seq<X>, read: X -> Result<seq<T>, E>): Result<seq<T>, E>
  {
    if |xs| == 0 then Ok([])
    else
      match ReadAll(xs[..|xs| - 1], read)
      case Err(e) => Err(e)
      case Ok(rs) =>
        match read(xs[|xs| - 1])
        case Err(e) => Err(e)
        case Ok(more) => Ok(rs + more)
  }

  /** Combines the outcomes of two consecutive runs: the first error wins, otherwise the records concatenate. */
  function Join<T, E>(x: Result<seq<T>, E>, y: Result<seq<T>, E>): Result<seq<T>, E>
  {
    match x
    case Err(e) => Err(e)
    case Ok(front) =>
      match y
      case Err(e) => Err(e)
      case Ok(back) => Ok(front + back)
  }

  /** One more item: its records are appended, or its failure becomes the outcome. */
  lemma ReadAllSnoc<X, T, E>(xs: seq<X>, read: X -> Result<seq<T>, E>, i: nat)
    requires i < |xs|
    ensures ReadAll(xs[..i + 1], read) == Join(ReadAll(xs[..i], read), read(xs[i]))
  {
    assert xs[..i + 1][..i] == xs[..i];
  }

  /** Once a prefix has failed, the items after it do not change the outcome. */
  lemma {:induction false} ReadAllKeepsError<X, T, E>(xs: seq<X>, read: X -> Result<seq<T>, E>, n: nat)
    requires 0 < n <= |xs|
    requires ReadAll(xs[..n], read).Err?
    ensures ReadAll(xs, read) == ReadAll(xs[..n], read)
    decreases |xs| - n
  {
    if n < |xs| {
      ReadAllSnoc(xs, read, n);
      ReadAllKeepsError(xs, read, n + 1);
    } else {
      assert xs[..n] == xs;
    }
  }

  /** Splitting the items anywhere: the outcome is the join of the two parts' outcomes. */
  lemma {:induction false} ReadAllAppend<X, T, E>(a: seq<X>, b: seq<X>, read: X -> Result<seq<T>, E>)
    ensures ReadAll(a + b, read) == Join(ReadAll(a, read), ReadAll(b, read))
    decreases |b|
  {
    if |b| == 0 {
      assert a + b == a;
      match ReadAll(a, read)
      case Err(_) =>
      case Ok(front) => assert front + [] == front;
    } else {
      var init := b[..|b| - 1];
      ReadAllAppend(a, init, read);
      assert (a + b)[..|a + b| - 1] == a + init;
      assert (a + b)[|a + b| - 1] == b[|b| - 1];
      var x, y, z := ReadAll(a, read), ReadAll(init, read), read(b[|b| - 1]);
      match x
      case Err(_) =>
      case Ok(front) =>
        match y
        case Err(_) =>
        case Ok(mid) =>
          match z
          case Err(_) =>
          case Ok(back) => assert front + mid + back == front + (mid + back);
    }
  }

  /** The records of every item, concatenated in order. */
  function FlatMap<X, T>(xs: seq<X>, contribute: X -> seq<T>): seq<T>
  {
    if |xs| == 0 then []
    else FlatMap(xs[..|xs| - 1], contribute) + contribute(xs[|xs| - 1])
  }

  /** The records of `a + b` are those of `a`, then those of `b`. */
  lemma {:induction false} FlatMapAppend<X, T>(a: seq<X>, b: seq<X>, contribute: X -> seq<T>)
    ensures FlatMap(a + b, contribute) == FlatMap(a, contribute) + FlatMap(b, contribute)
    decreases |b|
  {
    if |b| == 0 {
      assert a + b == a;
    } else {
      var front, last := b[..|b| - 1], b[|b| - 1];
      FlatMapAppend(a, front, contribute);
      assert (a + b)[..|a + b| - 1] == a + front && (a + b)[|a + b| - 1] == last;
      assert FlatMap(a + b, contribute) == FlatMap(a + front, contribute) + contribute(last);
      assert FlatMap(b, contribute) == FlatMap(front, contribute) + contribute(last);
    }
  }

  /** An item contributing nothing can be dropped from anywhere in the sequence. */
  lemma FlatMapSkip<X, T>(before: seq<X>, x: X, after: seq<X>, contribute: X -> seq<T>)
    requires contribute(x) == []
    ensures FlatMap(before + [x] + after, contribute) == FlatMap(before, contribute) + FlatMap(after, contribute)
  {
    FlatMapAppend(before + [x], after, contribute);
    FlatMapAppend(before, [x], contribute);
    assert [x][..0] == [];
    assert FlatMap(before, contribute) + [] == FlatMap(before, contribute);
  }

  /** The values `pick` gives for positions `lo..hi-1`, in order, skipping the positions it gives none for. */
  function Picked<T>(lo: nat, hi: nat, pick: nat -> Option<T>): (r: seq<T>)
    requires lo <= hi
    decreases hi - lo
    ensures |r| <= hi - lo
  {
    if hi == lo then []
    else
      Picked(lo, hi - 1, pick) + Listed(pick(hi - 1))
  }

  /** The value of an option as a list of zero or one element. */
  function Listed<T>(o: Option<T>): seq<T>
  {
    match o
    case None => []
    case Some(v) => [v]
  }

  /**
   * Where the picked values come from: `at` gives the position of every
   * value, in increasing order, and a position contributes exactly when
   * `pick` gives a value for it.
   */
  lemma {:induction false} PickedSources<T>(lo: nat, hi: nat, pick: nat -> Option<T>) returns (at: seq<nat>)
    requires lo <= hi
    ensures |at| == |Picked(lo, hi, pick)|
    ensures forall k :: 0 <= k < |at| ==> lo <= at[k] < hi && pick(at[k]) == Some(Picked(lo, hi, pick)[k])
    ensures forall a, b :: 0 <= a < b < |at| ==> at[a] < at[b]
    ensures forall r :: lo <= r < hi ==> (r in at <==> pick(r).Some?)
    decreases hi - lo
  {
    if hi == lo {
      at := [];
    } else {
      var prev := PickedSources(lo, hi - 1, pick);
      var before, now := Picked(lo, hi - 1, pick), Picked(lo, hi, pick);
      match pick(hi - 1)
      case None =>
        at := prev;
      case Some(v) =>
        at := prev + [hi - 1];
        assert now == before + [v];
        forall k | 0 <= k < |prev|
          ensures now[k] == before[k]
        {
        }
    }
  }
}
