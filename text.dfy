/**
 * The handful of Python `str` operations the decoders are built from:
 * slicing, `find`, `split`, `join`, `replace` and `endswith`, with
 * Python's semantics (slices clamp, `split` scans left to right for
 * non-overlapping separators).
 */
module Text {

  function Min(a: int, b: int): int { if a <= b then a else b }

  /** Python `s[a:b]` for non-negative bounds: out-of-range bounds are clamped. */
  function Slice<T>(s: seq<T>, a: nat, b: nat): (r: seq<T>)
    ensures |r| == if a < b && a < |s| then Min(b, |s|) - a else 0
    ensures forall k :: 0 <= k < |r| ==> r[k] == s[a + k]
  {
    if a < b && a < |s| then s[a..Min(b, |s|)] else []
  }

  /** Python `s[a:-n]`: drops `a` leading and `n` trailing elements, or gives the empty sequence. */
  function Trim<T>(s: seq<T>, a: nat, n: nat): (r: seq<T>)
    ensures |r| == if a + n <= |s| then |s| - a - n else 0
    ensures a + n <= |s| ==> r == s[a..|s| - n]
  {
    if a + n <= |s| then s[a..|s| - n] else []
  }

  predicate OccursAt<T(==)>(s: seq<T>, sub: seq<T>, p: nat)
  {
    p + |sub| <= |s| && s[p..p + |sub|] == sub
  }

  predicate EndsWith<T(==)>(s: seq<T>, suffix: seq<T>)
  {
    |suffix| <= |s| && s[|s| - |suffix|..] == suffix
  }

  /** Python `s.find(sub, start)`: the first occurrence at or after `start`, or -1. */
  function Find<T(==)>(s: seq<T>, sub: seq<T>, start: nat): (r: int)
    ensures r == -1 || (start <= r && OccursAt(s, sub, r))
    ensures forall p: nat :: start <= p && (r == -1 || p < r) ==> !OccursAt(s, sub, p)
    decreases |s| + 1 - start
  {
    if start + |sub| > |s| then -1
    else if OccursAt(s, sub, start) then start
    else Find(s, sub, start + 1)
  }

  /** Python `s.split(sep)` for a non-empty separator. */
  function Split<T(==)>(s: seq<T>, sep: seq<T>): (r: seq<seq<T>>)
    requires |sep| > 0
    ensures |r| >= 1
    decreases |s|
  {
    var p := Find(s, sep, 0);
    if p < 0 then [s] else [s[..p]] + Split(s[p + |sep|..], sep)
  }

  /** Python `sep.join(pieces)`. */
  function Join<T>(pieces: seq<seq<T>>, sep: seq<T>): seq<T>
  {
    if |pieces| == 0 then []
    else if |pieces| == 1 then pieces[0]
    else pieces[0] + sep + Join(pieces[1..], sep)
  }

  /** Python `''.join(pieces)`. */
  function Concat<T>(pieces: seq<seq<T>>): seq<T>
  {
    if pieces == [] then [] else pieces[0] + Concat(pieces[1..])
  }

  /** The comprehension `[p for p in pieces if p != '']`. */
  function DropEmpty<T>(pieces: seq<seq<T>>): (r: seq<seq<T>>)
    ensures |r| <= |pieces|
    ensures forall k :: 0 <= k < |r| ==> |r[k]| > 0
  {
    if pieces == [] then []
    else if |pieces[0]| == 0 then DropEmpty(pieces[1..])
    else [pieces[0]] + DropEmpty(pieces[1..])
  }

  /** Python `s.replace(target, replacement)` for a non-empty `target`. */
  function Replace<T(==)>(s: seq<T>, target: seq<T>, replacement: seq<T>): seq<T>
    requires |target| > 0
  {
    Join(Split(s, target), replacement)
  }

  /** Joining the pieces of a split with the separator rebuilds the string. */
  lemma {:induction false} SplitJoin<T>(s: seq<T>, sep: seq<T>)
    requires |sep| > 0
    ensures Join(Split(s, sep), sep) == s
    decreases |s|
  {
    var p := Find(s, sep, 0);
    if p >= 0 {
      var rest := s[p + |sep|..];
      var tail := Split(rest, sep);
      SplitJoin(rest, sep);
      var pieces := [s[..p]] + tail;
      assert Split(s, sep) == pieces;
      assert pieces[0] == s[..p] && pieces[1..] == tail && |pieces| > 1;
      assert Join(pieces, sep) == s[..p] + sep + Join(tail, sep);
      assert s == s[..p] + sep + rest;
    }
  }

  /** No piece of a split contains the separator. */
  lemma {:induction false} SplitPiecesAvoidSeparator<T>(s: seq<T>, sep: seq<T>, k: nat, q: nat)
    requires |sep| > 0 && k < |Split(s, sep)|
    ensures !OccursAt(Split(s, sep)[k], sep, q)
    decreases |s|
  {
    if k == 0 {
      FirstPieceAvoids(s, sep, q);
    } else {
      var rest := SplitTail(s, sep, k);
      SplitPiecesAvoidSeparator(rest, sep, k - 1, q);
    }
  }

  /** A piece after the first is a piece of the split of what follows the first separator. */
  lemma SplitTail<T>(s: seq<T>, sep: seq<T>, k: nat) returns (rest: seq<T>)
    requires |sep| > 0 && 0 < k < |Split(s, sep)|
    ensures |rest| < |s| && k - 1 < |Split(rest, sep)| && Split(s, sep)[k] == Split(rest, sep)[k - 1]
  {
    var p := Find(s, sep, 0);
    rest := s[p + |sep|..];
  }

  /** The first piece of a split does not contain the separator. */
  lemma FirstPieceAvoids<T>(s: seq<T>, sep: seq<T>, q: nat)
    requires |sep| > 0
    ensures !OccursAt(Split(s, sep)[0], sep, q)
  {
    var p := Find(s, sep, 0);
    if p >= 0 {
      assert Split(s, sep)[0] == s[..p];
      if q + |sep| <= p {
        SliceOfPrefix(s, p, q, q + |sep|);
        assert !OccursAt(s, sep, q);
      }
    }
  }

  lemma SliceOfPrefix<T>(s: seq<T>, p: nat, a: nat, b: nat)
    requires a <= b <= p <= |s|
    ensures s[..p][a..b] == s[a..b]
  {
    forall k | 0 <= k < b - a
      ensures s[..p][a..b][k] == s[a..b][k]
    {
      assert s[..p][a..b][k] == s[..p][a + k] == s[a + k];
    }
  }

  /** Dropping empty pieces does not change their concatenation. */
  lemma {:induction false} ConcatDropEmpty<T>(pieces: seq<seq<T>>)
    ensures Concat(DropEmpty(pieces)) == Concat(pieces)
  {
    if pieces != [] {
      ConcatDropEmpty(pieces[1..]);
    }
  }

  lemma {:induction false} ConcatLength<T>(pieces: seq<seq<T>>)
    requires forall k :: 0 <= k < |pieces| ==> |pieces[k]| > 0
    ensures |pieces| <= |Concat(pieces)|
  {
    if pieces != [] {
      ConcatLength(pieces[1..]);
    }
  }

  lemma AppendAssoc<T>(a: seq<T>, b: seq<T>, c: seq<T>)
    ensures a + b + c == a + (b + c)
  {
  }

  lemma {:induction false} ConcatAppend<T>(a: seq<seq<T>>, b: seq<seq<T>>)
    ensures Concat(a + b) == Concat(a) + Concat(b)
  {
    if a == [] {
      assert a + b == b;
    } else {
      assert (a + b)[0] == a[0];
      assert (a + b)[1..] == a[1..] + b;
      ConcatAppend(a[1..], b);
    }
  }

  /** Removing the separators: what remains of `s` once every separator found by `split` is cut out. */
  lemma {:induction false} ConcatSplitIsReplace<T>(s: seq<T>, sep: seq<T>)
    requires |sep| > 0
    ensures Concat(DropEmpty(Split(s, sep))) == Replace(s, sep, [])
  {
    ConcatDropEmpty(Split(s, sep));
    ConcatIsJoinEmpty(Split(s, sep));
  }

  lemma {:induction false} ConcatIsJoinEmpty<T>(pieces: seq<seq<T>>)
    ensures Concat(pieces) == Join(pieces, [])
  {
    if |pieces| > 1 {
      ConcatIsJoinEmpty(pieces[1..]);
    } else if |pieces| == 1 {
      assert pieces[1..] == [];
    }
  }
}
