/** Bytes and byte sequences overwritten in place. */
module Bytes {

  type byte = x: int | 0 <= x < 256

  /** The bytes of a page of memory. */
  type Page = s: seq<byte> | |s| == 4096 witness seq(4096, _ => 0)

  ghost function Zeros(n: nat): (r: seq<byte>)
    ensures |r| == n && forall i | 0 <= i < n :: r[i] == 0
  {
    seq(n, _ => 0)
  }

  /** s with the bytes from p on overwritten by w. */
  ghost function Patch(s: seq<byte>, p: nat, w: seq<byte>): (r: seq<byte>)
    requires p + |w| <= |s|
    ensures |r| == |s|
  {
    s[..p] + w + s[p + |w|..]
  }

  lemma PatchAt(s: seq<byte>, p: nat, w: seq<byte>, i: nat)
    requires p + |w| <= |s| && i < |s|
    ensures Patch(s, p, w)[i] == if p <= i < p + |w| then w[i - p] else s[i]
  {
  }

  lemma PatchNothing(s: seq<byte>, p: nat, w: seq<byte>)
    requires p <= |s| && |w| == 0
    ensures Patch(s, p, w) == s
  {
  }

  lemma SliceOfSlice<T>(s: seq<T>, lo: nat, hi: nat, a: nat, b: nat)
    requires lo <= hi <= |s| && a <= b <= hi - lo
    ensures s[lo..hi][a..b] == s[lo + a..lo + b]
  {
    var l, r := s[lo..hi][a..b], s[lo + a..lo + b];
    forall i | 0 <= i < b - a
      ensures l[i] == r[i]
    {
    }
  }

  lemma SlicesAgree(s: seq<byte>, t: seq<byte>, lo: nat, hi: nat)
    requires lo <= hi <= |s| && hi <= |t|
    requires forall i | lo <= i < hi :: s[i] == t[i]
    ensures s[lo..hi] == t[lo..hi]
  {
  }

  /** Overwriting twice in a row is overwriting once. */
  lemma PatchAppend(s: seq<byte>, p: nat, w: seq<byte>, v: seq<byte>)
    requires p + |w| + |v| <= |s|
    ensures Patch(Patch(s, p, w), p + |w|, v) == Patch(s, p, w + v)
  {
    var l, r := Patch(Patch(s, p, w), p + |w|, v), Patch(s, p, w + v);
    forall i | 0 <= i < |s|
      ensures l[i] == r[i]
    {
      PatchAt(s, p, w, i);
      PatchAt(Patch(s, p, w), p + |w|, v, i);
      PatchAt(s, p, w + v, i);
    }
  }

  /** Overwriting just below what was overwritten is overwriting once. */
  lemma PatchPrepend(s: seq<byte>, p: nat, w: seq<byte>, v: seq<byte>)
    requires p + |w| + |v| <= |s|
    ensures Patch(Patch(s, p + |w|, v), p, w) == Patch(s, p, w + v)
  {
    var l, r := Patch(Patch(s, p + |w|, v), p, w), Patch(s, p, w + v);
    forall i | 0 <= i < |s|
      ensures l[i] == r[i]
    {
      PatchAt(s, p + |w|, v, i);
      PatchAt(Patch(s, p + |w|, v), p, w, i);
      PatchAt(s, p, w + v, i);
    }
  }

  /** What was written is read back. */
  lemma PatchReadBack(s: seq<byte>, p: nat, w: seq<byte>)
    requires p + |w| <= |s|
    ensures Patch(s, p, w)[p..p + |w|] == w
  {
  }

  /** A stretch clear of the overwritten one reads as before. */
  lemma PatchElsewhere(s: seq<byte>, p: nat, w: seq<byte>, lo: nat, hi: nat)
    requires p + |w| <= |s| && lo <= hi <= |s|
    requires hi <= p || p + |w| <= lo
    ensures Patch(s, p, w)[lo..hi] == s[lo..hi]
  {
    forall i | lo <= i < hi
      ensures Patch(s, p, w)[i] == s[i]
    {
      PatchAt(s, p, w, i);
    }
  }

  /** Overwriting inside a stretch overwrites the stretch. */
  lemma PatchInside(s: seq<byte>, p: nat, w: seq<byte>, lo: nat, hi: nat)
    requires lo <= p && p + |w| <= hi <= |s|
    ensures Patch(s, p, w)[lo..hi] == Patch(s[lo..hi], p - lo, w)
  {
    var l, r := Patch(s, p, w)[lo..hi], Patch(s[lo..hi], p - lo, w);
    forall i | 0 <= i < hi - lo
      ensures l[i] == r[i]
    {
      PatchAt(s, p, w, lo + i);
      PatchAt(s[lo..hi], p - lo, w, i);
    }
  }

  lemma PatchWhole(s: seq<byte>, w: seq<byte>)
    requires |s| == |w|
    ensures Patch(s, 0, w) == w
  {
  }

  /** memcpy into an array. */
  method PutBytes(m: array<byte>, at: nat, w: seq<byte>)
    requires at + |w| <= m.Length
    modifies m
    ensures m[..] == Patch(old(m[..]), at, w)
  {
    var i := 0;
    while i < |w|
      invariant 0 <= i <= |w|
      invariant forall j | 0 <= j < m.Length :: m[j] == if at <= j < at + i then w[j - at] else old(m[j])
    {
      m[at + i] := w[i];
      i := i + 1;
    }
  }
}
