/** Bitmaps with a first-fit search for a run of equal bits (lib/kernel/bitmap.c). */
module Bitmap {
  import opened Options

  /** The cnt bits from start on all equal value. */
  ghost predicate RunOf(bits: seq<bool>, start: nat, cnt: nat, value: bool) {
    && start + cnt <= |bits|
    && forall i | start <= i < start + cnt :: bits[i] == value
  }

  /** bits with the cnt bits from start on set to value. */
  ghost function SetRun(bits: seq<bool>, start: nat, cnt: nat, value: bool): (r: seq<bool>)
    requires start + cnt <= |bits|
    ensures |r| == |bits|
    ensures forall i | 0 <= i < |bits| :: r[i] == if start <= i < start + cnt then value else bits[i]
  {
    bits[..start] + seq(cnt, _ => value) + bits[start + cnt..]
  }

  /** The first run of cnt bits equal to value, at or after start. */
  ghost predicate IsFirstRun(bits: seq<bool>, start: nat, cnt: nat, value: bool, r: Option<nat>) {
    match r
    case Some(i) => start <= i && RunOf(bits, i, cnt, value) && forall j: nat | start <= j < i ::
          !RunOf(bits, j, cnt, value)
    case None => forall j: nat | start <= j :: !RunOf(bits, j, cnt, value)
  }

  /** The search has one answer. */
  lemma FirstRunUnique(bits: seq<bool>, start: nat, cnt: nat, value: bool, r1: Option<nat>, r2: Option<nat>)
    requires IsFirstRun(bits, start, cnt, value, r1) && IsFirstRun(bits, start, cnt, value, r2)
    ensures r1 == r2
  {
    if r1.Some? && r2.Some? {
      var i, j := r1.value, r2.value;
      assert i <= j && j <= i;
    }
  }

  /** That answer as a function. */
  ghost function FirstRun(bits: seq<bool>, start: nat, cnt: nat, value: bool): (r: Option<nat>)
    ensures IsFirstRun(bits, start, cnt, value, r)
    decreases |bits| - start
  {
    if start + cnt > |bits| then None
    else if RunOf(bits, start, cnt, value) then Some(start)
    else FirstRun(bits, start + 1, cnt, value)
  }

  lemma SetRunTwice(bits: seq<bool>, start: nat, cnt: nat, value: bool)
    requires RunOf(bits, start, cnt, value)
    ensures SetRun(SetRun(bits, start, cnt, !value), start, cnt, value) == bits
  {
  }

  class Bitmap {
    const bits: array<bool>

    constructor (bitCnt: nat)
      ensures bits.Length == bitCnt && fresh(bits)
      ensures forall i | 0 <= i < bitCnt :: !bits[i]
    {
      bits := new bool[bitCnt](_ => false);
    }

    method Contains(start: nat, cnt: nat, value: bool) returns (r: bool)
      requires start + cnt <= bits.Length
      ensures r <==> !RunOf(bits[..], start, cnt, !value)
    {
      var i := 0;
      while i < cnt
        invariant 0 <= i <= cnt
        invariant forall j | start <= j < start + i :: bits[j] != value
      {
        if bits[start + i] == value {
          assert bits[..][start + i] == value;
          return true;
        }
        i := i + 1;
      }
      return false;
    }

    method All(start: nat, cnt: nat) returns (r: bool)
      requires start + cnt <= bits.Length
      ensures r <==> RunOf(bits[..], start, cnt, true)
    {
      var c := Contains(start, cnt, false);
      r := !c;
    }

    method SetMultiple(start: nat, cnt: nat, value: bool)
      requires start + cnt <= bits.Length
      modifies bits
      ensures bits[..] == SetRun(old(bits[..]), start, cnt, value)
    {
      var i := 0;
      while i < cnt
        invariant 0 <= i <= cnt
        invariant forall j | 0 <= j < bits.Length :: bits[j] == if start <= j < start + i then value else old(bits[j])
      {
        bits[start + i] := value;
        i := i + 1;
      }
    }

    method Scan(start: nat, cnt: nat, value: bool) returns (r: Option<nat>)
      requires start <= bits.Length
      ensures r == FirstRun(bits[..], start, cnt, value)
    {
      if cnt <= bits.Length {
        var last := bits.Length - cnt;
        var i := start;
        while i <= last
          invariant start <= i
          invariant forall j: nat | start <= j < i :: !RunOf(bits[..], j, cnt, value)
        {
          var other := Contains(i, cnt, !value);
          if !other {
            FirstRunUnique(bits[..], start, cnt, value, Some(i), FirstRun(bits[..], start, cnt, value));
            return Some(i);
          }
          i := i + 1;
        }
      }
      FirstRunUnique(bits[..], start, cnt, value, None, FirstRun(bits[..], start, cnt, value));
      return None;
    }

    /** None stands for BITMAP_ERROR. */
    method ScanAndFlip(start: nat, cnt: nat, value: bool) returns (r: Option<nat>)
      requires start <= bits.Length
      modifies bits
      ensures r == FirstRun(old(bits[..]), start, cnt, value)
      ensures bits[..] == if r.Some? then SetRun(old(bits[..]), r.value, cnt, !value) else old(bits[..])
    {
      r := Scan(start, cnt, value);
      if r.Some? {
        SetMultiple(r.value, cnt, !value);
      }
    }
  }
}
