/** `Buffer.prototype.copy`: copying a range of one Buffer into another or into itself. */
module BufferCopy {
  import opened Common

  datatype Error = TargetStartOutOfBounds | IndexOutOfRange | SourceEndOutOfBounds

  /** What a call comes down to: where to write, where to read, and the value `copy` returns. */
  datatype Plan = Nothing | Fail(error: Error) | Move(to: nat, from: nat, count: int)

  /** The argument processing of `copy`; an argument left out is None. */
  function PlanOf(sourceLength: nat, targetLength: nat, targetStart: Option<int>,
    start: Option<int>, end: Option<int>): Plan {
    var from := if start.Some? then start.value else 0;
    var stop := if end.Some? then end.value else sourceLength;
    var to :=
      if targetStart.None? then 0
      else if targetStart.value >= targetLength then targetLength
      else targetStart.value;
    var stop' := if stop > 0 && stop < from then from else stop;
    if stop' == from || targetLength == 0 || sourceLength == 0 then Nothing
    else if to < 0 then Fail(TargetStartOutOfBounds)
    else if from < 0 || from >= sourceLength then Fail(IndexOutOfRange)
    else if stop' < 0 then Fail(SourceEndOutOfBounds)
    else
      var clipped := if stop' > sourceLength then sourceLength else stop';
      var room := targetLength - to;
      Move(to, from, if room < clipped - from then room else clipped - from)
  }

  /** The bytes a plan moves: `count` of them, or none when `copy` returns a negative number. */
  function Moved(count: int): nat { if count < 0 then 0 else count }

  /** Every plan stays inside both buffers, and moves all that was asked for and fits. */
  lemma PlanFits(sourceLength: nat, targetLength: nat, targetStart: Option<int>, start: Option<int>, end: Option<int>)
    ensures var plan := PlanOf(sourceLength, targetLength, targetStart, start, end);
      plan.Move? ==>
        && plan.to + Moved(plan.count) <= targetLength && plan.from + Moved(plan.count) <= sourceLength
        && (plan.count >= 0 ==>
              || plan.to + plan.count == targetLength
              || plan.from + plan.count == sourceLength
              || end == Some(plan.from + plan.count))
  {
  }

  /** With no arguments but the target, as much as fits is copied; a range that is in order is copied as given. */
  lemma PlanOfRanges(sourceLength: nat, targetLength: nat, targetStart: int, start: int, end: int)
    ensures PlanOf(sourceLength, targetLength, None, None, None) ==
      if sourceLength == 0 || targetLength == 0 then Nothing
      else Move(0, 0, if sourceLength < targetLength then sourceLength else targetLength)
    ensures 0 <= targetStart < targetLength && 0 <= start < end <= sourceLength ==>
      PlanOf(sourceLength, targetLength, Some(targetStart), Some(start), Some(end)) ==
        var room := targetLength - targetStart;
        Move(targetStart, start, if end - start < room then end - start else room)
  {
  }

  /** Nothing is copied, or an error is thrown, in these cases and no others. */
  lemma PlanOfTheRest(sourceLength: nat, targetLength: nat, targetStart: int, start: int, end: int)
    ensures var plan := PlanOf(sourceLength, targetLength, Some(targetStart), Some(start), Some(end));
      var some := sourceLength > 0 && targetLength > 0 && start != end && !(0 < end < start);
      && (plan == Nothing <==> !some)
      && (plan == Fail(TargetStartOutOfBounds) <==> some && targetStart < 0)
      && (plan == Fail(IndexOutOfRange) <==> some && targetStart >= 0 && !(0 <= start < sourceLength))
      && (plan == Fail(SourceEndOutOfBounds) <==> some && targetStart >= 0 && 0 <= start < sourceLength && end < 0)
  {
  }

  /**
   The value `copy` returns is not the number of bytes copied exactly if it gets past the checks with `end` 0 and a
   positive `start`: then the clamp of `end` to `start` is skipped, and a negative number comes back.
   */
  lemma ReturnsCountUnlessEndIsZero(sourceLength: nat, targetLength: nat,
      targetStart: Option<int>, start: Option<int>, end: Option<int>)
    ensures var plan := PlanOf(sourceLength, targetLength, targetStart, start, end);
      (plan.Move? && plan.count != Moved(plan.count)) <==>
        end == Some(0) && start.Some? && 0 < start.value < sourceLength && targetLength > 0
        && (targetStart.None? || targetStart.value >= 0)
    ensures PlanOf(8, 8, Some(0), Some(5), Some(0)) == Move(0, 5, -5)
  {
  }

  /** `copyWithin` and `set`, which behave as if the source range were first copied aside. */
  method SetBytes(target: array<Byte>, bytes: seq<Byte>, to: nat)
    requires to + |bytes| <= target.Length
    modifies target
    ensures target[..] == Spliced(old(target[..]), to, bytes)
  {
    var i := 0;
    while i < |bytes|
      invariant 0 <= i <= |bytes|
      invariant target[..] == Spliced(old(target[..]), to, bytes[..i])
    {
      assert bytes[..i + 1] == bytes[..i] + [bytes[i]];
      target[to + i] := bytes[i];
      i := i + 1;
    }
    assert bytes[..|bytes|] == bytes;
  }

  lemma IsMoved(before: seq<Byte>, now: seq<Byte>, to: nat, from: nat, count: nat)
    requires |now| == |before| && to + count <= |before| && from + count <= |before|
    requires forall x :: 0 <= x < to || to + count <= x < |now| ==> now[x] == before[x]
    requires forall x :: to <= x < to + count ==> now[x] == before[x - to + from]
    ensures now == Spliced(before, to, before[from..from + count])
  {
  }

  /** The loop for overlapping ranges of one buffer: from the last byte down, none is read after it was overwritten. */
  method CopyDescending(buf: array<Byte>, to: nat, from: nat, count: nat)
    requires from <= to && to + count <= buf.Length
    modifies buf
    ensures buf[..] == Spliced(old(buf[..]), to, old(buf[from..from + count]))
  {
    ghost var before := buf[..];
    var i := count - 1;
    while i >= 0
      invariant -1 <= i < count
      invariant forall x :: 0 <= x <= to + i || to + count <= x < buf.Length ==> buf[x] == before[x]
      invariant forall x :: to + i < x < to + count ==> buf[x] == before[x - to + from]
    {
      buf[i + to] := buf[i + from];
      i := i - 1;
    }
    IsMoved(before, buf[..], to, from, count);
  }

  /** The last part of `copy`: three ways of moving the bytes, chosen by aliasing and overlap. */
  method MoveBytes(source: array<Byte>, target: array<Byte>, to: nat, from: nat, len: int, hasCopyWithin: bool)
    requires to + Moved(len) <= target.Length && from + Moved(len) <= source.Length
    modifies target
    ensures target[..] == Spliced(old(target[..]), to, old(source[from..from + Moved(len)]))
  {
    if source == target && hasCopyWithin {
      SetBytes(target, source[from..from + Moved(len)], to);
    } else if source == target && from < to && to < from + len {
      CopyDescending(target, to, from, len);
    } else {
      SetBytes(target, source[from..from + Moved(len)], to);
    }
  }

  /** The first part of `copy`: defaults, clamping and range checks, in the source's order. */
  method Arguments(sourceLength: nat, targetLength: nat, targetStart: Option<int>, start: Option<int>, end: Option<int>)
    returns (plan: Plan)
    ensures plan == PlanOf(sourceLength, targetLength, targetStart, start, end)
  {
    var from: int := if start.Some? then start.value else 0;
    var stop: int := if end.Some? then end.value else sourceLength;
    var to: int := if targetStart.Some? then targetStart.value else 0;
    if targetStart.Some? && to >= targetLength {
      to := targetLength;
    }
    if stop > 0 && stop < from {
      stop := from;
    }
    if stop == from || targetLength == 0 || sourceLength == 0 {
      return Nothing;
    }
    if to < 0 {
      return Fail(TargetStartOutOfBounds);
    }
    if from < 0 || from >= sourceLength {
      return Fail(IndexOutOfRange);
    }
    if stop < 0 {
      return Fail(SourceEndOutOfBounds);
    }
    if stop > sourceLength {
      stop := sourceLength;
    }
    if targetLength - to < stop - from {
      stop := targetLength - to + from;
    }
    plan := Move(to, from, stop - from);
  }

  /**
   `copy` leaves in the target range the source bytes as they were before the call, also when source and target are
   one buffer and the ranges overlap, and changes nothing else. `hasCopyWithin` says whether the built-in exists.
   */
  method Copy(source: array<Byte>, target: array<Byte>, targetStart: Option<int>, start: Option<int>, end: Option<int>,
      hasCopyWithin: bool)
    returns (r: Result<int, Error>)
    modifies target
    ensures match PlanOf(source.Length, target.Length, targetStart, start, end)
      case Nothing => r == Ok(0) && target[..] == old(target[..])
      case Fail(error) => r == Err(error) && target[..] == old(target[..])
      case Move(to, from, count) =>
        && to + Moved(count) <= target.Length && from + Moved(count) <= source.Length && r == Ok(count)
        && target[..] == Spliced(old(target[..]), to, old(source[from..from + Moved(count)]))
  {
    PlanFits(source.Length, target.Length, targetStart, start, end);
    var plan := Arguments(source.Length, target.Length, targetStart, start, end);
    match plan {
      case Nothing =>
        r := Ok(0);
      case Fail(error) =>
        r := Err(error);
      case Move(to, from, count) =>
        MoveBytes(source, target, to, from, count, hasCopyWithin);
        r := Ok(count);
    }
  }
}
