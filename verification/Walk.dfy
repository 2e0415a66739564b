/** Walking a run of frames, some of them absent, through one buffer. */
module Walk {
  import opened Common
  import opened Bytes
  import opened Wire
  import opened Parse
  import opened Framing
  import opened RoundTrip

  /** The frames found and the bytes left where the walk stops. */
  datatype Walked = Walked(frames: seq<Option<Owid>>, rest: Buffer)

  /** The frame at the front, where the walk steps over it. */
  predicate StepsOver(data: Buffer) {
    ReadOf(data, false).ok || ReadOf(data, false).status == AbsentNode
  }

  lemma StepAdvances(data: Buffer)
    requires StepsOver(data)
    ensures 0 < ReadOf(data, false).consumed <= |data|
  {
    ConsumedIsPresent(data, false);
  }

  /** The walk ends on every input: a frame stepped over is never empty. */
  function WalkOf(data: Buffer): Walked
    decreases |data|
  {
    if data == [] || !StepsOver(data) then Walked([], data)
    else
      StepAdvances(data);
      var r := ReadOf(data, false);
      var after := WalkOf(data[r.consumed..]);
      Walked([r.owid] + after.frames, after.rest)
  }

  /** The loop a caller writes around the framed read. */
  method WalkFrames(buffer: Buffer) returns (frames: seq<Option<Owid>>, rest: Buffer)
    ensures Walked(frames, rest) == WalkOf(buffer)
  {
    frames, rest := [], buffer;
    while rest != []
      invariant WalkOf(buffer) == Walked(frames + WalkOf(rest).frames, WalkOf(rest).rest)
      decreases |rest|
    {
      var frame := ParseWalk(Bytes(rest), false);
      if !frame.ok && frame.status != AbsentNode { return; }
      StepAdvances(rest);
      ghost var found := frames;
      frames := frames + [frame.owid];
      rest := rest[frame.consumed..];
      assert found + ([frame.owid] + WalkOf(rest).frames) == frames + WalkOf(rest).frames;
    }
  }

  /** The frames written one after another. */
  ghost predicate Writable(frames: seq<Option<Owid>>) {
    forall i :: 0 <= i < |frames| ==> SerialisedOptional(frames[i]).Some?
  }

  ghost function Written(frames: seq<Option<Owid>>): Buffer
    requires Writable(frames)
  {
    if frames == [] then [] else SerialisedOptional(frames[0]).value + Written(frames[1..])
  }

  lemma FrontFrame(frame: Option<Owid>, more: Buffer)
    requires SerialisedOptional(frame).Some?
    ensures var data := SerialisedOptional(frame).value;
      data != [] && ReadOf(data + more, false) ==
        if frame.None? then ParseResult(false, None, AbsentNode, 1)
        else if DateReadable(frame.value) then ParseResult(true, Some(AsRead(frame.value)), Parsed, |data|)
        else Failed(ImplementationCapacityExceeded)
  {
    if frame.Some? { ReadOfWritten(frame.value, false); }
    FinalAnswersStay(SerialisedOptional(frame).value, more);
  }

  lemma WalkOfFront(frame: Option<Owid>, more: Buffer)
    requires SerialisedOptional(frame).Some?
    ensures var data := SerialisedOptional(frame).value + more;
      WalkOf(data) ==
        if frame.Some? && !DateReadable(frame.value) then Walked([], data)
        else Walked([if frame.None? then None else Some(AsRead(frame.value))] + WalkOf(more).frames, WalkOf(more).rest)
  {
    FrontFrame(frame, more);
    var front := SerialisedOptional(frame).value;
    assert (front + more)[|front|..] == more;
  }

  /** The frames come back from the front one and the rest just where both do. */
  lemma FrontAndRest(found: seq<Option<Owid>>, after: seq<Option<Owid>>, frames: seq<Option<Owid>>)
    requires frames != [] && found != [] && found[1..] == after
    ensures found == frames <==> found[0] == frames[0] && after == frames[1..]
  {
    assert found == [found[0]] + after && frames == [frames[0]] + frames[1..];
  }

  /**
   The walk undoes the writer: over frames written one after another it finds the
   same frames and leaves nothing, exactly where each OWID written is lossless.
   */
  lemma {:induction false} WalkingUndoesWriting(frames: seq<Option<Owid>>)
    requires Writable(frames)
    ensures WalkOf(Written(frames)) == Walked(frames, [])
      <==> forall i :: 0 <= i < |frames| ==> frames[i].None? || Lossless(frames[i].value)
  {
    if frames != [] {
      var frame, others := frames[0], frames[1..];
      assert forall i | 0 <= i < |others| :: others[i] == frames[i + 1];
      WalkingUndoesWriting(others);
      WalkOfFront(frame, Written(others));
      if frame.Some? { SameAsRead(frame.value); }
      var walked, after := WalkOf(Written(frames)), WalkOf(Written(others));
      if walked.frames != [] { FrontAndRest(walked.frames, after.frames, frames); }
    }
  }

  /** What the loop that stops at anything but a frame finds: an absent one ends it. */
  function BreakingWalkOf(data: Buffer): Walked
    decreases |data|
  {
    if data == [] || !ReadOf(data, false).ok then Walked([], data)
    else
      StepAdvances(data);
      var r := ReadOf(data, false);
      var after := BreakingWalkOf(data[r.consumed..]);
      Walked([r.owid] + after.frames, after.rest)
  }

  lemma BreakingWalkOfFront(owid: Owid, more: Buffer)
    requires Serialised(owid).Some? && Lossless(owid)
    ensures var after := BreakingWalkOf(more);
      BreakingWalkOf(Serialised(owid).value + more) == Walked([Some(owid)] + after.frames, after.rest)
  {
    FrontFrame(Some(owid), more);
    SameAsRead(owid);
    var front := Serialised(owid).value;
    assert (front + more)[|front|..] == more;
  }

  lemma BreakingWalkAtAbsent(more: Buffer)
    ensures BreakingWalkOf([Empty.AsByte()] + more) == Walked([], [Empty.AsByte()] + more)
  {
    FrontFrame(None, more);
  }

  /**
   Such a loop finds the frames before the first absent one and none after it,
   whatever follows.
   */
  lemma {:induction false} BreakingWalkStopsAtAbsent(found: seq<Option<Owid>>, more: Buffer)
    requires Writable(found) && forall i :: 0 <= i < |found| ==> found[i].Some? && Lossless(found[i].value)
    ensures var left := [Empty.AsByte()] + more; BreakingWalkOf(Written(found) + left) == Walked(found, left)
  {
    if found == [] {
      BreakingWalkAtAbsent(more);
      EmptyInFront([Empty.AsByte()] + more);
    } else {
      WritableTail(found);
      BreakingWalkStopsAtAbsent(found[1..], more);
      BreakingWalkOfFront(found[0].value, Written(found[1..]) + ([Empty.AsByte()] + more));
      Regrouped(Serialised(found[0].value).value, Written(found[1..]), [Empty.AsByte()] + more);
      assert found == [found[0]] + found[1..];
    }
  }

  lemma EmptyInFront(b: Buffer)
    ensures [] + b == b
  {
  }

  lemma Regrouped(a: Buffer, b: Buffer, c: Buffer)
    ensures (a + b) + c == a + (b + c)
  {
  }

  lemma WritableTail(frames: seq<Option<Owid>>)
    requires Writable(frames) && frames != []
    ensures Writable(frames[1..])
  {
  }

  lemma BreakingWalkOfAnyFront(frame: Option<Owid>, more: Buffer)
    requires SerialisedOptional(frame).Some?
    ensures var data := SerialisedOptional(frame).value + more;
      BreakingWalkOf(data) ==
        if frame.None? || !DateReadable(frame.value) then Walked([], data)
        else Walked([Some(AsRead(frame.value))] + BreakingWalkOf(more).frames, BreakingWalkOf(more).rest)
  {
    FrontFrame(frame, more);
    var front := SerialisedOptional(frame).value;
    assert (front + more)[|front|..] == more;
  }

  /**
   When that loop undoes the writer: exactly where no frame written is absent and
   each OWID is lossless.
   */
  lemma {:induction false} BreakingWalkUndoesWriting(frames: seq<Option<Owid>>)
    requires Writable(frames)
    ensures BreakingWalkOf(Written(frames)) == Walked(frames, [])
      <==> forall i :: 0 <= i < |frames| ==> frames[i].Some? && Lossless(frames[i].value)
  {
    if frames != [] {
      var frame, others := frames[0], frames[1..];
      assert forall i | 0 <= i < |others| :: others[i] == frames[i + 1];
      BreakingWalkUndoesWriting(others);
      BreakingWalkOfAnyFront(frame, Written(others));
      if frame.Some? { SameAsRead(frame.value); }
      var walked, after := BreakingWalkOf(Written(frames)), BreakingWalkOf(Written(others));
      if walked.frames != [] { FrontAndRest(walked.frames, after.frames, frames); }
    }
  }

  /** An absent frame alone is enough: the other walk steps over it, and this one stops. */
  lemma AbsentFrameStopsTheBreakingWalk()
    ensures Writable([None]) && WalkOf(Written([None])) == Walked([None], [])
    ensures BreakingWalkOf(Written([None])) != Walked([None], [])
  {
    WalkingUndoesWriting([None]);
    BreakingWalkUndoesWriting([None]);
  }
}
