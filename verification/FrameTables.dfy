/** The table of physical frames, searched from the start. */
module FrameTables {

  function FirstFree(frames: seq<bool>, from: nat): (k: nat)
    requires from <= |frames|
    ensures from <= k <= |frames|
    decreases |frames| - from
  {
    if from == |frames| || !frames[from] then from else FirstFree(frames, from + 1)
  }

  lemma {:induction false} FirstFreeIsFirst(frames: seq<bool>, from: nat)
    requires from <= |frames|
    ensures var k := FirstFree(frames, from);
            && (forall i :: from <= i < k ==> frames[i])
            && (k < |frames| ==> !frames[k])
    decreases |frames| - from
  {
    if from < |frames| && frames[from] {
      FirstFreeIsFirst(frames, from + 1);
    }
  }

  function Taken(frames: seq<bool>): nat
  {
    FirstFree(frames, 0)
  }

  /** The taken frames are an initial segment. */
  ghost predicate Segment(frames: seq<bool>)
  {
    forall i :: Taken(frames) <= i < |frames| ==> !frames[i]
  }

  function Take(frames: seq<bool>): seq<bool>
    requires Taken(frames) < |frames|
  {
    frames[Taken(frames) := true]
  }

  /** While nothing is freed, the first free frame is the number of frames taken so far. */
  lemma TakeKeepsSegment(frames: seq<bool>)
    requires Segment(frames) && Taken(frames) < |frames|
    ensures Segment(Take(frames)) && Taken(Take(frames)) == Taken(frames) + 1
  {
    var k, t := Taken(frames), Take(frames);
    FirstFreeIsFirst(frames, 0);
    FirstFreeIsFirst(t, 0);
    assert forall i :: 0 <= i <= k ==> t[i];
    assert forall i :: k < i < |t| ==> !t[i];
    assert k + 1 < |t| ==> !t[k + 1];
  }

  lemma TakeAdvances(frames: seq<bool>)
    requires Taken(frames) < |frames|
    ensures |Take(frames)| == |frames| && Taken(Take(frames)) > Taken(frames)
  {
    FirstFreeIsFirst(frames, 0);
    FirstFreeIsFirst(Take(frames), 0);
    assert forall i :: 0 <= i <= Taken(frames) ==> Take(frames)[i];
  }

  class FrameTable {
    const frames: array<bool>

    constructor (length: nat)
      ensures fresh(frames) && frames.Length == length
      ensures Taken(frames[..]) == 0 && Segment(frames[..])
    {
      frames := new bool[length](_ => false);
      new;
      assert forall i :: 0 <= i < length ==> !frames[..][i];
    }

    method FindFirst() returns (idx: nat, error: bool)
      ensures error <==> Taken(frames[..]) == frames.Length
      ensures !error ==> idx == Taken(frames[..])
    {
      idx := 0;
      error := false;
      var i := 0;
      while i < frames.Length
        invariant 0 <= i <= frames.Length
        invariant Taken(frames[..]) == FirstFree(frames[..], i)
        invariant idx == 0 && !error
      {
        if !frames[i] {
          idx := i;
          return;
        }
        i := i + 1;
      }
      error := true;
    }

    method SetAtIndex(idx: nat)
      requires idx < frames.Length
      modifies frames
      ensures frames[..] == old(frames[..])[idx := true]
    {
      frames[idx] := true;
    }
  }
}
