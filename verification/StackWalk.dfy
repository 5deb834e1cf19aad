/** The frame-pointer walk behind `debug_call_stack`. */
module StackWalk {
  import opened Prelude
  import opened Memory

  datatype Frame = Frame(ip: Word, sp: Word)

  /** The frame at `framePointer` can be followed to its caller: both words are
      readable, it returns somewhere, and the saved frame pointer lies higher up. */
  predicate Linked(mem: Memory, framePointer: Word) {
    && framePointer != 0
    && LoadWord(mem, framePointer).Some?
    && LoadWord(mem, Wrap(framePointer + 8)).Some?
    && LoadWord(mem, Wrap(framePointer + 8)).value != 0
    && LoadWord(mem, framePointer).value > framePointer
  }

  function Caller(mem: Memory, framePointer: Word): Word
    requires Linked(mem, framePointer)
  {
    LoadWord(mem, framePointer).value
  }

  function FrameAt(mem: Memory, framePointer: Word): Frame
    requires Linked(mem, framePointer)
  {
    Frame(LoadWord(mem, Wrap(framePointer + 8)).value, framePointer)
  }

  /** The whole chain, with no limit on its length: it ends because the frame
      pointers climb inside a bounded address space. */
  function Chain(mem: Memory, framePointer: Word): seq<Frame>
    decreases TWO_64 - framePointer
  {
    if !Linked(mem, framePointer) then []
    else [FrameAt(mem, framePointer)] + Chain(mem, Caller(mem, framePointer))
  }

  function Min(a: nat, b: nat): nat {
    if a < b then a else b
  }

  method CallStack(rip: Word, rsp: Word, rbp: Word, mem: Memory) returns (frames: seq<Frame>)
    ensures var chain := Chain(mem, rbp);
            frames == [Frame(rip, rsp)] + chain[..Min(64, |chain|)]
  {
    frames := [Frame(rip, rsp)];
    var framePointer: Word := rbp;
    var depth := 0;
    ghost var chain := Chain(mem, rbp);
    while depth < 64 && framePointer != 0
      invariant 0 <= depth <= 64 && depth <= |chain|
      invariant frames == [Frame(rip, rsp)] + chain[..depth]
      invariant Chain(mem, framePointer) == chain[depth..]
    {
      var savedRbp := LoadWord(mem, framePointer);
      var returnAddress := LoadWord(mem, (framePointer + 8) % TWO_64);
      if savedRbp.None? || returnAddress.None? || returnAddress.value == 0 || savedRbp.value <= framePointer {
        break;
      }
      assert Linked(mem, framePointer);
      assert chain[depth..][0] == chain[depth] && chain[depth..][1..] == chain[depth + 1..];
      frames := frames + [Frame(returnAddress.value, framePointer)];
      framePointer := savedRbp.value;
      depth := depth + 1;
    }
    assert depth < 64 ==> Chain(mem, framePointer) == [];
  }

  predicate Climbs(frames: seq<Frame>) {
    forall i, j | 0 <= i < j < |frames| :: frames[i].sp < frames[j].sp
  }

  /** The frame pointers of the chain strictly increase, so no frame repeats. */
  lemma {:induction false} ChainClimbs(mem: Memory, framePointer: Word)
    ensures Climbs(Chain(mem, framePointer))
    ensures forall f | f in Chain(mem, framePointer) :: f.sp >= framePointer
    decreases TWO_64 - framePointer
  {
    if Linked(mem, framePointer) {
      ChainClimbs(mem, Caller(mem, framePointer));
      var rest := Chain(mem, Caller(mem, framePointer));
      assert forall i | 0 <= i < |rest| :: rest[i] in rest;
    }
  }

  /** Frame pointer after following `n` links, if there are that many. */
  ghost predicate Reaches(mem: Memory, framePointer: Word, n: nat, target: Word)
    decreases n
  {
    if n == 0 then framePointer == target
    else Linked(mem, framePointer) && Reaches(mem, Caller(mem, framePointer), n - 1, target)
  }

  /** The chain is the longest walkable prefix: frame n is listed exactly when n links
      lead to a frame whose two words are readable, that returns somewhere and whose caller's
      frame lies higher up; it is listed with the address it returns to. */
  lemma {:induction false} ChainIsLongest(mem: Memory, framePointer: Word, n: nat, target: Word)
    requires Reaches(mem, framePointer, n, target)
    ensures n <= |Chain(mem, framePointer)|
    ensures var saved, returnAddress := LoadWord(mem, target), LoadWord(mem, Wrap(target + 8));
            && (n < |Chain(mem, framePointer)| <==>
                  target != 0 && saved.Some? && saved.value > target && returnAddress.Some? && returnAddress != Some(0))
            && (n < |Chain(mem, framePointer)| ==>
                  && Chain(mem, framePointer)[n] == Frame(returnAddress.value, target)
                  && Reaches(mem, framePointer, n + 1, saved.value))
    decreases n
  {
    if n > 0 {
      ChainIsLongest(mem, Caller(mem, framePointer), n - 1, target);
    }
  }

  /** The outermost frame, whose saved frame pointer is 0, is never listed even though
      its return address is readable. */
  lemma OutermostFrameDropped(mem: Memory, framePointer: Word, n: nat, outermost: Word)
    requires Reaches(mem, framePointer, n, outermost) && LoadWord(mem, outermost) == Some(0)
    ensures |Chain(mem, framePointer)| == n
  {
    ChainIsLongest(mem, framePointer, n, outermost);
  }
}
