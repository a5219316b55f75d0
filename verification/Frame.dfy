/** The register frame as the interpreter sees it: a row of bytes that instructions read and
    write through the places of their operands. */
module Frame {
  import opened Basics
  import opened Code

  /** First byte and size in the register frame. */
  datatype Slot = Slot(off: nat, size: nat)

  predicate Disjoint(a: Slot, b: Slot) {
    a.off + a.size <= b.off || b.off + b.size <= a.off
  }

  predicate Inside(a: Slot, frameSize: nat) {
    a.off + a.size <= frameSize
  }

  function ReadSlot(frame: seq<Byte>, a: Slot): (r: Value)
    ensures |r| == a.size
  {
    seq(a.size, i requires 0 <= i < a.size => if a.off + i < |frame| then frame[a.off + i] else 0)
  }

  function WriteSlot(frame: seq<Byte>, a: Slot, v: Value): (r: seq<Byte>)
    requires |v| == a.size
    ensures |r| == |frame|
  {
    seq(|frame|, i requires 0 <= i < |frame| => if a.off <= i < a.off + a.size then v[i - a.off] else frame[i])
  }

  lemma ReadBack(frame: seq<Byte>, a: Slot, v: Value)
    requires |v| == a.size && Inside(a, |frame|)
    ensures ReadSlot(WriteSlot(frame, a, v), a) == v
  {
  }

  lemma ReadOther(frame: seq<Byte>, a: Slot, v: Value, b: Slot)
    requires |v| == a.size && Disjoint(a, b)
    ensures ReadSlot(WriteSlot(frame, a, v), b) == ReadSlot(frame, b)
  {
  }

  function SlotAt(place: seq<Slot>, t: Temp): (r: Slot) {
    if t < |place| then place[t] else Slot(0, 0)
  }

  function ReadSlots(frame: seq<Byte>, place: seq<Slot>, ts: seq<Temp>): (r: seq<Value>)
    ensures |r| == |ts|
  {
    seq(|ts|, k requires 0 <= k < |ts| => ReadSlot(frame, SlotAt(place, ts[k])))
  }

  /** Stores the first k results. */
  function WriteSlots(frame: seq<Byte>, place: seq<Slot>, defs: seq<Temp>, rs: seq<Value>, k: nat): (r: seq<Byte>)
    requires k <= |defs|
    ensures |r| == |frame|
  {
    if k == 0 then frame
    else
      var before := WriteSlots(frame, place, defs, rs, k - 1);
      var a := SlotAt(place, defs[k - 1]);
      WriteSlot(before, a, Fit(ResultAt(rs, k - 1), a.size))
  }

  function StepFrame<W>(m: Machine<W>, code: seq<Instr>, place: seq<Slot>,
                        s: Outcome<seq<Byte>, W>): (r: Outcome<seq<Byte>, W>) {
    if s.Left? || s.pc >= |code| then s
    else
      var ins := code[s.pc];
      var args := ReadSlots(s.store, place, ins.uses);
      var frame' := WriteSlots(s.store, place, ins.defs, Results(m, ins, args, s.world), |ins.defs|);
      Advance(m, ins, s.pc, args, s.world, frame')
  }

  function RunFrame<W>(m: Machine<W>, code: seq<Instr>, place: seq<Slot>, s: Outcome<seq<Byte>, W>,
                       steps: nat): (r: Outcome<seq<Byte>, W>) {
    if steps == 0 then s else StepFrame(m, code, place, RunFrame(m, code, place, s, steps - 1))
  }

  /** Executing the split of a 64-bit argument whose halves have adjacent places stores it as a whole. */
  lemma SplitStep<W>(m: Machine<W>, code: seq<Instr>, place: seq<Slot>, s: Outcome<seq<Byte>, W>, lo: Temp, hi: Temp,
                     src: Temp)
    requires s.Running? && s.pc < |code| && code[s.pc] == Instr(Move, [lo, hi], [src], Fall)
    requires lo < |place| && hi < |place| && src < |place| && place[src].size == 8
    requires place[lo].size == 4 && place[hi] == Slot(place[lo].off + 4, 4)
    ensures StepFrame(m, code, place, s) ==
            Running(s.pc + 1, WriteSlot(s.store, Slot(place[lo].off, 8), ReadSlot(s.store, place[src])), s.world)
  {
    var v := ReadSlot(s.store, place[src]);
    assert ReadSlots(s.store, place, [src]) == [v];
    SplitIsOneStore(s.store, lo, hi, place, v);
  }

  /** The split of a 64-bit argument: the two halves go to adjacent places, the first one lower,
      which is what one 64-bit store does. */
  lemma SplitIsOneStore(frame: seq<Byte>, lo: Temp, hi: Temp, place: seq<Slot>, v: Value)
    requires |v| == 8 && lo < |place| && hi < |place|
    requires place[lo].size == 4 && place[hi] == Slot(place[lo].off + 4, 4)
    ensures WriteSlots(frame, place, [lo, hi], [v, Drop(v, 4)], 2) == WriteSlot(frame, Slot(place[lo].off, 8), v)
  {
    assert WriteSlots(frame, place, [lo, hi], [v, Drop(v, 4)], 0) == frame;
    assert WriteSlots(frame, place, [lo, hi], [v, Drop(v, 4)], 1) == WriteSlot(frame, place[lo], Fit(v, 4));
  }
}
