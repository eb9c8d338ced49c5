/** Physical memory as rows of words, one row for each frame. */
module Memory {
  import opened Bits

  /** What a fresh frame is filled with. */
  const FILL: word := 0xcccccccc

  /** The words of one frame. */
  type Row = r: seq<word> | |r| == 0x400 witness seq(0x400, _ => 0)

  function FilledRow(): Row {
    seq(0x400, _ => FILL)
  }

  /** The address of one word, as frame and word index. */
  datatype Slot = Slot(frame: nat, index: nat)

  predicate InMemory(m: seq<Row>, s: Slot) {
    s.frame < |m| && s.index < 0x400
  }

  function Peek(m: seq<Row>, s: Slot): word
    requires InMemory(m, s)
  {
    m[s.frame][s.index]
  }

  function Poke(m: seq<Row>, s: Slot, w: word): (r: seq<Row>)
    requires InMemory(m, s)
    ensures |r| == |m|
  {
    m[s.frame := m[s.frame][s.index := w]]
  }
}
