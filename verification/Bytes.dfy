/** Bytes of physical memory: four to a word, least significant first. */
module Bytes {
  import opened Bits
  import opened Memory

  type byte = x: int | 0 <= x < 0x100

  function Lane(w: word, l: nat): byte {
    if l == 0 then w % 0x100
    else if l == 1 then w / 0x100 % 0x100
    else if l == 2 then w / 0x10000 % 0x100
    else w / 0x1000000
  }

  function FromLanes(b0: byte, b1: byte, b2: byte, b3: byte): word {
    b0 + 0x100 * b1 + 0x10000 * b2 + 0x1000000 * b3
  }

  function SetLane(w: word, l: nat, b: byte): word {
    FromLanes(if l == 0 then b else Lane(w, 0), if l == 1 then b else Lane(w, 1),
              if l == 2 then b else Lane(w, 2), if l == 3 then b else Lane(w, 3))
  }

  lemma LanesOf(b0: byte, b1: byte, b2: byte, b3: byte)
    ensures var w := FromLanes(b0, b1, b2, b3);
            Lane(w, 0) == b0 && Lane(w, 1) == b1 && Lane(w, 2) == b2 && Lane(w, 3) == b3
  {
    var w := FromLanes(b0, b1, b2, b3);
    DivMod(0x100, b1 + 0x100 * b2 + 0x10000 * b3, b0);
    DivMod(0x100, b2 + 0x100 * b3, b1);
    DivMod(0x10000, b2 + 0x100 * b3, b0 + 0x100 * b1);
    DivMod(0x100, b3, b2);
    DivMod(0x1000000, b3, b0 + 0x100 * b1 + 0x10000 * b2);
  }

  lemma SetLaneThenLane(w: word, l: nat, b: byte, k: nat)
    requires l < 4 && k < 4
    ensures Lane(SetLane(w, l, b), k) == if k == l then b else Lane(w, k)
  {
    hide FromLanes, Lane;
    LanesOf(if l == 0 then b else Lane(w, 0), if l == 1 then b else Lane(w, 1),
            if l == 2 then b else Lane(w, 2), if l == 3 then b else Lane(w, 3));
  }

  predicate HasByte(m: seq<Row>, pa: nat) {
    pa / 0x1000 < |m|
  }

  function GetByte(m: seq<Row>, pa: nat): byte
    requires HasByte(m, pa)
  {
    Lane(m[pa / 0x1000][pa % 0x1000 / 4], pa % 4)
  }

  function PutByte(m: seq<Row>, pa: nat, b: byte): (r: seq<Row>)
    requires HasByte(m, pa)
    ensures |r| == |m| && forall p :: 0 <= p < |m| && p != pa / 0x1000 ==> r[p] == m[p]
  {
    var s := Slot(pa / 0x1000, pa % 0x1000 / 4);
    Poke(m, s, SetLane(Peek(m, s), pa % 4, b))
  }

  lemma AddressDigits(pa: nat)
    ensures pa == 0x1000 * (pa / 0x1000) + 4 * (pa % 0x1000 / 4) + pa % 4
  {
    var q, r := pa / 0x1000, pa % 0x1000;
    assert pa == 4 * (0x400 * q + r / 4) + r % 4;
    DivMod(4, 0x400 * q + r / 4, r % 4);
  }

  /** Storing a byte changes that byte and no other. */
  lemma PutThenGet(m: seq<Row>, pa: nat, b: byte, x: nat)
    requires HasByte(m, pa) && HasByte(m, x)
    ensures GetByte(PutByte(m, pa, b), x) == if x == pa then b else GetByte(m, x)
  {
    hide Lane, SetLane;
    AddressDigits(pa);
    AddressDigits(x);
    SetLaneThenLane(m[pa / 0x1000][pa % 0x1000 / 4], pa % 4, b, x % 4);
  }
}
