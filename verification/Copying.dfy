/** Copying the bytes of an ELF image through a page table. */
module Copying {
  import opened Bits
  import opened Outcomes
  import opened Descriptors
  import opened AddressSpace
  import opened Memory
  import opened TableMemory
  import opened Bytes
  import opened Translation

  /** memcpy(dest, src, n), where dest is virtual and src is in identity-mapped memory; None is a data abort. */
  function CopyBytes(m: seq<Row>, t: Table, dest: nat, src: nat, n: nat): Option<seq<Row>> {
    if n == 0 then Some(m)
    else
      match CopyBytes(m, t, dest, src, n - 1)
      case None => None
      case Some(q) => CopyByte(q, t, dest + (n - 1), src + (n - 1))
  }

  function CopyByte(m: seq<Row>, t: Table, dest: nat, src: nat): (r: Option<seq<Row>>)
    ensures r.Some? ==> |r.value| == |m|
  {
    match Translate(t, dest)
    case Failure => None
    case Success(pa) => if HasByte(m, pa) && HasByte(m, src) then Some(PutByte(m, pa, GetByte(m, src))) else None
  }

  /** No page of t is backed by a page that holds t itself. */
  ghost predicate SelfIsolated(t: Table) {
    forall v, p: nat :: 0 <= v < PageCount(t) && At(t, v) == Committed(p) ==> !TableFrame(t, p)
  }

  /** m and r differ at most in frames that t maps. */
  ghost predicate OnlyMapped(m: seq<Row>, r: seq<Row>, t: Table) {
    |r| == |m| && forall p: nat :: p < |m| && !Maps(t, p) ==> r[p] == m[p]
  }

  /** A copy never damages the table it goes through. */
  lemma MappedKeepsTable(m: seq<Row>, r: seq<Row>, t: Table)
    requires Stored(m, t) && OnlyMapped(m, r, t) && SelfIsolated(t)
    ensures Stored(r, t)
  {
    hide At, TableFrame;
    forall p: nat | p < |m| && TableFrame(t, p) ensures r[p] == m[p] {
      assert !Maps(t, p);
    }
    HoldsElsewhere(m, r, t);
  }

  lemma CopyByteMapped(m: seq<Row>, t: Table, dest: nat, src: nat)
    requires CopyByte(m, t, dest, src).Some?
    ensures OnlyMapped(m, CopyByte(m, t, dest, src).value, t)
  {
    hide At, GetByte;
    var pa := Translate(t, dest).value;
    TranslateFrame(t, dest);
    assert At(t, dest / PAGE_SIZE) == Committed(pa / 0x1000);
    assert Maps(t, pa / 0x1000);
  }

  /** A translated address lies in the frame of its page, at the same offset. */
  lemma TranslateFrame(t: Table, va: nat)
    requires Translate(t, va).Success?
    ensures var pa := Translate(t, va).value;
            va / PAGE_SIZE < PageCount(t) && At(t, va / PAGE_SIZE) == Committed(pa / 0x1000) && pa % 0x1000 == va % PAGE_SIZE
  {
    hide At;
    DivMod(PAGE_SIZE, At(t, va / PAGE_SIZE).frame, va % PAGE_SIZE);
  }

  // ---------------------------------------------------------------- what a copy achieves

  /** Where byte k of the destination is. */
  function Dest(t: Table, dest: nat, k: nat): Result<nat> {
    Translate(t, dest + k)
  }

  /** Byte k can be copied: its source and its destination are in memory. */
  ghost predicate ByteCopyable(m: seq<Row>, t: Table, dest: nat, src: nat, k: nat) {
    Dest(t, dest, k).Success? && HasByte(m, Dest(t, dest, k).value) && HasByte(m, src + k)
  }

  /** Bytes j and k of the destination are at distinct places. */
  ghost predicate DestApart(t: Table, dest: nat, j: nat, k: nat) {
    Dest(t, dest, j) != Dest(t, dest, k)
  }

  /** The n bytes from dest on can be written, at distinct places, and none of them is one of the bytes from src on. */
  ghost predicate Copyable(m: seq<Row>, t: Table, dest: nat, src: nat, n: nat) {
    && (forall k: nat :: k < n ==> ByteCopyable(m, t, dest, src, k))
    && (forall j: nat, k: nat :: j < k < n ==> DestApart(t, dest, j, k))
    && (forall x: nat :: src <= x < src + n ==> !Written(t, dest, n, x))
  }

  /** x is one of the places that a copy of n bytes to dest writes. */
  ghost predicate Written(t: Table, dest: nat, n: nat, x: nat) {
    exists k: nat :: k < n && Dest(t, dest, k) == Success(x)
  }

  /** Byte k is at its destination in r as it was at its source in m. */
  ghost predicate ByteCopied(m: seq<Row>, r: seq<Row>, t: Table, dest: nat, src: nat, k: nat) {
    ByteCopyable(m, t, dest, src, k) && |r| == |m| && GetByte(r, Dest(t, dest, k).value) == GetByte(m, src + k)
  }

  /** A copy puts the source bytes at the translated destination, and changes nothing else. */
  ghost predicate Copied(m: seq<Row>, r: seq<Row>, t: Table, dest: nat, src: nat, n: nat) {
    && |r| == |m|
    && (forall k: nat :: k < n ==> ByteCopied(m, r, t, dest, src, k))
    && (forall x: nat :: HasByte(m, x) && !Written(t, dest, n, x) ==> GetByte(r, x) == GetByte(m, x))
  }

  lemma {:induction false} CopyBytesRight(m: seq<Row>, t: Table, dest: nat, src: nat, n: nat)
    requires Copyable(m, t, dest, src, n)
    ensures CopyBytes(m, t, dest, src, n).Some? && Copied(m, CopyBytes(m, t, dest, src, n).value, t, dest, src, n)
  {
    hide Translate, GetByte, PutByte, HasByte;
    if n > 0 {
      var j := n - 1;
      CopyableLess(m, t, dest, src, n);
      CopyBytesRight(m, t, dest, src, j);
      var q := CopyBytes(m, t, dest, src, j).value;
      SameSize(m, q);
      CopiedNext(m, q, t, dest, src, n);
    }
  }

  lemma CopyableLess(m: seq<Row>, t: Table, dest: nat, src: nat, n: nat)
    requires n > 0 && Copyable(m, t, dest, src, n)
    ensures Copyable(m, t, dest, src, n - 1) && ByteCopyable(m, t, dest, src, n - 1)
    ensures !Written(t, dest, n - 1, src + (n - 1)) && !Written(t, dest, n - 1, Dest(t, dest, n - 1).value)
  {
    hide Dest, ByteCopyable;
    assert ByteCopyable(m, t, dest, src, n - 1);
    var j := n - 1;
    forall x: nat | src <= x < src + n ensures !Written(t, dest, j, x) {
      WrittenMore(t, dest, j, x);
    }
    DestinationsApart(m, t, dest, src, n);
  }

  lemma WrittenMore(t: Table, dest: nat, n: nat, x: nat)
    ensures Written(t, dest, n, x) ==> Written(t, dest, n + 1, x)
  {
    hide Dest;
    if Written(t, dest, n, x) {
      var k: nat :| k < n && Dest(t, dest, k) == Success(x);
      assert k < n + 1;
    }
  }

  lemma DestinationsApart(m: seq<Row>, t: Table, dest: nat, src: nat, n: nat)
    requires n > 0 && Copyable(m, t, dest, src, n)
    ensures Dest(t, dest, n - 1).Success? && !Written(t, dest, n - 1, Dest(t, dest, n - 1).value)
  {
    hide Dest;
    assert ByteCopyable(m, t, dest, src, n - 1);
    forall k: nat | k < n - 1 ensures Dest(t, dest, k) != Dest(t, dest, n - 1) {
      assert DestApart(t, dest, k, n - 1);
    }
  }

  lemma SameSize(m: seq<Row>, q: seq<Row>)
    requires |q| == |m|
    ensures forall x: nat :: HasByte(q, x) <==> HasByte(m, x)
  {
  }

  /** One more byte. */
  lemma CopiedNext(m: seq<Row>, q: seq<Row>, t: Table, dest: nat, src: nat, n: nat)
    requires n > 0 && Copyable(m, t, dest, src, n) && Copied(m, q, t, dest, src, n - 1)
    requires ByteCopyable(m, t, dest, src, n - 1) && ByteCopyable(q, t, dest, src, n - 1)
    ensures Copied(m, PutByte(q, Dest(t, dest, n - 1).value, GetByte(q, src + (n - 1))), t, dest, src, n)
  {
    hide Dest, GetByte, PutByte, HasByte, Written, Copyable;
    var j := n - 1;
    var pa := Dest(t, dest, j).value;
    SameSize(m, q);
    var b := GetByte(q, src + j);
    var r := PutByte(q, pa, b);
    SameSize(m, r);
    CopyableLess(m, t, dest, src, n);
    forall k: nat | k < n ensures ByteCopied(m, r, t, dest, src, k) {
      if k < j {
        assert ByteCopied(m, q, t, dest, src, k);
        IsWritten(t, dest, j, k);
        PutThenGet(q, pa, b, Dest(t, dest, k).value);
      } else {
        PutThenGet(q, pa, b, pa);
      }
    }
    forall x: nat | HasByte(m, x) && !Written(t, dest, n, x) ensures GetByte(r, x) == GetByte(m, x) {
      PutThenGet(q, pa, b, x);
      WrittenMore(t, dest, j, x);
      IsWritten(t, dest, n, j);
    }
  }

  lemma IsWritten(t: Table, dest: nat, n: nat, k: nat)
    requires k < n && Dest(t, dest, k).Success?
    ensures Written(t, dest, n, Dest(t, dest, k).value)
  {
  }

  /** None of the n bytes from dest on is in frame f. */
  ghost predicate Avoids(t: Table, dest: nat, n: nat, f: nat) {
    forall k: nat :: k < n && Dest(t, dest, k).Success? ==> Dest(t, dest, k).value / 0x1000 != f
  }

  /** A copy leaves every frame alone that it has no destination in. */
  lemma {:induction false} CopyBytesElsewhere(m: seq<Row>, t: Table, dest: nat, src: nat, n: nat, f: nat)
    requires CopyBytes(m, t, dest, src, n).Some? && Avoids(t, dest, n, f) && f < |m|
    ensures |CopyBytes(m, t, dest, src, n).value| == |m| && CopyBytes(m, t, dest, src, n).value[f] == m[f]
  {
    hide Translate, GetByte;
    if n > 0 {
      CopyBytesElsewhere(m, t, dest, src, n - 1, f);
      assert Dest(t, dest, n - 1) == Translate(t, dest + (n - 1));
    }
  }
}
