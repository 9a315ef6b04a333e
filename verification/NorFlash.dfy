/** The memory-mapped NOR flash the firmware writes through `flash_range_erase` and `flash_range_program`:
    erasing sets every bit, programming only clears bits, and losing power in the middle of an operation
    leaves any mixture of the bits before and after. */
module NorFlash {
  import opened Bits

  const SECTOR: nat := 4096

  datatype Region = Slot0 | Slot1 | Journal

  datatype Flash = Flash(slot0: seq<byte>, slot1: seq<byte>, journal: seq<byte>) {
    function Read(region: Region): seq<byte> {
      match region
      case Slot0 => slot0
      case Slot1 => slot1
      case Journal => journal
    }

    function With(region: Region, cells: seq<byte>): Flash {
      match region
      case Slot0 => this.(slot0 := cells)
      case Slot1 => this.(slot1 := cells)
      case Journal => this.(journal := cells)
    }
  }

  datatype FlashOp =
    | Erase(region: Region)
    | Program(region: Region, offset: nat, data: seq<byte>)

  function Erased(length: nat): (r: seq<byte>)
    ensures |r| == length && forall i :: 0 <= i < length ==> r[i] == 255
  {
    seq(length, i => 255)
  }

  function Programmed(cells: seq<byte>, offset: nat, data: seq<byte>): (r: seq<byte>)
    ensures |r| == |cells|
    ensures forall i :: 0 <= i < |cells| ==>
      r[i] == if offset <= i < offset + |data| then And(cells[i], data[i - offset]) else cells[i]
  {
    seq(|cells|, i requires 0 <= i < |cells| =>
      if offset <= i < offset + |data| then And(cells[i], data[i - offset]) else cells[i])
  }

  /** The region's cells after a completed operation. */
  function CellsAfter(cells: seq<byte>, op: FlashOp): (r: seq<byte>)
    ensures |r| == |cells|
  {
    match op
    case Erase(_) => Erased(|cells|)
    case Program(_, offset, data) => Programmed(cells, offset, data)
  }

  function Apply(f: Flash, op: FlashOp): Flash {
    f.With(op.region, CellsAfter(f.Read(op.region), op))
  }

  /** Every bit of `t` is the bit before or the bit after; one of `a`, `b` is a submask of the other. */
  predicate BitsBetween(a: nat, b: nat, t: nat) {
    (Submask(a, t) && Submask(t, b)) || (Submask(b, t) && Submask(t, a))
  }

  predicate CellsBetween(before: seq<byte>, after: seq<byte>, t: seq<byte>) {
    |before| == |after| == |t| && forall i :: 0 <= i < |t| ==> BitsBetween(before[i], after[i], t[i])
  }

  /** Power is lost inside `op`: only its region is disturbed, bit by bit. */
  predicate Interrupted(f: Flash, op: FlashOp, t: Flash) {
    && t == f.With(op.region, t.Read(op.region))
    && CellsBetween(f.Read(op.region), CellsAfter(f.Read(op.region), op), t.Read(op.region))
  }

  predicate SameShape(f: Flash, g: Flash) {
    |f.slot0| == |g.slot0| && |f.slot1| == |g.slot1| && |f.journal| == |g.journal|
  }

  function ApplyAll(f: Flash, ops: seq<FlashOp>): (r: Flash)
    ensures SameShape(f, r)
    decreases |ops|
  {
    if ops == [] then f else ApplyAll(Apply(f, ops[0]), ops[1..])
  }

  /** `t` is a flash content that a power cut somewhere inside the sequence can leave behind. */
  predicate CutDuring(f: Flash, ops: seq<FlashOp>, t: Flash)
    decreases |ops|
  {
    if ops == [] then t == f
    else Interrupted(f, ops[0], t) || CutDuring(Apply(f, ops[0]), ops[1..], t)
  }

  /** An operation can be cut before it has changed anything, and after it has completed. */
  lemma InterruptedAtEnds(f: Flash, op: FlashOp)
    ensures Interrupted(f, op, f)
    ensures Interrupted(f, op, Apply(f, op))
  {
    var cells := f.Read(op.region);
    var after := CellsAfter(cells, op);
    forall i | 0 <= i < |cells|
      ensures BitsBetween(cells[i], after[i], cells[i])
      ensures BitsBetween(cells[i], after[i], after[i])
    {
      SubmaskRefl(cells[i]);
      SubmaskRefl(after[i]);
      match op {
        case Erase(_) => ErasedAbove(cells[i]);
        case Program(_, offset, data) =>
          if offset <= i < offset + |data| {
            AndSubmask(cells[i], data[i - offset]);
          }
      }
    }
  }

  /** Byte by byte either state is a mixture a power cut can leave. */
  lemma MixtureIsInterrupted(f: Flash, op: FlashOp, t: Flash)
    requires var cells, after := f.Read(op.region), CellsAfter(f.Read(op.region), op);
      && t == f.With(op.region, t.Read(op.region)) && |t.Read(op.region)| == |cells|
      && forall i :: 0 <= i < |cells| ==> t.Read(op.region)[i] == cells[i] || t.Read(op.region)[i] == after[i]
    ensures Interrupted(f, op, t)
  {
    hide BitsBetween;
    InterruptedAtEnds(f, op);
    assert Apply(f, op).Read(op.region) == CellsAfter(f.Read(op.region), op);
  }

  lemma ErasedAbove(b: byte)
    ensures Submask(b, 255)
  {
    AndErased(b);
    AndCommutes(b, 255);
  }

  lemma {:induction false} AndCommutes(a: nat, b: nat)
    ensures And(a, b) == And(b, a)
  {
    if a != 0 && b != 0 {
      AndCommutes(a / 2, b / 2);
    }
  }

  lemma {:induction false} AndSubmask(a: nat, b: nat)
    ensures Submask(And(a, b), a)
  {
    if a != 0 && b != 0 {
      AndSubmask(a / 2, b / 2);
      AndHalves(a, b);
      AndHalves(And(a, b), a);
    }
  }

  lemma AndHalves(a: nat, b: nat)
    ensures And(a, b) % 2 == if a % 2 == 1 && b % 2 == 1 then 1 else 0
    ensures And(a, b) / 2 == And(a / 2, b / 2)
  {
  }

  lemma {:induction false} ApplyAllConcat(f: Flash, a: seq<FlashOp>, b: seq<FlashOp>)
    ensures ApplyAll(f, a + b) == ApplyAll(ApplyAll(f, a), b)
    decreases |a|
  {
    hide Apply;
    if a == [] {
      assert a + b == b;
    } else {
      var g, rest, whole := Apply(f, a[0]), a[1..], a + b;
      ApplyAllConcat(g, rest, b);
      assert whole[0] == a[0];
      assert whole[1..] == rest + b;
      assert ApplyAll(f, whole) == ApplyAll(g, whole[1..]);
    }
  }

  lemma ApplyAllAppend(f: Flash, ops: seq<FlashOp>, op: FlashOp)
    ensures ApplyAll(f, ops + [op]) == Apply(ApplyAll(f, ops), op)
  {
    ApplyAllConcat(f, ops, [op]);
    var g := ApplyAll(f, ops);
    assert ApplyAll(g, [op]) == ApplyAll(Apply(g, op), []);
  }

  lemma {:induction false} CutKeepsShape(f: Flash, ops: seq<FlashOp>, t: Flash)
    requires CutDuring(f, ops, t)
    ensures SameShape(f, t)
    decreases |ops|
  {
    if ops != [] && !Interrupted(f, ops[0], t) {
      CutKeepsShape(Apply(f, ops[0]), ops[1..], t);
    }
  }

  /** A sequence that has just completed counts as cut at its end. */
  lemma {:induction false} CompletedIsCut(f: Flash, ops: seq<FlashOp>)
    ensures CutDuring(f, ops, ApplyAll(f, ops))
    decreases |ops|
  {
    if ops != [] {
      CompletedIsCut(Apply(f, ops[0]), ops[1..]);
    }
  }

  /** Operations on one region leave every byte of the others. */
  lemma CutKeepsOthers(f: Flash, ops: seq<FlashOp>, region: Region, t: Flash)
    requires CutDuring(f, ops, t)
    requires forall i :: 0 <= i < |ops| ==> ops[i].region == region
    ensures t == f.With(region, t.Read(region)) && SameShape(f, t)
  {
    CutKeepsShape(f, ops, t);
    forall other: Region | other != region
      ensures t.Read(other) == f.Read(other)
    {
      CutSpares(f, ops, t, other, 0, |f.Read(other)|);
      assert t.Read(other)[0..|f.Read(other)|] == t.Read(other);
      assert f.Read(other)[0..|f.Read(other)|] == f.Read(other);
    }
    assert t.Read(Slot0) == t.slot0 && t.Read(Slot1) == t.slot1 && t.Read(Journal) == t.journal;
    assert f.Read(Slot0) == f.slot0 && f.Read(Slot1) == f.slot1 && f.Read(Journal) == f.journal;
  }

  /** No operation of the sequence writes into bytes `lo..hi` of `region`. */
  predicate Spares(ops: seq<FlashOp>, region: Region, lo: nat, hi: nat) {
    forall i :: 0 <= i < |ops| ==>
      ops[i].region != region || (ops[i].Program? && (ops[i].offset + |ops[i].data| <= lo || hi <= ops[i].offset))
  }

  /** Bytes no operation writes keep their value, whenever the power is cut. */
  lemma {:induction false} CutSpares(f: Flash, ops: seq<FlashOp>, t: Flash, region: Region, lo: nat, hi: nat)
    requires lo <= hi <= |f.Read(region)|
    requires Spares(ops, region, lo, hi)
    ensures CutDuring(f, ops, t) ==> SameShape(f, t) && t.Read(region)[lo..hi] == f.Read(region)[lo..hi]
    ensures ApplyAll(f, ops).Read(region)[lo..hi] == f.Read(region)[lo..hi]
    decreases |ops|
  {
    if ops != [] {
      var g := Apply(f, ops[0]);
      OneSpares(f, ops[0], g, region, lo, hi);
      CutSpares(g, ops[1..], t, region, lo, hi);
      if Interrupted(f, ops[0], t) {
        OneSpares(f, ops[0], t, region, lo, hi);
      }
    }
  }

  lemma OneSpares(f: Flash, op: FlashOp, t: Flash, region: Region, lo: nat, hi: nat)
    requires t == Apply(f, op) || Interrupted(f, op, t)
    requires lo <= hi <= |f.Read(region)|
    requires op.region != region || (op.Program? && (op.offset + |op.data| <= lo || hi <= op.offset))
    ensures SameShape(f, t) && t.Read(region)[lo..hi] == f.Read(region)[lo..hi]
  {
    InterruptedAtEnds(f, op);
    if op.region == region {
      var a, b := f.Read(region), t.Read(region);
      forall i | lo <= i < hi
        ensures a[i] == b[i]
      {
        assert BitsBetween(a[i], CellsAfter(a, op)[i], b[i]);
        SubmaskAntisymmetric(a[i], b[i]);
      }
    }
  }

  // ---- Page loops ----

  /** The page programs (FLASH_PAGE_SIZE is 256) of `image` from page `first` up to page `last`, in ascending order. */
  function PagePrograms(region: Region, image: seq<byte>, first: nat, last: nat): (ops: seq<FlashOp>)
    requires first <= last && 256 * last <= |image|
    ensures |ops| == last - first
    ensures forall i :: 0 <= i < last - first ==>
      ops[i] == Program(region, 256 * (first + i), image[256 * (first + i)..256 * (first + i + 1)])
  {
    seq(last - first, i requires 0 <= i < last - first =>
      Program(region, 256 * (first + i), image[256 * (first + i)..256 * (first + i + 1)]))
  }

  /** `cells` with the stretch from `lo` up to `hi` replaced by that of `image`. */
  function Spliced(cells: seq<byte>, image: seq<byte>, lo: nat, hi: nat): (r: seq<byte>)
    requires lo <= hi <= |image| == |cells|
    ensures |r| == |cells|
  {
    cells[..lo] + image[lo..hi] + cells[hi..]
  }

  lemma StretchWritten(cells: seq<byte>, image: seq<byte>, lo: nat, hi: nat)
    requires lo <= hi <= |image| == |cells|
    requires forall i :: lo <= i < hi ==> cells[i] == 255
    ensures Programmed(cells, lo, image[lo..hi]) == Spliced(cells, image, lo, hi)
  {
    var after, expected := Programmed(cells, lo, image[lo..hi]), Spliced(cells, image, lo, hi);
    forall i | 0 <= i < |cells|
      ensures after[i] == expected[i]
    {
      if lo <= i < hi {
        AndErased(image[i]);
      }
    }
  }

  lemma SplicedTwice(cells: seq<byte>, image: seq<byte>, lo: nat, mid: nat, hi: nat)
    requires lo <= mid <= hi <= |image| == |cells|
    ensures Spliced(Spliced(cells, image, lo, mid), image, mid, hi) == Spliced(cells, image, lo, hi)
    ensures Spliced(cells, image, lo, mid)[mid..] == cells[mid..]
  {
    var once := Spliced(cells, image, lo, mid);
    assert once[mid..hi] == cells[mid..hi];
    assert image[lo..mid] + image[mid..hi] == image[lo..hi];
  }

  lemma PageProgramsAppend(region: Region, image: seq<byte>, first: nat, last: nat)
    requires first <= last && 256 * (last + 1) <= |image|
    ensures PagePrograms(region, image, first, last + 1)
         == PagePrograms(region, image, first, last)
           + [Program(region, 256 * last, image[256 * last..256 * (last + 1)])]
  {
  }

  lemma PageWritten(f: Flash, region: Region, cells: seq<byte>, image: seq<byte>, lo: nat, mid: nat, hi: nat)
    requires lo <= mid <= hi <= |image| == |cells|
    requires forall i :: lo <= i < hi ==> cells[i] == 255
    requires f.Read(region) == Spliced(cells, image, lo, mid)
    ensures Apply(f, Program(region, mid, image[mid..hi])) == f.With(region, Spliced(cells, image, lo, hi))
  {
    var once := Spliced(cells, image, lo, mid);
    SplicedTwice(cells, image, lo, mid, hi);
    forall i | mid <= i < hi
      ensures once[i] == 255
    {
      assert once[mid..][i - mid] == cells[mid..][i - mid];
    }
    StretchWritten(once, image, mid, hi);
  }

  lemma SplicedNothing(cells: seq<byte>, image: seq<byte>, at: nat)
    requires at <= |image| == |cells|
    ensures Spliced(cells, image, at, at) == cells
  {
  }

  /** Programming an erased range page by page writes the image there and nothing elsewhere. */
  lemma {:induction false} PagesWritten(f: Flash, region: Region, image: seq<byte>, first: nat, last: nat)
    requires first <= last && 256 * last <= |image| == |f.Read(region)|
    requires forall i :: 256 * first <= i < 256 * last ==> f.Read(region)[i] == 255
    ensures ApplyAll(f, PagePrograms(region, image, first, last))
         == f.With(region, Spliced(f.Read(region), image, 256 * first, 256 * last))
    decreases last
  {
    hide Apply, Spliced;
    var cells := f.Read(region);
    if first < last {
      var lo, mid, hi := 256 * first, 256 * (last - 1), 256 * last;
      var before, op := PagePrograms(region, image, first, last - 1), Program(region, mid, image[mid..hi]);
      var g := f.With(region, Spliced(cells, image, lo, mid));
      assert ApplyAll(f, before) == g by {
        PagesWritten(f, region, image, first, last - 1);
      }
      assert PagePrograms(region, image, first, last) == before + [op] by {
        PageProgramsAppend(region, image, first, last - 1);
      }
      assert ApplyAll(f, before + [op]) == Apply(g, op) by {
        ApplyAllAppend(f, before, op);
      }
      PageWritten(g, region, cells, image, lo, mid, hi);
    } else {
      assert PagePrograms(region, image, first, last) == [];
      SplicedNothing(cells, image, 256 * first);
    }
  }
}
