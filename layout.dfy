/** Struct layout: each member is placed at the next offset aligned for it, the
    struct is aligned like its most aligned member, and its size is the end of
    the last member rounded up to that alignment. */
module StructLayout {
  import opened Types

  /** What the layout needs to know about one member. */
  datatype Slot = Slot(size: int, align: int)

  /** The offsets of the members, where the last one ends, and the alignment. */
  datatype Placement = Placement(offsets: seq<int>, end: int, align: int)

  predicate PositiveAligns(slots: seq<Slot>)
  {
    forall i | 0 <= i < |slots| :: slots[i].align > 0
  }

  /** The layout of `slots`, member by member, starting from alignment `align0`. */
  function Place(slots: seq<Slot>, align0: int): (p: Placement)
    requires PositiveAligns(slots)
    ensures |p.offsets| == |slots|
    decreases |slots|
  {
    if slots == [] then Placement([], 0, align0)
    else
      var p := Place(slots[..|slots| - 1], align0);
      var s := slots[|slots| - 1];
      var off := RoundUp(p.end, s.align);
      Placement(p.offsets + [off], off + s.size, if p.align < s.align then s.align else p.align)
  }

  /** The size of the struct: the end of its last member rounded up to its alignment. */
  function StructSize(slots: seq<Slot>, align0: int): int
    requires PositiveAligns(slots)
    requires align0 > 0 || |slots| > 0
  {
    PlaceAlignBound(slots, align0);
    RoundUp(Place(slots, align0).end, Place(slots, align0).align)
  }

  function Max(a: int, b: int): int { if a < b then b else a }

  /** The largest member alignment (0 for no members). */
  function MaxAlign(slots: seq<Slot>): int
    decreases |slots|
  {
    if slots == [] then 0 else Max(MaxAlign(slots[..|slots| - 1]), slots[|slots| - 1].align)
  }

  /** MaxAlign is the maximum: every member's alignment is at most it, and some member has it. */
  lemma {:induction false} MaxAlignIsMax(slots: seq<Slot>)
    requires PositiveAligns(slots)
    ensures forall i | 0 <= i < |slots| :: slots[i].align <= MaxAlign(slots)
    ensures slots != [] ==> exists i | 0 <= i < |slots| :: slots[i].align == MaxAlign(slots)
    ensures slots == [] ==> MaxAlign(slots) == 0
    decreases |slots|
  {
    if slots != [] {
      var init := slots[..|slots| - 1];
      MaxAlignIsMax(init);
      if init != [] && MaxAlign(slots) == MaxAlign(init) {
        var j :| 0 <= j < |init| && init[j].align == MaxAlign(init);
        assert slots[j].align == MaxAlign(slots);
      } else {
        assert slots[|slots| - 1].align == MaxAlign(slots);
      }
    }
  }

  lemma PlaceAlignBound(slots: seq<Slot>, align0: int)
    requires PositiveAligns(slots)
    requires align0 > 0 || |slots| > 0
    ensures Place(slots, align0).align > 0
  {
  }

  /** The struct's alignment is the larger of its starting alignment and the
      largest member alignment. */
  lemma {:induction false} PlaceAlignIsMax(slots: seq<Slot>, align0: int)
    requires PositiveAligns(slots)
    requires align0 >= 0
    ensures Place(slots, align0).align == Max(align0, MaxAlign(slots))
    decreases |slots|
  {
    if slots != [] {
      PlaceAlignIsMax(slots[..|slots| - 1], align0);
    }
  }

  /** The starting alignment has no effect on where the members go. */
  lemma {:induction false} PlaceOffsetsIgnoreAlign(slots: seq<Slot>, a: int, b: int)
    requires PositiveAligns(slots)
    ensures Place(slots, a).offsets == Place(slots, b).offsets
    ensures Place(slots, a).end == Place(slots, b).end
    decreases |slots|
  {
    if slots != [] {
      PlaceOffsetsIgnoreAlign(slots[..|slots| - 1], a, b);
    }
  }

  /** Where the member before `i` ends (0 for the first member). */
  function EndBefore(slots: seq<Slot>, offsets: seq<int>, i: int): int
    requires 0 <= i <= |slots| == |offsets|
  {
    if i == 0 then 0 else offsets[i - 1] + slots[i - 1].size
  }

  /** Member i starts at the first offset aligned for it that is not before the end
      of member i - 1: aligned, not overlapping it, and leaving less than one
      alignment unit of padding. */
  lemma {:induction false} PlaceOffset(slots: seq<Slot>, align0: int, i: int)
    requires PositiveAligns(slots)
    requires 0 <= i < |slots|
    ensures var p := Place(slots, align0);
      && p.offsets[i] % slots[i].align == 0
      && EndBefore(slots, p.offsets, i) <= p.offsets[i] < EndBefore(slots, p.offsets, i) + slots[i].align
    decreases |slots|
  {
    var init := slots[..|slots| - 1];
    var q := Place(init, align0);
    var p := Place(slots, align0);
    assert p.offsets == q.offsets + [RoundUp(q.end, slots[|slots| - 1].align)];
    if i < |slots| - 1 {
      PlaceOffset(init, align0, i);
      assert init[i] == slots[i];
      if i > 0 {
        assert init[i - 1] == slots[i - 1];
      }
    } else {
      PlaceEnd(init, align0);
    }
  }

  /** The placement ends where its last member ends. */
  lemma PlaceEnd(slots: seq<Slot>, align0: int)
    requires PositiveAligns(slots)
    ensures Place(slots, align0).end == EndBefore(slots, Place(slots, align0).offsets, |slots|)
  {
  }

  /** The size is a multiple of the alignment and covers the last member, padding it
      by less than one alignment unit. */
  lemma StructSizeBounds(slots: seq<Slot>, align0: int)
    requires PositiveAligns(slots)
    requires align0 > 0 || |slots| > 0
    ensures var p := Place(slots, align0);
      && StructSize(slots, align0) % p.align == 0
      && p.end <= StructSize(slots, align0) < p.end + p.align
  {
    PlaceAlignBound(slots, align0);
  }

  /** Laying a struct out again, starting from the alignment the first layout
      computed, gives the same layout. */
  lemma PlaceIdempotent(slots: seq<Slot>, align0: int)
    requires PositiveAligns(slots)
    requires align0 >= 0
    ensures Place(slots, Place(slots, align0).align) == Place(slots, align0)
  {
    var a := Place(slots, align0).align;
    PlaceAlignIsMax(slots, align0);
    PlaceAlignIsMax(slots, a);
    PlaceOffsetsIgnoreAlign(slots, a, align0);
  }

  /** `struct { int x; int y; }`: the members at offsets 0 and 4, size 8, alignment 4. */
  lemma TwoInts()
    ensures Place([Slot(4, 4), Slot(4, 4)], 0) == Placement([0, 4], 8, 4)
    ensures StructSize([Slot(4, 4), Slot(4, 4)], 0) == 8
  {
    assert [Slot(4, 4), Slot(4, 4)][..1] == [Slot(4, 4)];
  }

  /** `struct { char c; int x; }`: the int is padded to offset 4, the size is 8. */
  lemma CharThenInt()
    ensures Place([Slot(1, 1), Slot(4, 4)], 0) == Placement([0, 4], 8, 4)
    ensures StructSize([Slot(1, 1), Slot(4, 4)], 0) == 8
  {
    assert [Slot(1, 1), Slot(4, 4)][..1] == [Slot(1, 1)];
  }

  /** The loop of `fix_struct_offsets`: place each member at the running offset
      rounded up to its alignment, raise the alignment to the member's, and round
      the final offset up to the alignment. */
  method FixStructOffsets(slots: seq<Slot>, align0: int) returns (offsets: seq<int>, size: int, align: int)
    requires PositiveAligns(slots)
    requires align0 > 0 || |slots| > 0
    ensures offsets == Place(slots, align0).offsets
    ensures align == Place(slots, align0).align
    ensures size == StructSize(slots, align0)
  {
    var off := 0;
    offsets := [];
    align := align0;
    var i := 0;
    while i < |slots|
      invariant 0 <= i <= |slots|
      invariant Place(slots[..i], align0) == Placement(offsets, off, align)
    {
      assert slots[..i + 1][..i] == slots[..i];
      off := RoundUp(off, slots[i].align);
      offsets := offsets + [off];
      off := off + slots[i].size;
      if align < slots[i].align {
        align := slots[i].align;
      }
      i := i + 1;
    }
    assert slots[..|slots|] == slots;
    PlaceAlignBound(slots, align0);
    size := RoundUp(off, align);
  }
}
