/** The `#[repr(C)]` layout rule, used to show that a header struct has no
    implicit padding.

    Under `#[repr(C)]` every field is placed at the first offset at or after
    the end of the previous field that is a multiple of the field's
    alignment, and the struct's size is the end of its last field rounded up
    to the largest field alignment.  `bytemuck`'s `Pod` derive is only
    accepted for a struct in which that rule inserts no padding bytes, that
    is, whose fields sit back to back. */
module Layout {

  /** One field of a struct: its size and alignment in bytes. */
  datatype Field = Field(size: nat, align: nat)

  /** Every alignment is positive. */
  predicate WellFormed(fs: seq<Field>) {
    forall i :: 0 <= i < |fs| ==> fs[i].align > 0
  }

  /** The least multiple of `a` that is at least `off`. */
  function AlignUp(off: nat, a: nat): (r: nat)
    requires a > 0
    ensures r % a == 0 && off <= r < off + a
    ensures off % a == 0 <==> r == off
  {
    var rem := off % a;
    if rem == 0 then off
    else
      MultipleMod(a, off / a + 1);
      off + (a - rem)
  }

  /** A multiple of `a` leaves no remainder. */
  lemma MultipleMod(a: nat, k: nat)
    requires a > 0
    ensures (a * k) % a == 0
  {
    DivModUnique(a * k, a, k, 0);
  }

  /** Quotient and remainder are unique. */
  lemma DivModUnique(x: int, a: int, q: int, r: int)
    requires a > 0 && 0 <= r < a && x == a * q + r
    ensures x % a == r && x / a == q
  {
    var q', r' := x / a, x % a;
    MulBound(a, q' - q);
    assert a * (q' - q) == r - r';
  }

  lemma MulBound(a: int, d: int)
    requires a > 0
    ensures d >= 1 ==> a * d >= a
    ensures d <= -1 ==> a * d <= -a
  {
  }

  /** Field offsets chosen by the `repr(C)` rule, the first field starting
      no earlier than `start`. */
  function Offsets(fs: seq<Field>, start: nat): (offs: seq<nat>)
    requires WellFormed(fs)
    ensures |offs| == |fs|
  {
    if fs == [] then []
    else
      var o := AlignUp(start, fs[0].align);
      [o] + Offsets(fs[1..], o + fs[0].size)
  }

  /** End of the last field under the `repr(C)` rule. */
  function End(fs: seq<Field>, start: nat): (e: nat)
    requires WellFormed(fs)
    ensures start <= e
  {
    if fs == [] then start
    else End(fs[1..], AlignUp(start, fs[0].align) + fs[0].size)
  }

  /** Alignment of the whole struct: the largest field alignment (1 when empty). */
  function StructAlign(fs: seq<Field>): (a: nat)
    ensures a >= 1
    ensures forall i :: 0 <= i < |fs| ==> fs[i].align <= a
  {
    if fs == [] then 1
    else
      var rest := StructAlign(fs[1..]);
      if fs[0].align > rest then fs[0].align else rest
  }

  /** `size_of` the struct under the `repr(C)` rule. */
  function SizeOf(fs: seq<Field>): nat
    requires WellFormed(fs)
  {
    AlignUp(End(fs, 0), StructAlign(fs))
  }

  /** Sum of the field sizes: the size the struct has when nothing is padded. */
  function SumSizes(fs: seq<Field>): nat {
    if fs == [] then 0 else fs[0].size + SumSizes(fs[1..])
  }

  /** Offsets of the fields packed back to back from `start`. */
  function PackedOffsets(fs: seq<Field>, start: nat): (offs: seq<nat>)
    ensures |offs| == |fs|
  {
    if fs == [] then [] else [start] + PackedOffsets(fs[1..], start + fs[0].size)
  }

  /** Each packed offset is a multiple of its field's alignment. */
  predicate PackedAligned(fs: seq<Field>, start: nat)
    requires WellFormed(fs)
  {
    fs == [] || (start % fs[0].align == 0 && PackedAligned(fs[1..], start + fs[0].size))
  }

  /** The `repr(C)` rule inserts no byte between or after the fields. */
  predicate NoImplicitPadding(fs: seq<Field>)
    requires WellFormed(fs)
  {
    Offsets(fs, 0) == PackedOffsets(fs, 0) && SizeOf(fs) == SumSizes(fs)
  }

  /** The `repr(C)` offsets are the packed ones exactly when every packed
      offset is already aligned; in that case the fields end at `start`
      plus the sum of their sizes. */
  lemma {:induction false} OffsetsArePackedIff(fs: seq<Field>, start: nat)
    requires WellFormed(fs)
    ensures Offsets(fs, start) == PackedOffsets(fs, start) <==> PackedAligned(fs, start)
    ensures PackedAligned(fs, start) ==> End(fs, start) == start + SumSizes(fs)
  {
    if fs != [] {
      var a := fs[0].align;
      var o := AlignUp(start, a);
      assert WellFormed(fs[1..]);
      OffsetsArePackedIff(fs[1..], o + fs[0].size);
      if Offsets(fs, start) == PackedOffsets(fs, start) {
        assert Offsets(fs, start)[0] == o && PackedOffsets(fs, start)[0] == start;
        assert Offsets(fs, start)[1..] == Offsets(fs[1..], o + fs[0].size);
        assert PackedOffsets(fs, start)[1..] == PackedOffsets(fs[1..], start + fs[0].size);
      }
      if PackedAligned(fs, start) {
        OffsetsArePackedIff(fs[1..], start + fs[0].size);
      }
    }
  }

  /** A struct has no implicit padding exactly when its packed field offsets
      are aligned and its packed size is a multiple of its alignment. */
  lemma NoImplicitPaddingIff(fs: seq<Field>)
    requires WellFormed(fs)
    ensures NoImplicitPadding(fs) <==> PackedAligned(fs, 0) && SumSizes(fs) % StructAlign(fs) == 0
  {
    OffsetsArePackedIff(fs, 0);
  }

  /** Concatenation of the encoded fields of a struct. */
  function Concat<T>(parts: seq<seq<T>>): (r: seq<T>) {
    if parts == [] then [] else parts[0] + Concat(parts[1..])
  }

  /** Offset of field `i` from the start of a packed struct. */
  function PackedOffset(fs: seq<Field>, i: nat): nat
    requires i < |fs|
  {
    if i == 0 then 0 else fs[0].size + PackedOffset(fs[1..], i - 1)
  }

  /** The packed offsets from `start` are `start` plus the relative ones,
      and each field ends within the packed size. */
  lemma {:induction false} PackedOffsetShift(fs: seq<Field>, start: nat, i: nat)
    requires i < |fs|
    ensures PackedOffsets(fs, start)[i] == start + PackedOffset(fs, i)
    ensures PackedOffset(fs, i) + fs[i].size <= SumSizes(fs)
  {
    if i > 0 {
      PackedOffsetShift(fs[1..], start + fs[0].size, i - 1);
      assert PackedOffsets(fs, start)[i] == PackedOffsets(fs[1..], start + fs[0].size)[i - 1];
    }
  }

  /** The parts' lengths add up. */
  lemma {:induction false} ConcatLength<T>(parts: seq<seq<T>>, fs: seq<Field>)
    requires |parts| == |fs|
    requires forall i :: 0 <= i < |fs| ==> |parts[i]| == fs[i].size
    ensures |Concat(parts)| == SumSizes(fs)
  {
    if fs != [] {
      ConcatLength(parts[1..], fs[1..]);
    }
  }

  /** A slice of the right-hand operand of `+` is the same slice of the sum,
      shifted by the left operand's length. */
  lemma AppendSlice<T>(a: seq<T>, b: seq<T>, x: nat, y: nat)
    requires x <= y <= |b|
    ensures (a + b)[|a| + x .. |a| + y] == b[x .. y]
  {
  }

  /** Concatenating parts whose lengths are the field sizes puts part `i`
      at packed offset `i`. */
  lemma {:induction false} ConcatPlacesPart<T>(parts: seq<seq<T>>, fs: seq<Field>, i: nat)
    requires |parts| == |fs| && i < |fs|
    requires forall j :: 0 <= j < |fs| ==> |parts[j]| == fs[j].size
    ensures PackedOffset(fs, i) + fs[i].size <= |Concat(parts)|
    ensures Concat(parts)[PackedOffset(fs, i) .. PackedOffset(fs, i) + fs[i].size] == parts[i]
  {
    PackedOffsetShift(fs, 0, i);
    ConcatLength(parts, fs);
    var head, tail := parts[0], Concat(parts[1..]);
    assert Concat(parts) == head + tail;
    if i == 0 {
      assert (head + tail)[0 .. |head|] == head;
    } else {
      assert forall j :: 0 <= j < |fs[1..]| ==> |parts[1..][j]| == fs[1..][j].size by {
        forall j | 0 <= j < |fs[1..]| ensures |parts[1..][j]| == fs[1..][j].size {
          assert parts[1..][j] == parts[j + 1] && fs[1..][j] == fs[j + 1];
        }
      }
      ConcatPlacesPart(parts[1..], fs[1..], i - 1);
      var p := PackedOffset(fs[1..], i - 1);
      AppendSlice(head, tail, p, p + fs[i].size);
    }
  }

  /** When the `repr(C)` rule inserts no padding, the concatenated field
      encodings are the struct's bytes: `size_of` long, with field `i` at its
      `repr(C)` offset. */
  lemma ConcatMatchesLayout<T>(parts: seq<seq<T>>, fs: seq<Field>)
    requires WellFormed(fs) && NoImplicitPadding(fs)
    requires |parts| == |fs|
    requires forall i :: 0 <= i < |fs| ==> |parts[i]| == fs[i].size
    ensures |Concat(parts)| == SizeOf(fs)
    ensures forall i :: 0 <= i < |fs| ==>
      Offsets(fs, 0)[i] + fs[i].size <= |Concat(parts)| &&
      Concat(parts)[Offsets(fs, 0)[i] .. Offsets(fs, 0)[i] + fs[i].size] == parts[i]
  {
    ConcatLength(parts, fs);
    forall i | 0 <= i < |fs|
      ensures Offsets(fs, 0)[i] + fs[i].size <= |Concat(parts)|
      ensures Concat(parts)[Offsets(fs, 0)[i] .. Offsets(fs, 0)[i] + fs[i].size] == parts[i]
    {
      ConcatPlacesPart(parts, fs, i);
      PackedOffsetShift(fs, 0, i);
    }
  }
}
