/** Which buffer sizes keep the attribute walk inside the buffer, whatever the contents. */
module StunSafety {
  import opened Bytes
  import opened Stun

  /** A binding response of `size` bytes that declares a body of `len` bytes. */
  ghost predicate Declares(data: seq<byte>, size: nat, len: U16)
  {
    |data| == size >= HEADER && Be16(data[0], data[1]) == BINDING_RESPONSE && Be16(data[2], data[3]) == len
  }

  /** The last 4-aligned offset at which the walk can still look at a header. */
  function LastStart(len: nat): (off: nat)
    requires len >= 4
    ensures off % 4 == 0 && HEADER <= off <= HEADER + len - 4 < off + 4
  {
    16 + 4 * (len / 4)
  }

  lemma BeforeLast(off: nat, len: nat)
    requires off % 4 == 0 && HEADER <= off && off + 4 <= HEADER + len
    ensures off <= LastStart(len)
  {
  }

  lemma {:induction false} WalkStaysInside(data: seq<byte>, off: nat, len: nat)
    requires off % 4 == 0 && (len >= 4 ==> |data| >= LastStart(len) + 10)
    requires off >= HEADER
    ensures Walk(data, off, HEADER + len) != IndexPanic
    decreases HEADER + len - off
  {
    hide DecodeValue, Padded, LastStart, Walk;
    if off + 4 > HEADER + len {
      WalkEnds(data, off, HEADER + len);
    } else {
      BeforeLast(off, len);
      WalkCases(data, off, HEADER + len);
      if Usable(KindAt(data, off), LengthAt(data, off)) {
        DecodesToMapped(KindAt(data, off), data[off + 4..off + 10]);
      } else {
        SkipStaysAligned(off, LengthAt(data, off));
        WalkStaysInside(data, off + 4 + Padded(LengthAt(data, off)), len);
      }
    }
  }

  /** A response that skips to the last start and claims an address there. */
  ghost function Overrun(size: nat, len: U16): (data: seq<byte>)
    requires size >= HEADER && len >= 4
    ensures |data| == size
  {
    var last := LastStart(len);
    seq(size, i =>
      if i == 0 || i == 1 || i == last + 1 then 1
      else if i == 2 then len / 256
      else if i == 3 then len % 256
      else if i == last + 3 then 8
      else if i == 22 && last > HEADER then (last - 24) / 256
      else if i == 23 && last > HEADER then (last - 24) % 256
      else 0)
  }

  lemma OverrunPanics(size: nat, len: U16)
    requires size >= HEADER && len >= 4 && size < LastStart(len) + 10
    ensures Declares(Overrun(size, len), size, len)
    ensures Parse(Overrun(size, len)) == IndexPanic
  {
    hide DecodeValue;
    var data, last, end := Overrun(size, len), LastStart(len), HEADER + len;
    WalkCases(data, HEADER, end);
    if last > HEADER && size >= 24 {
      assert KindAt(data, HEADER) == 0 && LengthAt(data, HEADER) == last - 24;
      assert HEADER + 4 + Padded(last - 24) == last;
      WalkCases(data, last, end);
      if last + 4 <= size {
        assert KindAt(data, last) == 1 && LengthAt(data, last) == 8;
      }
    } else if size >= 24 {
      assert KindAt(data, HEADER) == 1 && LengthAt(data, HEADER) == 8;
    }
  }

  ghost predicate NeverPanics(size: nat, len: U16)
  {
    forall data :: Declares(data, size, len) ==> Parse(data) != IndexPanic
  }

  /** The declared length bounds the walk, not the buffer. A response of `size` bytes that
  declares `len` is parsed without a panic for all contents if and only if the declared body
  is too short for a header or the buffer reaches ten bytes beyond the last header. */
  lemma NeverPanicsIff(size: nat, len: U16)
    requires size >= HEADER
    ensures NeverPanics(size, len) <==> len < 4 || size >= LastStart(len) + 10
  {
    if len < 4 || size >= LastStart(len) + 10 {
      forall data | Declares(data, size, len)
        ensures Parse(data) != IndexPanic
      {
        WalkStaysInside(data, HEADER, len);
      }
    } else {
      OverrunPanics(size, len);
    }
  }
}
