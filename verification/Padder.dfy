/** The scoped padder: pads or truncates the field that is appended to a buffer while it lives. */
module Padder {
  import opened Pattern

  /** memory_buf_t. */
  class Buffer {
    var data: string

    constructor (data: string)
      ensures this.data == data
    {
      this.data := data;
    }

    method Append(s: string)
      modifies this
      ensures data == old(data) + s
    {
      data := data + s;
    }

    method Resize(n: nat)
      requires n <= |data|
      modifies this
      ensures data == old(data)[..n]
    {
      data := data[..n];
    }
  }

  function Spaces(n: nat): (s: string)
    ensures |s| == n && forall i :: 0 <= i < n ==> s[i] == ' '
  {
    seq(n, i => ' ')
  }

  /** The spaces before and after a field of n characters that were announced. */
  function LeftPad(p: Padding, n: nat): nat {
    match p
    case NoPadding => 0
    case Padding(width, side, _) =>
      if n >= width then 0
      else match side
           case Left => width - n
           case Right => 0
           case Center => (width - n) / 2
  }

  function RightPad(p: Padding, n: nat): nat {
    match p
    case NoPadding => 0
    case Padding(width, side, _) =>
      if n >= width then 0
      else match side
           case Left => 0
           case Right => width - n
           case Center => (width - n + 1) / 2
  }

  /** What a field whose announced size is its real one becomes. */
  function Padded(p: Padding, field: string): string {
    if p.Padding? && p.truncate && |field| > p.width then field[..p.width]
    else Spaces(LeftPad(p, |field|)) + field + Spaces(RightPad(p, |field|))
  }

  class ScopedPadder {
    const padding: Padding
    const dest: Buffer
    var remainingPad: int

    /** Announces a field of `wrappedSize` characters: writes the padding before it, keeps the rest for the end. */
    constructor (wrappedSize: nat, padding: Padding, dest: Buffer)
      requires padding.Padding? && padding.width <= MAX_WIDTH
      modifies dest
      ensures this.padding == padding && this.dest == dest && fresh(this)
      ensures dest.data == old(dest.data) + Spaces(LeftPad(padding, wrappedSize))
      ensures remainingPad == if wrappedSize > padding.width then padding.width - wrappedSize
                              else RightPad(padding, wrappedSize)
    {
      this.padding := padding;
      this.dest := dest;
      var pad: int := padding.width - wrappedSize;
      remainingPad := pad;
      new;
      if remainingPad <= 0 {
        assert Spaces(0) == "" && dest.data + "" == dest.data;
        return;
      }
      if padding.side == Left {
        PadIt(remainingPad);
        remainingPad := 0;
      } else if padding.side == Center {
        var halfPad := remainingPad / 2;
        var reminder := remainingPad % 2;
        PadIt(halfPad);
        remainingPad := halfPad + reminder;
      } else {
        assert Spaces(0) == "" && dest.data + "" == dest.data;
      }
    }

    /** Appends that many of the 64 spaces there are. */
    method PadIt(count: nat)
      requires count <= MAX_WIDTH
      modifies dest
      ensures dest.data == old(dest.data) + Spaces(count)
    {
      dest.Append(Spaces(MAX_WIDTH)[..count]);
      assert Spaces(MAX_WIDTH)[..count] == Spaces(count);
    }

    /** The destructor. */
    method Finish()
      requires padding.Padding? && remainingPad <= MAX_WIDTH
      modifies dest
      ensures dest.data ==
              if remainingPad >= 0 then old(dest.data) + Spaces(remainingPad)
              else if padding.truncate then
                old(dest.data)[..if |old(dest.data)| + remainingPad < 0 then 0 else |old(dest.data)| + remainingPad]
              else old(dest.data)
    {
      if remainingPad >= 0 {
        PadIt(remainingPad);
      } else if padding.truncate {
        var newSize := |dest.data| + remainingPad;
        if newSize < 0 {
          newSize := 0;
        }
        dest.Resize(newSize);
      }
    }
  }

  /** A flag formatter's life: announce the size, append the field, leave the scope. */
  method FormatField(padding: Padding, dest: Buffer, field: string)
    requires padding.Padding? && padding.width <= MAX_WIDTH
    modifies dest
    ensures dest.data == old(dest.data) + Padded(padding, field)
  {
    var p := new ScopedPadder(|field|, padding, dest);
    dest.Append(field);
    ghost var before := old(dest.data);
    p.Finish();
    if |field| > padding.width {
      assert Spaces(0) == "";
      assert before + "" + field == before + field;
      assert (before + field)[..|before| + padding.width] == before + field[..padding.width];
      assert "" + field + "" == field;
    } else {
      assert before + Spaces(LeftPad(padding, |field|)) + field + Spaces(RightPad(padding, |field|))
          == before + Padded(padding, field);
    }
  }

  /** The output grows to the width and no further than the field, exactly the width when truncating. */
  lemma PaddingLaw(p: Padding, field: string)
    requires p.Padding?
    ensures |Padded(p, field)| == if p.truncate || |field| < p.width then p.width else |field|
    ensures !p.truncate || |field| <= p.width ==>
              exists a, b :: 0 <= a && 0 <= b && Padded(p, field) == Spaces(a) + field + Spaces(b)
                && (p.side == Left ==> b == 0) && (p.side == Right ==> a == 0)
                && (p.side == Center ==> a <= b <= a + 1)
    ensures p.truncate && |field| > p.width ==> Padded(p, field) <= field
  {
    var a, b := LeftPad(p, |field|), RightPad(p, |field|);
    if !p.truncate || |field| <= p.width {
      assert Padded(p, field) == Spaces(a) + field + Spaces(b);
    }
  }

  /** Without padding a field is shown as it is. */
  lemma NoPaddingShowsField(field: string)
    ensures Padded(NoPadding, field) == field
  {
    assert Spaces(0) == "" && "" + field + "" == field;
  }

  /** Every padding the pattern compiler produces keeps within the 64 spaces that the padder has. */
  lemma CompiledPaddingFits(pattern: string, i: nat, n: nat)
    requires i < |Compile(pattern)| && Compile(pattern)[i].Flag? && Compile(pattern)[i].padding.Padding?
    ensures var p := Compile(pattern)[i].padding;
            p.width <= MAX_WIDTH && LeftPad(p, n) + RightPad(p, n) <= MAX_WIDTH
  {
    CompiledIsNormal(pattern, "");
    assert Printable(Compile(pattern)[i]);
  }
}
