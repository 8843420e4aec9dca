/** What a pad spec means, read off its text: an optional side mark, digits, and an optional truncate mark. */
module PatternSpec {
  import Bytes
  import opened Pattern

  /** The number that digits denote. */
  function Decimal(ds: string): nat
    requires AllDigits(ds)
  {
    if ds == "" then 0 else 10 * Decimal(ds[..|ds| - 1]) + Digit(ds[|ds| - 1])
  }

  predicate AllDigits(ds: string) {
    forall i :: 0 <= i < |ds| ==> IsDigit(ds[i])
  }

  lemma OneDigitFirst(d: char, rest: string, w: nat)
    requires IsDigit(d)
    ensures var (v, k) := Width(rest, (w * 10 + Digit(d)) % Bytes.TWO64); Width([d] + rest, w) == (v, k + 1)
  {
    assert ([d] + rest)[1..] == rest;
  }

  /** The width after all the digits. */
  function Read(ds: string, w: nat): nat
    requires AllDigits(ds)
  {
    if ds == "" then w else Read(ds[1..], (w * 10 + Digit(ds[0])) % Bytes.TWO64)
  }

  lemma {:induction false} WidthReads(ds: string, tail: string, w: nat)
    requires AllDigits(ds) && (tail == "" || !IsDigit(tail[0]))
    ensures Width(ds + tail, w) == (Read(ds, w), |ds|)
    decreases |ds|
  {
    if ds == "" {
      assert ds + tail == tail;
    } else {
      assert ds + tail == [ds[0]] + (ds[1..] + tail);
      OneDigitFirst(ds[0], ds[1..] + tail, w);
      WidthReads(ds[1..], tail, (w * 10 + Digit(ds[0])) % Bytes.TWO64);
    }
  }

  /** The last digit is read last. */
  lemma {:induction false} ReadLast(ds: string, w: nat)
    requires AllDigits(ds) && ds != ""
    ensures Read(ds, w) == (Read(ds[..|ds| - 1], w) * 10 + Digit(ds[|ds| - 1])) % Bytes.TWO64
    decreases |ds|
  {
    var n := |ds| - 1;
    if n > 0 {
      ReadLast(ds[1..], (w * 10 + Digit(ds[0])) % Bytes.TWO64);
      assert ds[1..][..n - 1] == ds[..n][1..];
    }
  }

  lemma Remainder(x: nat, q: nat, r: nat)
    requires x == q * Bytes.TWO64 + r && r < Bytes.TWO64
    ensures x % Bytes.TWO64 == r
  {
  }

  lemma WrapsLate(x: nat, d: nat)
    ensures ((x % Bytes.TWO64) * 10 + d) % Bytes.TWO64 == (x * 10 + d) % Bytes.TWO64
  {
    var q, y := x / Bytes.TWO64, (x % Bytes.TWO64) * 10 + d;
    assert x == q * Bytes.TWO64 + x % Bytes.TWO64;
    Remainder(x * 10 + d, 10 * q + y / Bytes.TWO64, y % Bytes.TWO64);
  }

  /** The digits are read as the number they denote, modulo 2^64. */
  lemma {:induction false} ReadIsDecimal(ds: string)
    requires AllDigits(ds)
    ensures Read(ds, 0) == Decimal(ds) % Bytes.TWO64
    decreases |ds|
  {
    if ds != "" {
      var n := |ds| - 1;
      ReadIsDecimal(ds[..n]);
      ReadLast(ds, 0);
      WrapsLate(Decimal(ds[..n]), Digit(ds[n]));
    }
  }

  /** The side that a mark asks for; spaces go to the left of the field without one. */
  function MarkedSide(mark: string): Side {
    if mark == "-" then Right else if mark == "=" then Center else Left
  }

  /** A side mark, digits and a truncate mark, which needs digits in front of it. */
  predicate IsSpec(mark: string, ds: string, bang: string) {
    && (mark == "" || mark == "-" || mark == "=")
    && AllDigits(ds) && (bang == "" || (bang == "!" && ds != ""))
  }

  /** What follows does not continue the spec. */
  predicate EndsAt(mark: string, ds: string, bang: string, tail: string) {
    tail == "" ||
      (&& (mark == "" && ds == "" ==> tail[0] != '-' && tail[0] != '=')
       && (bang == "" ==> !IsDigit(tail[0]))
       && (bang == "" && ds != "" ==> tail[0] != '!'))
  }

  function Meaning(side: Side, ds: string, bang: string): Padding
    requires AllDigits(ds)
  {
    if ds == "" then NoPadding
    else
      var width := Decimal(ds) % Bytes.TWO64;
      Padding(if width < MAX_WIDTH then width else MAX_WIDTH, side, bang == "!")
  }

  lemma ReadFirst(ds: string)
    requires AllDigits(ds) && ds != ""
    ensures Read(ds, 0) == Read(ds[1..], Digit(ds[0]))
  {
    Remainder(Digit(ds[0]), 0, Digit(ds[0]));
  }

  lemma FirstDigitRead(ds: string)
    requires AllDigits(ds) && ds != ""
    ensures Read(ds[1..], Digit(ds[0])) == Decimal(ds) % Bytes.TWO64
  {
    ReadFirst(ds);
    ReadIsDecimal(ds);
  }

  lemma TailOf(ds: string, rest: string)
    requires ds != ""
    ensures (ds + rest)[1..] == ds[1..] + rest && (ds + rest)[0..] == ds + rest && (ds + rest)[|ds|..] == rest
    ensures (ds + rest)[0] == ds[0]
  {
  }

  /** The truncate mark is the one behind the digits. */
  lemma MarkBehind(ds: string, bang: string, tail: string)
    requires IsSpec("", ds, bang) && ds != "" && EndsAt("", ds, bang, tail)
    ensures var p := ds + (bang + tail);
            && (|ds| < |p| && p[|ds|] == '!' <==> bang == "!")
            && (bang + tail == "" || !IsDigit((bang + tail)[0]))
  {
    TailOf(ds, bang + tail);
    var p := ds + (bang + tail);
    assert |ds| < |p| ==> p[|ds|] == (bang + tail)[0];
  }

  /** The width spec that a first digit, k more and a truncate mark make. */
  lemma WidthSpecOf(p: string, side: Side, k: nat, w: nat, truncate: bool)
    requires p != "" && IsDigit(p[0]) && Width(p[1..], Digit(p[0])) == (w, k)
    requires truncate <==> 1 + k < |p| && p[1 + k] == '!'
    ensures WidthSpec(p, side) == (Padding(if w < MAX_WIDTH then w else MAX_WIDTH, side, truncate),
                                   if truncate then k + 2 else k + 1)
  {
  }

  lemma DigitsWidth(p: string, ds: string, rest: string, d: nat)
    requires AllDigits(ds) && ds != "" && (rest == "" || !IsDigit(rest[0]))
    requires p == ds[1..] + rest && d == Digit(ds[0])
    ensures Width(p, d) == (Decimal(ds) % Bytes.TWO64, |ds| - 1)
  {
    WidthReads(ds[1..], rest, d);
    FirstDigitRead(ds);
  }

  lemma DigitsFirst(ds: string, bang: string, tail: string, side: Side)
    requires IsSpec("", ds, bang) && ds != "" && EndsAt("", ds, bang, tail)
    ensures WidthSpec(ds + (bang + tail), side) == (Meaning(side, ds, bang), |ds| + |bang|)
  {
    var p := ds + (bang + tail);
    TailOf(ds, bang + tail);
    MarkBehind(ds, bang, tail);
    DigitsWidth(p[1..], ds, bang + tail, Digit(p[0]));
    WidthSpecOf(p, side, |ds| - 1, Decimal(ds) % Bytes.TWO64, bang == "!");
  }

  lemma MarkFirst(mark: string, rest: string)
    requires mark == "" || mark == "-" || mark == "="
    requires mark == "" ==> rest == "" || (rest[0] != '-' && rest[0] != '=')
    ensures SideOf(mark + rest) == (MarkedSide(mark), |mark|) && (mark + rest)[|mark|..] == rest
  {
    assert "" + rest == rest;
  }

  /** A spec with what follows it. */
  function Spec(mark: string, ds: string, bang: string, tail: string): string {
    mark + (ds + (bang + tail))
  }

  lemma PadSpecIs(p: string, side: Side, j: nat, padding: Padding, k: nat)
    requires SideOf(p) == (side, j) && WidthSpec(p[j..], side) == (padding, k)
    ensures PadSpec(p) == (padding, j + k)
  {
  }

  lemma WithoutDigits(mark: string, tail: string)
    requires IsSpec(mark, "", "") && EndsAt(mark, "", "", tail)
    ensures PadSpec(mark + tail) == (NoPadding, |mark|)
  {
    MarkFirst(mark, tail);
    PadSpecIs(mark + tail, MarkedSide(mark), |mark|, NoPadding, 0);
  }

  lemma WithDigits(mark: string, ds: string, bang: string, tail: string, rest: string)
    requires IsSpec(mark, ds, bang) && EndsAt(mark, ds, bang, tail) && ds != "" && rest == ds + (bang + tail)
    ensures PadSpec(mark + rest) == (Meaning(MarkedSide(mark), ds, bang), |mark| + |ds| + |bang|)
  {
    var side := MarkedSide(mark);
    DigitsFirst(ds, bang, tail, side);
    TailOf(ds, bang + tail);
    MarkFirst(mark, rest);
    PadSpecIs(mark + rest, side, |mark|, Meaning(side, ds, bang), |ds| + |bang|);
  }

  /** The meaning of every pad spec: its marks and its digits, whatever comes behind it. */
  lemma SpecMeaning(mark: string, ds: string, bang: string, tail: string)
    requires IsSpec(mark, ds, bang) && EndsAt(mark, ds, bang, tail)
    ensures PadSpec(Spec(mark, ds, bang, tail)) == (Meaning(MarkedSide(mark), ds, bang), |mark| + |ds| + |bang|)
  {
    if ds == "" {
      assert "" + ("" + tail) == tail;
      WithoutDigits(mark, tail);
    } else {
      WithDigits(mark, ds, bang, tail, ds + (bang + tail));
    }
  }

  /** A pattern that starts with a percent sign, a spec and a flag. */
  predicate Starts(p: string, mark: string, ds: string, bang: string, flag: char, rest: string) {
    && p != "" && p[0] == '%' && p[1..] == Spec(mark, ds, bang, [flag] + rest)
    && IsSpec(mark, ds, bang) && EndsAt(mark, ds, bang, [flag] + rest)
  }

  lemma FlagIsAt(p: string, mark: string, ds: string, bang: string, flag: char, rest: string)
    requires Starts(p, mark, ds, bang, flag, rest)
    ensures var k := |mark| + |ds| + |bang|; 1 + k < |p| && p[1 + k] == flag && p[2 + k..] == rest
  {
    var q, k := p[1..], |mark| + |ds| + |bang|;
    assert q[k] == flag && q[k + 1..] == rest;
    assert p[2 + k..] == q[k + 1..];
  }

  lemma SpecIsAt(p: string, mark: string, ds: string, bang: string, flag: char, rest: string)
    requires Starts(p, mark, ds, bang, flag, rest)
    ensures PadSpec(p[1..]) == (Meaning(MarkedSide(mark), ds, bang), |mark| + |ds| + |bang|)
  {
    SpecMeaning(mark, ds, bang, [flag] + rest);
  }

  /** The flag behind a spec, and what its padding is. */
  lemma FlagAt(p: string, run: string, padding: Padding, k: nat, flag: char, rest: string)
    requires p != "" && p[0] == '%' && PadSpec(p[1..]) == (padding, k)
    requires 1 + k < |p| && p[1 + k] == flag && p[2 + k..] == rest
    ensures CompileFrom(p, run) == Flush(run, [Flag(padding, flag)] + CompileFrom(rest, ""))
  {
    AtPercent(p, run, padding, k, CompileFrom(rest, ""));
  }

  lemma MarkStarts(p: string, mark: string, flag: char, rest: string)
    requires (mark == "-" || mark == "=") && !IsDigit(flag) && p == "%" + mark + [flag] + rest
    ensures Starts(p, mark, "", "", flag, rest)
  {
    assert p[1..] == mark + [flag] + rest;
    assert mark + ("" + ("" + ([flag] + rest))) == mark + [flag] + rest;
  }

  /** A side mark without a width is passed over, whichever it is. */
  lemma MarkWithoutWidth(mark: string, flag: char, rest: string)
    requires (mark == "-" || mark == "=") && !IsDigit(flag)
    ensures Compile("%" + mark + [flag] + rest) == [Flag(NoPadding, flag)] + Compile(rest)
  {
    var p := "%" + mark + [flag] + rest;
    MarkStarts(p, mark, flag, rest);
    FlagIsAt(p, mark, "", "", flag, rest);
    SpecIsAt(p, mark, "", "", flag, rest);
    FlagAt(p, "", NoPadding, |mark|, flag, rest);
  }

  /** A pattern that ends in a spec shows nothing of it: what was collected before is all that is left. */
  lemma UnfinishedShowsNothing(p: string, mark: string, ds: string, bang: string, run: string)
    requires IsSpec(mark, ds, bang) && p != "" && p[0] == '%' && p[1..] == Spec(mark, ds, bang, "")
    ensures CompileFrom(p, run) == Flush(run, [])
  {
    SpecMeaning(mark, ds, bang, "");
    AtUnfinished(p, run);
  }
}
