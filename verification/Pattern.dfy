/** The pattern compiler: a pattern string becomes literal runs and padded flags, and can be printed back. */
module Pattern {
  import Bytes

  datatype Side = Left | Right | Center

  /** Padding is enabled exactly when a width was given. */
  datatype Padding = NoPadding | Padding(width: nat, side: Side, truncate: bool)

  /** A formatter: characters shown as they are, or a flag with its padding. */
  datatype Formatter = Chars(text: string) | Flag(padding: Padding, flag: char)

  const MAX_WIDTH: nat := 64

  predicate IsDigit(c: char) { '0' <= c <= '9' }

  function Digit(c: char): (d: nat)
    requires IsDigit(c)
    ensures d <= 9
  {
    (c as int) - ('0' as int)
  }

  // ----- The compiler's meaning, on what is left of the pattern -----

  /** The width that the leading digits add to w, in unsigned 64-bit arithmetic, and how many there are. */
  function Width(p: string, w: nat): (r: (nat, nat))
    ensures r.1 <= |p|
    ensures r.1 < |p| ==> !IsDigit(p[r.1])
  {
    if p != "" && IsDigit(p[0]) then
      var (v, k) := Width(p[1..], (w * 10 + Digit(p[0])) % Bytes.TWO64);
      (v, k + 1)
    else (w, 0)
  }

  function SideOf(p: string): (r: (Side, nat))
    ensures r.1 <= |p|
  {
    if p != "" && p[0] == '-' then (Right, 1) else if p != "" && p[0] == '=' then (Center, 1) else (Left, 0)
  }

  /** A width with its truncate mark. */
  function WidthSpec(p: string, side: Side): (r: (Padding, nat))
    ensures r.1 <= |p|
    ensures r.0.Padding? ==> r.0.width <= MAX_WIDTH
  {
    if p == "" || !IsDigit(p[0]) then (NoPadding, 0)
    else
      var (w, k) := Width(p[1..], Digit(p[0]));
      var truncate := 1 + k < |p| && p[1 + k] == '!';
      (Padding(if w < MAX_WIDTH then w else MAX_WIDTH, side, truncate), if truncate then k + 2 else k + 1)
  }

  /** The leading pad spec and its length. */
  function PadSpec(p: string): (r: (Padding, nat))
    ensures r.1 <= |p|
    ensures r.0.Padding? ==> r.0.width <= MAX_WIDTH
  {
    var (side, j) := SideOf(p);
    var (padding, k) := WidthSpec(p[j..], side);
    (padding, j + k)
  }

  /** A literal run before more formatters; the empty run shows nothing and is not kept. */
  function Flush(text: string, rest: seq<Formatter>): seq<Formatter> {
    if text == "" then rest else [Chars(text)] + rest
  }

  /** The formatters for the pattern p when the literal run before it is `text`. */
  function CompileFrom(p: string, text: string): seq<Formatter>
    decreases |p|
  {
    if p == "" then Flush(text, [])
    else if p[0] == '%' then
      var (padding, k) := PadSpec(p[1..]);
      if 1 + k == |p| then Flush(text, [])
      else Flush(text, [Flag(padding, p[1 + k])] + CompileFrom(p[2 + k..], ""))
    else CompileFrom(p[1..], text + [p[0]])
  }

  function Compile(p: string): seq<Formatter> {
    CompileFrom(p, "")
  }

  // ----- The compiler's loops -----

  lemma SliceTwice(p: string, i: nat, k: nat)
    requires i + k <= |p|
    ensures p[i..][k..] == p[i + k..]
  {
  }

  lemma OneDigit(p: string, it: nat, w: nat)
    requires it < |p| && IsDigit(p[it])
    ensures var rest := Width(p[it + 1..], (w * 10 + Digit(p[it])) % Bytes.TWO64);
            Width(p[it..], w) == (rest.0, rest.1 + 1)
  {
    SliceTwice(p, it, 1);
  }

  lemma NoDigit(p: string, it: nat, w: nat)
    requires it <= |p| && (it < |p| ==> !IsDigit(p[it]))
    ensures Width(p[it..], w) == (w, 0)
  {
  }

  /** The spec after its first digit and k more that make the width w. */
  lemma WidthSpecIs(p: string, start: nat, side: Side, w: nat, k: nat)
    requires start < |p| && IsDigit(p[start]) && Width(p[start + 1..], Digit(p[start])) == (w, k)
    ensures start + 1 + k <= |p|
    ensures var truncate := start + 1 + k < |p| && p[start + 1 + k] == '!';
            var width := if w < MAX_WIDTH then w else MAX_WIDTH;
            WidthSpec(p[start..], side) == (Padding(width, side, truncate), if truncate then k + 2 else k + 1)
  {
    SliceTwice(p, start, 1);
  }

  /** The digits and the truncate mark of handle_padspec_. */
  method HandleWidth(p: string, start: nat, side: Side) returns (padding: Padding, it: nat)
    requires start < |p| && IsDigit(p[start])
    ensures start <= it <= |p| && (padding, it - start) == WidthSpec(p[start..], side)
  {
    it := start;
    var width: nat := Digit(p[it]);
    it := it + 1;
    while it < |p| && IsDigit(p[it])
      invariant start + 1 <= it <= |p|
      invariant Width(p[start + 1..], Digit(p[start])).0 == Width(p[it..], width).0
      invariant Width(p[start + 1..], Digit(p[start])).1 == it - (start + 1) + Width(p[it..], width).1
    {
      OneDigit(p, it, width);
      width := (width * 10 + Digit(p[it])) % Bytes.TWO64;
      it := it + 1;
    }
    NoDigit(p, it, width);
    WidthSpecIs(p, start, side, width, it - (start + 1));
    var truncate := false;
    if it < |p| && p[it] == '!' {
      truncate := true;
      it := it + 1;
    }
    padding := Padding(if width < MAX_WIDTH then width else MAX_WIDTH, side, truncate);
  }

  /** A pad spec is a side mark and the width spec behind it. */
  lemma SpecSplits(p: string, start: nat, side: Side, it: nat)
    requires start <= it <= |p| && SideOf(p[start..]) == (side, it - start)
    ensures PadSpec(p[start..]) == (WidthSpec(p[it..], side).0, it - start + WidthSpec(p[it..], side).1)
    ensures it == |p| || !IsDigit(p[it]) ==> WidthSpec(p[it..], side) == (NoPadding, 0)
  {
    SliceTwice(p, start, it - start);
  }

  /** handle_padspec_: the iterator moves past the spec it found. */
  method HandlePadSpec(p: string, start: nat) returns (padding: Padding, it: nat)
    requires start <= |p|
    ensures start <= it <= |p| && (padding, it - start) == PadSpec(p[start..])
  {
    it := start;
    if it == |p| {
      return NoPadding, it;
    }
    var side: Side;
    if p[it] == '-' {
      side := Right;
      it := it + 1;
    } else if p[it] == '=' {
      side := Center;
      it := it + 1;
    } else {
      side := Left;
    }
    SpecSplits(p, start, side, it);
    if it == |p| || !IsDigit(p[it]) {
      return NoPadding, it;
    }
    padding, it := HandleWidth(p, it, side);
  }

  /** The branch of compile_pattern_ for a percent sign at `it`; `more` is false where the loop breaks. */
  method TakeFlag(p: string, it: nat, formatters: seq<Formatter>, userChars: string)
    returns (formatters': seq<Formatter>, next: nat, more: bool)
    requires it < |p| && p[it] == '%'
    ensures it < next <= |p|
    ensures !more ==> formatters' == formatters + CompileFrom(p[it..], userChars)
    ensures more ==> formatters' + CompileFrom(p[next..], "") == formatters + CompileFrom(p[it..], userChars)
  {
    var flushed := formatters;
    if userChars != "" {
      flushed := flushed + [Chars(userChars)];
    }
    var padding, j := HandlePadSpec(p, it + 1);
    PercentStep(p, it, userChars, formatters, flushed, padding, j);
    if j < |p| {
      formatters', next, more := flushed + [Flag(padding, p[j])], j + 1, true;
    } else {
      formatters', next, more := flushed, j, false;
    }
  }

  /** compile_pattern_: `userChars` is the literal run being collected, empty when there is none. */
  method CompilePattern(p: string) returns (formatters: seq<Formatter>)
    ensures formatters == Compile(p)
  {
    formatters := [];
    var userChars := "";
    var it := 0;
    assert p[0..] == p;
    while it < |p|
      invariant it <= |p|
      invariant Compile(p) == formatters + CompileFrom(p[it..], userChars)
      decreases |p| - it
    {
      if p[it] == '%' {
        var more;
        formatters, it, more := TakeFlag(p, it, formatters, userChars);
        userChars := "";
        if !more {
          return;
        }
      } else {
        AtCharacter(p, it, userChars);
        userChars := userChars + [p[it]];
        it := it + 1;
      }
    }
    assert p[it..] == "";
    if userChars != "" {
      formatters := formatters + [Chars(userChars)];
    }
  }

  /** A percent sign ends the literal run; its flag is compiled before what follows it. */
  lemma AtPercent(p: string, text: string, padding: Padding, k: nat, rest: seq<Formatter>)
    requires p != "" && p[0] == '%' && PadSpec(p[1..]) == (padding, k)
    requires 1 + k < |p| && CompileFrom(p[2 + k..], "") == rest
    ensures CompileFrom(p, text) == Flush(text, [Flag(padding, p[1 + k])] + rest)
  {
    var spec := PadSpec(p[1..]);
    assert spec.0 == padding && spec.1 == k && 1 + k != |p|;
  }

  /** A pattern that ends in its pad spec has no more flag. */
  lemma AtUnfinished(p: string, text: string)
    requires p != "" && p[0] == '%' && 1 + PadSpec(p[1..]).1 == |p|
    ensures CompileFrom(p, text) == Flush(text, [])
  {
  }

  lemma AtCharacter(p: string, it: nat, text: string)
    requires it < |p| && p[it] != '%'
    ensures CompileFrom(p[it..], text) == CompileFrom(p[it + 1..], text + [p[it]])
  {
    SliceTwice(p, it, 1);
  }

  lemma Appended(done: seq<Formatter>, run: string, now: seq<Formatter>, f: Formatter, rest: seq<Formatter>)
    requires now == if run == "" then done else done + [Chars(run)]
    ensures done + Flush(run, []) == now
    ensures done + Flush(run, [f] + rest) == now + [f] + rest
  {
  }

  /** What is left from a percent sign at `it` on, spec and flag included. */
  lemma LeftFrom(p: string, it: nat, j: nat)
    requires it < |p| && it + 1 <= j <= |p|
    ensures var left, k := p[it..], j - (it + 1);
            && left[0] == p[it] && left[1..] == p[it + 1..]
            && (j < |p| ==> left[1 + k] == p[j] && left[2 + k..] == p[j + 1..])
  {
  }

  /** AtPercent on what is left of a pattern from `it` on. */
  lemma AtPercentFrom(p: string, it: nat, run: string, padding: Padding, j: nat)
    requires it < |p| && p[it] == '%' && it + 1 <= j <= |p|
    requires PadSpec(p[it + 1..]) == (padding, j - (it + 1))
    ensures j == |p| ==> CompileFrom(p[it..], run) == Flush(run, [])
    ensures j < |p| ==> CompileFrom(p[it..], run) == Flush(run, [Flag(padding, p[j])] + CompileFrom(p[j + 1..], ""))
  {
    LeftFrom(p, it, j);
    if j < |p| {
      AtPercent(p[it..], run, padding, j - (it + 1), CompileFrom(p[j + 1..], ""));
    } else {
      AtUnfinished(p[it..], run);
    }
  }

  lemma PercentStep(p: string, it: nat, run: string, done: seq<Formatter>, now: seq<Formatter>,
                    padding: Padding, j: nat)
    requires it < |p| && p[it] == '%' && it + 1 <= j <= |p|
    requires PadSpec(p[it + 1..]) == (padding, j - (it + 1))
    requires now == if run == "" then done else done + [Chars(run)]
    ensures j == |p| ==> done + CompileFrom(p[it..], run) == now
    ensures j < |p| ==> done + CompileFrom(p[it..], run) == now + [Flag(padding, p[j])] + CompileFrom(p[j + 1..], "")
  {
    AtPercentFrom(p, it, run, padding, j);
    if j < |p| {
      Appended(done, run, now, Flag(padding, p[j]), CompileFrom(p[j + 1..], ""));
    } else {
      Appended(done, run, now, Chars(""), []);
    }
  }

  // ----- The printer -----

  function Digits(w: nat): string
    requires w <= MAX_WIDTH
  {
    if w < 10 then [DigitChar(w)] else [DigitChar(w / 10), DigitChar(w % 10)]
  }

  function DigitChar(d: nat): (c: char)
    requires d <= 9
    ensures IsDigit(c) && Digit(c) == d
  {
    ('0' as int + d) as char
  }

  function SideMark(s: Side): string {
    match s
    case Left => ""
    case Right => "-"
    case Center => "="
  }

  /** Without padding, a flag that looks like a side mark needs one in front of it. */
  function PrintSpec(padding: Padding, flag: char): string
    requires padding.Padding? ==> padding.width <= MAX_WIDTH
  {
    match padding
    case NoPadding => if flag == '-' || flag == '=' then "-" else ""
    case Padding(width, side, truncate) => SideMark(side) + Digits(width) + (if truncate then "!" else "")
  }

  function Print(fs: seq<Formatter>): string
    requires forall f :: f in fs ==> Printable(f)
  {
    if fs == [] then "" else PrintOne(fs[0]) + Print(fs[1..])
  }

  function PrintOne(f: Formatter): string
    requires Printable(f)
  {
    match f
    case Chars(text) => text
    case Flag(padding, flag) => "%" + PrintSpec(padding, flag) + [flag]
  }

  /** The formatters that some pattern denotes. */
  predicate Printable(f: Formatter) {
    match f
    case Chars(text) => text != "" && '%' !in text
    case Flag(NoPadding, flag) => !IsDigit(flag)
    case Flag(Padding(width, _, truncate), flag) =>
      width <= MAX_WIDTH && (!truncate ==> !IsDigit(flag) && flag != '!')
  }

  /** Neighbouring literal runs would have been one. */
  predicate Normal(fs: seq<Formatter>) {
    && (forall f :: f in fs ==> Printable(f))
    && (forall i :: 0 <= i < |fs| - 1 ==> !(fs[i].Chars? && fs[i + 1].Chars?))
  }

  // ----- What the compiler produces is normal -----

  /** The character a pad spec stops at is one that its padding may carry. */
  lemma SpecLeavesFlag(p: string)
    requires PadSpec(p).1 < |p|
    ensures Printable(Flag(PadSpec(p).0, p[PadSpec(p).1]))
  {
  }

  lemma NormalCons(f: Formatter, fs: seq<Formatter>)
    requires Printable(f) && Normal(fs) && (f.Chars? && fs != [] ==> fs[0].Flag?)
    ensures Normal([f] + fs)
  {
  }

  lemma {:induction false} CompiledIsNormal(p: string, text: string)
    requires '%' !in text
    ensures Normal(CompileFrom(p, text))
    decreases |p|
  {
    if p != "" {
      if p[0] == '%' {
        var (padding, k) := PadSpec(p[1..]);
        if 1 + k < |p| {
          var f, rest := Flag(padding, p[1 + k]), CompileFrom(p[2 + k..], "");
          CompiledIsNormal(p[2 + k..], "");
          SpecLeavesFlag(p[1..]);
          NormalCons(f, rest);
          if text != "" {
            NormalCons(Chars(text), [f] + rest);
          }
        }
      } else {
        CompiledIsNormal(p[1..], text + [p[0]]);
      }
    }
  }

  // ----- Printing a normal list and compiling it gives it back -----

  /** A printed width is read back as it was, whatever follows its flag. */
  lemma WidthReadsBack(width: nat, side: Side, truncate: bool, flag: char, rest: string)
    requires Printable(Flag(Padding(width, side, truncate), flag))
    ensures var spec := Digits(width) + (if truncate then "!" else "");
            WidthSpec(spec + [flag] + rest, side) == (Padding(width, side, truncate), |spec|)
  {
    var mark := if truncate then "!" else "";
    var tail := mark + [flag] + rest;
    var p := Digits(width) + mark + [flag] + rest;
    assert p == Digits(width) + tail;
    assert !IsDigit(tail[0]);
    if width < 10 {
      assert p[1..] == tail;
    } else {
      assert p[1..] == [DigitChar(width % 10)] + tail;
      assert p[1..][1..] == tail;
      assert Width(tail, width) == (width, 0);
      assert Width(p[1..], width / 10) == (width, 1);
    }
  }

  lemma NoSpecReadsBack(flag: char, rest: string)
    requires Printable(Flag(NoPadding, flag))
    ensures PadSpec(PrintSpec(NoPadding, flag) + [flag] + rest) == (NoPadding, |PrintSpec(NoPadding, flag)|)
  {
    if flag == '-' || flag == '=' {
      assert ("-" + [flag] + rest)[1..] == [flag] + rest;
    } else {
      assert "" + [flag] + rest == [flag] + rest && ([flag] + rest)[0..] == [flag] + rest;
    }
  }

  /** A side mark in front of a width spec. */
  lemma SideThenWidth(side: Side, tail: string, padding: Padding, k: nat)
    requires tail != "" && IsDigit(tail[0]) && WidthSpec(tail, side) == (padding, k)
    ensures PadSpec(SideMark(side) + tail) == (padding, |SideMark(side)| + k)
  {
    SideReadsBack(side, tail);
  }

  lemma Regroup(a: string, b: string, c: string)
    ensures a + b + c == a + (b + c)
  {
  }

  lemma SideSpecReadsBack(width: nat, side: Side, truncate: bool, flag: char, rest: string, spec: string)
    requires Printable(Flag(Padding(width, side, truncate), flag))
    requires spec == Digits(width) + (if truncate then "!" else "")
    ensures PadSpec(SideMark(side) + (spec + [flag] + rest))
         == (Padding(width, side, truncate), |SideMark(side)| + |spec|)
  {
    WidthReadsBack(width, side, truncate, flag, rest);
    SideThenWidth(side, spec + [flag] + rest, Padding(width, side, truncate), |spec|);
  }

  /** A printed spec is read back as it was, whatever follows its flag. */
  lemma SpecReadsBack(padding: Padding, flag: char, rest: string)
    requires Printable(Flag(padding, flag))
    ensures PadSpec(PrintSpec(padding, flag) + [flag] + rest) == (padding, |PrintSpec(padding, flag)|)
  {
    match padding
    case NoPadding => NoSpecReadsBack(flag, rest);
    case Padding(width, side, truncate) =>
      var mark := if truncate then "!" else "";
      var spec := Digits(width) + mark;
      SideSpecReadsBack(width, side, truncate, flag, rest, spec);
      Regroup(SideMark(side), Digits(width), mark);
      Regroup(SideMark(side), spec, [flag]);
      Regroup(SideMark(side), spec + [flag], rest);
  }

  lemma SideReadsBack(side: Side, tail: string)
    requires tail != "" && IsDigit(tail[0])
    ensures SideOf(SideMark(side) + tail) == (side, |SideMark(side)|)
    ensures (SideMark(side) + tail)[|SideMark(side)|..] == tail
  {
  }

  /** A literal run is collected character by character. */
  lemma {:induction false} TextCollects(text: string, rest: string, run: string)
    requires '%' !in text
    ensures CompileFrom(text + rest, run) == CompileFrom(rest, run + text)
    decreases |text|
  {
    if text == "" {
      assert text + rest == rest && run + text == run;
    } else {
      assert (text + rest)[1..] == text[1..] + rest;
      TextCollects(text[1..], rest, run + [text[0]]);
      assert run + [text[0]] + text[1..] == run + text;
    }
  }

  lemma FlagCompiles(padding: Padding, flag: char, rest: string, run: string)
    requires Printable(Flag(padding, flag))
    ensures CompileFrom(PrintOne(Flag(padding, flag)) + rest, run)
         == Flush(run, [Flag(padding, flag)] + CompileFrom(rest, ""))
  {
    var spec := PrintSpec(padding, flag);
    var p := PrintOne(Flag(padding, flag)) + rest;
    assert p[1..] == spec + [flag] + rest;
    SpecReadsBack(padding, flag, rest);
    assert p[1 + |spec|] == flag && p[2 + |spec|..] == rest;
    AtPercent(p, run, padding, |spec|, CompileFrom(rest, ""));
  }

  /** A list that starts with a flag, or nothing, ends the literal run before it. */
  lemma RunEnds(fs: seq<Formatter>, run: string)
    requires Normal(fs) && (fs == [] || fs[0].Flag?)
    ensures CompileFrom(Print(fs), run) == Flush(run, CompileFrom(Print(fs), ""))
  {
    if fs != [] {
      FlagCompiles(fs[0].padding, fs[0].flag, Print(fs[1..]), run);
      FlagCompiles(fs[0].padding, fs[0].flag, Print(fs[1..]), "");
    }
  }

  lemma NormalTail(fs: seq<Formatter>)
    requires Normal(fs) && fs != []
    ensures Normal(fs[1..])
    ensures fs[0].Chars? && |fs| > 1 ==> fs[1].Flag?
  {
    var rest := fs[1..];
    forall i | 0 <= i < |rest| - 1 ensures !(rest[i].Chars? && rest[i + 1].Chars?) {
      assert rest[i] == fs[i + 1] && rest[i + 1] == fs[i + 1 + 1];
    }
    assert |fs| > 1 ==> !(fs[0].Chars? && fs[0 + 1].Chars?);
  }

  lemma {:induction false} PrintCompiles(fs: seq<Formatter>)
    requires Normal(fs)
    ensures Compile(Print(fs)) == fs
  {
    if fs != [] {
      var rest := fs[1..];
      NormalTail(fs);
      PrintCompiles(rest);
      assert Printable(fs[0]);
      assert fs == [fs[0]] + rest;
      match fs[0]
      case Flag(padding, flag) =>
        FlagCompiles(padding, flag, Print(rest), "");
      case Chars(text) =>
        TextCollects(text, Print(rest), "");
        assert "" + text == text;
        RunEnds(rest, text);
    }
  }

  /** The compiler's results are exactly the normal lists, and printing one and compiling it gives it back. */
  lemma CompilesToNormal(fs: seq<Formatter>)
    ensures Normal(fs) <==> exists p :: Compile(p) == fs
    ensures Normal(fs) ==> Compile(Print(fs)) == fs
  {
    if Normal(fs) {
      PrintCompiles(fs);
    }
    if p :| Compile(p) == fs {
      CompiledIsNormal(p, "");
    }
  }

  /** So every pattern has a canonical spelling with the same meaning. */
  lemma CanonicalPattern(p: string)
    ensures Normal(Compile(p)) && Compile(Print(Compile(p))) == Compile(p)
  {
    CompilesToNormal(Compile(p));
  }

  // ----- Doubling the percent signs -----

  function Doubled(text: string): string {
    if text == "" then "" else (if text[0] == '%' then "%%" else [text[0]]) + Doubled(text[1..])
  }

  /** What a list of literals and percent flags shows; other flags depend on the message. */
  function Shown(fs: seq<Formatter>, show: Formatter -> string): string {
    if fs == [] then ""
    else
      (match fs[0]
       case Chars(text) => text
       case Flag(_, flag) => if flag == '%' then "%" else show(fs[0])) + Shown(fs[1..], show)
  }

  lemma ShownFlush(text: string, rest: seq<Formatter>, show: Formatter -> string)
    ensures Shown(Flush(text, rest), show) == text + Shown(rest, show)
  {
    if text != "" {
      assert ([Chars(text)] + rest)[1..] == rest;
    }
  }

  lemma ShownAfterFlag(run: string, rest: seq<Formatter>, show: Formatter -> string)
    ensures Shown(Flush(run, [Flag(NoPadding, '%')] + rest), show) == run + "%" + Shown(rest, show)
  {
    var f := Flag(NoPadding, '%');
    ShownFlush(run, [f] + rest, show);
    assert ([f] + rest)[1..] == rest;
  }

  /** A doubled percent sign compiles to the flag that shows one. */
  lemma DoubledPercent(text: string, run: string)
    requires text != "" && text[0] == '%'
    ensures CompileFrom(Doubled(text), run)
         == Flush(run, [Flag(NoPadding, '%')] + CompileFrom(Doubled(text[1..]), ""))
  {
    assert PrintOne(Flag(NoPadding, '%')) == "%%";
    FlagCompiles(NoPadding, '%', Doubled(text[1..]), run);
  }

  lemma DoubledCharacter(text: string, run: string)
    requires text != "" && text[0] != '%'
    ensures CompileFrom(Doubled(text), run) == CompileFrom(Doubled(text[1..]), run + [text[0]])
  {
    var p := Doubled(text);
    assert p == [text[0]] + Doubled(text[1..]);
    assert p[0..] == p;
    AtCharacter(p, 0, run);
  }

  /** Any text with its percent signs doubled shows as itself. */
  lemma {:induction false} DoubledShowsItself(text: string, run: string, show: Formatter -> string)
    ensures Shown(CompileFrom(Doubled(text), run), show) == run + text
    decreases |text|
  {
    if text == "" {
      ShownFlush(run, [], show);
    } else if text[0] == '%' {
      DoubledPercent(text, run);
      ShownAfterFlag(run, CompileFrom(Doubled(text[1..]), ""), show);
      DoubledShowsItself(text[1..], "", show);
      assert run + "%" + text[1..] == run + text;
    } else {
      DoubledCharacter(text, run);
      DoubledShowsItself(text[1..], run + [text[0]], show);
      assert run + [text[0]] + text[1..] == run + text;
    }
  }
}
