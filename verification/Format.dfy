/** Number formatting: vprintf of the kernel (characters to the console) and of the C
    library (characters into a 200-byte buffer). */
module Format {

  datatype Arg = Int(i: int) | Hex(x: nat) | Str(s: string) | Chr(c: char)

  const BUFFER: nat := 200

  function DigitChar(d: nat): (c: char)
    requires d < 16
  {
    if d > 9 then (d + 65 - 10) as char else (d + 48) as char
  }

  /** The two bases printed. */
  predicate Base(base: nat) { base == 10 || base == 16 }

  /** The digits of n, most significant first. */
  function Print(n: nat, base: nat): (s: string)
    requires Base(base)
    ensures |s| > 0
  {
    if n < base then [DigitChar(n)] else Print(n / base, base) + [DigitChar(n % base)]
  }

  /** i + 48 in a char: the only character printed for a number below 10, negative ones
      included. */
  function LowChar(i: int): char
    requires i < 10
  {
    ((i + 48) % 256) as char
  }

  /** What a directive prints. */
  function Directive(arg: Arg): string {
    match arg
    case Int(i) => if i < 10 then [LowChar(i)] else Print(i, 10)
    case Hex(x) => Print(x, 16)
    case Str(s) => s
    case Chr(c) => [c]
  }

  /** The argument kind a directive character takes from the list; none for any other
      character, which is then printed as ordinary text. */
  predicate Takes(c: char, arg: Arg) {
    match c
    case 'd' => arg.Int?
    case 'i' => arg.Int?
    case 'x' => arg.Hex?
    case 's' => arg.Str?
    case 'c' => arg.Chr?
    case _ => false
  }

  predicate IsDirective(c: char) {
    c in {'d', 'i', 'x', 's', 'c'}
  }

  /** The arguments are the ones the format takes, with the widths of int and uint64_t. */
  predicate ArgsOk(fmt: string, args: seq<Arg>)
    decreases |fmt|
  {
    if fmt == "" then true
    else if fmt[0] != '%' then ArgsOk(fmt[1..], args)
    else if |fmt| == 1 || !IsDirective(fmt[1]) then ArgsOk(fmt[1..], args)
    else
      && args != [] && Takes(fmt[1], args[0]) && ArgOk(args[0])
      && ArgsOk(fmt[2..], args[1..])
  }

  predicate ArgOk(arg: Arg) {
    match arg
    case Int(i) => -0x8000_0000 <= i < 0x8000_0000
    case Hex(x) => x < 0x1_0000_0000_0000_0000
    case Str(s) => '\0' !in s
    case Chr(_) => true
  }

  /** The characters a format prints. */
  function Emit(fmt: string, args: seq<Arg>): string
    requires ArgsOk(fmt, args)
    decreases |fmt|
  {
    if fmt == "" then ""
    else if fmt[0] != '%' then [fmt[0]] + Emit(fmt[1..], args)
    else if |fmt| == 1 || !IsDirective(fmt[1]) then Emit(fmt[1..], args)
    else Directive(args[0]) + Emit(fmt[2..], args[1..])
  }

  // Printing is inverted by parsing.

  function DigitValue(c: char): nat {
    if '0' <= c <= '9' then c as nat - 48
    else if 'A' <= c <= 'F' then c as nat - 65 + 10
    else 16
  }

  function Parse(s: string, base: nat): nat {
    if s == "" then 0 else Parse(s[..|s| - 1], base) * base + DigitValue(s[|s| - 1])
  }

  /** Digits below the base, no leading zero unless it stands alone. */
  predicate Numeral(s: string, base: nat) {
    && s != ""
    && (forall i | 0 <= i < |s| :: DigitValue(s[i]) < base)
    && (|s| > 1 ==> s[0] != '0')
  }

  lemma DigitRoundTrip(d: nat)
    requires d < 16
    ensures DigitValue(DigitChar(d)) == d
    ensures DigitChar(d) == '0' <==> d == 0
  {
  }

  lemma {:induction false} PrintParses(n: nat, base: nat)
    requires Base(base)
    ensures Numeral(Print(n, base), base)
    ensures Parse(Print(n, base), base) == n
    ensures n > 0 ==> Print(n, base)[0] != '0'
    decreases n
  {
    if n < base {
      DigitRoundTrip(n);
      assert Print(n, base)[..0] == "";
    } else {
      Quotient(n, base);
      PrintParses(n / base, base);
      DigitRoundTrip(n % base);
      var s := Print(n, base);
      assert s[..|s| - 1] == Print(n / base, base);
    }
  }

  lemma Quotient(n: nat, base: nat)
    requires Base(base) && base <= n
    ensures 0 < n / base < n
    ensures n == n / base * base + n % base
  {
    if base == 10 { assert n == n / 10 * 10 + n % 10; } else { assert n == n / 16 * 16 + n % 16; }
  }

  /** Parsing then printing gives the numeral back. */
  lemma {:induction false} ParsePrints(s: string, base: nat)
    requires Base(base) && Numeral(s, base)
    ensures Print(Parse(s, base), base) == s
    ensures |s| > 1 ==> Parse(s, base) >= base
    ensures s != "0" ==> Parse(s, base) > 0
    decreases |s|
  {
    var last := s[|s| - 1];
    var p, d := s[..|s| - 1], DigitValue(last);
    CharRoundTrip(last);
    assert s == p + [last];
    if p == "" {
      assert Parse(s, base) == d;
    } else {
      assert Numeral(p, base);
      ParsePrints(p, base);
      hide DigitValue, DigitChar, Numeral;
      Rebuild(Parse(p, base), base, d);
    }
  }

  lemma CharRoundTrip(c: char)
    requires DigitValue(c) < 16
    ensures DigitChar(DigitValue(c)) == c
    ensures DigitValue(c) == 0 <==> c == '0'
  {
  }

  lemma Rebuild(n: nat, base: nat, d: nat)
    requires Base(base) && n > 0 && d < base
    ensures (n * base + d) / base == n && (n * base + d) % base == d && n * base + d >= base
  {
    if base == 10 {
      assert (n * 10 + d) / 10 == n;
    } else {
      assert (n * 16 + d) / 16 == n;
    }
  }

  function Power(base: nat, k: nat): nat {
    if k == 0 then 1 else base * Power(base, k - 1)
  }

  lemma {:induction false} PrintLength(n: nat, base: nat, k: nat)
    requires Base(base) && k > 0 && n < Power(base, k)
    ensures |Print(n, base)| <= k
    decreases k
  {
    if n >= base {
      assert k > 1;
      Quotient(n, base);
      QuotientBound(n, base, Power(base, k - 1));
      PrintLength(n / base, base, k - 1);
    }
  }

  lemma QuotientBound(n: nat, base: nat, p: nat)
    requires Base(base) && n < base * p
    ensures n / base < p
  {
    if base == 10 { assert n < 10 * p; } else { assert n < 16 * p; }
  }

  /** Every int prints in at most 10 digits and every uint64_t in at most 16: the digit
      arrays of 40 and 200 characters never overflow. */
  lemma DigitsFit(i: nat, x: nat)
    requires i < 0x8000_0000 && x < 0x1_0000_0000_0000_0000
    ensures |Print(i, 10)| <= 10 && |Print(x, 16)| <= 16
  {
    assert Power(10, 5) == 100000;
    assert Power(10, 10) == 10000000000;
    PrintLength(i, 10, 10);
    assert Power(16, 8) == 0x1_0000_0000;
    assert Power(16, 12) == 0x1_0000_0000_0000;
    assert Power(16, 16) == 0x1_0000_0000_0000_0000;
    PrintLength(x, 16, 16);
  }

  /** %d prints a numeral that reads back as the number exactly for the numbers that are not
      negative. */
  lemma DecimalExactly(i: int)
    requires -0x8000_0000 <= i < 0x8000_0000
    ensures i >= 0 <==> Numeral(Directive(Int(i)), 10) && Parse(Directive(Int(i)), 10) == i
  {
    if i >= 0 {
      PrintParses(i, 10);
      if i < 10 { assert Directive(Int(i)) == Print(i, 10); }
    }
  }

  // What a text must be, without saying how it is made.

  /** A numeral in the digits 0 to 9 and A to F that stands for n. */
  predicate Denotes(s: string, base: nat, n: nat) {
    Numeral(s, base) && Parse(s, base) == n
  }

  /** The text shows the argument: a numeral for numbers, but for a negative number the one
      character with its code plus 48, in 8 bits. */
  predicate Shows(s: string, arg: Arg) {
    match arg
    case Int(i) => if i >= 0 then Denotes(s, 10, i) else s == [((i + 48) % 256) as char]
    case Hex(x) => Denotes(s, 16, x)
    case Str(t) => s == t
    case Chr(c) => s == [c]
  }

  /** The text consists of the format's ordinary characters, without percent signs, and a text
      that shows the next argument at each directive. */
  ghost predicate Follows(text: string, fmt: string, args: seq<Arg>)
    decreases |fmt|
  {
    if fmt == "" then text == ""
    else if fmt[0] != '%' then text != "" && text[0] == fmt[0] && Follows(text[1..], fmt[1..], args)
    else if |fmt| == 1 || fmt[1] !in "dixsc" then Follows(text, fmt[1..], args)
    else
      && args != [] && (fmt[1] in "di" <==> args[0].Int?) && (fmt[1] == 'x' <==> args[0].Hex?)
      && (fmt[1] == 's' <==> args[0].Str?) && (fmt[1] == 'c' <==> args[0].Chr?)
      && exists k: nat :: k <= |text| && Shows(text[..k], args[0]) && Follows(text[k..], fmt[2..], args[1..])
  }

  lemma DirectiveShows(arg: Arg)
    requires ArgOk(arg)
    ensures Shows(Directive(arg), arg)
  {
    match arg
    case Int(i) =>
      if i >= 0 {
        PrintParses(i, 10);
        if i < 10 { LowIsDigit(i); }
      }
    case Hex(x) => PrintParses(x, 16);
    case _ =>
  }

  /** What a format prints follows it. */
  lemma {:induction false} EmitFollows(fmt: string, args: seq<Arg>)
    requires ArgsOk(fmt, args)
    ensures Follows(Emit(fmt, args), fmt, args)
    decreases |fmt|
  {
    hide Shows, Directive, ArgOk;
    if fmt != "" {
      var text := Emit(fmt, args);
      if fmt[0] != '%' {
        EmitFollows(fmt[1..], args);
        assert text[1..] == Emit(fmt[1..], args);
      } else if |fmt| == 1 || !IsDirective(fmt[1]) {
        EmitFollows(fmt[1..], args);
      } else {
        EmitFollows(fmt[2..], args[1..]);
        DirectiveShows(args[0]);
        var k := |Directive(args[0])|;
        assert text[..k] == Directive(args[0]) && text[k..] == Emit(fmt[2..], args[1..]);
      }
    }
  }

  /** Characters were added that show the argument. */
  predicate AddsArg(before: string, after: string, arg: Arg) {
    before <= after && Shows(after[|before|..], arg)
  }

  /** Characters were added that follow the format. */
  ghost predicate AddsText(before: string, after: string, fmt: string, args: seq<Arg>) {
    before <= after && Follows(after[|before|..], fmt, args)
  }

  lemma ArgAdded(before: string, arg: Arg)
    requires ArgOk(arg)
    ensures AddsArg(before, before + Directive(arg), arg)
  {
    DirectiveShows(arg);
    assert (before + Directive(arg))[|before|..] == Directive(arg);
  }

  lemma TextAdded(before: string, fmt: string, args: seq<Arg>)
    requires ArgsOk(fmt, args)
    ensures AddsText(before, before + Emit(fmt, args), fmt, args)
  {
    EmitFollows(fmt, args);
    assert (before + Emit(fmt, args))[|before|..] == Emit(fmt, args);
  }

  // Steps of the loops.

  function Reverse(s: string): (r: string)
    ensures |r| == |s|
  {
    if s == "" then "" else [s[|s| - 1]] + Reverse(s[..|s| - 1])
  }

  lemma ReverseAppend(s: string, c: char)
    ensures Reverse(s + [c]) == [c] + Reverse(s)
  {
    assert (s + [c])[..|s|] == s;
  }

  function ReverseDigits(s: seq<nat>): (r: string)
    requires forall k | 0 <= k < |s| :: s[k] < 16
    ensures |r| == |s|
  {
    if s == [] then "" else [DigitChar(s[|s| - 1])] + ReverseDigits(s[..|s| - 1])
  }

  lemma ReverseDigitsAppend(s: seq<nat>, d: nat)
    requires d < 16 && forall k | 0 <= k < |s| :: s[k] < 16
    ensures forall k | 0 <= k < |s + [d]| :: (s + [d])[k] < 16
    ensures ReverseDigits(s + [d]) == [DigitChar(d)] + ReverseDigits(s)
  {
    assert (s + [d])[..|s|] == s;
  }

  lemma Regroup(a: string, c: char, b: string)
    ensures a + [c] + b == a + ([c] + b)
  {
  }

  lemma FirstDigit(n: int, i: int, stored: string)
    requires i < 10 && (n < 10 ==> i == n && stored == "")
    requires n >= 10 ==> i > 0 && Print(n, 10) == Print(i, 10) + Reverse(stored)
    ensures Directive(Int(n)) == [LowChar(i)] + Reverse(stored)
  {
    if n < 10 {
      assert [LowChar(i)] + Reverse(stored) == [LowChar(i)];
    } else {
      LowIsDigit(i);
      hide Print, LowChar, DigitChar, Reverse;
    }
  }

  lemma LowIsDigit(i: nat)
    requires i < 10
    ensures Print(i, 10) == [LowChar(i)]
  {
  }

  /** The first loop of %d: the lower digits of n go to chars, lowest first, and the first
      digit is left in i. A number below 10 stores nothing. */
  method DecimalDigits(n: int, chars: array<char>) returns (i: int, index: nat)
    requires ArgOk(Int(n)) && chars.Length == 40
    modifies chars
    ensures index < 10 && i < 10
    ensures Directive(Int(n)) == [LowChar(i)] + Reverse(chars[..index])
  {
    hide Print, Reverse, DigitChar, Directive, LowChar;
    i, index := n, 0;
    if n >= 10 { DigitsFit(n, 0); }
    while i >= 10
      invariant n < 10 ==> i == n && index == 0
      invariant n >= 10 ==> i > 0 && index < 10 && Print(n, 10) == Print(i, 10) + Reverse(chars[..index])
      decreases if i > 0 then i else 0
    {
      var last := i % 10;
      ghost var was := chars[..index];
      chars[index] := (last + 48) as char;
      assert chars[..index + 1] == was + [chars[index]];
      StoreDecimal(n, i, was);
      index := index + 1;
      i := i / 10;
    }
    FirstDigit(n, i, chars[..index]);
  }

  lemma StoreDecimal(n: int, i: int, stored: string)
    requires 10 <= i <= n < 0x8000_0000 && |Print(n, 10)| <= 10
    requires Print(n, 10) == Print(i, 10) + Reverse(stored)
    ensures i / 10 > 0 && |stored| + 1 < 10
    ensures Print(n, 10) == Print(i / 10, 10) + Reverse(stored + [(i % 10 + 48) as char])
  {
    ReverseAppend(stored, (i % 10 + 48) as char);
    assert Print(i, 10) == Print(i / 10, 10) + [DigitChar(i % 10)];
    Regroup(Print(i / 10, 10), DigitChar(i % 10), Reverse(stored));
  }

  /** The first loop of %x and the store after it: all digits of n, lowest first. */
  method HexDigits(n: nat, chars: array<nat>) returns (index: nat)
    requires ArgOk(Hex(n)) && chars.Length == 200
    modifies chars
    ensures index < 16 && forall k | 0 <= k <= index :: chars[k] < 16
    ensures Directive(Hex(n)) == ReverseDigits(chars[..index + 1])
  {
    hide Print, ReverseDigits, DigitChar;
    var i: nat := n;
    index := 0;
    DigitsFit(0, n);
    assert chars[..0] == [];
    NothingStored(n);
    while i >= 16
      invariant index < 16 && i <= n && forall k | 0 <= k < index :: chars[k] < 16
      invariant Print(n, 16) == Print(i, 16) + ReverseDigits(chars[..index])
      decreases i
    {
      var last := i % 16;
      ghost var was := chars[..index];
      chars[index] := last;
      assert chars[..index + 1] == was + [last];
      StoreHex(n, i, was);
      index := index + 1;
      i := i / 16;
    }
    ghost var was := chars[..index];
    chars[index] := i;
    assert chars[..index + 1] == was + [i];
    StoreLast(i, was);
  }

  lemma NothingStored(n: nat)
    ensures Print(n, 16) == Print(n, 16) + ReverseDigits([])
  {
  }

  lemma StoreHex(n: nat, i: nat, stored: seq<nat>)
    requires 16 <= i <= n && |Print(n, 16)| <= 16 && forall k | 0 <= k < |stored| :: stored[k] < 16
    requires Print(n, 16) == Print(i, 16) + ReverseDigits(stored)
    ensures |stored| + 1 < 16 && forall k | 0 <= k < |stored + [i % 16]| :: (stored + [i % 16])[k] < 16
    ensures Print(n, 16) == Print(i / 16, 16) + ReverseDigits(stored + [i % 16])
  {
    ReverseDigitsAppend(stored, i % 16);
    assert Print(i, 16) == Print(i / 16, 16) + [DigitChar(i % 16)];
    Regroup(Print(i / 16, 16), DigitChar(i % 16), ReverseDigits(stored));
  }

  lemma StoreLast(i: nat, stored: seq<nat>)
    requires i < 16 && forall k | 0 <= k < |stored| :: stored[k] < 16
    ensures forall k | 0 <= k < |stored + [i]| :: (stored + [i])[k] < 16
    ensures ReverseDigits(stored + [i]) == Print(i, 16) + ReverseDigits(stored)
  {
    ReverseDigitsAppend(stored, i);
  }

  /** One turn of the loop that prints the stored digits, last stored first. */
  lemma PrintStored(text: string, chars: seq<char>)
    requires chars != []
    ensures text + Reverse(chars) == text + [chars[|chars| - 1]] + Reverse(chars[..|chars| - 1])
  {
    Regroup(text, chars[|chars| - 1], Reverse(chars[..|chars| - 1]));
  }

  lemma PrintStoredHex(text: string, chars: seq<nat>)
    requires chars != [] && forall k | 0 <= k < |chars| :: chars[k] < 16
    ensures
      var last := chars[|chars| - 1];
      && (last + if last > 9 then 65 - 10 else 48) as char == DigitChar(last)
      && text + ReverseDigits(chars) == text + [DigitChar(last)] + ReverseDigits(chars[..|chars| - 1])
  {
    Regroup(text, DigitChar(chars[|chars| - 1]), ReverseDigits(chars[..|chars| - 1]));
  }

  lemma NoneLeft(text: string)
    ensures text + Reverse("") == text && text + ReverseDigits([]) == text
  {
  }

  lemma NothingToEmit(args: seq<Arg>)
    ensures Emit("", args) == ""
  {
  }

  lemma Verbatim(arg: Arg)
    ensures arg.Str? ==> Directive(arg) == arg.s
    ensures arg.Chr? ==> Directive(arg) == [arg.c]
  {
  }

  /** What a directive's argument is. */
  predicate Kind(c: char, arg: Arg) {
    match arg
    case Int(i) => c in "di" && -0x8000_0000 <= i < 0x8000_0000
    case Hex(x) => c == 'x' && x < 0x1_0000_0000_0000_0000
    case Str(s) => c == 's' && '\0' !in s
    case Chr(_) => c == 'c'
  }

  /** One turn of the format loop. */
  lemma EmitStep(fmt: string, args: seq<Arg>, at: nat, next: nat, text: string)
    requires at < |fmt| && next <= |args| && ArgsOk(fmt[at..], args[next..])
    ensures
      var rest := Emit(fmt[at..], args[next..]);
      if fmt[at] != '%' then
        ArgsOk(fmt[at + 1..], args[next..]) && text + rest == text + [fmt[at]] + Emit(fmt[at + 1..], args[next..])
      else if at + 1 == |fmt| || !IsDirective(fmt[at + 1]) then
        ArgsOk(fmt[at + 1..], args[next..]) && rest == Emit(fmt[at + 1..], args[next..])
      else
        && next < |args| && Kind(fmt[at + 1], args[next])
        && ArgsOk(fmt[at + 2..], args[next + 1..])
        && text + rest == text + Directive(args[next]) + Emit(fmt[at + 2..], args[next + 1..])
  {
    assert fmt[at..][1..] == fmt[at + 1..];
    if at + 1 < |fmt| {
      assert fmt[at..][2..] == fmt[at + 2..];
    }
    if next < |args| {
      assert args[next..][1..] == args[next + 1..];
    }
  }

  /** The kernel's printf: characters go to the console one by one. */
  class Console {
    var out: string

    constructor ()
      ensures out == ""
    {
      out := "";
    }

    method PutChar(c: char)
      modifies this
      ensures out == old(out) + [c]
    {
      out := out + [c];
    }

    method PrintDecimal(n: int)
      requires -0x8000_0000 <= n < 0x8000_0000
      modifies this
      ensures out == old(out) + Directive(Int(n))
      ensures AddsArg(old(out), out, Int(n))
    {
      hide Print, Reverse, DigitChar, Directive, LowChar, AddsArg;
      ArgAdded(out, Int(n));
      var chars := new char[40];
      ghost var before := out;
      var i, index: int := DecimalDigits(n, chars);
      ghost var all := chars[..index];
      PutChar(LowChar(i));
      assert before + Directive(Int(n)) == out + Reverse(all);
      index := index - 1;
      while index >= 0
        invariant -1 <= index < 10 && fresh(chars) && chars.Length == 40
        invariant before + Directive(Int(n)) == out + Reverse(chars[..index + 1])
        decreases index
      {
        PrintStored(out, chars[..index + 1]);
        assert chars[..index + 1][..index] == chars[..index];
        PutChar(chars[index]);
        index := index - 1;
      }
      assert chars[..0] == "";
      NoneLeft(out);
    }

    method PrintHex(n: nat)
      requires n < 0x1_0000_0000_0000_0000
      modifies this
      ensures out == old(out) + Directive(Hex(n))
      ensures AddsArg(old(out), out, Hex(n))
    {
      hide Print, ReverseDigits, DigitChar, Directive, AddsArg;
      ArgAdded(out, Hex(n));
      var chars := new nat[200];
      ghost var before := out;
      var index: int := HexDigits(n, chars);
      while index >= 0
        invariant -1 <= index < 16 && fresh(chars) && chars.Length == 200
        invariant forall k | 0 <= k < index + 1 :: chars[k] < 16
        invariant before + Directive(Hex(n)) == out + ReverseDigits(chars[..index + 1])
        decreases index
      {
        var offset := 48;
        if chars[index] > 9 {
          offset := 65 - 10;
        }
        PrintStoredHex(out, chars[..index + 1]);
        assert chars[..index + 1][..index] == chars[..index];
        PutChar((chars[index] + offset) as char);
        index := index - 1;
      }
      assert chars[..0] == [];
      NoneLeft(out);
    }

    method PrintString(s: string)
      modifies this
      ensures out == old(out) + s
    {
      var current := 0;
      ghost var before := out;
      while current < |s|
        invariant 0 <= current <= |s| && out == before + s[..current]
      {
        PutChar(s[current]);
        assert s[..current + 1] == s[..current] + [s[current]];
        current := current + 1;
      }
      assert s[..|s|] == s;
    }

    method Vprintf(fmt: string, args: seq<Arg>)
      requires ArgsOk(fmt, args)
      modifies this
      ensures out == old(out) + Emit(fmt, args)
      ensures AddsText(old(out), out, fmt, args)
    {
      TextAdded(out, fmt, args);
      hide AddsText, AddsArg, Print, Directive, DigitChar, Reverse, Emit, ArgsOk, Takes, ArgOk;
      var at := 0;
      var next := 0;
      ghost var before := out;
      assert fmt[0..] == fmt && args[0..] == args;
      while at < |fmt|
        invariant 0 <= at <= |fmt| && 0 <= next <= |args|
        invariant ArgsOk(fmt[at..], args[next..])
        invariant before + Emit(fmt, args) == out + Emit(fmt[at..], args[next..])
        decreases |fmt| - at
      {
        EmitStep(fmt, args, at, next, out);
        if fmt[at] == '%' {
          at := at + 1;
          if at < |fmt| && (fmt[at] == 'd' || fmt[at] == 'i') {
            PrintDecimal(args[next].i);
            next := next + 1;
            at := at + 1;
          } else if at < |fmt| && fmt[at] == 'x' {
            PrintHex(args[next].x);
            next := next + 1;
            at := at + 1;
          } else if at < |fmt| && fmt[at] == 's' {
            Verbatim(args[next]);
            PrintString(args[next].s);
            next := next + 1;
            at := at + 1;
          } else if at < |fmt| && fmt[at] == 'c' {
            Verbatim(args[next]);
            PutChar(args[next].c);
            next := next + 1;
            at := at + 1;
          }
        } else {
          PutChar(fmt[at]);
          at := at + 1;
        }
      }
      assert fmt[at..] == "";
      NothingToEmit(args[next..]);
    }
  }

  /** The C library's printf: characters go to a buffer of 200, which is written at the end. */
  class PrintBuffer {
    const buffer: array<char>
    var curr: nat

    constructor ()
      ensures fresh(buffer) && buffer.Length == 200 && curr == 0
    {
      buffer := new char[BUFFER];
      curr := 0;
    }

    ghost predicate Valid()
      reads this
    {
      buffer.Length == BUFFER && curr <= BUFFER
    }

    /** The characters printed so far. */
    ghost function Text(): (s: string)
      requires Valid()
      reads this, buffer
      ensures |s| == curr
    {
      buffer[..curr]
    }

    method Put(c: char)
      requires Valid() && curr < BUFFER
      modifies this`curr, buffer
      ensures Valid() && Text() == old(Text()) + [c]
    {
      buffer[curr] := c;
      curr := curr + 1;
    }

    method PrintDecimal(n: int)
      requires Valid() && -0x8000_0000 <= n < 0x8000_0000 && curr + |Directive(Int(n))| <= BUFFER
      modifies this`curr, buffer
      ensures Valid() && Text() == old(Text()) + Directive(Int(n))
      ensures AddsArg(old(Text()), Text(), Int(n))
    {
      hide Print, Reverse, DigitChar, Directive, LowChar, AddsArg;
      ArgAdded(Text(), Int(n));
      var chars := new char[40];
      ghost var before := Text();
      var i, index: int := DecimalDigits(n, chars);
      ghost var all := chars[..index];
      Put(LowChar(i));
      assert before + Directive(Int(n)) == Text() + Reverse(all);
      index := index - 1;
      while index >= 0
        invariant Valid() && -1 <= index < 10 && fresh(chars) && chars.Length == 40
        invariant before + Directive(Int(n)) == Text() + Reverse(chars[..index + 1])
        decreases index
      {
        PrintStored(Text(), chars[..index + 1]);
        assert chars[..index + 1][..index] == chars[..index];
        Put(chars[index]);
        index := index - 1;
      }
      assert chars[..0] == "";
      NoneLeft(Text());
    }

    method PrintHex(n: nat)
      requires Valid() && n < 0x1_0000_0000_0000_0000 && curr + |Directive(Hex(n))| <= BUFFER
      modifies this`curr, buffer
      ensures Valid() && Text() == old(Text()) + Directive(Hex(n))
      ensures AddsArg(old(Text()), Text(), Hex(n))
    {
      hide Print, ReverseDigits, DigitChar, Directive, AddsArg;
      ArgAdded(Text(), Hex(n));
      var chars := new nat[200];
      ghost var before := Text();
      var index: int := HexDigits(n, chars);
      while index >= 0
        invariant Valid() && -1 <= index < 16 && fresh(chars) && chars.Length == 200
        invariant forall k | 0 <= k < index + 1 :: chars[k] < 16
        invariant before + Directive(Hex(n)) == Text() + ReverseDigits(chars[..index + 1])
        decreases index
      {
        var offset := 48;
        if chars[index] > 9 {
          offset := 65 - 10;
        }
        PrintStoredHex(Text(), chars[..index + 1]);
        assert chars[..index + 1][..index] == chars[..index];
        Put((chars[index] + offset) as char);
        index := index - 1;
      }
      assert chars[..0] == [];
      NoneLeft(Text());
    }

    method PrintString(s: string)
      requires Valid() && curr + |s| <= BUFFER
      modifies this`curr, buffer
      ensures Valid() && Text() == old(Text()) + s
    {
      var current := 0;
      ghost var before := Text();
      while current < |s|
        invariant Valid() && 0 <= current <= |s| && Text() == before + s[..current]
      {
        Put(s[current]);
        assert s[..current + 1] == s[..current] + [s[current]];
        current := current + 1;
      }
      assert s[..|s|] == s;
    }

    method Vprintf(fmt: string, args: seq<Arg>)
      requires Valid() && ArgsOk(fmt, args) && curr + |Emit(fmt, args)| <= BUFFER
      modifies this`curr, buffer
      ensures Valid() && Text() == old(Text()) + Emit(fmt, args)
      ensures AddsText(old(Text()), Text(), fmt, args)
    {
      TextAdded(Text(), fmt, args);
      hide AddsText, AddsArg, Print, Directive, DigitChar, Reverse, Emit, ArgsOk, Takes, ArgOk;
      var at := 0;
      var next := 0;
      ghost var before := Text();
      assert fmt[0..] == fmt && args[0..] == args;
      while at < |fmt|
        invariant Valid() && 0 <= at <= |fmt| && 0 <= next <= |args|
        invariant ArgsOk(fmt[at..], args[next..])
        invariant before + Emit(fmt, args) == Text() + Emit(fmt[at..], args[next..])
        decreases |fmt| - at
      {
        EmitStep(fmt, args, at, next, Text());
        if fmt[at] == '%' {
          at := at + 1;
          if at < |fmt| && (fmt[at] == 'd' || fmt[at] == 'i') {
            PrintDecimal(args[next].i);
            next := next + 1;
            at := at + 1;
          } else if at < |fmt| && fmt[at] == 'x' {
            PrintHex(args[next].x);
            next := next + 1;
            at := at + 1;
          } else if at < |fmt| && fmt[at] == 's' {
            Verbatim(args[next]);
            PrintString(args[next].s);
            next := next + 1;
            at := at + 1;
          } else if at < |fmt| && fmt[at] == 'c' {
            Verbatim(args[next]);
            Put(args[next].c);
            next := next + 1;
            at := at + 1;
          }
        } else {
          Put(fmt[at]);
          at := at + 1;
        }
      }
      assert fmt[at..] == "";
      NothingToEmit(args[next..]);
    }
  }

  /** Both implementations print the same characters whenever they fit the buffer. */
  method PrintBoth(fmt: string, args: seq<Arg>) returns (kernel: string, library: string)
    requires ArgsOk(fmt, args) && |Emit(fmt, args)| <= 200
    ensures kernel == library == Emit(fmt, args) && Follows(kernel, fmt, args)
  {
    var c := new Console();
    c.Vprintf(fmt, args);
    var b := new PrintBuffer();
    b.Vprintf(fmt, args);
    kernel, library := c.out, b.buffer[..b.curr];
    EmitFollows(fmt, args);
  }
}
