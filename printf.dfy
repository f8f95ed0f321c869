/** The integer side of modm's `IOStream::printf`
  * (modm/src/modm/io/iostream_printf.cpp): the serialiser that builds the
  * digits of a number backwards in a 26-byte scratch buffer, and the
  * `vprintf` loop that parses `%[0][w][.f][l[l]]conv` conversion specs.
  *
  * The output device is the sequence of characters written so far.  The
  * variadic arguments are a sequence of tagged values, read one per
  * conversion that takes an argument.  The target is 32-bit ARM: `int` and
  * `long` have 32 bits, `long long` 64, and a pointer 4 bytes.
  */
module Printf {
  import opened Arithmetic
  import opened Optional

  /** A C string: its characters before the terminating NUL. */
  type CString = s: string | '\0' !in s

  /** The scratch buffer of `writeUnsignedInteger`, and one that holds the
    * 64 binary digits of any `unsigned long long`, a sign and the NUL. */
  const ScratchSize: int := 26
  const CorrectedScratchSize: int := 66
  const TwoTo31: int := 0x8000_0000
  const TwoTo32: int := 0x1_0000_0000
  const TwoTo63: int := 0x8000_0000_0000_0000
  const TwoTo64: int := 0x1_0000_0000_0000_0000

  // ---------------------------------------------------------------------
  // Digits
  // ---------------------------------------------------------------------

  /** The character for digit d: `'0' + d`, moved on past `'9'` to `'A'`. */
  function DigitChar(d: int): (c: char)
    requires 0 <= d < 16
    ensures c == "0123456789ABCDEF"[d]
  {
    var ch := '0' as int + d;
    if ch > '9' as int then (ch + ('A' as int - '9' as int - 1)) as char else ch as char
  }

  /** The value of a digit character, the inverse of DigitChar. */
  function DigitValue(c: char): int {
    if '0' <= c <= '9' then c as int - '0' as int
    else if 'A' <= c <= 'F' then c as int - 'A' as int + 10
    else 0
  }

  /** The digits of v in the given base, most significant first; 0 has the
    * single digit "0". */
  function Digits(v: nat, base: int): string
    requires 2 <= base <= 16
    decreases v
  {
    if v < base then [DigitChar(v)] else Digits(v / base, base) + [DigitChar(v % base)]
  }

  /** The digits still to be produced while v is left: none once it is 0. */
  function PendingDigits(v: nat, base: int): string
    requires 2 <= base <= 16
  {
    if v == 0 then [] else Digits(v, base)
  }

  /** The number a digit string denotes. */
  function ValueOf(s: string, base: int): int {
    if s == [] then 0 else base * ValueOf(s[..|s| - 1], base) + DigitValue(s[|s| - 1])
  }

  /** Reading the digits back gives the value: the serialiser loses nothing. */
  lemma {:induction false} DigitsRoundTrip(v: nat, base: int)
    requires 2 <= base <= 16
    ensures ValueOf(Digits(v, base), base) == v
    decreases v
  {
    if v >= base {
      var q, r := v / base, v % base;
      DivMod(v, base);
      QuotientBounds(v, base);
      DigitValueOfDigitChar(r);
      DigitsRoundTrip(q, base);
      ValueOfSnoc(Digits(q, base), DigitChar(r), base);
    } else {
      DigitValueOfDigitChar(v);
      ValueOfSnoc([], DigitChar(v), base);
    }
  }

  lemma ValueOfSnoc(s: string, c: char, base: int)
    ensures ValueOf(s + [c], base) == base * ValueOf(s, base) + DigitValue(c)
  {
    assert (s + [c])[..|s|] == s;
  }

  /** Only 0 starts with the digit '0'. */
  lemma {:induction false} NoLeadingZero(v: nat, base: int)
    requires 2 <= base <= 16
    ensures Digits(v, base)[0] == '0' <==> v == 0
    decreases v
  {
    if v >= base {
      QuotientBounds(v, base);
      NoLeadingZero(v / base, base);
    }
  }

  /** The digit string of a positive value: the digits of v / base, then
    * the digit of v % base; the loop peels digits off in that order. */
  lemma DigitsStep(v: nat, base: int)
    requires 2 <= base <= 16
    ensures Digits(v, base) == PendingDigits(v / base, base) + [DigitChar(v % base)]
  {
    QuotientBounds(v, base);
  }

  lemma DigitValueOfDigitChar(d: int)
    requires 0 <= d < 16
    ensures DigitValue(DigitChar(d)) == d
  {
  }

  function Max(a: int, b: int): int {
    if a < b then b else a
  }

  /** `n` copies of the fill character. */
  function Fill(fill: char, n: int): (s: string)
    ensures |s| == Max(n, 0) && forall i :: 0 <= i < |s| ==> s[i] == fill
  {
    if n <= 0 then [] else Fill(fill, n - 1) + [fill]
  }

  /** The sign and digits. */
  function SignedDigits(v: nat, base: int, isNegative: bool): string
    requires 2 <= base <= 16
  {
    (if isNegative then "-" else "") + Digits(v, base)
  }

  /** What `writeUnsignedInteger` writes: the fill characters first, then
    * the sign, then the digits, `width` characters at least. */
  function Padded(v: nat, base: int, width: int, fill: char, isNegative: bool): string
    requires 2 <= base <= 16
  {
    var body := SignedDigits(v, base, isNegative);
    Fill(fill, width - |body|) + body
  }

  /** Fill, sign, digits and terminator fit a scratch buffer of `size`. */
  predicate Fits(v: nat, base: int, width: int, isNegative: bool, size: int)
    requires 2 <= base <= 16
  {
    Max(width, |SignedDigits(v, base, isNegative)|) + 1 <= size
  }

  /** The padded text is `width` wide, or as wide as sign and digits if
    * those are wider; it ends with the digits, the sign comes right before
    * them, and everything before that is fill. */
  lemma PaddedLayout(v: nat, base: int, width: int, fill: char, isNegative: bool)
    requires 2 <= base <= 16
    ensures var p, d := Padded(v, base, width, fill, isNegative), Digits(v, base);
      var sign := if isNegative then 1 else 0;
      |p| == Max(width, |d| + sign) &&
      p[|p| - |d|..] == d &&
      (isNegative ==> p[|p| - |d| - 1] == '-') &&
      forall i :: 0 <= i < |p| - |d| - sign ==> p[i] == fill
  {
    var p, d := Padded(v, base, width, fill, isNegative), Digits(v, base);
    var body := SignedDigits(v, base, isNegative);
    assert p == Fill(fill, width - |body|) + body;
    assert body[|body| - |d|..] == d;
  }

  // ---------------------------------------------------------------------
  // The device
  // ---------------------------------------------------------------------

  class IOStream {
    /** Everything written to the device so far. */
    var output: string

    constructor ()
      ensures output == []
    {
      output := [];
    }

    /** `device->write(c)`. */
    method Write(c: char)
      modifies this
      ensures output == old(output) + [c]
    {
      output := output + [c];
    }

    /** `writeUnsignedInteger` and `writeUnsignedLongLong`, which share this
      * code: digits backwards from the end of the scratch buffer, then the
      * sign, then the fill, then everything from the last character put in
      * up to the terminator goes to the device. */
    method WriteUnsigned(value: nat, base: int, width: nat, fill: char, isNegative: bool, size: int)
      requires 2 <= base <= 16 && fill != '\0' && Fits(value, base, width, isNegative, size)
      modifies this
      ensures output == old(output) + Padded(value, base, width, fill, isNegative)
    {
      var scratch := new char[size];
      scratch[size - 1] := '\0';
      var ptr: int, w: nat := PutDigits(scratch, value, base, width);
      if isNegative {
        ptr := ptr - 1;
        scratch[ptr] := '-';
        if w > 0 {
          w := w - 1;
        }
      }
      ghost var body := SignedDigits(value, base, isNegative);
      assert scratch[ptr..scratch.Length - 1] == body;
      FillOfMax(fill, width - |body|);
      ptr := PutFill(scratch, ptr, w, fill, body);
      PaddedHasNoNul(value, base, width, fill, isNegative);
      assert scratch[ptr..scratch.Length - 1] == Padded(value, base, width, fill, isNegative);
      WriteUntilNul(scratch, ptr);
    }

    /** `vprintf` over a format string and its arguments. Where the source
      * reads on past the terminator (a spec cut short by the end of the
      * string) this loop stops instead; see Format. */
    method VPrintf(fmt: CString, args: seq<Arg>)
      requires Format(fmt, args).Text?
      modifies this
      ensures output == old(output) + Format(fmt, args).s
    {
      var i := 0;
      var rest := args;
      while i < |fmt|
        invariant 0 <= i <= |fmt|
        invariant FormatFrom(fmt, i, rest, CorrectedScratchSize, true).Text?
        invariant old(output) + Format(fmt, args).s == output + FormatFrom(fmt, i, rest, CorrectedScratchSize, true).s
        decreases |fmt| - i
      {
        if fmt[i] != '%' {
          Write(fmt[i]);
          i := i + 1;
          continue;
        }
        i, rest := WriteSpec(fmt, i, rest);
      }
    }

    /** One `%` spec at index i: parse it, fetch its argument if it takes
      * one, write the conversion. A spec that runs into the terminator
      * ends formatting: the next index is then the end of the string. */
    method WriteSpec(fmt: CString, i: nat, args: seq<Arg>) returns (next: nat, rest: seq<Arg>)
      requires i < |fmt| && fmt[i] == '%'
      requires FormatFrom(fmt, i, args, CorrectedScratchSize, true).Text?
      modifies this
      ensures i < next <= |fmt| && FormatFrom(fmt, next, rest, CorrectedScratchSize, true).Text?
      ensures output + FormatFrom(fmt, next, rest, CorrectedScratchSize, true).s
        == old(output) + FormatFrom(fmt, i, args, CorrectedScratchSize, true).s
    {
      var spec, complete := ReadSpec(fmt, i + 1);
      if !complete {
        return |fmt|, args;
      }
      SpecStep(fmt, i, args, CorrectedScratchSize, true);
      var arg: Option<Arg> := None;
      rest := args;
      if TakesArgument(spec.conv) && args != [] {
        arg := Some(args[0]);
        rest := args[1..];
      }
      WriteConversion(spec, arg);
      next := spec.next;
    }

    /** The `switch` on the conversion character. */
    method WriteConversion(spec: Spec, arg: Option<Arg>)
      requires spec.fill == '0' || spec.fill == ' '
      requires Convert(spec, arg, CorrectedScratchSize).Text?
      modifies this
      ensures output == old(output) + Convert(spec, arg, CorrectedScratchSize).s
    {
      if spec.conv == 'c' {
        Write((arg.value.v % 256) as char);
      } else if spec.conv == 's' {
        WriteString(arg.value.s);
      } else if spec.conv == 'f' {
        assert false;
      } else if IsIntegerConversion(spec.conv) {
        WriteNumber(spec, arg.value.v);
      } else {
        Write(spec.conv);
      }
    }

    /** `%s`: the characters of the string up to its terminator. */
    method WriteString(s: CString)
      modifies this
      ensures output == old(output) + s
    {
      var p := 0;
      while p < |s|
        invariant 0 <= p <= |s|
        invariant output == old(output) + s[..p]
      {
        Write(s[p]);
        p := p + 1;
      }
    }

    /** The integer conversions: `%p` first writes "0x" and switches to
      * zero-filled width 8 in hex; the argument is read as a 64-bit
      * `long long` after `ll` and as a 32-bit `int`/`long` otherwise, made
      * positive when the conversion is `%d` and negative, cast to unsigned
      * and handed to writeUnsignedInteger. */
    method WriteNumber(spec: Spec, value: int)
      requires IsIntegerConversion(spec.conv) && (spec.fill == '0' || spec.fill == ' ')
      requires Number(spec, value, CorrectedScratchSize).Text?
      modifies this
      ensures output == old(output) + Number(spec, value, CorrectedScratchSize).s
    {
      var fill, width, isLongLong := spec.fill, spec.width, spec.isLongLong;
      var base := 10;
      if spec.conv == 'p' {
        Write('0');
        Write('x');
        fill, width, isLongLong := '0', 8, false;
        base := 16;
      } else if spec.conv == 'x' {
        base := 16;
      } else if spec.conv == 'b' {
        base := 2;
      }
      var magnitude, isNegative := MakePositive(value, isLongLong, spec.conv == 'd');
      WriteUnsigned(magnitude, base, width, fill, isNegative, CorrectedScratchSize);
    }

    /** The output loop: every character from `ptr` up to the terminator. */
    method WriteUntilNul(scratch: array<char>, ptr: int)
      requires 0 <= ptr < scratch.Length && scratch[scratch.Length - 1] == '\0'
      requires '\0' !in scratch[ptr..scratch.Length - 1]
      modifies this
      ensures output == old(output) + scratch[ptr..scratch.Length - 1]
    {
      forall j | ptr <= j < scratch.Length - 1
        ensures scratch[j] != '\0'
      {
        assert scratch[j] == scratch[ptr..scratch.Length - 1][j - ptr];
      }
      var p := ptr;
      while scratch[p] != '\0'
        invariant ptr <= p <= scratch.Length - 1
        invariant output == old(output) + scratch[ptr..p]
        decreases scratch.Length - 1 - p
      {
        Write(scratch[p]);
        p := p + 1;
      }
    }
  }

  /** The digit loop: the digits of `value`, last one first, backwards from
    * the terminator at the end of the scratch buffer, counting the width
    * down by one per digit. */
  method PutDigits(scratch: array<char>, value: nat, base: int, width: nat) returns (ptr: int, w: nat)
    requires 2 <= base <= 16 && scratch.Length >= 1
    requires |Digits(value, base)| + 1 <= scratch.Length
    modifies scratch
    ensures ptr == scratch.Length - 1 - |Digits(value, base)|
    ensures scratch[ptr..scratch.Length - 1] == Digits(value, base)
    ensures scratch[scratch.Length - 1] == old(scratch[scratch.Length - 1])
    ensures w == Max(width - |Digits(value, base)|, 0)
  {
    ptr := scratch.Length - 1;
    var v: nat := value;
    w := width;
    ghost var digits := Digits(value, base);
    var started := false;
    while !started || v != 0
      invariant 0 <= ptr < scratch.Length && scratch[scratch.Length - 1] == old(scratch[scratch.Length - 1])
      invariant !started ==> v == value && ptr == scratch.Length - 1
      invariant started ==> digits == PendingDigits(v, base) + scratch[ptr..scratch.Length - 1]
      invariant started ==> |PendingDigits(v, base)| + (scratch.Length - 1 - ptr) == |digits|
      invariant w == Max(width - (scratch.Length - 1 - ptr), 0)
      decreases !started, v
    {
      DigitsStep(v, base);
      QuotientBounds(v, base);
      ptr := ptr - 1;
      scratch[ptr] := DigitChar(v % base);
      v := v / base;
      if w > 0 {
        w := w - 1;
      }
      started := true;
    }
  }

  /** The fill loop: `w` fill characters in front of `body`, which ends at
    * the terminator. */
  method PutFill(scratch: array<char>, ptr: int, w: nat, fill: char, ghost body: string) returns (start: int)
    requires scratch.Length >= 1 && ptr == scratch.Length - 1 - |body|
    requires w <= ptr && scratch[ptr..scratch.Length - 1] == body
    modifies scratch
    ensures start == ptr - w
    ensures scratch[start..scratch.Length - 1] == Fill(fill, w) + body
    ensures scratch[scratch.Length - 1] == old(scratch[scratch.Length - 1])
  {
    start := ptr;
    var left := w;
    while left > 0
      invariant 0 <= left <= w && start == ptr - (w - left)
      invariant scratch[ptr..] == old(scratch[ptr..])
      invariant forall j :: start <= j < ptr ==> scratch[j] == fill
    {
      left := left - 1;
      start := start - 1;
      scratch[start] := fill;
    }
    assert scratch[start..ptr] == Fill(fill, w);
    assert scratch[start..scratch.Length - 1] == scratch[start..ptr] + scratch[ptr..scratch.Length - 1];
    assert scratch[ptr..scratch.Length - 1] == old(scratch[ptr..])[..|body|];
  }

  lemma FillOfMax(fill: char, n: int)
    ensures Fill(fill, Max(n, 0)) == Fill(fill, n)
  {
  }

  /** No character of the padded text is the terminator. */
  lemma PaddedHasNoNul(v: nat, base: int, width: int, fill: char, isNegative: bool)
    requires 2 <= base <= 16 && fill != '\0'
    ensures '\0' !in Padded(v, base, width, fill, isNegative)
  {
    DigitsAreDigitChars(v, base);
  }

  lemma {:induction false} DigitsAreDigitChars(v: nat, base: int)
    requires 2 <= base <= 16
    ensures forall c :: c in Digits(v, base) ==> c in "0123456789ABCDEF"
    decreases v
  {
    if v >= base {
      QuotientBounds(v, base);
      DigitsAreDigitChars(v / base, base);
    }
  }

  // ---------------------------------------------------------------------
  // Format strings
  // ---------------------------------------------------------------------

  /** One variadic argument: an integer of one of the integer types, given
    * by its value, or a C string. */
  datatype Arg = Int(v: int) | Str(s: CString)

  /** What formatting writes, or why it has no defined output. */
  datatype Printed =
    | Text(s: string)
    | ReadPastEnd       // the parser read beyond the terminating NUL
    | ScratchOverflow   // the digits ran below the start of the scratch buffer
    | BadArgument       // a missing argument, or one of the wrong kind
    | FloatConversion   // `%f`, which this model leaves out

  /** One conversion spec as the parser gathered it; `next` is the index
    * just after the conversion character. */
  datatype Spec = Spec(fill: char, width: nat, isLong: bool, isLongLong: bool, conv: char, next: nat)

  /** The character at index i; the terminator sits at index |fmt|. */
  function At(fmt: CString, i: nat): char {
    if i < |fmt| then fmt[i] else '\0'
  }

  predicate IsDigit(c: char) {
    '0' <= c <= '9'
  }

  /** `[0][w][.p][l[l]]conv` from index i, just after the `%`: a `0` sets
    * the fill, one digit the width, a `.` skips itself and the character
    * after it, each of up to two `l`s widens the argument. */
  function ParseSpec(fmt: CString, i: nat): (spec: Spec)
    ensures i < spec.next <= i + 7 && spec.width <= 9
    ensures spec.fill == '0' || spec.fill == ' '
    ensures spec.conv == At(fmt, spec.next - 1)
  {
    var (fill, j) := if At(fmt, i) == '0' then ('0', i + 1) else (' ', i);
    var (width, k) := if IsDigit(At(fmt, j)) then (At(fmt, j) as int - '0' as int, j + 1) else (0, j);
    var m := if At(fmt, k) == '.' then k + 2 else k;
    var (isLong, n) := if At(fmt, m) == 'l' then (true, m + 1) else (false, m);
    var (isLongLong, p) := if At(fmt, n) == 'l' then (true, n + 1) else (false, n);
    Spec(fill, width, isLong, isLongLong, At(fmt, p), p + 1)
  }

  /** The conversions that take an argument. */
  predicate TakesArgument(conv: char) {
    conv == 'c' || conv == 's' || conv == 'f' || IsIntegerConversion(conv)
  }

  /** The conversions that print an integer. */
  predicate IsIntegerConversion(conv: char) {
    conv == 'd' || conv == 'u' || conv == 'x' || conv == 'p' || conv == 'b'
  }

  /** The low bits of v, `modulus` being 2^32 or 2^64, read as a signed
    * two's-complement number: what `va_arg` yields for an `int`, `long` or
    * `long long` argument holding v. */
  function AsSigned(v: int, modulus: int): (s: int)
    requires modulus == TwoTo32 || modulus == TwoTo64
    ensures -modulus / 2 <= s < modulus / 2 && s % modulus == v % modulus
  {
    var u := v % modulus;
    DivMod(v, modulus);
    if u >= modulus / 2 then
      DivModUnique(u - modulus, modulus, -1, u);
      u - modulus
    else
      DivModUnique(u, modulus, 0, u);
      u
  }

  function Modulus(wide: bool): int {
    if wide then TwoTo64 else TwoTo32
  }

  /** The bit pattern of v in 32 bits, or in 64 when `wide`. */
  function Pattern(v: int, wide: bool): int {
    if wide then v % TwoTo64 else v % TwoTo32
  }

  /** The integer conversions `%d %u %x %p %b`, as text. */
  function Number(spec: Spec, v: int, size: int): Printed
    requires IsIntegerConversion(spec.conv)
  {
    var pointer := spec.conv == 'p';
    var fill := if pointer then '0' else spec.fill;
    var width := if pointer then 8 else spec.width;
    var wide := spec.isLongLong && !pointer;
    var base := if spec.conv == 'x' || pointer then 16 else if spec.conv == 'b' then 2 else 10;
    var isNegative := spec.conv == 'd' && Pattern(v, wide) >= Modulus(wide) / 2;
    var magnitude := if isNegative then Modulus(wide) - Pattern(v, wide) else Pattern(v, wide);
    if Fits(magnitude, base, width, isNegative, size) then
      Text((if pointer then "0x" else "") + Padded(magnitude, base, width, fill, isNegative))
    else
      ScratchOverflow
  }

  /** One conversion: `%c` writes the argument's low byte, `%s` the
    * string, the integer conversions their digits, and any other
    * character is written as it is. */
  function Convert(spec: Spec, arg: Option<Arg>, size: int): Printed {
    if spec.conv == 'c' then
      if arg.Some? && arg.value.Int? then Text([(arg.value.v % 256) as char]) else BadArgument
    else if spec.conv == 's' then
      if arg.Some? && arg.value.Str? then Text(arg.value.s) else BadArgument
    else if spec.conv == 'f' then
      FloatConversion
    else if IsIntegerConversion(spec.conv) then
      if arg.Some? && arg.value.Int? then Number(spec, arg.value.v, size) else BadArgument
    else
      Text([spec.conv])
  }

  /** Text s written before whatever comes next. */
  function Then(s: string, p: Printed): Printed {
    if p.Text? then Text(s + p.s) else p
  }

  /** Formatting from index i of the format string with the arguments not
    * yet used, for a scratch buffer of `size`. A spec cut short by the
    * terminator reads past it as written; with `stopAtNul` formatting ends
    * there instead. */
  function FormatFrom(fmt: CString, i: nat, args: seq<Arg>, size: int, stopAtNul: bool): Printed
    requires i <= |fmt|
    decreases |fmt| - i
  {
    if i == |fmt| then Text([])
    else if fmt[i] != '%' then Then([fmt[i]], FormatFrom(fmt, i + 1, args, size, stopAtNul))
    else
      var spec := ParseSpec(fmt, i + 1);
      if spec.next > |fmt| then
        if stopAtNul then Text([]) else ReadPastEnd
      else
        var used := TakesArgument(spec.conv) && args != [];
        var arg := if used then Some(args[0]) else None;
        var piece := Convert(spec, arg, size);
        if piece.Text? then
          Then(piece.s, FormatFrom(fmt, spec.next, if used then args[1..] else args, size, stopAtNul))
        else
          piece
  }

  /** FormatFrom at a complete `%` spec. */
  lemma SpecStep(fmt: CString, i: nat, args: seq<Arg>, size: int, stopAtNul: bool)
    requires i < |fmt| && fmt[i] == '%' && ParseSpec(fmt, i + 1).next <= |fmt|
    ensures var spec := ParseSpec(fmt, i + 1);
      var used := TakesArgument(spec.conv) && args != [];
      var piece := Convert(spec, if used then Some(args[0]) else None, size);
      var after := FormatFrom(fmt, spec.next, if used then args[1..] else args, size, stopAtNul);
      FormatFrom(fmt, i, args, size, stopAtNul) == if piece.Text? then Then(piece.s, after) else piece
  {
  }

  /** `vprintf` as written: a 26-character scratch buffer, and a spec cut
    * short by the terminator reads past it. */
  function FormatAsWritten(fmt: CString, args: seq<Arg>): Printed {
    FormatFrom(fmt, 0, args, ScratchSize, false)
  }

  /** `vprintf` corrected: a scratch buffer that holds any 64-bit number,
    * and formatting ends at the terminator. */
  function Format(fmt: CString, args: seq<Arg>): Printed {
    FormatFrom(fmt, 0, args, CorrectedScratchSize, true)
  }

  /** The argument read as a signed `int`/`long`, or `long long` when
    * `wide`, negated when signed and negative, and cast to unsigned. */
  method MakePositive(value: int, wide: bool, isSigned: bool) returns (magnitude: nat, isNegative: bool)
    ensures isNegative == (isSigned && Pattern(value, wide) >= Modulus(wide) / 2)
    ensures magnitude == if isNegative then Modulus(wide) - Pattern(value, wide) else Pattern(value, wide)
  {
    var modulus := if wide then TwoTo64 else TwoTo32;
    var signedValue := AsSigned(value, modulus);
    isNegative := false;
    if isSigned && signedValue < 0 {
      isNegative := true;
      signedValue := -signedValue;
    }
    magnitude := if wide then signedValue % TwoTo64 else signedValue % TwoTo32;
  }

  /** The parse the `vprintf` loop does, one character at a time, stopping
    * as soon as it has read the terminator. */
  method ReadSpec(fmt: CString, start: nat) returns (spec: Spec, complete: bool)
    requires start <= |fmt|
    ensures complete <==> ParseSpec(fmt, start).next <= |fmt|
    ensures complete ==> spec == ParseSpec(fmt, start)
  {
    var j := start;
    var c := At(fmt, j);
    var fill := ' ';
    if c == '0' {
      fill := c;
      j := j + 1;
      c := At(fmt, j);
    }
    var width := 0;
    if IsDigit(c) {
      width := c as int - '0' as int;
      j := j + 1;
      c := At(fmt, j);
    }
    if c == '.' {
      j := j + 1;
      c := At(fmt, j);
      if c == '\0' {
        return Spec(fill, width, false, false, c, j + 1), false;
      }
      j := j + 1;
      c := At(fmt, j);
    }
    var isLong := false;
    if c == 'l' {
      isLong := true;
      j := j + 1;
      c := At(fmt, j);
    }
    var isLongLong := false;
    if c == 'l' {
      isLongLong := true;
      j := j + 1;
      c := At(fmt, j);
    }
    spec := Spec(fill, width, isLong, isLongLong, c, j + 1);
    complete := c != '\0';
  }

  // ---------------------------------------------------------------------
  // How many digits
  // ---------------------------------------------------------------------

  function Power(b: nat, k: nat): nat {
    if k == 0 then 1 else b * Power(b, k - 1)
  }

  lemma {:induction false} PowerAdd(b: nat, m: nat, n: nat)
    ensures Power(b, m + n) == Power(b, m) * Power(b, n)
    decreases m
  {
    if m > 0 {
      PowerAdd(b, m - 1, n);
      assert Power(b, m + n) == b * (Power(b, m - 1) * Power(b, n));
    }
  }

  lemma PowersOfTwo()
    ensures Power(2, 25) == 0x200_0000 && Power(2, 32) == TwoTo32 && Power(2, 64) == TwoTo64
    ensures Power(16, 8) == TwoTo32
  {
    PowerAdd(2, 8, 8);
    PowerAdd(2, 16, 8);
    PowerAdd(2, 24, 1);
    PowerAdd(2, 16, 16);
    PowerAdd(2, 32, 32);
  }

  /** A value below b^k, for 2 <= b <= base, has at most k digits. */
  lemma {:induction false} DigitsFit(v: nat, base: int, b: nat, k: nat)
    requires 2 <= b <= base <= 16 && 1 <= k && v < Power(b, k)
    ensures |Digits(v, base)| <= k
    decreases k
  {
    if v >= base {
      var q, P := v / base, Power(b, k - 1);
      DivMod(v, base);
      QuotientBounds(v, base);
      assert Power(b, 1) == b;
      MulMonotone(q, b, base);
      if q >= P {
        MulMonotone(b, P, q);
      }
      DigitsFit(q, base, b, k - 1);
    }
  }

  /** A value of at least base^k has more than k digits. */
  lemma {:induction false} DigitsAtLeast(v: nat, base: int, k: nat)
    requires 2 <= base <= 16 && v >= Power(base, k)
    ensures |Digits(v, base)| >= k + 1
    decreases k
  {
    if k > 0 {
      var q, P := v / base, Power(base, k - 1);
      PowerPositive(base, k - 1);
      MulMonotone(base, 1, P);
      DivMod(v, base);
      QuotientBounds(v, base);
      if q < P {
        MulMonotone(base, q, P - 1);
      }
      DigitsAtLeast(q, base, k - 1);
    }
  }

  lemma {:induction false} PowerPositive(b: nat, k: nat)
    requires b >= 1
    ensures Power(b, k) >= 1
    decreases k
  {
    if k > 0 {
      PowerPositive(b, k - 1);
      MulMonotone(b, 1, Power(b, k - 1));
    }
  }

  // ---------------------------------------------------------------------
  // Properties of formatting
  // ---------------------------------------------------------------------

  /** With the corrected buffer every integer conversion fits. */
  lemma NumberFits(spec: Spec, v: int)
    requires IsIntegerConversion(spec.conv) && spec.width <= 9
    ensures Number(spec, v, CorrectedScratchSize).Text?
  {
    var wide := spec.isLongLong && spec.conv != 'p';
    var base := if spec.conv == 'x' || spec.conv == 'p' then 16 else if spec.conv == 'b' then 2 else 10;
    var isNegative := spec.conv == 'd' && Pattern(v, wide) >= Modulus(wide) / 2;
    var magnitude := if isNegative then Modulus(wide) - Pattern(v, wide) else Pattern(v, wide);
    assert 0 <= magnitude < TwoTo64;
    SixtyFourBits(magnitude, base);
  }

  /** Any 64-bit value has at most 64 digits. */
  lemma SixtyFourBits(m: nat, base: int)
    requires 2 <= base <= 16 && m < TwoTo64
    ensures |Digits(m, base)| <= 64
  {
    PowersOfTwo();
    DigitsFit(m, base, 2, 64);
  }

  lemma {:induction false} StaysInBoundsFrom(fmt: CString, i: nat, args: seq<Arg>)
    requires i <= |fmt|
    ensures var r := FormatFrom(fmt, i, args, CorrectedScratchSize, true);
      !r.ReadPastEnd? && !r.ScratchOverflow?
    decreases |fmt| - i
  {
    if i < |fmt| {
      if fmt[i] != '%' {
        StaysInBoundsFrom(fmt, i + 1, args);
      } else {
        var spec := ParseSpec(fmt, i + 1);
        if spec.next <= |fmt| {
          var used := TakesArgument(spec.conv) && args != [];
          if IsIntegerConversion(spec.conv) && used && args[0].Int? {
            NumberFits(spec, args[0].v);
          }
          StaysInBoundsFrom(fmt, spec.next, if used then args[1..] else args);
        }
      }
    }
  }

  /** The corrected formatter never reads past the terminator and never
    * overruns its buffer: it fails only on a bad argument or a `%f`. */
  lemma FormatStaysInBounds(fmt: CString, args: seq<Arg>)
    ensures !Format(fmt, args).ReadPastEnd? && !Format(fmt, args).ScratchOverflow?
  {
    StaysInBoundsFrom(fmt, 0, args);
  }

  lemma {:induction false} AgreesFrom(fmt: CString, i: nat, args: seq<Arg>)
    requires i <= |fmt|
    ensures var w, c := FormatFrom(fmt, i, args, ScratchSize, false), FormatFrom(fmt, i, args, CorrectedScratchSize, true);
      w == c || w.ReadPastEnd? || w.ScratchOverflow?
    decreases |fmt| - i
  {
    if i < |fmt| {
      if fmt[i] != '%' {
        AgreesFrom(fmt, i + 1, args);
      } else {
        var spec := ParseSpec(fmt, i + 1);
        if spec.next <= |fmt| {
          var used := TakesArgument(spec.conv) && args != [];
          AgreesFrom(fmt, spec.next, if used then args[1..] else args);
        }
      }
    }
  }

  /** The source as written and the corrected formatter write the same,
    * unless the source reads past the terminator or overruns its buffer. */
  lemma AsWrittenAgreesUnlessUndefined(fmt: CString, args: seq<Arg>)
    ensures var w := FormatAsWritten(fmt, args);
      w == Format(fmt, args) || w.ReadPastEnd? || w.ScratchOverflow?
  {
    AgreesFrom(fmt, 0, args);
  }

  lemma {:induction false} CopiedFrom(fmt: CString, i: nat, args: seq<Arg>)
    requires i <= |fmt| && '%' !in fmt
    ensures FormatFrom(fmt, i, args, CorrectedScratchSize, true) == Text(fmt[i..])
    decreases |fmt| - i
  {
    if i < |fmt| {
      CopiedFrom(fmt, i + 1, args);
      assert fmt[i..] == [fmt[i]] + fmt[i + 1..];
    }
  }

  /** Without a `%` the format string is written as it is, and no argument
    * is looked at. */
  lemma LiteralTextIsCopied(fmt: CString, args: seq<Arg>)
    requires '%' !in fmt
    ensures Format(fmt, args) == Text(fmt)
  {
    CopiedFrom(fmt, 0, args);
  }

  /** A decimal number read back, with an optional leading minus. */
  function ReadDecimal(s: string): int {
    if |s| > 0 && s[0] == '-' then -ValueOf(s[1..], 10) else ValueOf(s, 10)
  }

  /** `%d` (32 bits) and `%lld` (64 bits) print every value of their type
    * so that reading the text back gives the value. */
  lemma DecimalRoundTrip(v: int, wide: bool)
    requires -Modulus(wide) / 2 <= v < Modulus(wide) / 2
    ensures var t := Format(if wide then "%lld" else "%d", [Int(v)]);
      t.Text? && ReadDecimal(t.s) == v
  {
    var magnitude := if v < 0 then -v else v;
    DecimalText(v, wide);
    ReadSignedDigits(magnitude, v < 0);
  }

  /** What `%d` or `%lld` writes: a minus for a negative value, then the
    * digits of its magnitude. */
  lemma DecimalText(v: int, wide: bool)
    requires -Modulus(wide) / 2 <= v < Modulus(wide) / 2
    ensures Format(if wide then "%lld" else "%d", [Int(v)]) == Text(SignedDigits(if v < 0 then -v else v, 10, v < 0))
  {
    var fmt: CString := if wide then "%lld" else "%d";
    var spec := Spec(' ', 0, wide, wide, 'd', |fmt|);
    assert ParseSpec(fmt, 1) == spec;
    SignedNumber(spec, v);
    var body := SignedDigits(if v < 0 then -v else v, 10, v < 0);
    assert Padded(if v < 0 then -v else v, 10, 0, ' ', v < 0) == [] + body;
    OneConversion(fmt, Int(v), CorrectedScratchSize, true);
  }

  /** `%d`: the sign and digits of the value, padded to the width. */
  lemma SignedNumber(spec: Spec, v: int)
    requires spec.conv == 'd' && spec.width <= 9
    requires -Modulus(spec.isLongLong) / 2 <= v < Modulus(spec.isLongLong) / 2
    ensures Number(spec, v, CorrectedScratchSize)
      == Text(Padded(if v < 0 then -v else v, 10, spec.width, spec.fill, v < 0))
  {
    var modulus := Modulus(spec.isLongLong);
    if v < 0 {
      DivModUnique(v, modulus, -1, v + modulus);
    } else {
      DivModUnique(v, modulus, 0, v);
    }
    NumberFits(spec, v);
  }

  lemma ReadSignedDigits(m: nat, isNegative: bool)
    ensures ReadDecimal(SignedDigits(m, 10, isNegative)) == if isNegative then -(m as int) else m as int
  {
    var text := SignedDigits(m, 10, isNegative);
    DigitsRoundTrip(m, 10);
    if isNegative {
      assert text[1..] == Digits(m, 10);
    } else {
      NoMinusInDigits(m, 10);
      assert text == Digits(m, 10);
    }
  }

  lemma NoMinusInDigits(v: nat, base: int)
    requires 2 <= base <= 16
    ensures |Digits(v, base)| > 0 && Digits(v, base)[0] != '-'
  {
    DigitsAreDigitChars(v, base);
    assert Digits(v, base)[0] in Digits(v, base);
  }

  /** A format string that is one conversion taking an argument formats
    * as that conversion. */
  lemma OneConversion(fmt: CString, arg: Arg, size: int, stopAtNul: bool)
    requires 2 <= |fmt| && fmt[0] == '%'
    requires ParseSpec(fmt, 1).next == |fmt| && TakesArgument(ParseSpec(fmt, 1).conv)
    ensures FormatFrom(fmt, 0, [arg], size, stopAtNul) == Convert(ParseSpec(fmt, 1), Some(arg), size)
  {
    var piece := Convert(ParseSpec(fmt, 1), Some(arg), size);
    assert [arg][1..] == [];
    if piece.Text? {
      assert piece.s + [] == piece.s;
    }
  }

  /** The text of a spec: an optional `0`, an optional width digit, up to
    * two `l`s and the conversion character. */
  function SpecText(zeroFill: bool, width: nat, longs: nat, conv: char): string
    requires width <= 9 && longs <= 2
  {
    (if zeroFill then "0" else "")
      + (if width > 0 then [('0' as int + width) as char] else "")
      + (if longs == 2 then "ll" else if longs == 1 then "l" else "")
      + [conv]
  }

  /** The parser reads back what SpecText wrote, and stops right after the
    * conversion character whatever follows it. */
  lemma ParseSpecText(zeroFill: bool, width: nat, longs: nat, conv: char, rest: CString)
    requires width <= 9 && longs <= 2
    requires conv != '\0' && conv != 'l' && conv != '.' && !IsDigit(conv)
    ensures var t := SpecText(zeroFill, width, longs, conv);
      '\0' !in t &&
      ParseSpec(t + rest, 0) == Spec(if zeroFill then '0' else ' ', width, longs >= 1, longs == 2, conv, |t|)
  {
    var t := SpecText(zeroFill, width, longs, conv);
    var fmt := t + rest;
    var z := if zeroFill then 1 else 0;
    var d := if width > 0 then 1 else 0;
    assert zeroFill ==> fmt[0] == '0';
    assert width > 0 ==> fmt[z] == ('0' as int + width) as char;
    assert forall j :: z + d <= j < z + d + longs ==> fmt[j] == 'l';
    assert fmt[z + d + longs] == conv;
  }

  /** With fill `0` the padding goes before the sign. */
  lemma ZeroFillGoesBeforeSign()
    ensures Format("%05d", [Int(-42)]) == Text("00-42")
  {
    ZeroFilledNegative("%05d", -42);
    assert Digits(42, 10) == "42";
    assert Fill('0', 2) == "00";
  }

  /** `%05d` of a negative `int`: zeros up to the width, then the minus,
    * then the digits. */
  lemma ZeroFilledNegative(fmt: CString, v: int)
    requires |fmt| == 4 && fmt[0] == '%' && fmt[1] == '0' && fmt[2] == '5' && fmt[3] == 'd'
    requires -TwoTo31 <= v < 0
    ensures var d := Digits(-v, 10);
      Format(fmt, [Int(v)]) == Text(Fill('0', 4 - |d|) + "-" + d)
  {
    var spec := Spec('0', 5, false, false, 'd', 4);
    assert ParseSpec(fmt, 1) == spec;
    SignedNumber(spec, v);
    NegativePadded(-v, 10, 5, '0');
    assert Convert(spec, Some(Int(v)), CorrectedScratchSize) == Number(spec, v, CorrectedScratchSize);
    OneConversion(fmt, Int(v), CorrectedScratchSize, true);
  }

  /** The width is a single digit: in "%10d" the `0` is the conversion
    * character, written as it is, and the `d` is plain text. */
  lemma WidthIsOneDigit()
    ensures Format("%10d", [Int(5)]) == Text("0d")
  {
    assert ParseSpec("%10d", 1) == Spec(' ', 1, false, false, '0', 3);
  }

  /** "%%" writes one `%`. */
  lemma PercentPercent()
    ensures Format("100%%", []) == Text("100%")
  {
    assert ParseSpec("100%%", 4) == Spec(' ', 0, false, false, '%', 5);
  }

  /** `%u` prints a negative `int` as its 32-bit pattern, the value plus
    * 2^32. */
  lemma NegativeAsUnsigned(v: int)
    requires -TwoTo31 <= v < 0
    ensures Format("%u", [Int(v)]) == Text(Digits(v + TwoTo32, 10))
  {
    UnsignedText("%u", v);
  }

  lemma UnsignedText(fmt: CString, v: int)
    requires |fmt| == 2 && fmt[0] == '%' && fmt[1] == 'u' && -TwoTo31 <= v < 0
    ensures Format(fmt, [Int(v)]) == Text(Digits(v + TwoTo32, 10))
  {
    var spec := Spec(' ', 0, false, false, 'u', 2);
    assert ParseSpec(fmt, 1) == spec;
    UnsignedNumber(spec, v);
    DivModUnique(v, TwoTo32, -1, v + TwoTo32);
    OneConversion(fmt, Int(v), CorrectedScratchSize, true);
  }

  /** `%u` and `%x` with no width: the digits of the 32-bit pattern. */
  lemma UnsignedNumber(spec: Spec, v: int)
    requires (spec.conv == 'u' || spec.conv == 'x') && spec.width == 0 && !spec.isLongLong
    ensures Number(spec, v, CorrectedScratchSize) == Text(Digits(v % TwoTo32, if spec.conv == 'x' then 16 else 10))
  {
    NumberFits(spec, v);
  }

  /** `%c` writes the low byte of its `int` argument. */
  lemma CharIsLowByte()
    ensures Format("%c", [Int(0x141)]) == Text("A")
  {
    assert ParseSpec("%c", 1) == Spec(' ', 0, false, false, 'c', 2);
    OneConversion("%c", Int(0x141), CorrectedScratchSize, true);
  }

  /** `%p` writes "0x" and exactly eight hex digits, zero-filled, which
    * read back as the 32-bit pattern of the pointer. */
  lemma PointerText(v: int)
    ensures var t := Format("%p", [Int(v)]);
      t.Text? && |t.s| == 10 && t.s[..2] == "0x" && ValueOf(t.s[2..], 16) == v % TwoTo32
  {
    PointerTextOf("%p", v);
  }

  lemma PointerTextOf(fmt: CString, v: int)
    requires |fmt| == 2 && fmt[0] == '%' && fmt[1] == 'p'
    ensures var t := Format(fmt, [Int(v)]);
      t.Text? && |t.s| == 10 && t.s[..2] == "0x" && ValueOf(t.s[2..], 16) == v % TwoTo32
  {
    var spec := Spec(' ', 0, false, false, 'p', 2);
    assert ParseSpec(fmt, 1) == spec;
    var m := v % TwoTo32;
    var d := Digits(m, 16);
    var text := "0x" + (Fill('0', 8 - |d|) + d);
    PointerNumber(spec, v);
    assert Convert(spec, Some(Int(v)), CorrectedScratchSize) == Text(text);
    OneConversion(fmt, Int(v), CorrectedScratchSize, true);
    assert Format(fmt, [Int(v)]) == Text(text);
    LeadingZeros(8 - |d|, d, 16);
    DigitsRoundTrip(m, 16);
    assert text[2..] == Fill('0', 8 - |d|) + d;
  }

  /** `%p`: "0x", then the hex digits of the 32-bit pattern, zero-filled
    * to eight. */
  lemma PointerNumber(spec: Spec, v: int)
    requires spec.conv == 'p'
    ensures var d := Digits(v % TwoTo32, 16);
      |d| <= 8 && Number(spec, v, CorrectedScratchSize) == Text("0x" + (Fill('0', 8 - |d|) + d))
  {
    var m := v % TwoTo32;
    EightHexDigits(m);
    PointerIsPadded(spec, v);
    UnsignedPadded(m, 16, 8, '0');
  }

  lemma PointerIsPadded(spec: Spec, v: int)
    requires spec.conv == 'p' && |Digits(v % TwoTo32, 16)| <= 8
    ensures Number(spec, v, CorrectedScratchSize) == Text("0x" + Padded(v % TwoTo32, 16, 8, '0', false))
  {
    assert Fits(v % TwoTo32, 16, 8, false, CorrectedScratchSize);
  }

  /** With a sign the padded text is fill, then the minus, then digits. */
  lemma NegativePadded(m: nat, base: int, width: int, fill: char)
    requires 2 <= base <= 16
    ensures var d := Digits(m, base);
      Padded(m, base, width, fill, true) == Fill(fill, width - 1 - |d|) + "-" + d
  {
  }

  /** Without a sign the padded text is fill, then digits. */
  lemma UnsignedPadded(m: nat, base: int, width: int, fill: char)
    requires 2 <= base <= 16
    ensures Padded(m, base, width, fill, false) == Fill(fill, width - |Digits(m, base)|) + Digits(m, base)
  {
    assert SignedDigits(m, base, false) == Digits(m, base);
  }

  /** A 32-bit value has at most eight hex digits. */
  lemma EightHexDigits(m: nat)
    requires m < TwoTo32
    ensures |Digits(m, 16)| <= 8
  {
    PowersOfTwo();
    DigitsFit(m, 16, 16, 8);
  }

  /** Zeros in front do not change the value. */
  lemma {:induction false} LeadingZeros(n: int, s: string, base: int)
    ensures ValueOf(Fill('0', n) + s, base) == ValueOf(s, base)
    decreases |s|
  {
    if s == [] {
      ZerosAreZero(n, base);
      assert Fill('0', n) + s == Fill('0', n);
    } else {
      var z := Fill('0', n);
      var init := s[..|s| - 1];
      LeadingZeros(n, init, base);
      assert (z + s)[..|z + s| - 1] == z + init;
    }
  }

  lemma {:induction false} ZerosAreZero(n: int, base: int)
    ensures ValueOf(Fill('0', n), base) == 0
    decreases n
  {
    if n > 0 {
      ZerosAreZero(n - 1, base);
      assert Fill('0', n)[..n - 1] == Fill('0', n - 1);
    }
  }

  // ---------------------------------------------------------------------
  // Where the source goes wrong
  // ---------------------------------------------------------------------

  /** A format string ending in a lone `%`: the source writes the
    * terminator as a character and then reads on past it; the corrected
    * formatter writes the text before the `%` and stops. */
  lemma TrailingPercentReadsPastEnd(text: CString, args: seq<Arg>)
    requires '%' !in text
    ensures FormatAsWritten(text + "%", args) == ReadPastEnd
    ensures Format(text + "%", args) == Text(text)
  {
    TrailingPercentFrom(text, 0, args, ScratchSize, false);
    TrailingPercentFrom(text, 0, args, CorrectedScratchSize, true);
  }

  lemma {:induction false} TrailingPercentFrom(text: CString, i: nat, args: seq<Arg>, size: int, stopAtNul: bool)
    requires '%' !in text && i <= |text|
    ensures FormatFrom(text + "%", i, args, size, stopAtNul) == if stopAtNul then Text(text[i..]) else ReadPastEnd
    decreases |text| - i
  {
    var fmt: CString := text + "%";
    if i < |text| {
      assert fmt[i] == text[i];
      TrailingPercentFrom(text, i + 1, args, size, stopAtNul);
      assert text[i..] == [text[i]] + text[i + 1..];
    } else {
      assert fmt[i] == '%';
      assert ParseSpec(fmt, i + 1).next == |fmt| + 1;
    }
  }

  /** `%b` of a value of 2^25 or more: its 26 or more binary digits and the
    * terminator do not fit the 26-character scratch buffer, so the digit
    * loop writes below its start; with room for 64 digits the value is
    * printed in full. */
  lemma BinaryOverflowsScratch(v: int)
    requires 0x200_0000 <= v < TwoTo32
    ensures FormatAsWritten("%b", [Int(v)]) == ScratchOverflow
    ensures Format("%b", [Int(v)]) == Text(Digits(v, 2))
  {
    BinaryOf("%b", v);
  }

  lemma BinaryOf(fmt: CString, v: int)
    requires |fmt| == 2 && fmt[0] == '%' && fmt[1] == 'b' && 0x200_0000 <= v < TwoTo32
    ensures FormatFrom(fmt, 0, [Int(v)], ScratchSize, false) == ScratchOverflow
    ensures FormatFrom(fmt, 0, [Int(v)], CorrectedScratchSize, true) == Text(Digits(v, 2))
  {
    var spec := Spec(' ', 0, false, false, 'b', 2);
    assert ParseSpec(fmt, 1) == spec;
    DivModUnique(v, TwoTo32, 0, v);
    PowersOfTwo();
    DigitsAtLeast(v, 2, 25);
    NumberFits(spec, v);
    OneConversion(fmt, Int(v), ScratchSize, false);
    OneConversion(fmt, Int(v), CorrectedScratchSize, true);
  }
}
