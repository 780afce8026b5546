/** `kwritef` of src/scrn.c: the formatted writer, its column padding, and the `trace` prefix. */
module Format {
  import opened Types
  import opened Console
  import opened Numerals
  import opened Printers

  const PERCENT: u8 := 0x25
  const BAR: u8 := 0x7C
  const COLON: u8 := 0x3A

  const LOWER_B: u8 := 0x62
  const LOWER_D: u8 := 0x64
  const LOWER_F: u8 := 0x66
  const LOWER_P: u8 := 0x70
  const LOWER_Q: u8 := 0x71
  const LOWER_S: u8 := 0x73
  const LOWER_U: u8 := 0x75
  const LOWER_X: u8 := 0x78

  /** One variable argument: a 32-bit stack slot, a 64-bit pair of them, a pointer to a C string, or a
      floating-point number, given by the text that `writeReal` prints for it. */
  datatype Arg = Word(bits: u32) | Quad(val: u64) | Str(chars: CStr) | Real(text: CStr)

  function AsInt(bits: u32): i32 {
    if bits < 0x8000_0000 then bits else bits - 0x1_0000_0000
  }

  /** A slot read as a signed number: the one in the range of an int that has the same 32 bits. */
  lemma AsIntIsSigned(bits: u32)
    ensures -0x8000_0000 <= AsInt(bits) < 0x8000_0000 && AsInt(bits) % 0x1_0000_0000 == bits
  {
  }

  /** The conversions that read a 32-bit slot. */
  predicate ReadsWord(c: u8) {
    c == LOWER_B || c == LOWER_D || c == LOWER_U || c == LOWER_X || c == LOWER_P || c == BAR
  }

  predicate TakesArg(c: u8) {
    ReadsWord(c) || c == LOWER_Q || c == LOWER_S || c == LOWER_F
  }

  predicate Fits(c: u8, arg: Arg) {
    && (ReadsWord(c) ==> arg.Word?)
    && (c == LOWER_Q ==> arg.Quad?)
    && (c == LOWER_S ==> arg.Str?)
    && (c == LOWER_F ==> arg.Real?)
  }

  /** The letters after `%` that take an argument, and which kind each takes. */
  lemma ConversionLetters(c: u8, arg: Arg)
    ensures TakesArg(c) <==> c as char in "bdfupqsx|"
    ensures TakesArg(c) ==>
      (Fits(c, arg) <==> if c as char in "bdupx|" then arg.Word? else if c as char == 'q' then arg.Quad?
                         else if c as char == 's' then arg.Str? else arg.Real?)
  {
    var letters := "bdfupqsx|";
    assert letters[0] == 'b' && letters[1] == 'd' && letters[2] == 'f' && letters[3] == 'u' && letters[4] == 'p';
    assert letters[5] == 'q' && letters[6] == 's' && letters[7] == 'x' && letters[8] == '|';
    var words := "bdupx|";
    assert words[0] == 'b' && words[1] == 'd' && words[2] == 'u' && words[3] == 'p' && words[4] == 'x' && words[5] == '|';
  }

  /** No dangling `%`, and an argument of the right kind for every conversion that takes one. */
  predicate Matches(format: seq<u8>, args: seq<Arg>) {
    if format == [] then true
    else if format[0] != PERCENT then Matches(format[1..], args)
    else
      |format| >= 2 &&
      if TakesArg(format[1]) then
        args != [] && Fits(format[1], args[0]) && Matches(format[2..], args[1..])
      else
        Matches(format[2..], args)
  }

  /** The text of one conversion; an unknown one prints nothing. */
  ghost function Rendered(c: u8, arg: Arg): seq<u8>
    requires TakesArg(c) && Fits(c, arg) && c != BAR
  {
    if c == LOWER_B then BinaryText(arg.bits)
    else if c == LOWER_D then IntText(AsInt(arg.bits))
    else if c == LOWER_U then Decimal(arg.bits)
    else if c == LOWER_X || c == LOWER_P then HexText(arg.bits, 8)
    else if c == LOWER_Q then SlowDecimal(arg.val)
    else if c == LOWER_F then arg.text
    else arg.chars
  }

  /** Every conversion prints a text from which its argument can be read back in the way its letter says;
      `%q` gives the number less the deficit of the slow division. */
  lemma RenderedReadsBack(c: u8, arg: Arg)
    requires TakesArg(c) && Fits(c, arg) && c != BAR
    ensures c as char == 'd' ==>
      var n := ParseInt(Rendered(c, arg));
      -0x8000_0000 <= n < 0x8000_0000 && n % 0x1_0000_0000 == arg.bits && Rendered(c, arg) == IntText(n)
    ensures c as char == 'u' ==> Parse(Rendered(c, arg), 10) == arg.bits && Rendered(c, arg) == Decimal(arg.bits)
    ensures c as char == 'x' || c as char == 'p' ==>
      |Rendered(c, arg)| == 10 && Parse(Rendered(c, arg)[2..], 16) == arg.bits && Rendered(c, arg) == HexText(arg.bits, 8)
    ensures c as char == 'b' ==>
      |Rendered(c, arg)| == 34 && Parse(Rendered(c, arg)[2..], 2) == arg.bits && Rendered(c, arg) == BinaryText(arg.bits)
    ensures c as char == 'q' ==>
      Parse(Rendered(c, arg), 10) == arg.val - Deficit(arg.val) && Rendered(c, arg) == SlowDecimal(arg.val)
    ensures c as char == 's' ==> Rendered(c, arg) == arg.chars
    ensures c as char == 'f' ==> Rendered(c, arg) == arg.text
  {
    if c == LOWER_D {
      AsIntIsSigned(arg.bits);
      IntReadsBack(AsInt(arg.bits));
    } else if c == LOWER_U {
      DecimalReadsBack(arg.bits);
    } else if c == LOWER_Q {
      SlowDecimalFits(arg.val);
    } else if arg.Word? {
      HexAndBinaryAgree(arg.bits);
    }
  }

  /** `%|`: spaces until the counter reaches the amount. The writer itself advances the counter. */
  function Pad(w: Writer, s: State, amount: int): (r: State)
    requires OnScreen(s)
    ensures OnScreen(r)
    decreases amount - s.cursor
  {
    if s.cursor < amount then
      SpaceAdvances(w, s);
      Pad(w, Emit(w, s, SPACE), amount)
    else s
  }

  lemma SpaceAdvances(w: Writer, s: State)
    requires OnScreen(s)
    ensures Emit(w, s, SPACE).cursor > s.cursor
  {
  }

  /** The device state after a format has been processed: a literal counts once more than the writer
      already counted it. */
  ghost function Formatted(w: Writer, s: State, format: seq<u8>, args: seq<Arg>): (r: State)
    requires OnScreen(s) && Matches(format, args)
    ensures OnScreen(r)
    decreases |format|
  {
    if format == [] then s
    else if format[0] != PERCENT then
      var t := Emit(w, s, format[0]);
      Formatted(w, t.(cursor := t.cursor + 1), format[1..], args)
    else if format[1] == PERCENT then
      Formatted(w, Emit(w, s, PERCENT), format[2..], args)
    else if format[1] == BAR then
      Formatted(w, Pad(w, s, AsInt(args[0].bits)), format[2..], args[1..])
    else if TakesArg(format[1]) then
      Formatted(w, EmitAll(w, s, Rendered(format[1], args[0])), format[2..], args[1..])
    else
      Formatted(w, s, format[2..], args)
  }

  /** `kwritef(writer, format, ...)`. */
  method KWriteF(dev: Device, w: Writer, format: CStr, args: seq<Arg>)
    requires dev.Valid() && Matches(format, args)
    modifies dev, dev.textmem
    ensures dev.Valid() && dev.View() == Formatted(w, old(dev.View()).(cursor := 0), format, args)
  {
    hide Emit, EmitAll, Pad, Rendered;
    dev.cursor := 0;
    var i, a := 0, 0;
    assert format[0..] == format && args[0..] == args;
    while At(format, i) != 0
      invariant i <= |format| && a <= |args| && dev.Valid()
      invariant Matches(format[i..], args[a..])
      invariant Formatted(w, dev.View(), format[i..], args[a..]) ==
        Formatted(w, old(dev.View()).(cursor := 0), format, args)
      decreases |format| - i
    {
      var ch := At(format, i);
      assert format[i..][1..] == format[i + 1..];
      i := i + 1;
      if ch != PERCENT {
        dev.Write(w, ch);
        dev.cursor := dev.cursor + 1;
      } else {
        ch := At(format, i);
        assert format[i - 1..][2..] == format[i + 1..];
        i := i + 1;
        ghost var before := dev.View();
        if TakesArg(ch) {
          assert args[a..][1..] == args[a + 1..];
          var arg := args[a];
          a := a + 1;
          if ch == BAR {
            PadTo(dev, w, AsInt(arg.bits));
          } else {
            Convert(dev, w, ch, arg);
          }
        } else if ch == PERCENT {
          dev.Write(w, ch);
        }
      }
    }
  }

  /** The cases of the `switch` that print an argument. */
  method Convert(dev: Device, w: Writer, ch: u8, arg: Arg)
    requires dev.Valid() && TakesArg(ch) && Fits(ch, arg) && ch != BAR
    modifies dev, dev.textmem
    ensures dev.Valid() && dev.View() == EmitAll(w, old(dev.View()), Rendered(ch, arg))
  {
    hide Emit, EmitAll, BinaryText, HexText, IntText, Decimal, SlowDecimal;
    if ch == LOWER_B {
      WriteBinary(dev, w, arg.bits);
    } else if ch == LOWER_D {
      WriteInt(dev, w, AsInt(arg.bits));
    } else if ch == LOWER_U {
      WriteUInt(dev, w, arg.bits);
    } else if ch == LOWER_Q {
      WriteUInt64(dev, w, arg.val);
    } else if ch == LOWER_X {
      WriteHex(dev, w, arg.bits);
    } else if ch == LOWER_P {
      WriteAddr(dev, w, arg.bits);
    } else if ch == LOWER_F {
      KWriteS(dev, w, arg.text);   // stands for writeReal
    } else {
      KWriteS(dev, w, arg.chars);
    }
  }

  method PadTo(dev: Device, w: Writer, paddingAmount: i32)
    requires dev.Valid()
    modifies dev, dev.textmem
    ensures dev.Valid() && dev.View() == Pad(w, old(dev.View()), paddingAmount)
  {
    while dev.cursor < paddingAmount
      invariant dev.Valid() && Pad(w, dev.View(), paddingAmount) == Pad(w, old(dev.View()), paddingAmount)
      decreases paddingAmount - dev.cursor
    {
      SpaceAdvances(w, dev.View());
      dev.Write(w, SPACE);
    }
  }

  // ---- the meaning of a format: a list of pieces

  datatype Piece =
    | Literal(c: u8)
    | Percent
    | Conversion(c: u8, arg: Arg)
    | Padding(amount: u32)
    | Unknown(c: u8)

  predicate ValidPiece(p: Piece) {
    match p
    case Literal(c) => c != PERCENT && c != 0
    case Percent => true
    case Conversion(c, arg) => TakesArg(c) && Fits(c, arg) && c != BAR
    case Padding(_) => true
    case Unknown(c) => !TakesArg(c) && c != PERCENT && c != 0
  }

  function PieceFormat(p: Piece): seq<u8> {
    match p
    case Literal(c) => [c]
    case Percent => [PERCENT, PERCENT]
    case Conversion(c, _) => [PERCENT, c]
    case Padding(_) => [PERCENT, BAR]
    case Unknown(c) => [PERCENT, c]
  }

  function PieceArgs(p: Piece): seq<Arg> {
    match p
    case Conversion(_, arg) => [arg]
    case Padding(amount) => [Word(amount)]
    case _ => []
  }

  ghost predicate Valid(ps: seq<Piece>) {
    forall i :: 0 <= i < |ps| ==> ValidPiece(ps[i])
  }

  ghost predicate Unpadded(ps: seq<Piece>) {
    forall i :: 0 <= i < |ps| ==> !ps[i].Padding?
  }

  function FormatOf(ps: seq<Piece>): seq<u8> {
    if ps == [] then [] else PieceFormat(ps[0]) + FormatOf(ps[1..])
  }

  function ArgsOf(ps: seq<Piece>): seq<Arg> {
    if ps == [] then [] else PieceArgs(ps[0]) + ArgsOf(ps[1..])
  }

  ghost function PieceText(p: Piece): seq<u8>
    requires ValidPiece(p)
  {
    match p
    case Literal(c) => [c]
    case Percent => [PERCENT]
    case Conversion(c, arg) => Rendered(c, arg)
    case _ => []
  }

  ghost function TextOf(ps: seq<Piece>): seq<u8>
    requires Valid(ps)
  {
    if ps == [] then [] else PieceText(ps[0]) + TextOf(ps[1..])
  }

  /** How each piece is written in a format, which arguments it takes and what it prints. */
  lemma PieceMeans(p: Piece)
    requires ValidPiece(p)
    ensures p.Literal? ==> PieceFormat(p) == [p.c] == PieceText(p) && PieceArgs(p) == []
    ensures p.Percent? ==> PieceFormat(p) == [0x25, 0x25] && PieceArgs(p) == [] && PieceText(p) == [0x25]
    ensures p.Conversion? ==>
      PieceFormat(p) == [0x25, p.c] && PieceArgs(p) == [p.arg] && PieceText(p) == Rendered(p.c, p.arg)
    ensures p.Padding? ==> PieceFormat(p) == [0x25, 0x7C] && PieceArgs(p) == [Word(p.amount)] && PieceText(p) == []
    ensures p.Unknown? ==> PieceFormat(p) == [0x25, p.c] && PieceArgs(p) == [] && PieceText(p) == []
  {
  }

  lemma ConsPiece(p: Piece, ps: seq<Piece>)
    ensures FormatOf([p] + ps) == PieceFormat(p) + FormatOf(ps)
    ensures ArgsOf([p] + ps) == PieceArgs(p) + ArgsOf(ps)
  {
    assert ([p] + ps)[1..] == ps;
  }

  lemma TailOf<T>(a: seq<T>, b: seq<T>)
    requires a != []
    ensures (a + b)[0] == a[0] && (a + b)[1..] == a[1..] + b
  {
  }

  /** Formats, arguments and texts of lists of pieces are the concatenations of those of the pieces. */
  lemma {:induction false} FormatsConcatenate(ps: seq<Piece>, qs: seq<Piece>)
    ensures FormatOf(ps + qs) == FormatOf(ps) + FormatOf(qs)
    decreases |ps|
  {
    if ps == [] {
      assert ps + qs == qs;
    } else {
      hide PieceFormat;
      TailOf(ps, qs);
      FormatsConcatenate(ps[1..], qs);
      ConcatAssociates(PieceFormat(ps[0]), FormatOf(ps[1..]), FormatOf(qs));
    }
  }

  lemma {:induction false} ArgumentsConcatenate(ps: seq<Piece>, qs: seq<Piece>)
    ensures ArgsOf(ps + qs) == ArgsOf(ps) + ArgsOf(qs)
    decreases |ps|
  {
    if ps == [] {
      assert ps + qs == qs;
    } else {
      hide PieceArgs;
      TailOf(ps, qs);
      ArgumentsConcatenate(ps[1..], qs);
      ConcatAssociates(PieceArgs(ps[0]), ArgsOf(ps[1..]), ArgsOf(qs));
    }
  }

  lemma {:induction false} TextsConcatenate(ps: seq<Piece>, qs: seq<Piece>)
    requires Valid(ps) && Valid(qs)
    ensures Valid(ps + qs) && TextOf(ps + qs) == TextOf(ps) + TextOf(qs)
    decreases |ps|
  {
    if ps == [] {
      assert ps + qs == qs;
    } else {
      hide PieceText, ValidPiece;
      TailOf(ps, qs);
      TextsConcatenate(ps[1..], qs);
      ConcatAssociates(PieceText(ps[0]), TextOf(ps[1..]), TextOf(qs));
    }
  }

  lemma OnePiece(p: Piece)
    requires ValidPiece(p)
    ensures FormatOf([p]) == PieceFormat(p) && ArgsOf([p]) == PieceArgs(p) && Valid([p]) && TextOf([p]) == PieceText(p)
  {
    assert [p][1..] == [];
  }

  lemma FirstPiece(format: seq<u8>, args: seq<Arg>) returns (p: Piece)
    requires Matches(format, args) && format != []
    requires format[0] != 0 && (|format| > 1 ==> format[1] != 0)
    ensures ValidPiece(p) && PieceFormat(p) <= format && PieceArgs(p) <= args
    ensures Matches(format[|PieceFormat(p)|..], args[|PieceArgs(p)|..])
  {
    if format[0] != PERCENT {
      p := Literal(format[0]);
    } else {
      var c := format[1];
      if c == PERCENT {
        p := Percent;
      } else if c == BAR {
        p := Padding(args[0].bits);
      } else if TakesArg(c) {
        p := Conversion(c, args[0]);
      } else {
        p := Unknown(c);
      }
    }
    assert args[0..] == args;
  }

  predicate NoNul(s: seq<u8>) {
    forall i :: 0 <= i < |s| ==> s[i] != 0
  }

  lemma NoNulParts(s: seq<u8>, n: nat)
    requires NoNul(s) && n <= |s|
    ensures NoNul(s[n..]) && (|s| > 0 ==> s[0] != 0) && (|s| > 1 ==> s[1] != 0)
  {
  }

  /** Every format that matches its arguments is the format of some pieces; surplus arguments stay unread. */
  lemma {:induction false} FormatsArePieces(format: seq<u8>, args: seq<Arg>) returns (ps: seq<Piece>)
    requires Matches(format, args) && NoNul(format)
    ensures Valid(ps) && FormatOf(ps) == format && ArgsOf(ps) <= args
    decreases |format|
  {
    if format == [] {
      NoneValid();
      return [];
    }
    hide Matches, FormatOf, ArgsOf, ValidPiece, PieceFormat, PieceArgs, Valid, NoNul;
    NoNulParts(format, 0);
    var p := FirstPiece(format, args);
    var n, m := |PieceFormat(p)|, |PieceArgs(p)|;
    NoNulParts(format, n);
    var rest := FormatsArePieces(format[n..], args[m..]);
    ps := [p] + rest;
    ConsPiece(p, rest);
    ConsValid(p, rest);
    assert format == PieceFormat(p) + format[n..];
    assert args == PieceArgs(p) + args[m..];
  }

  lemma ConsValid(p: Piece, ps: seq<Piece>)
    requires ValidPiece(p) && Valid(ps)
    ensures Valid([p] + ps)
  {
  }

  lemma NoneValid()
    ensures Valid([]) && FormatOf([]) == [] && ArgsOf([]) == []
  {
  }

  // ---- what is written, apart from the padding counter

  ghost predicate SameOutput(a: State, b: State) {
    a.(cursor := 0) == b.(cursor := 0)
  }

  lemma EmitSame(w: Writer, a: State, b: State, c: u8)
    requires OnScreen(a) && OnScreen(b) && SameOutput(a, b)
    ensures SameOutput(Emit(w, a, c), Emit(w, b, c))
  {
    hide Blanks, Glyph, NextTabStop, Type;
    if w == Screen {
      TypeSame(a, b, c);
    }
  }

  lemma TypeSame(a: State, b: State, c: u8)
    requires OnScreen(a) && OnScreen(b) && SameOutput(a, b)
    ensures SameOutput(Type(a, c), Type(b, c)) && |Type(a, c).cells| == CELLS && Type(a, c).csrY <= ROWS
  {
    hide Glyph, NextTabStop;
  }

  lemma {:induction false} EmitAllSame(w: Writer, a: State, b: State, text: seq<u8>)
    requires OnScreen(a) && OnScreen(b) && SameOutput(a, b)
    ensures SameOutput(EmitAll(w, a, text), EmitAll(w, b, text))
  {
    if text != [] {
      hide Emit;
      EmitAllSame(w, a, b, text[..|text| - 1]);
      EmitSame(w, EmitAll(w, a, text[..|text| - 1]), EmitAll(w, b, text[..|text| - 1]), text[|text| - 1]);
    }
  }

  /** The state after one piece. */
  ghost function Play(w: Writer, s: State, p: Piece): (r: State)
    requires OnScreen(s) && ValidPiece(p)
    ensures OnScreen(r)
  {
    match p
    case Literal(c) => var t := Emit(w, s, c); t.(cursor := t.cursor + 1)
    case Padding(amount) => Pad(w, s, AsInt(amount))
    case _ => EmitAll(w, s, PieceText(p))
  }

  /** One piece on the screen: a literal counts once more than printing it does. */
  lemma PlayOnScreen(s: State, p: Piece)
    requires OnScreen(s) && ValidPiece(p)
    ensures p.Literal? ==> Play(Screen, s, p) == Put(s, p.c).(cursor := Put(s, p.c).cursor + 1)
    ensures p.Percent? ==> Play(Screen, s, p) == Put(s, 0x25)
    ensures p.Conversion? ==> Play(Screen, s, p) == Console.Run(s, Chars(Rendered(p.c, p.arg)))
    ensures p.Padding? ==>
      Play(Screen, s, p) == Pad(Screen, s, if p.amount < 0x8000_0000 then p.amount else p.amount - 0x1_0000_0000)
    ensures p.Unknown? ==> Play(Screen, s, p) == s
  {
    hide Put, Pad, Rendered, EmitAll;
    match p
    case Literal(c) =>
    case Percent => EmitOne(Screen, s, PERCENT);
    case Conversion(c, arg) => PrintedTextIsRun(s, Rendered(c, arg));
    case Padding(_) =>
    case Unknown(_) => EmitNone(Screen, s);
  }

  lemma FormattedPiece(w: Writer, s: State, p: Piece, format: seq<u8>, args: seq<Arg>)
    requires OnScreen(s) && ValidPiece(p) && Matches(format, args)
    ensures Matches(PieceFormat(p) + format, PieceArgs(p) + args)
    ensures Formatted(w, s, PieceFormat(p) + format, PieceArgs(p) + args) == Formatted(w, Play(w, s, p), format, args)
  {
    hide Emit, EmitAll, Pad, Rendered;
    var f, a := PieceFormat(p) + format, PieceArgs(p) + args;
    assert f[|PieceFormat(p)|..] == format && a[|PieceArgs(p)|..] == args;
    if p.Percent? {
      EmitOne(w, s, PERCENT);
    } else if p.Unknown? {
      EmitNone(w, s);
    }
  }

  ghost function PlayAll(w: Writer, s: State, ps: seq<Piece>): (r: State)
    requires OnScreen(s) && Valid(ps)
    ensures OnScreen(r)
    decreases |ps|
  {
    if ps == [] then s else PlayAll(w, Play(w, s, ps[0]), ps[1..])
  }

  lemma ConcatAssociates<T>(a: seq<T>, b: seq<T>, c: seq<T>)
    ensures a + b + c == a + (b + c)
  {
  }

  /** A format is processed piece by piece. */
  lemma {:induction false} FormattedPieces(w: Writer, s: State, ps: seq<Piece>, format: seq<u8>, args: seq<Arg>)
    requires OnScreen(s) && Valid(ps) && Matches(format, args)
    ensures Matches(FormatOf(ps) + format, ArgsOf(ps) + args)
    ensures Formatted(w, s, FormatOf(ps) + format, ArgsOf(ps) + args) == Formatted(w, PlayAll(w, s, ps), format, args)
    decreases |ps|
  {
    if ps == [] {
      assert FormatOf(ps) + format == format && ArgsOf(ps) + args == args;
    } else {
      hide Formatted, Matches, Play, PieceFormat, PieceArgs, FormatOf, ArgsOf, OnScreen, ValidPiece;
      var p, rest := ps[0], ps[1..];
      FormattedPieces(w, Play(w, s, p), rest, format, args);
      FormattedPiece(w, s, p, FormatOf(rest) + format, ArgsOf(rest) + args);
      assert ps == [p] + rest;
      ConsPiece(p, rest);
      ConcatAssociates(PieceFormat(p), FormatOf(rest), format);
      ConcatAssociates(PieceArgs(p), ArgsOf(rest), args);
    }
  }

  lemma {:induction false} PlayAllPrints(w: Writer, s: State, ps: seq<Piece>)
    requires OnScreen(s) && Valid(ps) && Unpadded(ps)
    ensures SameOutput(PlayAll(w, s, ps), EmitAll(w, s, TextOf(ps)))
    decreases |ps|
  {
    if ps == [] {
      EmitNone(w, s);
    } else {
      hide Emit, EmitAll;
      var text, rest := PieceText(ps[0]), TextOf(ps[1..]);
      var t := Play(w, s, ps[0]);
      PlayAllPrints(w, t, ps[1..]);
      if ps[0].Literal? {
        EmitOne(w, s, ps[0].c);
      }
      EmitAllSame(w, t, EmitAll(w, s, text), rest);
      EmitAppend(w, s, text, rest);
    }
  }

  /** Main result: without padding, a format writes the concatenation of its literals and of its rendered
      arguments, on either writer and from any state; surplus arguments are ignored. */
  lemma FormatConcatenates(w: Writer, s: State, ps: seq<Piece>, surplus: seq<Arg>)
    requires OnScreen(s) && Valid(ps) && Unpadded(ps)
    ensures Matches(FormatOf(ps), ArgsOf(ps) + surplus)
    ensures SameOutput(Formatted(w, s, FormatOf(ps), ArgsOf(ps) + surplus), EmitAll(w, s, TextOf(ps)))
  {
    hide Emit, EmitAll, PlayAll, TextOf, FormatOf, ArgsOf;
    FormattedPieces(w, s, ps, [], surplus);
    assert FormatOf(ps) + [] == FormatOf(ps);
    PlayAllPrints(w, s, ps);
  }

  /** On the screen: the terminal that printed the text is what `kwritef` leaves visible. */
  lemma FormatOnTerminal(s: State, t: Terminal, ps: seq<Piece>, surplus: seq<Arg>)
    requires Shows(s, t) && Valid(ps) && Unpadded(ps)
    ensures Matches(FormatOf(ps), ArgsOf(ps) + surplus)
    ensures Shows(Formatted(Screen, s.(cursor := 0), FormatOf(ps), ArgsOf(ps) + surplus),
                  TerminalRun(t, Chars(TextOf(ps))))
  {
    hide TextOf, FormatOf, ArgsOf, Matches, Formatted, EmitAll;
    var s0, text := s.(cursor := 0), TextOf(ps);
    FormatConcatenates(Screen, s0, ps, surplus);
    PrintedTextIsRun(s0, text);
    RunShows(s0, t, Chars(text));
    ShowsIgnoresCounter(EmitAll(Screen, s0, text), Formatted(Screen, s0, FormatOf(ps), ArgsOf(ps) + surplus),
                        TerminalRun(t, Chars(text)));
  }

  lemma ShowsIgnoresCounter(a: State, b: State, t: Terminal)
    requires Shows(a, t) && SameOutput(a, b)
    ensures Shows(b, t)
  {
  }

  // ---- the serial writer and the trace prefix

  lemma {:induction false} SerialEmitsAll(s: State, text: seq<u8>)
    requires OnScreen(s)
    ensures EmitAll(Serial, s, text) == s.(serial := s.serial + text, cursor := s.cursor + |text|)
  {
    if text == [] {
      assert s.serial + text == s.serial;
    } else {
      SerialEmitsAll(s, text[..|text| - 1]);
      assert s.serial + text == s.serial + text[..|text| - 1] + [text[|text| - 1]];
    }
  }

  function Spaces(n: int): (text: seq<u8>)
    ensures |text| == (if n < 0 then 0 else n) && forall i :: 0 <= i < |text| ==> text[i] == 0x20
  {
    if n <= 0 then [] else Spaces(n - 1) + [SPACE]
  }

  lemma SpacesFront(n: nat)
    requires n > 0
    ensures Spaces(n) == [SPACE] + Spaces(n - 1)
  {
    if n > 1 {
      SpacesFront(n - 1);
    }
  }

  lemma {:induction false} SerialPads(s: State, amount: int)
    requires OnScreen(s)
    ensures Pad(Serial, s, amount) ==
      s.(serial := s.serial + Spaces(amount - s.cursor), cursor := if s.cursor < amount then amount else s.cursor)
    decreases amount - s.cursor
  {
    if s.cursor < amount {
      var t := Emit(Serial, s, SPACE);
      SerialPads(t, amount);
      SpacesFront(amount - s.cursor);
      assert s.serial + Spaces(amount - s.cursor) == s.serial + [SPACE] + Spaces(amount - s.cursor - 1);
    } else {
      assert s.serial + [] == s.serial;
    }
  }

  /** On either writer padding writes nothing but spaces, and as many as bring the counter to the amount. */
  lemma {:induction false} PadWritesSpaces(w: Writer, s: State, amount: int) returns (n: nat)
    requires OnScreen(s)
    ensures Pad(w, s, amount) == EmitAll(w, s, Spaces(n)) && Pad(w, s, amount).cursor >= amount
    ensures n == 0 <==> s.cursor >= amount
    ensures n > 0 ==> EmitAll(w, s, Spaces(n - 1)).cursor < amount
    decreases amount - s.cursor
  {
    hide Emit, EmitAll, Spaces;
    NoSpaces(w, s);
    n := 0;
    if s.cursor < amount {
      SpaceAdvances(w, s);
      var t := Emit(w, s, SPACE);
      var m := PadWritesSpaces(w, t, amount);
      n := m + 1;
      SpaceFirst(w, s, m);
      if m > 0 {
        SpaceFirst(w, s, m - 1);
      }
    }
  }

  lemma NoSpaces(w: Writer, s: State)
    requires OnScreen(s)
    ensures EmitAll(w, s, Spaces(0)) == s
  {
    EmitNone(w, s);
  }

  lemma SpaceFirst(w: Writer, s: State, m: nat)
    requires OnScreen(s)
    ensures EmitAll(w, s, Spaces(m + 1)) == EmitAll(w, Emit(w, s, SPACE), Spaces(m))
  {
    SpacesFront(m + 1);
    EmitAppend(w, s, [SPACE], Spaces(m));
    EmitOne(w, s, SPACE);
  }

  /** The pieces of `"%s::%d: "`, the format in front of the padding of every trace message. */
  function TracePrefix(file: CStr, line: u32): seq<Piece> {
    [Conversion(LOWER_S, Str(file))] + ([Literal(COLON)] + ([Literal(COLON)] +
    ([Conversion(LOWER_D, Word(line))] + ([Literal(COLON)] + ([Literal(SPACE)] + [])))))
  }

  ghost function TraceText(file: CStr, line: u32): seq<u8> {
    file + [COLON, COLON] + IntText(AsInt(line)) + [COLON, SPACE]
  }

  lemma PlayCons(s: State, p: Piece, ps: seq<Piece>)
    requires OnScreen(s) && ValidPiece(p) && Valid(ps)
    ensures Valid([p] + ps) && PlayAll(Serial, s, [p] + ps) == PlayAll(Serial, Play(Serial, s, p), ps)
  {
    assert ([p] + ps)[1..] == ps;
  }

  lemma TracePrefixPlays(s: State, file: CStr, line: u32)
    requires OnScreen(s)
    ensures Valid(TracePrefix(file, line))
    ensures PlayAll(Serial, s, TracePrefix(file, line)) ==
      s.(serial := s.serial + TraceText(file, line), cursor := s.cursor + |TraceText(file, line)| + 4)
  {
    hide EmitAll, IntText;
    var number := IntText(AsInt(line));
    var s1 := Play(Serial, s, Conversion(LOWER_S, Str(file)));
    SerialEmitsAll(s, file);
    var s3 := Play(Serial, Play(Serial, s1, Literal(COLON)), Literal(COLON));
    var s4 := Play(Serial, s3, Conversion(LOWER_D, Word(line)));
    SerialEmitsAll(s3, number);
    var s6 := Play(Serial, Play(Serial, s4, Literal(COLON)), Literal(SPACE));
    assert s6.serial == s.serial + TraceText(file, line);
    var p5 := [Literal(SPACE)] + [];
    var p4 := [Literal(COLON)] + p5;
    var p3 := [Conversion(LOWER_D, Word(line))] + p4;
    var p2 := [Literal(COLON)] + p3;
    var p1 := [Literal(COLON)] + p2;
    PlayCons(Play(Serial, s4, Literal(COLON)), Literal(SPACE), []);
    PlayCons(s4, Literal(COLON), p5);
    PlayCons(s3, Conversion(LOWER_D, Word(line)), p4);
    PlayCons(Play(Serial, s1, Literal(COLON)), Literal(COLON), p3);
    PlayCons(s1, Literal(COLON), p2);
    PlayCons(s, Conversion(LOWER_S, Str(file)), p1);
  }

  /** `trace(fmt, ...)`: prefix, padding to 30 and message. */
  function TraceFormat(message: seq<u8>): seq<u8> {
    [PERCENT, LOWER_S, COLON, COLON, PERCENT, LOWER_D, COLON, SPACE, PERCENT, BAR] + message
  }

  function TraceArgs(file: CStr, line: u32, args: seq<Arg>): seq<Arg> {
    [Str(file), Word(line), Word(30)] + args
  }

  /** The counter after one piece on the serial line, and the bytes it sends. */
  ghost function SerialCounter(counter: nat, p: Piece): nat
    requires ValidPiece(p)
  {
    match p
    case Literal(_) => counter + 2
    case Padding(amount) => if counter < AsInt(amount) then AsInt(amount) else counter
    case _ => counter + |PieceText(p)|
  }

  ghost function SerialPiece(counter: nat, p: Piece): seq<u8>
    requires ValidPiece(p)
  {
    if p.Padding? then Spaces(AsInt(p.amount) - counter) else PieceText(p)
  }

  /** All bytes that pieces send on the serial line when the counter starts at a given value. */
  ghost function SerialText(counter: nat, ps: seq<Piece>): seq<u8>
    requires Valid(ps)
    decreases |ps|
  {
    if ps == [] then []
    else SerialPiece(counter, ps[0]) + SerialText(SerialCounter(counter, ps[0]), ps[1..])
  }

  lemma SerialPlay(s: State, p: Piece)
    requires OnScreen(s) && ValidPiece(p)
    ensures Play(Serial, s, p) == s.(serial := s.serial + SerialPiece(s.cursor, p), cursor := SerialCounter(s.cursor, p))
  {
    hide Pad, EmitAll, Rendered;
    match p
    case Literal(c) =>
    case Padding(amount) => SerialPads(s, AsInt(amount));
    case _ => SerialEmitsAll(s, PieceText(p));
  }

  /** The same piece by piece: bytes sent and counter, in plain terms. A negative amount pads nothing. */
  lemma PlayOnSerial(s: State, p: Piece)
    requires OnScreen(s) && ValidPiece(p)
    ensures var r := Play(Serial, s, p);
      && r == s.(serial := r.serial, cursor := r.cursor)
      && (p.Literal? ==> r.serial == s.serial + [p.c] && r.cursor == s.cursor + 2)
      && (p.Percent? ==> r.serial == s.serial + [0x25] && r.cursor == s.cursor + 1)
      && (p.Conversion? ==>
            r.serial == s.serial + Rendered(p.c, p.arg) && r.cursor == s.cursor + |Rendered(p.c, p.arg)|)
      && (p.Padding? && s.cursor < p.amount < 0x8000_0000 ==>
            r.serial == s.serial + Spaces(p.amount - s.cursor) && r.cursor == p.amount)
      && (p.Padding? && (p.amount <= s.cursor || 0x8000_0000 <= p.amount) ==> r == s)
      && (p.Unknown? ==> r == s)
  {
    hide Play, Rendered;
    SerialPlay(s, p);
    assert s.serial + [] == s.serial;
  }

  /** The serial line in closed form, padding included: every literal moves the counter by two. */
  lemma {:induction false} SerialPlaysAll(s: State, ps: seq<Piece>)
    requires OnScreen(s) && Valid(ps)
    ensures PlayAll(Serial, s, ps).serial == s.serial + SerialText(s.cursor, ps)
    decreases |ps|
  {
    if ps == [] {
      assert s.serial + [] == s.serial;
    } else {
      hide Play, SerialPiece, SerialCounter;
      SerialPlay(s, ps[0]);
      SerialPlaysAll(Play(Serial, s, ps[0]), ps[1..]);
      ConcatAssociates(s.serial, SerialPiece(s.cursor, ps[0]), SerialText(SerialCounter(s.cursor, ps[0]), ps[1..]));
    }
  }

  /** Without padding that is the plain concatenation. */
  lemma {:induction false} SerialTextUnpadded(counter: nat, ps: seq<Piece>)
    requires Valid(ps) && Unpadded(ps)
    ensures SerialText(counter, ps) == TextOf(ps)
    decreases |ps|
  {
    if ps != [] {
      SerialTextUnpadded(SerialCounter(counter, ps[0]), ps[1..]);
    }
  }

  /** Prefix, name, line and padding as they appear in front of a trace message. */
  ghost function TraceHeader(file: CStr, line: u32): seq<u8> {
    TraceText(file, line) + Spaces(26 - |TraceText(file, line)|)
  }

  /** The counter when the message starts. */
  ghost function TraceCounter(file: CStr, line: u32): nat {
    var counter := |TraceText(file, line)| + 4;
    if counter < 30 then 30 else counter
  }

  /** On the serial line a trace message, whatever pieces it has, starts in column 26 exactly when the file
      name and the line number take at most 22 bytes: each of the four literals in front is counted twice. */
  lemma TraceAligns(s: State, file: CStr, line: u32, ps: seq<Piece>)
    requires OnScreen(s) && s.cursor == 0 && Valid(ps)
    ensures Matches(TraceFormat(FormatOf(ps)), TraceArgs(file, line, ArgsOf(ps)))
    ensures Formatted(Serial, s, TraceFormat(FormatOf(ps)), TraceArgs(file, line, ArgsOf(ps))).serial
      == s.serial + TraceHeader(file, line) + SerialText(TraceCounter(file, line), ps)
    ensures var name := |file| + |IntText(AsInt(line))|;
      |TraceHeader(file, line)| == if name + 8 <= 30 then 26 else name + 4
  {
    hide EmitAll, IntText, Formatted, Matches, SerialText, Pad, PlayAll, FormatOf, ArgsOf, TracePrefix, TraceFormat, TraceArgs;
    var prefix := TracePrefix(file, line);
    TracePrefixPlays(s, file, line);
    var t := PlayAll(Serial, s, prefix);
    var u := Pad(Serial, t, 30);
    SerialPads(t, 30);
    assert u.serial == s.serial + TraceHeader(file, line);
    SerialPlaysAll(u, ps);
    AllPieces(Serial, u, ps);
    FormattedPiece(Serial, t, Padding(30), FormatOf(ps), ArgsOf(ps));
    FormattedPieces(Serial, s, prefix, [PERCENT, BAR] + FormatOf(ps), [Word(30)] + ArgsOf(ps));
    TraceLayout(file, line, FormatOf(ps), ArgsOf(ps));
  }

  lemma AllPieces(w: Writer, s: State, ps: seq<Piece>)
    requires OnScreen(s) && Valid(ps)
    ensures Matches(FormatOf(ps), ArgsOf(ps)) && Formatted(w, s, FormatOf(ps), ArgsOf(ps)) == PlayAll(w, s, ps)
  {
    hide FormatOf, ArgsOf, PlayAll;
    FormattedPieces(w, s, ps, [], []);
    assert FormatOf(ps) + [] == FormatOf(ps) && ArgsOf(ps) + [] == ArgsOf(ps);
  }

  /** The characters of the format of a trace message, and what they print before the padding. */
  lemma TraceTexts(file: CStr, line: u32, message: seq<u8>, args: seq<Arg>)
    ensures |TraceFormat(message)| == 10 + |message| && TraceFormat(message)[10..] == message
    ensures forall i :: 0 <= i < 10 ==> TraceFormat(message)[i] as char == "%s::%d: %|"[i]
    ensures TraceArgs(file, line, args) == [Str(file), Word(line), Word(30)] + args
    ensures var text, number := TraceText(file, line), IntText(AsInt(line));
      && text == file + [0x3A, 0x3A] + number + [0x3A, 0x20]
      && text <= TraceHeader(file, line)
      && (forall i :: |text| <= i < |TraceHeader(file, line)| ==> TraceHeader(file, line)[i] == 0x20)
      && TraceCounter(file, line) == if |text| + 4 < 30 then 30 else |text| + 4
  {
    hide IntText;
  }

  lemma TraceLayout(file: CStr, line: u32, format: seq<u8>, args: seq<Arg>)
    ensures FormatOf(TracePrefix(file, line)) + ([PERCENT, BAR] + format) == TraceFormat(format)
    ensures ArgsOf(TracePrefix(file, line)) + ([Word(30)] + args) == TraceArgs(file, line, args)
  {
    hide FormatOf, ArgsOf;
    NoneValid();
    var p5 := [Literal(SPACE)] + [];
    var p4 := [Literal(COLON)] + p5;
    var p3 := [Conversion(LOWER_D, Word(line))] + p4;
    var p2 := [Literal(COLON)] + p3;
    var p1 := [Literal(COLON)] + p2;
    ConsPiece(Literal(SPACE), []);
    ConsPiece(Literal(COLON), p5);
    ConsPiece(Conversion(LOWER_D, Word(line)), p4);
    ConsPiece(Literal(COLON), p3);
    ConsPiece(Literal(COLON), p2);
    ConsPiece(Conversion(LOWER_S, Str(file)), p1);
  }
}
