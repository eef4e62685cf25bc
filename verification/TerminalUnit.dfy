/**
 The code of kernel/drivers/video/vga.c over mutable state.  Each method is proved to take the
 terminal where modules `Terminal` and `TerminalFormat` say.
 */
module TerminalUnit {
  import opened Terminal
  import opened TerminalFormat

  class Vga {
    var buf: array<nat>
    var video: array<nat>
    var x: nat
    var y: nat
    var view: nat
    var pending: bool
    var color: nat

    ghost predicate Arrays()
      reads this
    {
      buf != video && buf.Length == BUFFER && video.Length == SCREEN
    }

    ghost predicate Valid()
      reads this
    {
      Arrays() && x < WIDTH && y < LINES
    }

    ghost function State(): Term
      reads this, buf, video
    {
      Term(buf[..], video[..], x, y, view, pending, color)
    }

    constructor ()
      ensures Valid() && fresh(buf) && fresh(video)
    {
      buf := new nat[BUFFER];
      video := new nat[SCREEN];
      x, y, view, pending, color := 0, 0, 0, false, 0x0F;
    }

    method RenderScreen()
      requires Arrays()
      modifies video
      ensures video[..] == Render(buf[..], view)
    {
      for screenY := 0 to HEIGHT
        invariant forall i :: 0 <= i < screenY * WIDTH ==> video[i] == RenderCell(buf[..], view, i)
      {
        var bufferY := view + screenY;
        for col := 0 to WIDTH
          invariant forall i :: 0 <= i < screenY * WIDTH + col ==> video[i] == RenderCell(buf[..], view, i)
        {
          assert (screenY * WIDTH + col) / WIDTH == screenY;
          video[screenY * WIDTH + col] := if bufferY < LINES then buf[bufferY * WIDTH + col] else BLANK;
        }
      }
      assert forall i :: 0 <= i < SCREEN ==> video[..][i] == Render(buf[..], view)[i];
    }

    method FollowCursor()
      modifies this`view, this`pending
      ensures State() == Follow(old(State()))
    {
      if y >= view + HEIGHT {
        view := y - HEIGHT + 1;
        pending := true;
      }
    }

    /** The store to `terminalBuffer` followed by `vga_write_cell`, both at the cursor. */
    method PokeCell(entry: nat)
      requires Valid()
      modifies buf, video
      ensures State() == Poke(old(State()), entry)
    {
      buf[y * WIDTH + x] := entry;
      if !pending && y >= view && y < view + HEIGHT {
        video[(y - view) * WIDTH + x] := entry;
      }
    }

    method FlushScreen()
      requires Valid()
      modifies this`pending, video
      ensures State() == Flush(old(State()))
    {
      if pending {
        RenderScreen();
        pending := false;
      }
    }

    /** The loops at the end of `vga_putchar_raw`. */
    method ScrollLines()
      requires Arrays()
      modifies this`y, this`pending, buf
      ensures State() == ScrollBuffer(old(State()))
    {
      if y >= LINES {
        ShiftUp();
        for col := 0 to WIDTH
          invariant forall i :: 0 <= i < BUFFER - WIDTH ==> buf[i] == old(buf[i + WIDTH])
          invariant forall i :: BUFFER - WIDTH <= i < BUFFER - WIDTH + col ==> buf[i] == BLANK
        {
          buf[(LINES - 1) * WIDTH + col] := BLANK;
        }
        assert buf[..] == old(buf[..])[WIDTH..] + Blanks(WIDTH);
        y := LINES - 1;
        pending := true;
      }
    }

    method ShiftUp()
      requires Arrays()
      modifies buf
      ensures forall i :: 0 <= i < BUFFER - WIDTH ==> buf[i] == old(buf[i + WIDTH])
    {
      for line := 1 to LINES
        invariant forall i :: 0 <= i < (line - 1) * WIDTH ==> buf[i] == old(buf[i + WIDTH])
        invariant forall i :: (line - 1) * WIDTH <= i < BUFFER ==> buf[i] == old(buf[i])
      {
        ShiftLine(line);
      }
    }

    method ShiftLine(line: nat)
      requires Arrays() && 1 <= line < LINES
      modifies buf
      ensures var at := (line - 1) * WIDTH;
        forall i :: 0 <= i < BUFFER ==> buf[i] == if at <= i < at + WIDTH then old(buf[i + WIDTH]) else old(buf[i])
    {
      var at := (line - 1) * WIDTH;
      for col := 0 to WIDTH
        invariant forall i :: 0 <= i < BUFFER ==>
          buf[i] == if at <= i < at + col then old(buf[i + WIDTH]) else old(buf[i])
      {
        buf[at + col] := buf[line * WIDTH + col];
      }
    }

    /** The switch of `vga_putchar_raw`. */
    method TypeChar(c: nat)
      requires Valid()
      modifies this`x, this`y, buf, video
      ensures Arrays() && State() == Type(old(State()), c)
    {
      if c == TAB {
        x := (x + 4) / 4 * 4;
        if x >= WIDTH {
          x := 0;
          y := y + 1;
        }
      } else if c == NEWLINE {
        x := 0;
        y := y + 1;
      } else if c == RETURN {
        x := 0;
      } else if c == BACKSPACE {
        if x > 0 {
          x := x - 1;
          PokeCell(BLANK);
        }
      } else {
        PokeCell(Entry(c, color));
        x := x + 1;
        if x >= WIDTH {
          x := 0;
          y := y + 1;
        }
      }
    }

    method PutcharRaw(c: nat)
      requires Valid()
      modifies this`x, this`y, this`view, this`pending, buf, video
      ensures Valid() && State() == PutRaw(old(State()), c)
    {
      hide Type;
      TypeChar(c);
      ScrollLines();
      FollowCursor();
    }

    /** Print a string with `vga_putchar_raw`. */
    method PutString(s: seq<nat>)
      requires Valid()
      modifies this`x, this`y, this`view, this`pending, buf, video
      ensures Valid() && State() == PutAll(old(State()), s)
    {
      hide PutRaw;
      for i := 0 to |s|
        invariant Valid() && PutAll(State(), s[i..]) == PutAll(old(State()), s)
      {
        PutcharRaw(s[i]);
        assert s[i..][1..] == s[i + 1..];
      }
    }

    method PrintUnsigned(value: nat, base: nat) returns (count: nat)
      requires Valid() && value < UINT && 2 <= base <= 16 && |Digits(value, base)| <= 16
      modifies this`x, this`y, this`view, this`pending, buf, video
      ensures Valid() && State() == PutAll(old(State()), Unsigned(value, base))
      ensures count == |Unsigned(value, base)|
    {
      hide PutRaw;
      ghost var start := State();
      if value == 0 {
        PutcharRaw(ZERO);
        assert [ZERO][1..] == [];
        return 1;
      }
      var digits: array<nat>, idx: nat := CollectDigits(value, base);
      ghost var all := Digits(value, base);
      assert all[0..] == all;
      count := 0;
      while idx > 0
        invariant Valid() && fresh(digits) && digits.Length == 16 && idx + count == |all|
        invariant forall k :: 0 <= k < idx ==> digits[k] == all[|all| - 1 - k]
        invariant PutAll(State(), all[count..]) == PutAll(start, all)
      {
        idx := idx - 1;
        PutcharRaw(digits[idx]);
        assert all[count..][0] == digits[idx] && all[count..][1..] == all[count + 1..];
        count := count + 1;
      }
    }

    /** The first loop of `vga_print_unsigned`: digits, least significant first, in a buffer of 16. */
    method CollectDigits(value: nat, base: nat) returns (digits: array<nat>, idx: nat)
      requires 2 <= base <= 16 && |Digits(value, base)| <= 16
      ensures fresh(digits) && digits.Length == 16 && idx == |Digits(value, base)|
      ensures forall k :: 0 <= k < idx ==> digits[k] == Digits(value, base)[idx - 1 - k]
    {
      hide Digits, Rest, Last;
      digits := new nat[16];
      idx := 0;
      var rest: nat := value;
      ghost var done: seq<nat> := [];
      while rest != 0
        invariant Digits(rest, base) + done == Digits(value, base) && idx == |done|
        invariant forall k :: 0 <= k < idx ==> digits[k] == done[idx - 1 - k]
        decreases rest
      {
        DigitsStep(rest, base);
        digits[idx] := DigitChar(Last(rest, base));
        idx := idx + 1;
        ghost var d, high := [DigitChar(Last(rest, base))], Digits(Rest(rest, base), base);
        assert (high + d) + done == high + (d + done);
        done := d + done;
        rest := Rest(rest, base);
      }
      DigitsStep(rest, base);
    }

    method PrintSigned(value: int) returns (count: nat)
      requires Valid() && -(UINT as int) / 2 <= value < UINT / 2
      modifies this`x, this`y, this`view, this`pending, buf, video
      ensures Valid() && State() == PutAll(old(State()), Signed(value))
      ensures count == |Signed(value)|
    {
      hide PutRaw, Unsigned;
      var mag := value;
      count := 0;
      ghost var start := State();
      if value < 0 {
        PutcharRaw(MINUS);
        count := 1;
        mag := -(value + 1) + 1;
        assert Signed(value)[1..] == Unsigned(mag, 10);
      }
      BufferFitsExactly(10);
      var n := PrintUnsigned(mag, 10);
      count := count + n;
    }

    /** One conversion that takes an argument. */
    method PrintArg(c: nat, a: Arg) returns (count: nat)
      requires Valid() && TakesArgument(c) && Suits(c, a)
      modifies this`x, this`y, this`view, this`pending, buf, video
      ensures Valid() && State() == PutAll(old(State()), Convert(c, a))
      ensures count == |Convert(c, a)|
    {
      hide PutRaw, Signed, Unsigned;
      if c == 115 {
        var s := if a.NullText? then NULL_TEXT else a.s;
        PutString(s);
        count := |s|;
      } else if c == 99 {
        PutString([a.value % 256]);
        count := 1;
      } else if c == 117 {
        BufferFitsExactly(10);
        count := PrintUnsigned(a.value, 10);
      } else if c == 120 {
        ghost var start := State();
        PutString([ZERO, 120]);
        PutAllConcat(start, [ZERO, 120], Unsigned(a.value, 16));
        BufferFitsExactly(16);
        var n := PrintUnsigned(a.value, 16);
        count := 2 + n;
      } else {
        count := PrintSigned(a.value);
      }
    }

    /** One turn of the loop of `vvga_write`; `i'` stops at the end after a trailing percent sign. */
    method PrintNext(fmt: seq<nat>, args: seq<Arg>, i: nat, n: nat)
      returns (count: nat, i': nat, n': nat, ghost said: seq<nat>)
      requires Valid() && i < |fmt| && n <= |args| && Matches(fmt[i..], args[n..])
      modifies this`x, this`y, this`view, this`pending, buf, video
      ensures Valid() && State() == PutAll(old(State()), said) && count == |said|
      ensures i < i' <= |fmt| && n <= n' <= |args| && Matches(fmt[i'..], args[n'..])
      ensures Expand(fmt[i..], args[n..]) == said + Expand(fmt[i'..], args[n'..])
    {
      hide PutAll, Convert;
      ghost var rest, more := fmt[i..], args[n..];
      assert rest[0] == fmt[i];
      n' := n;
      if fmt[i] != PERCENT {
        PutString([fmt[i]]);
        count, i', said := 1, i + 1, [fmt[i]];
        assert rest[1..] == fmt[i'..];
      } else if i + 1 == |fmt| {
        count, i', said := 0, i + 1, [];
        PutNothing(State());
        assert rest == [PERCENT] && fmt[i'..] == [];
      } else if fmt[i + 1] == PERCENT {
        PutString([PERCENT]);
        count, i', said := 1, i + 2, [PERCENT];
        assert rest[2..] == fmt[i'..] && rest[1] == PERCENT;
      } else if TakesArgument(fmt[i + 1]) {
        assert rest[1] == fmt[i + 1] && more[0] == args[n];
        count := PrintArg(fmt[i + 1], args[n]);
        i', n', said := i + 2, n + 1, Convert(fmt[i + 1], args[n]);
        assert rest[2..] == fmt[i'..] && more[1..] == args[n'..];
      } else {
        PutString([PERCENT, fmt[i + 1]]);
        count, i', said := 2, i + 2, [PERCENT, fmt[i + 1]];
        assert rest[2..] == fmt[i'..] && rest[1] == fmt[i + 1];
      }
    }

    /** `vvga_write`: prints exactly the expansion of the format and returns its length. */
    method VWrite(fmt: seq<nat>, args: seq<Arg>) returns (count: nat)
      requires Valid() && Matches(fmt, args)
      modifies this`x, this`y, this`view, this`pending, buf, video
      ensures Valid() && State() == PutAll(old(State()), Expand(fmt, args))
      ensures count == |Expand(fmt, args)|
    {
      hide PutAll, Expand, Matches;
      ghost var start, done := State(), [];
      count := 0;
      var i, n := 0, 0;
      PutNothing(start);
      assert fmt[0..] == fmt && args[0..] == args;
      while i < |fmt|
        invariant Valid() && 0 <= i <= |fmt| && 0 <= n <= |args| && Matches(fmt[i..], args[n..])
        invariant State() == PutAll(start, done) && count == |done|
        invariant done + Expand(fmt[i..], args[n..]) == Expand(fmt, args)
        decreases |fmt| - i
      {
        var k, i', n', said := PrintNext(fmt, args, i, n);
        count, i, n := count + k, i', n';
        PutAllConcat(start, done, said);
        ghost var after := Expand(fmt[i..], args[n..]);
        assert done + (said + after) == (done + said) + after;
        done := done + said;
      }
      assert fmt[i..] == [];
      NothingLeft(args[n..]);
      assert done + [] == done;
    }

    // ----- The public calls -----

    method Putchar(c: nat)
      requires Valid()
      modifies this`x, this`y, this`view, this`pending, buf, video
      ensures Valid() && State() == Apply(old(State()), PutChar(c))
    {
      hide PutRaw;
      PutcharRaw(c);
      FlushScreen();
    }

    method WriteString(s: seq<nat>)
      requires Valid()
      modifies this`x, this`y, this`view, this`pending, buf, video
      ensures Valid() && State() == Apply(old(State()), Write(s))
    {
      hide PutAll;
      PutString(s);
      FlushScreen();
    }

    /** `fvga_write`. */
    method FWrite(fmt: seq<nat>, args: seq<Arg>) returns (count: nat)
      requires Valid() && Matches(fmt, args)
      modifies this`x, this`y, this`view, this`pending, buf, video
      ensures Valid() && State() == Apply(old(State()), Write(Expand(fmt, args)))
      ensures count == |Expand(fmt, args)|
    {
      hide PutAll, Expand;
      count := VWrite(fmt, args);
      FlushScreen();
    }

    method ClearAll()
      requires Valid()
      modifies this`x, this`y, this`view, buf, video
      ensures Valid() && State() == Apply(old(State()), Clear)
    {
      for line := 0 to LINES
        invariant forall i :: 0 <= i < line * WIDTH ==> buf[i] == BLANK
      {
        for col := 0 to WIDTH
          invariant forall i :: 0 <= i < line * WIDTH + col ==> buf[i] == BLANK
        {
          buf[line * WIDTH + col] := BLANK;
        }
      }
      x, y, view := 0, 0, 0;
      for line := 0 to HEIGHT
        invariant x == 0 && y == 0 && view == 0 && forall i :: 0 <= i < BUFFER ==> buf[i] == BLANK
        invariant forall i :: 0 <= i < line * WIDTH ==> video[i] == BLANK
      {
        for col := 0 to WIDTH
          invariant x == 0 && y == 0 && view == 0 && forall i :: 0 <= i < BUFFER ==> buf[i] == BLANK
          invariant forall i :: 0 <= i < line * WIDTH + col ==> video[i] == BLANK
        {
          video[line * WIDTH + col] := BLANK;
        }
      }
      assert buf[..] == Blanks(BUFFER) && video[..] == Blanks(SCREEN);
    }

    method Scroll(op: Op)
      requires Valid() && (op == ScrollUp || op == ScrollDown || op == PageUp || op == PageDown)
      modifies this`view, video
      ensures Valid() && State() == Apply(old(State()), op)
    {
      var maxView := if y >= HEIGHT then y - HEIGHT + 1 else 0;
      match op
      case ScrollUp =>
        if view > 0 {
          view := view - 1;
          RenderScreen();
        }
      case ScrollDown =>
        if view < maxView {
          view := view + 1;
          RenderScreen();
        }
      case PageUp =>
        view := if view >= HEIGHT then view - HEIGHT else 0;
        RenderScreen();
      case PageDown =>
        view := view + HEIGHT;
        if view > maxView {
          view := maxView;
        }
        RenderScreen();
    }
  }

  lemma DigitsStep(n: nat, base: nat)
    requires 2 <= base <= 16
    ensures n == 0 ==> Digits(n, base) == []
    ensures n > 0 ==> Digits(n, base) == Digits(Rest(n, base), base) + [DigitChar(Last(n, base))]
  {
  }

  lemma NothingLeft(args: seq<Arg>)
    ensures Matches([], args) && Expand([], args) == []
  {
  }

  lemma PutNothing(t: Term)
    requires Terminal.Shape(t)
    ensures PutAll(t, []) == t
  {
  }
}
