/** The kernel's text console: vga.c, on the screen buffer of 80 x 25 cells. */
module VgaConsole {
  import opened Bits
  import opened Framebuffer

  const WIDTH: nat := 80
  const HEIGHT: nat := 25
  const CELLS: nat := 2000
  const LIGHT_GREY: nat := 7
  const BLACK: nat := 0

  function ColorEntry(fg: nat, bg: nat): u8 { Or(fg, Shl(bg, 4)) % 256 }

  function Entry(uc: u8, color: u8): u16 { Or(uc, Shl(color, 8)) % 0x1_0000 }

  /** An entry is a character and its colour, and a colour is a foreground and a background. */
  lemma EntryParts(uc: u8, color: u8)
    ensures Entry(uc, color) % 256 == uc && Entry(uc, color) / 256 == color
  {
    hide Or, Pow2;
    PowersOfTwo();
    OrDisjoint(color, uc, 8);
  }

  lemma ColorParts(fg: nat, bg: nat)
    requires fg < 16 && bg < 16
    ensures ColorEntry(fg, bg) % 16 == fg && ColorEntry(fg, bg) / 16 == bg
  {
    hide Or, Pow2;
    PowersOfTwo();
    OrDisjoint(bg, fg, 4);
  }

  function DefaultColor(): u8 { ColorEntry(LIGHT_GREY, BLACK) }

  function Blank(): u16 { Entry(32, DefaultColor()) }

  /** A blank is a light grey space on black. */
  lemma BlankParts()
    ensures Blank() == 0x0720 && DefaultColor() == 7 && Entry(32, 7) == 0x0720
  {
    EntryParts(32, DefaultColor());
    ColorParts(LIGHT_GREY, BLACK);
  }

  // ------------------------------------------------------------------ the history behind a screen

  /** The cell `i` of a screen on which `w` was written: the latest write to it, or the blank. */
  function Cell(w: seq<u16>, i: nat): u16 {
    if w == [] then Blank()
    else if (|w| - 1) % CELLS == i then w[|w| - 1]
    else Cell(w[..|w| - 1], i)
  }

  /** One more write changes one cell. */
  lemma CellStep(w: seq<u16>, e: u16, i: nat)
    ensures Cell(w + [e], i) == if |w| % CELLS == i then e else Cell(w, i)
  {
  }

  /** The two-coordinate cursor counts modulo 2000. */
  lemma Advance(row: nat, column: nat, n: nat)
    requires row < HEIGHT && column < WIDTH && row * WIDTH + column == n % CELLS
    ensures (n + 1) % CELLS ==
      if column + 1 < WIDTH then row * WIDTH + column + 1 else if row + 1 < HEIGHT then (row + 1) * WIDTH else 0
  {
  }

  /** The screen shows the last 2000 writes, each at its number modulo 2000. */
  lemma {:induction false} ShowsLast(w: seq<u16>, k: nat)
    requires k < |w| <= k + CELLS
    ensures Cell(w, k % CELLS) == w[k]
  {
    if k < |w| - 1 {
      ShowsLast(w[..|w| - 1], k);
      LaterCell(k, |w| - 1);
    }
  }

  lemma LaterCell(k: nat, n: nat)
    requires k < n < k + CELLS
    ensures n % CELLS != k % CELLS
  {
  }

  /** A cell not yet reached is blank. */
  lemma {:induction false} NotReached(w: seq<u16>, i: nat)
    requires |w| <= i < CELLS
    ensures Cell(w, i) == Blank()
  {
    hide Blank;
    if w == [] {
    } else {
      NotReached(w[..|w| - 1], i);
    }
  }

  /** The number of the latest of `n` writes to cell `i`. */
  function Latest(n: nat, i: nat): nat
    requires i < n && i < CELLS
  {
    n - 1 - (n - 1 - i) % CELLS
  }

  /** Every cell, in closed form: blank until it is reached, then its latest write. */
  lemma ScreenExactly(w: seq<u16>, i: nat)
    requires i < 2000
    ensures i >= |w| ==> Cell(w, i) == 0x0720
    ensures i < |w| ==> Latest(|w|, i) < |w| && Latest(|w|, i) % 2000 == i && Cell(w, i) == w[Latest(|w|, i)]
    ensures i < |w| ==> forall k :: Latest(|w|, i) < k < |w| ==> k % 2000 != i
  {
    hide Cell, Blank, Entry;
    BlankParts();
    if i >= |w| {
      NotReached(w, i);
    } else {
      ShowsLast(w, Latest(|w|, i));
    }
  }

  // ------------------------------------------------------------------ strings

  /** The characters of a C string before its terminator. */
  function Text(str: seq<u8>): (t: seq<u8>)
    ensures |t| <= |str| && t == str[..|t|] && 0 !in t
    ensures 0 in str ==> |t| < |str| && str[|t|] == 0
  {
    if str == [] || str[0] == 0 then [] else [str[0]] + Text(str[1..])
  }

  /** `n` is the index of the first zero. */
  predicate FirstZero(str: seq<u8>, n: nat) {
    n < |str| && str[n] == 0 && forall k | 0 <= k < n :: str[k] != 0
  }

  lemma {:induction false} TextLength(str: seq<u8>, n: nat)
    requires FirstZero(str, n)
    ensures Text(str) == str[..n]
  {
    if n == 0 {
    } else {
      TextLength(str[1..], n - 1);
    }
  }

  method Strlen(str: seq<u8>) returns (len: nat)
    requires 0 in str
    ensures len == |Text(str)| && FirstZero(str, len)
  {
    len := 0;
    while str[len] != 0
      invariant len <= |Text(str)| && forall k :: 0 <= k < len ==> str[k] != 0
      decreases |str| - len
    {
      assert len < |Text(str)|;
      len := len + 1;
    }
  }

  function Entries(t: seq<u8>, color: u8): seq<u16> {
    seq(|t|, i requires 0 <= i < |t| => Entry(t[i], color))
  }

  /** The characters of `t`, in this order and all in one colour, follow what was written before. */
  predicate Appended(w: seq<u16>, w': seq<u16>, t: seq<u8>, color: u8) {
    && |w'| == |w| + |t| && w'[..|w|] == w
    && forall k | 0 <= k < |t| :: w'[|w| + k] % 256 == t[k] && w'[|w| + k] / 256 == color
  }

  lemma AppendedText(w: seq<u16>, str: seq<u8>, color: u8)
    ensures forall n: nat :: FirstZero(str, n) ==> Appended(w, w + Entries(Text(str), color), str[..n], color)
  {
    hide Entry;
    forall n: nat | FirstZero(str, n)
      ensures Appended(w, w + Entries(Text(str), color), str[..n], color)
    {
      TextLength(str, n);
      forall k | 0 <= k < n { EntryParts(str[k], color); }
    }
  }

  // ------------------------------------------------------------------ runs of commands

  datatype Command = PutChar(c: u8) | Puts(str: seq<u8>) | SetColor(color: u8)

  function Writes(command: Command, color: u8): seq<u16> {
    match command
    case PutChar(c) => [Entry(c, color)]
    case Puts(s) => Entries(Text(s), color)
    case SetColor(_) => []
  }

  function NextColor(command: Command, color: u8): u8 {
    if command.SetColor? then command.color else color
  }

  /** The entries that a run of commands writes, in the colours then in effect. */
  function History(commands: seq<Command>, color: u8): seq<u16> {
    if commands == [] then []
    else Writes(commands[0], color) + History(commands[1..], NextColor(commands[0], color))
  }

  function LastColor(commands: seq<Command>, color: u8): u8 {
    if commands == [] then color else LastColor(commands[1..], NextColor(commands[0], color))
  }

  lemma HistoryStep(commands: seq<Command>, k: nat, color: u8)
    requires k < |commands|
    ensures var next := NextColor(commands[k], color);
      && History(commands[k..], color) == Writes(commands[k], color) + History(commands[k + 1..], next)
      && LastColor(commands[k..], color) == LastColor(commands[k + 1..], next)
  {
    assert commands[k..][1..] == commands[k + 1..];
  }

  lemma HistoryEnds(color: u8)
    ensures History([], color) == [] && LastColor([], color) == color
  {
  }

  /** The characters that a command writes. */
  ghost predicate Characters(command: Command, t: seq<u8>) {
    match command
    case PutChar(c) => t == [c]
    case Puts(s) => exists n: nat :: FirstZero(s, n) && t == s[..n]
    case SetColor(_) => t == []
  }

  /** Command `i` is the last one to set a colour, and sets this one. */
  predicate SetsLast(commands: seq<Command>, i: nat, color: u8) {
    && i < |commands| && commands[i] == SetColor(color)
    && forall j | i < j < |commands| :: !commands[j].SetColor?
  }

  /** The colour in effect after some commands: that of the last one to set a colour, or else the first colour. */
  ghost predicate InEffect(commands: seq<Command>, first: u8, color: u8) {
    || (color == first && forall i :: 0 <= i < |commands| ==> !commands[i].SetColor?)
    || exists i: nat :: SetsLast(commands, i, color)
  }

  lemma {:induction false} LastColorInEffect(commands: seq<Command>, first: u8)
    ensures InEffect(commands, first, LastColor(commands, first))
  {
    if commands == [] {
    } else {
      var color, next := LastColor(commands, first), NextColor(commands[0], first);
      LastColorInEffect(commands[1..], next);
      if i: nat :| SetsLast(commands[1..], i, color) {
        assert SetsLast(commands, i + 1, color);
      } else if commands[0].SetColor? {
        assert SetsLast(commands, 0, color);
      }
    }
  }

  lemma {:induction false} HistorySplit(commands: seq<Command>, j: nat, color: u8)
    requires j <= |commands|
    ensures var c := LastColor(commands[..j], color);
      && History(commands, color) == History(commands[..j], color) + History(commands[j..], c)
      && LastColor(commands, color) == LastColor(commands[j..], c)
    decreases j
  {
    hide Writes, NextColor, History, LastColor;
    if j == 0 {
      HistoryEnds(color);
      assert commands[..0] == [] && commands[0..] == commands;
    } else {
      var rest, next := commands[1..], NextColor(commands[0], color);
      HistorySplit(rest, j - 1, next);
      HistoryStep(commands, 0, color);
      HistoryStep(commands[..j], 0, color);
      assert commands[0..] == commands && commands[..j][0..] == commands[..j];
      assert commands[..j][1..] == rest[..j - 1] && rest[j - 1..] == commands[j..];
      var before, after := History(rest[..j - 1], next), History(commands[j..], LastColor(rest[..j - 1], next));
      Regroup(Writes(commands[0], color), before, after);
    }
  }

  lemma Regroup(a: seq<u16>, b: seq<u16>, c: seq<u16>)
    ensures a + (b + c) == (a + b) + c
  {
  }

  /** Command by command, the history grows by the command's characters in the colour in effect. */
  lemma HistoryCharacters(commands: seq<Command>, first: u8, j: nat, t: seq<u8>)
    requires j < |commands| && Characters(commands[j], t)
    ensures var color := LastColor(commands[..j], first);
      && InEffect(commands[..j], first, color)
      && Appended(History(commands[..j], first), History(commands[..j + 1], first), t, color)
      && History(commands[..j + 1], first) <= History(commands, first)
  {
    hide History, LastColor, InEffect, Entry;
    LastColorInEffect(commands[..j], first);
    HistorySplit(commands, j + 1, first);
    HistorySplit(commands[..j + 1], j, first);
    assert commands[..j + 1][..j] == commands[..j];
    var w, color := History(commands[..j], first), LastColor(commands[..j], first);
    HistoryStep(commands[..j + 1], j, color);
    assert commands[..j + 1][j + 1..] == [];
    HistoryEnds(NextColor(commands[j], color));
    match commands[j]
    case PutChar(c) => EntryParts(c, color);
    case Puts(s) => AppendedText(w, s, color);
    case SetColor(_) =>
  }

  // ------------------------------------------------------------------ the console

  class Console {
    const buffer: array<u16>
    var row: nat
    var column: nat
    var color: u8
    ghost var written: seq<u16>   // every entry written since the last initialisation

    ghost predicate Valid()
      reads this, buffer
    {
      && buffer.Length == CELLS && row < HEIGHT && column < WIDTH
      && row * WIDTH + column == |written| % CELLS
      && forall i :: 0 <= i < CELLS ==> buffer[i] == Cell(written, i)
    }

    /** The device's buffer, with whatever it shows. */
    constructor (memory: array<u16>)
      requires memory.Length == CELLS
      ensures buffer == memory
    {
      buffer := memory;
      row, column, color, written := 0, 0, 0, [];
    }

    method Initialize()
      requires buffer.Length == CELLS
      modifies this, buffer
      ensures Valid() && written == [] && row == 0 && column == 0 && color == 7
      ensures forall i :: 0 <= i < 2000 ==> buffer[i] == 0x0720
    {
      BlankParts();
      hide ColorEntry, Entry, Blank;
      row, column := 0, 0;
      color := ColorEntry(LIGHT_GREY, BLACK);
      written := [];
      var y := 0;
      while y < HEIGHT
        invariant y <= HEIGHT && row == column == 0 && color == 7 && written == []
        invariant forall i :: 0 <= i < y * WIDTH ==> buffer[i] == 0x0720
      {
        var x := 0;
        while x < WIDTH
          invariant x <= WIDTH && row == column == 0 && color == 7 && written == []
          invariant forall i :: 0 <= i < y * WIDTH + x ==> buffer[i] == 0x0720
        {
          var index := y * WIDTH + x;
          buffer[index] := Entry(32, color);
          x := x + 1;
        }
        y := y + 1;
      }
    }

    method SetColor(c: u8)
      requires Valid()
      modifies this`color
      ensures Valid() && color == c
    {
      color := c;
    }

    method PutChar(c: u8)
      requires Valid()
      modifies this`row, this`column, this`written, buffer
      ensures Valid() && written == old(written) + [Entry(c, color)]
      ensures row < 25 && column < 80 && row * 80 + column == (old(row * 80 + column) + 1) % 2000
      ensures forall i :: 0 <= i < 2000 ==>
        if i == old(row * 80 + column) then buffer[i] % 256 == c && buffer[i] / 256 == color
        else buffer[i] == old(buffer[i])
    {
      hide Cell, Entry;
      EntryParts(c, color);
      var index := row * WIDTH + column;
      Advance(row, column, |written|);
      forall i | 0 <= i < CELLS { CellStep(written, Entry(c, color), i); }
      buffer[index] := Entry(c, color);
      written := written + [Entry(c, color)];
      column := column + 1;
      if column == WIDTH {
        column := 0;
        row := row + 1;
        if row == HEIGHT {
          row := 0;
        }
      }
    }

    method Puts(str: seq<u8>)
      requires Valid() && 0 in str
      modifies this`row, this`column, this`written, buffer
      ensures Valid() && written == old(written) + Entries(Text(str), color)
      ensures forall n: nat :: FirstZero(str, n) ==> Appended(old(written), written, str[..n], color)
    {
      AppendedText(written, str, color);
      var len := Strlen(str);
      var i := 0;
      while i < len
        invariant i <= len && Valid()
        invariant written == old(written) + Entries(Text(str), color)[..i]
      {
        assert str[i] == Text(str)[i];
        PutChar(str[i]);
        i := i + 1;
      }
    }

    /** Any run of console calls. */
    method Run(commands: seq<Command>)
      requires Valid() && forall k :: 0 <= k < |commands| ==> commands[k].Puts? ==> 0 in commands[k].str
      modifies this, buffer
      ensures Valid() && written == old(written) + History(commands, old(color))
      ensures color == LastColor(commands, old(color))
    {
      hide Valid, Entries, Entry, Text, History, LastColor;
      HistoryEnds(color);
      assert commands[0..] == commands;
      var k := 0;
      while k < |commands|
        invariant k <= |commands| && Valid()
        invariant written + History(commands[k..], color) == old(written) + History(commands, old(color))
        invariant LastColor(commands[k..], color) == LastColor(commands, old(color))
        invariant History([], color) == [] && LastColor([], color) == color
      {
        ghost var w, rest := written, commands[k + 1..];
        HistoryStep(commands, k, color);
        ghost var e, next := Writes(commands[k], color), NextColor(commands[k], color);
        match commands[k] {
          case PutChar(c) => PutChar(c);
          case Puts(s) => Puts(s);
          case SetColor(c) => SetColor(c);
        }
        assert written == w + e && color == next;
        assert w + (e + History(rest, next)) == (w + e) + History(rest, next);
        k := k + 1;
        HistoryEnds(color);
      }
      assert commands[k..] == [];
    }
  }
}
