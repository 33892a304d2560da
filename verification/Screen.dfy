/** The text screen: characters, scrolling and numbers (drivers/screen.c). */
module Screen {
  import opened Machine

  const MAX_ROWS := 25
  const MAX_COLS := 80
  const CELLS := 2000
  /** The text-mode window from VIDEO_ADDRESS on, of which the screen is the beginning. */
  const VIDEO := 0x8000
  const LAST_ROW := 1920
  const WHITE_ON_BLACK: u8 := 0x0F
  const SPACE: u8 := 0x20
  const BACKSPACE: u8 := 8
  const TAB: u8 := 9
  const NEWLINE: u8 := 10

  /** get_screen_offset: two bytes a cell. */
  function GetScreenOffset(col: int, row: int): int {
    2 * (row * MAX_COLS + col)
  }

  /** What is on the screen and where the cursor stands, counted in cells. */
  datatype View = View(video: seq<u8>, cursor: nat) {
    ghost predicate Sane() { |video| == VIDEO && cursor < CELLS }

    function Character(cell: nat): u8
      requires |video| == VIDEO && cell < VIDEO / 2
    {
      video[2 * cell]
    }
  }

  // ----- scrolling -----

  /** Every row moves up by one. Of the last row all cells but the rightmost become blank. */
  function Scrolled(video: seq<u8>): (r: seq<u8>)
    requires |video| == VIDEO
    ensures |r| == VIDEO
  {
    seq(VIDEO, i requires 0 <= i < VIDEO => ScrolledByte(video, i))
  }

  function ScrolledByte(video: seq<u8>, i: nat): u8
    requires |video| == VIDEO && i < VIDEO
  {
    if i < 2 * LAST_ROW then video[i + 2 * MAX_COLS]
    else if i >= 2 * CELLS - 2 then video[i]
    else if i % 2 == 0 then SPACE else WHITE_ON_BLACK
  }

  /** The last row is blank after scrolling exactly when its rightmost cell was blank before. */
  lemma LastRowBlankIff(video: seq<u8>)
    requires |video| == VIDEO
    ensures (forall cell :: LAST_ROW <= cell < CELLS ==> View(Scrolled(video), 0).Character(cell) == SPACE)
       <==> View(video, 0).Character(CELLS - 1) == SPACE
  {
    assert View(Scrolled(video), 0).Character(CELLS - 1) == View(video, 0).Character(CELLS - 1);
  }

  // ----- characters -----

  function SetCell(video: seq<u8>, cell: nat, character: u8): (r: seq<u8>)
    requires 2 * cell + 1 < |video|
    ensures |r| == |video|
  {
    video[2 * cell := character][2 * cell + 1 := WHITE_ON_BLACK]
  }

  /** One character at the cursor, which may move past the last cell. */
  function Typed(view: View, character: u8): (r: View)
    requires |view.video| == VIDEO && view.cursor < VIDEO / 2
    ensures |r.video| == VIDEO && (view.cursor < CELLS ==> r.cursor < CELLS + MAX_COLS)
  {
    var (video, cursor) := (view.video, view.cursor);
    if character == NEWLINE then View(video, (cursor / MAX_COLS + 1) * MAX_COLS)
    else if character == TAB then View(video, cursor + 8)
    else if character == BACKSPACE then
      if cursor == 0 then view else View(SetCell(video, cursor - 1, SPACE), cursor - 1)
    else View(SetCell(video, cursor, character), cursor + 1)
  }

  /** The screen after scrolling, if the cursor is past the last cell. */
  function Settled(view: View): View
    requires |view.video| == VIDEO
  {
    if view.cursor >= CELLS then View(Scrolled(view.video), view.cursor - MAX_COLS) else view
  }

  function Put(view: View, character: u8): (r: View)
    requires |view.video| == VIDEO && view.cursor < VIDEO / 2
    ensures |r.video| == VIDEO && (view.Sane() ==> r.Sane())
  {
    Settled(Typed(view, character))
  }

  /**
   * From any position in video memory: one scroll brings the cursor back exactly if it has left the screen
   * by less than a row.
   */
  lemma PutSaneIff(view: View, character: u8)
    requires |view.video| == VIDEO && view.cursor < VIDEO / 2
    ensures Put(view, character).Sane() <==> Typed(view, character).cursor < CELLS + MAX_COLS
  {
  }

  // ----- what a character does, cell by cell -----

  predicate CellIs(video: seq<u8>, cell: nat, character: u8, attribute: u8) {
    2 * cell + 1 < |video| && video[2 * cell] == character && video[2 * cell + 1] == attribute
  }

  predicate IsBlank(video: seq<u8>, cell: nat) {
    CellIs(video, cell, ' ' as u8, 0x0F)
  }

  /** A cell shows what was in this one before, or the new character if this is the one that changes. */
  predicate Keeps(video: seq<u8>, cell: nat, before: seq<u8>, was: nat, changed: int, character: u8)
    requires 2 * was + 1 < |before|
  {
    if was == changed then CellIs(video, cell, character, 0x0F)
    else CellIs(video, cell, before[2 * was], before[2 * was + 1])
  }

  /** A cell keeps what is in it. */
  predicate Stays(video: seq<u8>, cell: nat, before: seq<u8>, changed: int, character: u8)
    requires 2 * cell + 1 < |before|
  {
    Keeps(video, cell, before, cell, changed, character)
  }

  /** A cell takes what is one row below. */
  predicate Rises(video: seq<u8>, cell: nat, before: seq<u8>, changed: int, character: u8)
    requires 2 * (cell + 80) + 1 < |before|
  {
    Keeps(video, cell, before, cell + 80, changed, character)
  }

  /**
   * At most one cell of the screen has changed and the cursor has moved to this cell; if that is below the last
   * row, everything stands one row higher, over a row of blanks that is one cell short.
   */
  ghost predicate Becomes(before: seq<u8>, after: View, changed: int, character: u8, cursor: nat)
    requires |before| == 0x8000
  {
    if cursor < 80 * 25 then
      && after.cursor == cursor && |after.video| == 0x8000
      && forall cell: nat :: cell < 0x4000 ==> Stays(after.video, cell, before, changed, character)
    else
      && after.cursor == cursor - 80 && |after.video| == 0x8000
      && (forall cell: nat :: cell < 80 * 24 ==> Rises(after.video, cell, before, changed, character))
      && (forall cell: nat :: 80 * 24 <= cell < 80 * 25 - 1 ==> IsBlank(after.video, cell))
      && (forall cell: nat :: 80 * 25 - 1 <= cell < 0x4000 ==> Stays(after.video, cell, before, changed, character))
  }

  /** A newline leads to the next row, a tab eight cells on, a backspace one back; the rest is shown. */
  ghost predicate Printed(before: seq<u8>, at: nat, character: u8, after: View)
    requires |before| == 0x8000
  {
    if character == '\n' as u8 then Becomes(before, after, -1, 0, at - at % 80 + 80)
    else if character == '\t' as u8 then Becomes(before, after, -1, 0, at + 8)
    else if character == 8 then
      if at == 0 then Becomes(before, after, -1, 0, 0) else Becomes(before, after, at - 1, ' ' as u8, at - 1)
    else Becomes(before, after, at, character, at + 1)
  }

  lemma SettledBecomes(before: seq<u8>, typed: View, changed: int, character: u8)
    requires |before| == |typed.video| == VIDEO
    requires forall cell: nat :: cell < 0x4000 ==> Stays(typed.video, cell, before, changed, character)
    ensures Becomes(before, Settled(typed), changed, character, typed.cursor)
  {
    var after := Settled(typed);
    if typed.cursor >= CELLS {
      forall cell: nat | cell < 80 * 24
        ensures Rises(after.video, cell, before, changed, character)
      {
        assert Stays(typed.video, cell + 80, before, changed, character);
      }
      forall cell: nat | 80 * 25 - 1 <= cell < 0x4000
        ensures Stays(after.video, cell, before, changed, character)
      {
        assert Stays(typed.video, cell, before, changed, character);
      }
    }
  }

  /** What every character does, wherever the cursor is. */
  lemma PutPrints(view: View, character: u8)
    requires |view.video| == VIDEO && view.cursor < VIDEO / 2
    ensures Printed(view.video, view.cursor, character, Put(view, character))
  {
    hide Settled, Becomes;
    var typed := Typed(view, character);
    var (changed, shown) :=
      if character == NEWLINE || character == TAB || (character == BACKSPACE && view.cursor == 0) then (-1, 0)
      else if character == BACKSPACE then (view.cursor - 1, SPACE)
      else (view.cursor, character);
    SettledBecomes(view.video, typed, changed, shown);
  }

  function PutAll(view: View, text: seq<u8>): (r: View)
    requires view.Sane()
    ensures r.Sane()
    decreases |text|
  {
    if text == [] then view else Put(PutAll(view, text[..|text| - 1]), text[|text| - 1])
  }

  lemma {:induction false} PutMore(view: View, a: seq<u8>, b: seq<u8>)
    requires view.Sane()
    ensures PutAll(view, a + b) == PutAll(PutAll(view, a), b)
    decreases |b|
  {
    hide Put;
    if b == [] {
      assert a + b == a;
    } else {
      var n := |b| - 1;
      PutMore(view, a, b[..n]);
      assert (a + b)[..|a + b| - 1] == a + b[..n];
    }
  }

  predicate Plain(text: seq<u8>) {
    forall i :: 0 <= i < |text| ==> text[i] != NEWLINE && text[i] != TAB && text[i] != BACKSPACE
  }

  /** The cells before the cursor hold this text. */
  ghost predicate Shows(view: View, text: seq<u8>) {
    && view.Sane()
    && |text| <= view.cursor
    && forall i :: 0 <= i < |text| ==> view.Character(view.cursor - |text| + i) == text[i]
  }

  /** Text that fits above the last row stands in front of the cursor, however often the screen scrolled. */
  lemma {:induction false} TextIsShown(view: View, text: seq<u8>)
    requires view.Sane() && Plain(text) && |text| <= LAST_ROW
    ensures Shows(PutAll(view, text), text)
  {
    hide Put;
    if text != [] {
      var n := |text| - 1;
      TextIsShown(view, text[..n]);
      ShowsOneMore(PutAll(view, text[..n]), text[..n], text[n]);
      assert text[..n] + [text[n]] == text;
    }
  }

  lemma ShowsOneMore(view: View, text: seq<u8>, character: u8)
    requires Shows(view, text) && Plain([character]) && |text| < LAST_ROW
    ensures Shows(Put(view, character), text + [character])
  {
    assert [character][0] == character;
    var after := SetCell(view.video, view.cursor, character);
    assert forall cell :: 0 <= cell < view.cursor ==> after[2 * cell] == view.Character(cell);
  }

  /** The video memory and the cursor register. */
  class Display {
    const video: array<u8>
    var cursor: nat

    constructor (video: array<u8>)
      requires video.Length == VIDEO
      ensures this.video == video && cursor == 0
    {
      this.video, cursor := video, 0;
    }

    ghost predicate Valid()
      reads this, video
    {
      Contents().Sane()
    }

    ghost function Contents(): View
      reads this, video
    {
      View(video[..], cursor)
    }

    /** The copying half of scroll_screen_up. */
    method MoveRowsUp()
      requires video.Length == VIDEO
      modifies video
      ensures forall i :: 0 <= i < 2 * LAST_ROW ==> video[i] == old(video[i + 2 * MAX_COLS])
      ensures forall i :: 2 * LAST_ROW <= i < VIDEO ==> video[i] == old(video[i])
    {
      ghost var was := video[..];
      for row := 0 to MAX_ROWS - 1
        invariant Moved(was, video[..], MAX_COLS * row)
      {
        for col := 0 to MAX_COLS
          invariant Moved(was, video[..], MAX_COLS * row + col)
        {
          var current, next := GetScreenOffset(col, row), GetScreenOffset(col, row + 1);
          video[current] := video[next];
          video[current + 1] := video[next + 1];
        }
      }
    }

    /** The erasing half: it stops one cell early. */
    method EraseLastRow()
      requires video.Length == VIDEO
      modifies video
      ensures forall i :: 0 <= i < 2 * LAST_ROW ==> video[i] == old(video[i])
      ensures forall i :: 2 * LAST_ROW <= i < 2 * CELLS - 2 ==> video[i] == if i % 2 == 0 then SPACE else WHITE_ON_BLACK
      ensures forall i :: 2 * CELLS - 2 <= i < VIDEO ==> video[i] == old(video[i])
    {
      var start := GetScreenOffset(0, MAX_ROWS - 1);
      for col := 0 to MAX_COLS - 1
        invariant forall i :: 0 <= i < start ==> video[i] == old(video[i])
        invariant forall i :: start <= i < start + 2 * col ==> video[i] == if i % 2 == 0 then SPACE else WHITE_ON_BLACK
        invariant forall i :: start + 2 * col <= i < VIDEO ==> video[i] == old(video[i])
      {
        video[start + 2 * col] := SPACE;
        video[start + 2 * col + 1] := WHITE_ON_BLACK;
      }
    }

    /** scroll_screen_up */
    method ScrollScreenUp()
      requires video.Length == VIDEO && MAX_COLS <= cursor
      modifies this`cursor, video
      ensures Contents() == View(Scrolled(old(video[..])), old(cursor) - MAX_COLS)
    {
      MoveRowsUp();
      EraseLastRow();
      cursor := cursor - MAX_COLS;
      assert video[..] == Scrolled(old(video[..]));
    }

    /** handle_scroll_screen */
    method HandleScrollScreen()
      requires video.Length == VIDEO
      modifies this`cursor, video
      ensures Contents() == Settled(old(Contents()))
    {
      if 2 * cursor >= GetScreenOffset(0, MAX_ROWS) {
        ScrollScreenUp();
      }
    }

    method WriteCell(offset: nat, character: u8)
      requires video.Length == VIDEO && offset < VIDEO && offset % 2 == 0
      modifies video
      ensures video[..] == SetCell(old(video[..]), offset / 2, character)
    {
      video[offset] := character;
      video[offset + 1] := WHITE_ON_BLACK;
    }

    /** What print_char does to the screen before it scrolls. */
    method Type(character: u8, start: nat) returns (offset: nat)
      requires video.Length == VIDEO && start < VIDEO && start % 2 == 0
      modifies video
      ensures View(video[..], offset / 2) == Typed(View(old(video[..]), start / 2), character)
    {
      hide SetCell;
      offset := start;
      if character == NEWLINE {
        offset := GetScreenOffset(0, offset / (2 * MAX_COLS) + 1);
      } else if character == TAB {
        offset := offset + 16;
      } else if character == BACKSPACE {
        if offset > 0 {
          offset := offset - 2;
          WriteCell(offset, SPACE);
        }
      } else {
        WriteCell(offset, character);
        offset := offset + 2;
      }
    }

    /** print_char; a negative column or row stands for the cursor, and no other position is checked. */
    method PrintChar(character: u8, col: int, row: int)
      requires video.Length == VIDEO && cursor < VIDEO / 2
      requires col >= 0 && row >= 0 ==> GetScreenOffset(col, row) < VIDEO
      modifies this`cursor, video
      ensures var at := if col >= 0 && row >= 0 then row * MAX_COLS + col else old(cursor);
        && Printed(old(video[..]), at, character, Contents())
        && Contents() == Put(View(old(video[..]), at), character)
        && (Valid() <==> Typed(View(old(video[..]), at), character).cursor < CELLS + MAX_COLS)
        && (at < CELLS ==> Valid())
    {
      hide Typed, Scrolled, Printed;
      ghost var view := View(video[..], if col >= 0 && row >= 0 then row * MAX_COLS + col else cursor);
      PutSaneIff(view, character);
      PutPrints(view, character);
      var offset := if col >= 0 && row >= 0 then GetScreenOffset(col, row) else 2 * cursor;
      offset := Type(character, offset);
      cursor := offset / 2;
      HandleScrollScreen();
    }
  }

  /** The first n cells have been overwritten by the cells one row below. */
  ghost predicate Moved(was: seq<u8>, now: seq<u8>, n: nat) {
    && |was| == |now| == VIDEO
    && n <= LAST_ROW
    && (forall i :: 0 <= i < 2 * n ==> now[i] == was[i + 2 * MAX_COLS])
    && (forall i :: 2 * n <= i < VIDEO ==> now[i] == was[i])
  }
}
