/** The state kept by the curses screens of figma_tui.py: the checkbox list of
    `curses_checkbox_selection` (cursor, scroll offset, one flag per item) and
    the prompt shortening of `curses_input_dialog`. Drawing is left out; the
    terminal is an input of one event per loop iteration (its height when the
    screen is drawn and the key `getch` then returns). */
module ExporterTui {
  import opened Common

  /** `curses.KEY_DOWN` and `curses.KEY_UP`. */
  const KeyDownCode: int := 258
  const KeyUpCode: int := 259
  /** `display_height = height - 8`: rows kept for the title, status and help lines. */
  const ReservedRows: int := 8

  /** What a key does on the checkbox screen. */
  datatype Command = Cancel | Down | Up | Toggle | ToggleAll | Confirm | Ignore

  /** The `if`/`elif` chain on the key code (the codes are pairwise distinct,
      so the order of the tests does not matter). */
  function CommandOf(key: int): (c: Command)
    ensures c == Cancel <==> key == 'q' as int || key == 'Q' as int
    ensures c == Down <==> key == KeyDownCode || key == 'j' as int || key == 'J' as int
    ensures c == Up <==> key == KeyUpCode || key == 'k' as int || key == 'K' as int
    ensures c == Toggle <==> key == ' ' as int
    ensures c == ToggleAll <==> key == 'a' as int || key == 'A' as int
    ensures c == Confirm <==> key == '\n' as int
  {
    if key == 'q' as int || key == 'Q' as int then Cancel
    else if key == KeyDownCode || key == 'j' as int || key == 'J' as int then Down
    else if key == KeyUpCode || key == 'k' as int || key == 'K' as int then Up
    else if key == ' ' as int then Toggle
    else if key == 'a' as int || key == 'A' as int then ToggleAll
    else if key == '\n' as int then Confirm
    else Ignore
  }

  /** How one run of the selection screen ends. `Raised` is the exception the
      screen raises on an empty list (`% len(items)` divides by zero,
      `selected[0]` is out of range); `Waiting` means the given keys ran out
      before a decision. */
  datatype Outcome<T> = Waiting | Returned(chosen: seq<T>) | Raised

  /** `all(selected)`. */
  predicate AllChecked(flags: seq<bool>) {
    forall i :: 0 <= i < |flags| ==> flags[i]
  }

  function Zip<T>(items: seq<T>, flags: seq<bool>): (r: seq<(T, bool)>)
    requires |items| == |flags|
    ensures |r| == |items|
    ensures forall i :: 0 <= i < |r| ==> r[i] == (items[i], flags[i])
  {
    seq(|items|, i requires 0 <= i < |items| => (items[i], flags[i]))
  }

  function Pick<T>(entry: (T, bool)): Option<T> {
    if entry.1 then Some(entry.0) else None
  }

  /** `[items[i] for i, sel in enumerate(selected) if sel]`. */
  function CheckedItems<T>(items: seq<T>, flags: seq<bool>): (r: seq<T>)
    requires |items| == |flags|
    ensures |r| <= |items|
  {
    FilterMap(Zip(items, flags), Pick)
  }

  /** Enter returns exactly the checked items, in list order: the k-th result
      is the item at the k-th checked position, and a position is used exactly
      when its flag is set. */
  lemma CheckedItemsInOrder<T>(items: seq<T>, flags: seq<bool>)
    requires |items| == |flags|
    ensures var out, idx := CheckedItems(items, flags), KeptIndices(Zip(items, flags), Pick);
      && |out| == |idx| <= |items|
      && (forall k :: 0 <= k < |idx| ==> idx[k] < |items| && flags[idx[k]] && out[k] == items[idx[k]])
      && (forall k, l :: 0 <= k < l < |idx| ==> idx[k] < idx[l])
      && (forall i :: 0 <= i < |items| ==> (flags[i] <==> i in idx))
  {
    var zipped := Zip(items, flags);
    FilterMapIsOrderedFilter(zipped, Pick);
    assert forall i :: 0 <= i < |zipped| ==> (Pick(zipped[i]).Some? <==> flags[i]);
  }

  /** With every flag set, Enter returns the whole list. */
  lemma {:induction false} CheckedItemsAll<T>(items: seq<T>, flags: seq<bool>)
    requires |items| == |flags| && AllChecked(flags)
    ensures CheckedItems(items, flags) == items
    decreases |items|
  {
    if items != [] {
      var n := |items| - 1;
      CheckedItemsAll(items[..n], flags[..n]);
      assert Zip(items, flags)[..n] == Zip(items[..n], flags[..n]);
      assert items[..n] + [items[n]] == items;
    }
  }

  /** With no flag set, Enter returns nothing. */
  lemma {:induction false} CheckedItemsNone<T>(items: seq<T>, flags: seq<bool>)
    requires |items| == |flags| && forall i :: 0 <= i < |flags| ==> !flags[i]
    ensures CheckedItems(items, flags) == []
    decreases |items|
  {
    if items != [] {
      var n := |items| - 1;
      CheckedItemsNone(items[..n], flags[..n]);
      assert Zip(items, flags)[..n] == Zip(items[..n], flags[..n]);
    }
  }

  /** The scroll rule run before each redraw: scroll up to the cursor when it
      is above the window, scroll down just enough when it is below. */
  function AdjustedOffset(pos: int, offset: int, displayHeight: int): (r: int)
    ensures displayHeight > 0 ==> r <= pos < r + displayHeight
    ensures 0 <= pos && 0 <= offset ==> 0 <= r
    ensures offset <= pos < offset + displayHeight ==> r == offset
    ensures offset <= pos && pos >= offset + displayHeight ==> r + displayHeight == pos + 1
    ensures pos < offset ==> r == pos
  {
    if pos < offset then pos
    else if pos >= offset + displayHeight then pos - displayHeight + 1
    else offset
  }

  /** Number of rows drawn: `range(min(display_height, len(items) - scroll_offset))`. */
  function RowCount(offset: int, displayHeight: int, count: int): (rows: nat)
    ensures rows == 0 || (rows <= displayHeight && offset + rows <= count)
    ensures 0 < displayHeight && offset < count ==> 0 < rows
    ensures rows > 0 ==> rows == displayHeight || offset + rows == count
    ensures rows == 0 ==> displayHeight <= 0 || count <= offset
  {
    var m := if displayHeight < count - offset then displayHeight else count - offset;
    if m < 0 then 0 else m
  }

  /** After the scroll rule the cursor's item is one of the rows drawn. */
  lemma CursorRowDrawn(pos: int, offset: int, displayHeight: int, count: int)
    requires 0 <= pos < count && displayHeight > 0
    ensures var r := AdjustedOffset(pos, offset, displayHeight);
      r <= pos < r + RowCount(r, displayHeight, count)
  {
  }

  /** The checkbox screen's state. The list the source rebinds on `a`
      (`selected = [...] * len(items)`) is filled in place here; no other
      reference to it exists. */
  class CheckboxSelection<T> {
    const items: seq<T>
    const selected: array<bool>
    var currentPos: int
    var scrollOffset: int

    ghost predicate Valid()
      reads this
    {
      && selected.Length == |items|
      && 0 <= currentPos
      && (|items| > 0 ==> currentPos < |items|)
      && (|items| == 0 ==> currentPos == 0)
      && 0 <= scrollOffset
    }

    function Flags(): seq<bool>
      reads this, selected
    {
      selected[..]
    }

    /** `selected = [False] * len(items)`, `current_pos = 0`, `scroll_offset = 0`. */
    constructor (items: seq<T>)
      ensures Valid() && fresh(selected)
      ensures this.items == items
      ensures Flags() == seq(|items|, _ => false)
      ensures currentPos == 0 && scrollOffset == 0
    {
      this.items := items;
      selected := new bool[|items|](_ => false);
      currentPos := 0;
      scrollOffset := 0;
    }

    /** The scroll adjustment at the top of each loop iteration. */
    method AdjustScroll(screenHeight: int)
      requires Valid()
      modifies this`scrollOffset
      ensures Valid()
      ensures scrollOffset == AdjustedOffset(currentPos, old(scrollOffset), screenHeight - ReservedRows)
      ensures screenHeight - ReservedRows > 0 ==>
                scrollOffset <= currentPos < scrollOffset + (screenHeight - ReservedRows)
    {
      var displayHeight := screenHeight - ReservedRows;
      if currentPos < scrollOffset {
        scrollOffset := currentPos;
      } else if currentPos >= scrollOffset + displayHeight {
        scrollOffset := currentPos - displayHeight + 1;
      }
    }

    /** `current_pos = (current_pos + 1) % len(items)`: the cursor moves down
        one row and wraps from the last item to the first. */
    method MoveDown()
      requires Valid() && |items| > 0
      modifies this`currentPos
      ensures Valid()
      ensures currentPos == (if old(currentPos) == |items| - 1 then 0 else old(currentPos) + 1)
    {
      currentPos := (currentPos + 1) % |items|;
    }

    /** `current_pos = (current_pos - 1) % len(items)`: Python's modulo is never
        negative, so the cursor wraps from the first item to the last. */
    method MoveUp()
      requires Valid() && |items| > 0
      modifies this`currentPos
      ensures Valid()
      ensures currentPos == (if old(currentPos) == 0 then |items| - 1 else old(currentPos) - 1)
    {
      currentPos := (currentPos - 1) % |items|;
    }

    /** `selected[current_pos] = not selected[current_pos]`. */
    method ToggleCurrent()
      requires Valid() && |items| > 0
      modifies selected
      ensures Flags() == old(Flags())[currentPos := !old(Flags())[currentPos]]
    {
      selected[currentPos] := !selected[currentPos];
    }

    /** `selected = [not all(selected)] * len(items)`. */
    method ToggleAllFlags()
      requires Valid()
      modifies selected
      ensures Flags() == seq(|items|, _ => !AllChecked(old(Flags())))
    {
      var allSelected := AllChecked(selected[..]);
      forall i | 0 <= i < selected.Length {
        selected[i] := !allSelected;
      }
    }

    /** One key press. */
    method HandleKey(key: Command) returns (outcome: Outcome<T>)
      requires Valid()
      modifies this, selected
      ensures Valid()
      ensures scrollOffset == old(scrollOffset)
      ensures key == Cancel ==>
        outcome == Returned([]) && Flags() == old(Flags()) && currentPos == old(currentPos)
      ensures key == Down ==>
        if |items| == 0 then outcome == Raised
        else (outcome == Waiting && Flags() == old(Flags())
              && currentPos == (if old(currentPos) == |items| - 1 then 0 else old(currentPos) + 1))
      ensures key == Up ==>
        if |items| == 0 then outcome == Raised
        else (outcome == Waiting && Flags() == old(Flags())
              && currentPos == (if old(currentPos) == 0 then |items| - 1 else old(currentPos) - 1))
      ensures key == Toggle ==>
        if |items| == 0 then outcome == Raised
        else (outcome == Waiting && currentPos == old(currentPos)
              && Flags() == old(Flags())[currentPos := !old(Flags())[currentPos]])
      ensures key == ToggleAll ==>
        outcome == Waiting && currentPos == old(currentPos)
        && Flags() == seq(|items|, _ => !AllChecked(old(Flags())))
      ensures key == Confirm ==>
        outcome == Returned(CheckedItems(items, old(Flags())))
        && Flags() == old(Flags()) && currentPos == old(currentPos)
      ensures key == Ignore ==>
        outcome == Waiting && Flags() == old(Flags()) && currentPos == old(currentPos)
    {
      outcome := Waiting;
      match key
      case Cancel =>
        outcome := Returned([]);
      case Down =>
        if |items| == 0 {
          outcome := Raised;
        } else {
          MoveDown();
        }
      case Up =>
        if |items| == 0 {
          outcome := Raised;
        } else {
          MoveUp();
        }
      case Toggle =>
        if |items| == 0 {
          outcome := Raised;
        } else {
          ToggleCurrent();
        }
      case ToggleAll =>
        ToggleAllFlags();
      case Confirm =>
        outcome := Returned(CheckedItems(items, selected[..]));
      case Ignore =>
    }
  }

  /** One iteration of the screen's `while True` loop: the terminal height when
      it redraws and the key `getch` returns. */
  datatype Event = Event(screenHeight: int, key: int)

  /** `curses_checkbox_selection(stdscr, items)` driven by `events`. A
      returned list is always some choice of the items in their order; the
      screen can only raise on an empty list. */
  method Select<T>(items: seq<T>, events: seq<Event>) returns (outcome: Outcome<T>)
    ensures outcome.Raised? ==> items == []
    ensures outcome.Returned? ==>
      exists flags: seq<bool> :: |flags| == |items| && outcome.chosen == CheckedItems(items, flags)
    ensures events == [] ==> outcome == Waiting
  {
    var screen := new CheckboxSelection(items);
    outcome := Waiting;
    var i := 0;
    while i < |events|
      invariant 0 <= i <= |events|
      invariant screen.Valid() && screen.items == items && fresh(screen.selected)
      invariant outcome == Waiting
    {
      screen.AdjustScroll(events[i].screenHeight);
      ghost var flags := screen.Flags();
      outcome := screen.HandleKey(CommandOf(events[i].key));
      if !outcome.Waiting? {
        if outcome.Returned? {
          assert outcome.chosen == CheckedItems(items, flags) || outcome.chosen == [];
          assert CheckedItems(items, seq(|items|, _ => false)) == [] by {
            CheckedItemsNone(items, seq(|items|, _ => false));
          }
        }
        return;
      }
      i := i + 1;
    }
  }

  /** `prompt[:k]` with Python's meaning of a negative `k` (count from the end). */
  function PrefixSlice(s: string, k: int): (r: string)
    ensures r <= s
    ensures 0 <= k ==> |r| == (if k < |s| then k else |s|)
    ensures k < 0 ==> |r| == (if |s| + k < 0 then 0 else |s| + k)
  {
    if k >= 0 then s[..if k < |s| then k else |s|]
    else s[..if |s| + k < 0 then 0 else |s| + k]
  }

  /** `dialog_width = min(width - 8, 70)`. */
  function DialogWidth(screenWidth: int): (w: int)
    ensures w <= 70 && w <= screenWidth - 8
    ensures w == 70 || w == screenWidth - 8
  {
    if screenWidth - 8 < 70 then screenWidth - 8 else 70
  }

  /** The prompt as `curses_input_dialog` draws it: cut to
      `max_prompt_width - 3` characters plus `...` when it is too long for the
      dialog. It fits whenever the dialog leaves room for the ellipsis. */
  function TruncatePrompt(prompt: string, screenWidth: int): (r: string)
    ensures var maxWidth := DialogWidth(screenWidth) - 4;
      |prompt| <= maxWidth ==> r == prompt
    ensures var maxWidth := DialogWidth(screenWidth) - 4;
      maxWidth >= 3 ==> |r| <= maxWidth
    ensures var maxWidth := DialogWidth(screenWidth) - 4;
      (|prompt| > maxWidth >= 3 ==> |r| == maxWidth && r == prompt[..maxWidth - 3] + "...")
    ensures var maxWidth := DialogWidth(screenWidth) - 4;
      (|prompt| > maxWidth ==> |r| >= 3 && r[|r| - 3..] == "..." && r[..|r| - 3] <= prompt)
    ensures var maxWidth := DialogWidth(screenWidth) - 4;
      var kept := if |prompt| + maxWidth < 3 then 0 else |prompt| + maxWidth - 3;
      (|prompt| > maxWidth && maxWidth < 3 ==> kept <= |prompt| && r == prompt[..kept] + "...")
  {
    var maxWidth := DialogWidth(screenWidth) - 4;
    if |prompt| > maxWidth then PrefixSlice(prompt, maxWidth - 3) + "..." else prompt
  }

  /** On a screen narrower than 15 columns the cut index `max_prompt_width - 3`
      is negative and counts from the end of the prompt, so the drawn prompt
      is longer than the room the dialog has for it. */
  lemma NarrowScreenPromptOverflows()
    ensures DialogWidth(14) - 4 == 2
    ensures |TruncatePrompt("abcdefghij", 14)| == 12
  {
  }
}
