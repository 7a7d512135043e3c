/**
 * The memory-examine dialog as an object: the 67-character line buffer and
 * the 16-entry changed-byte mask are arrays updated in place, the text
 * control is the sequence of cells appended so far, and the address text
 * box is a string field. Every method is proved to move the abstract state
 * exactly as the functions of module MemoryRows say.
 */
module ExamineMemory {
  import opened MemoryRows
  import opened Numerals
  import opened Options

  class ExamineMemoryDlg {
    var text: seq<Cell>                 // the dump text control
    const lineText: array<char>         // m_LineText[67]
    const changedBytes: array<bool>     // m_ChangedBytes[16]
    var byteCounter: nat                // m_ByteCounter
    var lastRowStartingAddress: int     // m_LastRowStartingAddress (uint64)
    var previousValues: map<int, int>   // m_PreviousValues
    var highlightChanges: bool          // m_HighlightChanges
    const highlightWordSize: int        // m_HighlightWordSize
    var addressText: string             // the address text box
    var freezeAddress: bool             // m_FreezeAddress

    ghost predicate Valid()
      reads this
    {
      lineText.Length == LineWidth && changedBytes.Length == RowBytes &&
      IsAddress(lastRowStartingAddress) && IsWordSize(highlightWordSize)
    }

    /** The abstract state the methods are specified against. */
    ghost function State(): (s: DumpState)
      reads this, lineText, changedBytes
      requires Valid()
      ensures s.WellFormed()
    {
      DumpState(text, lineText[..], changedBytes[..], byteCounter, lastRowStartingAddress,
                previousValues, highlightChanges, highlightWordSize, addressText, freezeAddress)
    }

    /**
     * The constructor, with the configured highlight word size passed in
     * (it is read from the configuration, defaulting to 4).
     */
    constructor (configuredWordSize: int)
      ensures Valid() && fresh(lineText) && fresh(changedBytes)
      ensures State() == DumpState([], Blank(), NoMarks(), 0, 0, map[], true,
                                   WordSizeOrDefault(configuredWordSize), "", false)
    {
      text := [];
      lineText := new char[LineWidth];
      changedBytes := new bool[RowBytes];
      lastRowStartingAddress := 0;
      byteCounter := 0;
      previousValues := map[];
      highlightChanges := true;
      freezeAddress := false;
      addressText := "";
      highlightWordSize := WordSizeOrDefault(configuredWordSize);
      new;
      ClearMask();
      Clear();
    }

    /** Begin: highlighting on again and the mask cleared (Freeze is not modelled). */
    method Begin()
      requires Valid()
      modifies this, changedBytes
      ensures Valid() && State() == MemoryRows.Begin(old(State()))
    {
      highlightChanges := true;
      ClearMask();
    }

    /** Clear: counter and row start zero, blank line buffer, empty text; the table is kept. */
    method Clear()
      requires Valid()
      modifies this, lineText
      ensures Valid() && State() == Cleared(old(State()))
      ensures previousValues == old(previousValues)
    {
      text := [];
      lastRowStartingAddress := 0;
      byteCounter := 0;
      BlankLine();
    }

    /** ResetHighlighting: only the highlight flag changes. */
    method ResetHighlighting()
      requires Valid()
      modifies this
      ensures Valid() && State() == HighlightingOff(old(State()))
    {
      highlightChanges := false;
    }

    /** AddError: the message and a newline, outside the row machinery. */
    method AddError(err: string)
      requires Valid()
      modifies this
      ensures Valid() && State() == old(State()).(text := old(text) + Plain(err + "\n"))
    {
      text := text + Plain(err + "\n");
    }

    method GetBaseAddress() returns (address: string)
      ensures address == addressText
    {
      address := addressText;
    }

    /** SetBaseAddress: the text box takes the new expression (the update request is not modelled). */
    method SetBaseAddress(address: string)
      requires Valid()
      modifies this
      ensures Valid() && State() == old(State()).(addressText := address)
    {
      addressText := address;
    }

    /**
     * OnGo's handling of the address box: a `#` in front (after trimming)
     * is stripped and the freeze flag set; otherwise the flag is cleared and
     * the box left as typed.
     */
    method OnGo()
      requires Valid()
      modifies this
      ensures Valid()
      ensures State() == AddressEntered(old(State()))
    {
      ghost var s0 := State();
      var request := FreezeRequest(addressText);
      if request.Some? {
        addressText := request.value;
        freezeAddress := true;
        assert State() == s0.(addressText := request.value, freeze := true);
      } else {
        freezeAddress := false;
        assert State() == s0.(freeze := false);
      }
    }

    /**
     * AddHexByte(addr, hexbyte), with `addr` already resolved to a 64-bit
     * address and `value` the number `hexbyte` denotes in base 16.
     */
    method AddHexByte(addr: int, hexbyte: string, value: int)
      requires Valid() && IsAddress(addr) && |hexbyte| >= 2 && IsByte(value)
      modifies this, lineText, changedBytes
      ensures Valid() && State() == Feed(old(State()), addr, hexbyte, value)
    {
      RecordByte(addr, hexbyte, value);
      // flush every 16 bytes
      if byteCounter % RowBytes == 0 {
        FlushRow();
      }
    }

    /** AddHexByte up to the flush test: the steps Record describes. */
    method RecordByte(addr: int, hexbyte: string, value: int)
      requires Valid() && IsAddress(addr) && |hexbyte| >= 2 && IsByte(value)
      modifies this, lineText, changedBytes
      ensures Valid() && State() == Record(old(State()), addr, hexbyte, value)
    {
      var bcmod := byteCounter % RowBytes;
      StartRow(addr);
      NoteValue(bcmod, value);
      WriteSlots(bcmod, hexbyte, value);
      byteCounter := byteCounter + 1;
    }

    /**
     * The first steps of AddHexByte: the mask is reset at the first byte of
     * a row, and the first byte since Clear fixes the row start and, when a
     * freeze is pending, writes it into the address box.
     */
    method StartRow(addr: int)
      requires Valid() && IsAddress(addr)
      modifies this, changedBytes
      ensures Valid()
      ensures var s := old(State());
        var start := RowStartFor(s, addr);
        var froze := s.counter == 0 && s.freeze;
        State() == s.(mask := if s.counter % RowBytes == 0 then NoMarks() else s.mask,
                      rowStart := start,
                      addressText := if froze then FrozenAddressText(start) else s.addressText,
                      freeze := if froze then false else s.freeze)
    {
      // reset changed bytes tracking at start of each new line
      if byteCounter % RowBytes == 0 {
        ClearMask();
      }
      if byteCounter == 0 {
        lastRowStartingAddress := addr;
        if freezeAddress {
          addressText := "0x" + Digits(lastRowStartingAddress, 16);
          freezeAddress := false;
        }
      }
    }

    /**
     * The table step of AddHexByte: the byte's address is looked up, the new
     * value stored, and the byte's word marked when the value differs and
     * highlighting is on.
     */
    method NoteValue(bcmod: int, value: int)
      requires Valid() && 0 <= bcmod < RowBytes && IsByte(value)
      modifies this, changedBytes
      ensures Valid()
      ensures var s := old(State());
        var a := ByteAddress(s.rowStart, bcmod);
        State() == s.(previous := s.previous[a := value],
                      mask := if HasChanged(s.previous, a, value) && s.highlight
                              then MarkWord(s.mask, bcmod, s.wordSize) else s.mask)
    {
      var byteAddress := (lastRowStartingAddress + bcmod) % Two64;
      var hasChanged := false;
      if byteAddress in previousValues {
        hasChanged := previousValues[byteAddress] != value;
      }
      previousValues := previousValues[byteAddress := value];
      if hasChanged && highlightChanges {
        MarkWordOf(bcmod);
      }
    }

    /** The line buffer step of AddHexByte: two hex digits and the ASCII column. */
    method WriteSlots(bcmod: int, hexbyte: string, value: int)
      requires Valid() && 0 <= bcmod < RowBytes && |hexbyte| >= 2 && IsByte(value)
      modifies lineText
      ensures lineText[..] == WriteByte(old(lineText[..]), bcmod, hexbyte, value)
    {
      lineText[3 * bcmod] := hexbyte[0];
      lineText[3 * bcmod + 1] := hexbyte[1];
      lineText[AsciiColumn + bcmod] := if value >= 32 then value as char else '.';
    }

    /** The loop that clears the changed-byte mask. */
    method ClearMask()
      requires Valid()
      modifies changedBytes
      ensures changedBytes[..] == NoMarks()
    {
      for i := 0 to RowBytes
        invariant forall j :: 0 <= j < i ==> !changedBytes[j]
      {
        changedBytes[i] := false;
      }
    }

    /** The loop that fills the line buffer with blanks. */
    method BlankLine()
      requires Valid()
      modifies lineText
      ensures lineText[..] == Blank()
    {
      for i := 0 to LineWidth
        invariant forall j :: 0 <= j < i ==> lineText[j] == ' '
      {
        lineText[i] := ' ';
      }
    }

    /** The loop that marks the whole aligned word holding row offset `bcmod`. */
    method MarkWordOf(bcmod: int)
      requires Valid() && 0 <= bcmod < RowBytes
      modifies changedBytes
      ensures changedBytes[..] == MarkWord(old(changedBytes[..]), bcmod, highlightWordSize)
    {
      var wordStart := (bcmod / highlightWordSize) * highlightWordSize;
      var wordEnd := wordStart + highlightWordSize;
      assert wordStart == WordStart(bcmod, highlightWordSize) && wordEnd <= RowBytes;
      var i := wordStart;
      while i < wordEnd && i < RowBytes
        invariant wordStart <= i <= wordEnd
        invariant forall j :: 0 <= j < RowBytes ==>
          changedBytes[j] == (old(changedBytes[j]) || wordStart <= j < i)
      {
        changedBytes[i] := true;
        i := i + 1;
      }
    }

    /**
     * The flush at the end of a row: a newline unless this is the first row,
     * the address label, the 67 slots coloured by the mask, then a blank
     * buffer and the next row's start.
     */
    method FlushRow()
      requires Valid() && byteCounter >= RowBytes
      modifies this, lineText
      ensures Valid()
      ensures State() == Flush(old(State()))
    {
      WriteRow();
      BlankLine();
      // update starting address for next row every 16 bytes
      lastRowStartingAddress := (lastRowStartingAddress + RowBytes) % Two64;
    }

    /** The writing half of the flush: the row goes to the text control, the divider into the buffer. */
    method WriteRow()
      requires Valid()
      modifies this, lineText
      ensures Valid()
      ensures text == old(text) + RenderRow(lastRowStartingAddress, old(lineText[..]), changedBytes[..],
                                            highlightChanges, byteCounter == RowBytes)
      ensures lineText[..] == old(lineText[..])[SeparatorSlot := '|']
      ensures byteCounter == old(byteCounter) && lastRowStartingAddress == old(lastRowStartingAddress)
      ensures previousValues == old(previousValues) && highlightChanges == old(highlightChanges)
      ensures addressText == old(addressText) && freezeAddress == old(freezeAddress)
    {
      ghost var line1 := lineText[..];
      ghost var cells := RowCells(line1, changedBytes[..], highlightChanges);
      ghost var caption := Plain(AddressLabel(lastRowStartingAddress));
      ghost var prefix: seq<Cell> := if byteCounter == RowBytes then [] else [('\n', false)];
      if byteCounter != RowBytes { // after the first line, prepend a newline
        text := text + [('\n', false)];
      }
      assert text == old(text) + prefix;
      lineText[SeparatorSlot] := '|';
      text := text + Plain("0x" + Digits(lastRowStartingAddress, 16) + ": ");
      var row := ColouredRow();
      RowIsCells(line1, lineText[..], changedBytes[..], highlightChanges, row);
      text := text + row;
      assert text == old(text) + (prefix + caption + cells);
    }

    /**
     * The loop that turns the line buffer into coloured cells: a hex digit
     * or ASCII column of a marked byte is coloured while highlighting is on.
     */
    method ColouredRow() returns (row: seq<Cell>)
      requires Valid()
      ensures |row| == LineWidth
      ensures forall i :: 0 <= i < LineWidth ==>
        row[i] == (lineText[i], IsColoured(changedBytes[..], highlightChanges, i))
    {
      row := [];
      for i := 0 to LineWidth
        invariant |row| == i
        invariant forall j :: 0 <= j < i ==>
          row[j] == (lineText[j], IsColoured(changedBytes[..], highlightChanges, j))
      {
        var isChanged := false;
        if i < HexArea {
          var byteIndex := i / 3;
          if i % 3 != 2 {
            isChanged := byteIndex < RowBytes && changedBytes[byteIndex];
          }
        } else if i >= AsciiColumn {
          var byteIndex := i - AsciiColumn;
          if byteIndex < RowBytes {
            isChanged := changedBytes[byteIndex];
          }
        }
        row := row + [(lineText[i], isChanged && highlightChanges)];
      }
    }
  }

  /** The cells ColouredRow builds after the divider is written are RowCells of the line before. */
  lemma RowIsCells(line: seq<char>, shown: seq<char>, mask: seq<bool>, highlight: bool, row: seq<Cell>)
    requires |line| == LineWidth && |mask| == RowBytes && shown == line[SeparatorSlot := '|']
    requires |row| == LineWidth
    requires forall i :: 0 <= i < LineWidth ==> row[i] == (shown[i], IsColoured(mask, highlight, i))
    ensures row == RowCells(line, mask, highlight)
  {
  }
}
