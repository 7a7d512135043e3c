/**
 * The memory-examine view's row renderer, as values.
 *
 * The dialog receives one (address, hex byte) pair at a time, lays the
 * bytes of a row out in a 67-character line buffer (two hex digits and a
 * blank per byte, a gap, then one ASCII column per byte), and appends the
 * buffer to its text control every 16 bytes, behind the row's starting
 * address. A table of the values already seen at each address survives
 * Clear; a byte whose value differs from the stored one marks its whole
 * aligned word (of the configured size) in a 16-entry mask, and the marked
 * characters are coloured when the row is written.
 *
 * `Feed` below is the specification of one `AddHexByte` call; the class in
 * module ExamineMemory implements it over arrays.
 */
module MemoryRows {
  import opened Numerals
  import opened Options

  const LineWidth: int := 67
  const RowBytes: int := 16
  /** Where the `|` divider goes when a row is written: the blank after byte 7. */
  const SeparatorSlot: int := 23
  /** The hex columns occupy slots 0..47 (16 bytes of "hh "). */
  const HexArea: int := 48
  /** The first ASCII column: 16 * 3 + 3. */
  const AsciiColumn: int := 51
  const Two64: int := 0x1_0000_0000_0000_0000
  /** The highlight word size used when the configured one is not allowed. */
  const DefaultWordSize: int := 4

  /** One character of the text control, and whether it is drawn in the "changed" colour. */
  type Cell = (char, bool)

  predicate IsAddress(a: int) { 0 <= a < Two64 }
  predicate IsByte(b: int) { 0 <= b < 256 }
  predicate IsWordSize(w: int) { w == 1 || w == 2 || w == 4 || w == 8 }

  /** The configured highlight word size if it is 1, 2, 4 or 8, otherwise 4. */
  function WordSizeOrDefault(configured: int): (w: int)
    ensures IsWordSize(w)
    ensures IsWordSize(configured) ==> w == configured
    ensures !IsWordSize(configured) ==> w == DefaultWordSize
  {
    if configured != 1 && configured != 2 && configured != 4 && configured != 8
    then DefaultWordSize
    else configured
  }

  function HexSlot(k: int): int { 3 * k }
  function AsciiSlot(k: int): int { AsciiColumn + k }

  /** An empty line buffer: 67 blanks. */
  function Blank(): (line: seq<char>)
    ensures |line| == LineWidth
    ensures forall i :: 0 <= i < LineWidth ==> line[i] == ' '
  {
    seq(LineWidth, _ => ' ')
  }

  /** A mask with no byte marked. */
  function NoMarks(): (mask: seq<bool>)
    ensures |mask| == RowBytes
    ensures forall i :: 0 <= i < RowBytes ==> !mask[i]
  {
    seq(RowBytes, _ => false)
  }

  /**
   * The first offset of the aligned word of size `w` that holds row offset
   * `k`. The word lies inside the row, so the source's extra `i < 16` bound
   * never cuts it short.
   */
  function WordStart(k: int, w: int): (start: int)
    requires 0 <= k < RowBytes && IsWordSize(w)
    ensures start % w == 0
    ensures start <= k < start + w
    ensures start + w <= RowBytes
  {
    (k / w) * w
  }

  /** The mask after marking every offset of the word that holds `k`. */
  function MarkWord(mask: seq<bool>, k: int, w: int): (r: seq<bool>)
    requires |mask| == RowBytes && 0 <= k < RowBytes && IsWordSize(w)
    ensures |r| == RowBytes
    ensures forall i :: 0 <= i < RowBytes ==>
      r[i] == (mask[i] || (k / w) * w <= i < (k / w) * w + w)
  {
    var wordStart := WordStart(k, w);
    var wordEnd := wordStart + w;
    seq(RowBytes, i requires 0 <= i < RowBytes =>
      if wordStart <= i && i < wordEnd && i < RowBytes then true else mask[i])
  }

  /** The ASCII column of a byte: `.` below 32, the character itself otherwise. */
  function AsciiChar(b: int): (c: char)
    requires IsByte(b)
    ensures b < 32 ==> c == '.'
    ensures b >= 32 ==> c as int == b
  {
    if b >= 32 then b as char else '.'
  }

  /**
   * The line buffer after writing byte `k` of the row: its two hex digits and
   * its ASCII column, and nothing else.
   */
  function WriteByte(line: seq<char>, k: int, hexbyte: string, b: int): (r: seq<char>)
    requires |line| == LineWidth && 0 <= k < RowBytes && |hexbyte| >= 2 && IsByte(b)
    ensures |r| == LineWidth
    ensures r[HexSlot(k)] == hexbyte[0] && r[HexSlot(k) + 1] == hexbyte[1]
    ensures r[AsciiSlot(k)] == AsciiChar(b)
    ensures forall j ::
      (0 <= j < LineWidth && j != HexSlot(k) && j != HexSlot(k) + 1 && j != AsciiSlot(k)) ==> r[j] == line[j]
  {
    line[HexSlot(k) := hexbyte[0]][HexSlot(k) + 1 := hexbyte[1]][AsciiSlot(k) := AsciiChar(b)]
  }

  /**
   * Whether slot `i` of a written row gets the "changed" colour: a hex digit
   * (not the blank after it) or an ASCII column of a marked byte, and only
   * while highlighting is on. Slots 48..50 are never coloured.
   */
  function IsColoured(mask: seq<bool>, highlight: bool, i: int): (r: bool)
    requires |mask| == RowBytes && 0 <= i < LineWidth
    ensures r ==> highlight && ((i < HexArea && i % 3 != 2) || AsciiColumn <= i)
    ensures !highlight ==> !r
  {
    var isChanged :=
      if i < HexArea then i % 3 != 2 && mask[i / 3]
      else if i >= AsciiColumn then mask[i - AsciiColumn]
      else false;
    isChanged && highlight
  }

  /** A slot is coloured exactly when it is one of the three slots of a marked byte. */
  lemma ColouredExactlyMarkedSlots(mask: seq<bool>, highlight: bool, i: int)
    requires |mask| == RowBytes && 0 <= i < LineWidth
    ensures IsColoured(mask, highlight, i) <==>
      (highlight && exists k ::
        (0 <= k < RowBytes && mask[k] && (i == HexSlot(k) || i == HexSlot(k) + 1 || i == AsciiSlot(k))))
  {
    if highlight {
      if i < HexArea && i % 3 != 2 && mask[i / 3] {
        var k := i / 3;
        assert i == HexSlot(k) || i == HexSlot(k) + 1;
      } else if i >= AsciiColumn && mask[i - AsciiColumn] {
        var k := i - AsciiColumn;
        assert i == AsciiSlot(k);
      }
    }
  }

  /** Text written in the default colour. */
  function Plain(s: string): (r: seq<Cell>)
    ensures |r| == |s|
    ensures forall i :: 0 <= i < |s| ==> r[i] == (s[i], false)
  {
    seq(|s|, i requires 0 <= i < |s| => (s[i], false))
  }

  /** `0x%" PRIx64 ": "`: the row's starting address, lower-case hex, unpadded. */
  function AddressLabel(a: int): string
    requires IsAddress(a)
  {
    "0x" + Digits(a, 16) + ": "
  }

  /**
   * The label reads back as the row's address: between the `0x` and the
   * `: ` stand only hex digits, and their value in base 16 is `a`.
   */
  lemma AddressLabelReadsBack(a: int)
    requires IsAddress(a)
    ensures var r := AddressLabel(a);
      |r| >= 5 && r[..2] == "0x" && r[|r| - 2..] == ": " &&
      (forall i :: 2 <= i < |r| - 2 ==> IsDigitOf(r[i], 16)) &&
      Value(r[2..|r| - 2], 16) == a
  {
    ValueOfDigits(a, 16);
    var r := AddressLabel(a);
    assert r[2..|r| - 2] == Digits(a, 16);
  }

  /** The 67 cells of a written row, with the divider put in slot 23. */
  function RowCells(line: seq<char>, mask: seq<bool>, highlight: bool): (r: seq<Cell>)
    requires |line| == LineWidth && |mask| == RowBytes
    ensures |r| == LineWidth
    ensures r[SeparatorSlot] == ('|', false)
    ensures forall i :: 0 <= i < LineWidth && i != SeparatorSlot ==> r[i].0 == line[i]
    ensures forall i :: 0 <= i < LineWidth ==> r[i].1 == IsColoured(mask, highlight, i)
  {
    var shown := line[SeparatorSlot := '|'];
    seq(LineWidth, i requires 0 <= i < LineWidth => (shown[i], IsColoured(mask, highlight, i)))
  }

  /**
   * What one flush appends to the text control: a newline unless it is the
   * first row since Clear, the address label, then the 67 cells.
   */
  function RenderRow(rowStart: int, line: seq<char>, mask: seq<bool>, highlight: bool, first: bool): (r: seq<Cell>)
    requires IsAddress(rowStart) && |line| == LineWidth && |mask| == RowBytes
    ensures |r| == (if first then 0 else 1) + |AddressLabel(rowStart)| + LineWidth
    ensures !first ==> r[0] == ('\n', false)
    ensures var off := |r| - LineWidth;
      r[..off] == (if first then [] else [('\n', false)]) + Plain(AddressLabel(rowStart)) &&
      r[off..] == RowCells(line, mask, highlight)
  {
    (if first then [] else [('\n', false)]) + Plain(AddressLabel(rowStart)) + RowCells(line, mask, highlight)
  }

  /** The renderer's whole state: the dialog's fields, the text control, the address box. */
  datatype DumpState = DumpState(
    text: seq<Cell>,          // the dump text control
    line: seq<char>,          // m_LineText
    mask: seq<bool>,          // m_ChangedBytes
    counter: nat,             // m_ByteCounter
    rowStart: int,            // m_LastRowStartingAddress
    previous: map<int, int>,  // m_PreviousValues
    highlight: bool,          // m_HighlightChanges
    wordSize: int,            // m_HighlightWordSize
    addressText: string,      // the address text box
    freeze: bool)             // m_FreezeAddress
  {
    predicate WellFormed() {
      |line| == LineWidth && |mask| == RowBytes && IsAddress(rowStart) && IsWordSize(wordSize)
    }
  }

  /** The row's starting address: taken from `addr` only for the very first byte since Clear. */
  function RowStartFor(s: DumpState, addr: int): int {
    if s.counter == 0 then addr else s.rowStart
  }

  /** The absolute address of row offset `k`, with 64-bit wrap-around. */
  function ByteAddress(rowStart: int, k: int): (a: int)
    requires IsAddress(rowStart) && 0 <= k < RowBytes
    ensures IsAddress(a)
    ensures rowStart + k < Two64 ==> a == rowStart + k
  {
    (rowStart + k) % Two64
  }

  /** A byte has changed when a value was seen at its address before and differs. */
  predicate HasChanged(previous: map<int, int>, a: int, value: int) {
    a in previous && previous[a] != value
  }

  /** The freeze write: `0x%llx` of the resolved row start. */
  function FrozenAddressText(a: int): string
    requires IsAddress(a)
  {
    "0x" + Digits(a, 16)
  }

  /**
   * The part of one AddHexByte call before the flush test: the mask reset at
   * a row's first byte, the row start (and the freeze write) at the first
   * byte since Clear, the table update and marking, the line buffer write,
   * and the counter step.
   */
  function Record(s: DumpState, addr: int, hexbyte: string, value: int): (r: DumpState)
    requires s.WellFormed() && IsAddress(addr) && |hexbyte| >= 2 && IsByte(value)
    ensures r.WellFormed()
    ensures r.text == s.text && r.highlight == s.highlight && r.wordSize == s.wordSize
    ensures r.counter == s.counter + 1
  {
    var k := s.counter % RowBytes;
    var mask0 := if k == 0 then NoMarks() else s.mask;
    var start := RowStartFor(s, addr);
    var froze := s.counter == 0 && s.freeze;
    var a := ByteAddress(start, k);
    s.(line := WriteByte(s.line, k, hexbyte, value),
       mask := if HasChanged(s.previous, a, value) && s.highlight then MarkWord(mask0, k, s.wordSize) else mask0,
       counter := s.counter + 1,
       rowStart := start,
       previous := s.previous[a := value],
       addressText := if froze then FrozenAddressText(start) else s.addressText,
       freeze := if froze then false else s.freeze)
  }

  /**
   * The flush of a full row: the row is appended to the text control, the
   * line buffer blanked and the row start advanced by 16 (modulo 2^64).
   */
  function Flush(s: DumpState): (r: DumpState)
    requires s.WellFormed() && s.counter >= RowBytes
    ensures r.WellFormed()
    ensures |r.text| > |s.text| && r.text[..|s.text|] == s.text
    ensures r.line == Blank() && IsAddress(r.rowStart)
    ensures r == s.(text := r.text, line := r.line, rowStart := r.rowStart)
  {
    s.(text := s.text + RenderRow(s.rowStart, s.line, s.mask, s.highlight, s.counter == RowBytes),
       line := Blank(),
       rowStart := (s.rowStart + RowBytes) % Two64)
  }

  /** One AddHexByte(addr, hexbyte) call, with `value` the byte `hexbyte` denotes. */
  function Feed(s: DumpState, addr: int, hexbyte: string, value: int): (r: DumpState)
    requires s.WellFormed() && IsAddress(addr) && |hexbyte| >= 2 && IsByte(value)
    ensures r.WellFormed()
    ensures r.counter == s.counter + 1
    ensures |r.text| >= |s.text| && r.text[..|s.text|] == s.text
    ensures r.highlight == s.highlight && r.wordSize == s.wordSize
  {
    var r := Record(s, addr, hexbyte, value);
    if r.counter % RowBytes == 0 then Flush(r) else r
  }

  /** Begin: highlighting back on, no byte marked. */
  function Begin(s: DumpState): (r: DumpState)
    ensures r.highlight && |r.mask| == RowBytes && forall i :: 0 <= i < RowBytes ==> !r.mask[i]
    ensures r == s.(highlight := r.highlight, mask := r.mask)
  {
    s.(highlight := true, mask := NoMarks())
  }

  /** Clear: empty text control, counter and row start zero, blank line buffer; the table stays. */
  function Cleared(s: DumpState): (r: DumpState)
    ensures r.text == [] && r.counter == 0 && r.rowStart == 0 && r.line == Blank()
    ensures r.previous == s.previous && r.mask == s.mask && r.highlight == s.highlight
    ensures r == s.(text := r.text, rowStart := r.rowStart, counter := r.counter, line := r.line)
  {
    s.(text := [], rowStart := 0, counter := 0, line := Blank())
  }

  /** ResetHighlighting: stop colouring; nothing else changes. */
  function HighlightingOff(s: DumpState): (r: DumpState)
    ensures !r.highlight && r == s.(highlight := false)
  {
    s.(highlight := false)
  }

  // ---------------------------------------------------------------------
  // What one byte does

  /** Every byte is recorded in the table, whether or not highlighting is on. */
  lemma FeedRecordsValue(s: DumpState, addr: int, hexbyte: string, value: int)
    requires s.WellFormed() && IsAddress(addr) && |hexbyte| >= 2 && IsByte(value)
    ensures var r := Feed(s, addr, hexbyte, value);
      var a := ByteAddress(RowStartFor(s, addr), s.counter % RowBytes);
      r.previous == s.previous[a := value] && a in r.previous && r.previous[a] == value &&
      r.highlight == s.highlight && r.wordSize == s.wordSize && r.counter == s.counter + 1
  {
  }

  /**
   * The mask after a byte: cleared at the first byte of a row, and then the
   * aligned word holding the byte is marked exactly when the byte changed and
   * highlighting is on. No other entry changes.
   */
  lemma FeedMarks(s: DumpState, addr: int, hexbyte: string, value: int)
    requires s.WellFormed() && IsAddress(addr) && |hexbyte| >= 2 && IsByte(value)
    ensures var r := Feed(s, addr, hexbyte, value);
      var k := s.counter % RowBytes;
      var changed := HasChanged(s.previous, ByteAddress(RowStartFor(s, addr), k), value);
      forall i :: 0 <= i < RowBytes ==>
        (r.mask[i] <==>
          (k != 0 && s.mask[i]) ||
          (changed && s.highlight && i / s.wordSize == k / s.wordSize))
  {
    var k := s.counter % RowBytes;
    var w := s.wordSize;
    forall i | 0 <= i < RowBytes
      ensures (k / w) * w <= i < (k / w) * w + w <==> i / w == k / w
    {
      SameWord(i, k, w);
    }
  }

  /** Two offsets lie in the same aligned word exactly when their quotients agree. */
  lemma SameWord(i: int, k: int, w: int)
    requires 0 <= i < RowBytes && 0 <= k < RowBytes && IsWordSize(w)
    ensures (k / w) * w <= i < (k / w) * w + w <==> i / w == k / w
  {
  }

  /**
   * A byte that is new at its address, or whose stored value is the same,
   * marks nothing: the mask is only reset at a row's first byte.
   */
  lemma SameValueNeverMarks(s: DumpState, addr: int, hexbyte: string, value: int)
    requires s.WellFormed() && IsAddress(addr) && |hexbyte| >= 2 && IsByte(value)
    requires var a := ByteAddress(RowStartFor(s, addr), s.counter % RowBytes);
      a in s.previous ==> s.previous[a] == value
    ensures Feed(s, addr, hexbyte, value).mask ==
      if s.counter % RowBytes == 0 then NoMarks() else s.mask
  {
  }

  /** Past the first byte since Clear, the address argument plays no part. */
  lemma FeedIgnoresLaterAddresses(s: DumpState, addr1: int, addr2: int, hexbyte: string, value: int)
    requires s.WellFormed() && IsAddress(addr1) && IsAddress(addr2) && |hexbyte| >= 2 && IsByte(value)
    requires s.counter != 0
    ensures Feed(s, addr1, hexbyte, value) == Feed(s, addr2, hexbyte, value)
  {
    assert RowStartFor(s, addr1) == RowStartFor(s, addr2) == s.rowStart;
  }

  /**
   * A row is written exactly when the byte count reaches a multiple of 16,
   * labelled with the row's start; otherwise the byte only goes into the line
   * buffer, at its three slots.
   */
  lemma FeedFlushes(s: DumpState, addr: int, hexbyte: string, value: int)
    requires s.WellFormed() && IsAddress(addr) && |hexbyte| >= 2 && IsByte(value)
    ensures var r := Feed(s, addr, hexbyte, value);
      var k := s.counter % RowBytes;
      var start := RowStartFor(s, addr);
      var line1 := WriteByte(s.line, k, hexbyte, value);
      if k == RowBytes - 1 then
        r.text == s.text + RenderRow(start, line1, r.mask, s.highlight, s.counter + 1 == RowBytes) &&
        r.line == Blank() && r.rowStart == (start + RowBytes) % Two64
      else
        r.text == s.text && r.line == line1 && r.rowStart == start
  {
    if s.counter % RowBytes == RowBytes - 1 {
      FeedEndsRow(s, addr, hexbyte, value);
    } else {
      FeedWithinRow(s, addr, hexbyte, value);
    }
  }

  lemma FeedEndsRow(s: DumpState, addr: int, hexbyte: string, value: int)
    requires s.WellFormed() && IsAddress(addr) && |hexbyte| >= 2 && IsByte(value)
    requires s.counter % RowBytes == RowBytes - 1
    ensures var r := Feed(s, addr, hexbyte, value);
      var start := RowStartFor(s, addr);
      var line1 := WriteByte(s.line, RowBytes - 1, hexbyte, value);
      r.text == s.text + RenderRow(start, line1, r.mask, s.highlight, s.counter + 1 == RowBytes) &&
      r.line == Blank() && r.rowStart == (start + RowBytes) % Two64
  {
    var rec := Record(s, addr, hexbyte, value);
    assert rec.line == WriteByte(s.line, RowBytes - 1, hexbyte, value) && rec.rowStart == RowStartFor(s, addr);
    RowEnds(s.counter);
    assert rec.counter % RowBytes == 0;
    assert Feed(s, addr, hexbyte, value) == Flush(rec);
  }

  lemma FeedWithinRow(s: DumpState, addr: int, hexbyte: string, value: int)
    requires s.WellFormed() && IsAddress(addr) && |hexbyte| >= 2 && IsByte(value)
    requires s.counter % RowBytes != RowBytes - 1
    ensures var r := Feed(s, addr, hexbyte, value);
      r.text == s.text && r.line == WriteByte(s.line, s.counter % RowBytes, hexbyte, value) &&
      r.rowStart == RowStartFor(s, addr)
  {
    var rec := Record(s, addr, hexbyte, value);
    RowEnds(s.counter);
    assert rec.counter % RowBytes != 0;
    assert Feed(s, addr, hexbyte, value) == rec;
  }

  // ---------------------------------------------------------------------
  // A stream of bytes

  /** One AddHexByte call's arguments, with the hex string already parsed. */
  datatype ByteIn = ByteIn(addr: int, hex: string, value: int)

  predicate ValidInput(b: ByteIn) {
    IsAddress(b.addr) && |b.hex| >= 2 && IsByte(b.value)
  }

  /** The state after a whole request's bytes, in order. */
  function FeedAll(s: DumpState, bs: seq<ByteIn>): (r: DumpState)
    requires s.WellFormed()
    requires forall i :: 0 <= i < |bs| ==> ValidInput(bs[i])
    ensures r.WellFormed()
    ensures r.counter == s.counter + |bs|
    ensures r.previous.Keys >= s.previous.Keys
    ensures r.highlight == s.highlight
    decreases |bs|
  {
    if bs == [] then s
    else
      var last := bs[|bs| - 1];
      assert ValidInput(last);
      Feed(FeedAll(s, bs[..|bs| - 1]), last.addr, last.hex, last.value)
  }

  /** The byte after number `c` ends a row exactly when `c` is a row's last offset. */
  lemma RowEnds(c: nat)
    ensures (c + 1) % RowBytes == 0 <==> c % RowBytes == RowBytes - 1
  {
  }

  /** How one byte moves the row start. */
  lemma FeedRowStart(s: DumpState, addr: int, hexbyte: string, value: int)
    requires s.WellFormed() && IsAddress(addr) && |hexbyte| >= 2 && IsByte(value)
    ensures Feed(s, addr, hexbyte, value).rowStart ==
      if (s.counter + 1) % RowBytes == 0 then (RowStartFor(s, addr) + RowBytes) % Two64
      else RowStartFor(s, addr)
  {
    RowEnds(s.counter);
    if s.counter % RowBytes == RowBytes - 1 {
      FeedEndsRow(s, addr, hexbyte, value);
    } else {
      FeedWithinRow(s, addr, hexbyte, value);
    }
  }

  /** The start of the row holding byte number `n` when byte 0 was at `a`, with 64-bit wrap-around. */
  function RowStartAfter(a: int, n: nat): (r: int)
    ensures IsAddress(r)
  {
    (a + RowBytes * (n / RowBytes)) % Two64
  }

  /** The row-start arithmetic of one more byte: 16 further on exactly when a row completes. */
  lemma NextRowStart(a: int, n: nat)
    requires IsAddress(a)
    ensures (if (n + 1) % RowBytes == 0 then (RowStartAfter(a, n) + RowBytes) % Two64 else RowStartAfter(a, n))
      == RowStartAfter(a, n + 1)
  {
    if (n + 1) % RowBytes == 0 {
      assert (n + 1) / RowBytes == n / RowBytes + 1;
      var x := a + RowBytes * (n / RowBytes);
      assert (x % Two64 + RowBytes) % Two64 == (x + RowBytes) % Two64;
    } else {
      assert (n + 1) / RowBytes == n / RowBytes;
    }
  }

  lemma RowStartStep(before: DumpState, a0: int, n: nat, b: ByteIn)
    requires before.WellFormed() && ValidInput(b) && IsAddress(a0) && n > 0
    requires before.counter == n
    requires before.rowStart == RowStartAfter(a0, n)
    ensures Feed(before, b.addr, b.hex, b.value).rowStart == RowStartAfter(a0, n + 1)
  {
    FeedRowStart(before, b.addr, b.hex, b.value);
    NextRowStart(a0, n);
  }

  lemma FirstRowStart(s: DumpState, bs: seq<ByteIn>)
    requires s.WellFormed() && s.counter == 0 && |bs| == 1 && ValidInput(bs[0])
    ensures FeedAll(s, bs).rowStart == RowStartAfter(bs[0].addr, 1)
  {
    assert bs[..0] == [];
    FeedRowStart(s, bs[0].addr, bs[0].hex, bs[0].value);
  }

  lemma FeedAllLast(s: DumpState, bs: seq<ByteIn>)
    requires s.WellFormed() && |bs| >= 1
    requires forall i :: 0 <= i < |bs| ==> ValidInput(bs[i])
    ensures var n := |bs| - 1;
      ValidInput(bs[n]) && FeedAll(s, bs) == Feed(FeedAll(s, bs[..n]), bs[n].addr, bs[n].hex, bs[n].value)
  {
  }

  lemma FeedAllRowStartStep(s: DumpState, bs: seq<ByteIn>, a0: int, n: nat)
    requires s.WellFormed() && s.counter == 0 && n >= 1 && |bs| == n + 1 && IsAddress(a0)
    requires forall i :: 0 <= i < |bs| ==> ValidInput(bs[i])
    requires FeedAll(s, bs[..n]).rowStart == RowStartAfter(a0, n)
    ensures FeedAll(s, bs).rowStart == RowStartAfter(a0, n + 1)
  {
    FeedAllLast(s, bs);
    var before := FeedAll(s, bs[..n]);
    assert before.counter == n;
    RowStartStep(before, a0, n, bs[n]);
  }

  /**
   * From a cleared counter, the row start is the first byte's address
   * advanced by 16 for every completed row; no later address is consulted.
   */
  lemma {:induction false} FeedAllRowStart(s: DumpState, bs: seq<ByteIn>)
    requires s.WellFormed() && s.counter == 0
    requires forall i :: 0 <= i < |bs| ==> ValidInput(bs[i])
    requires |bs| >= 1
    ensures FeedAll(s, bs).rowStart == RowStartAfter(bs[0].addr, |bs|)
    decreases |bs|
  {
    if |bs| == 1 {
      FirstRowStart(s, bs);
    } else {
      var n := |bs| - 1;
      var prefix := bs[..n];
      assert prefix[0] == bs[0];
      FeedAllRowStart(s, prefix);
      FeedAllRowStartStep(s, bs, bs[0].addr, n);
    }
  }

  // ---------------------------------------------------------------------
  // The text a stream of bytes writes

  predicate AllValid(bs: seq<ByteIn>) {
    forall i :: 0 <= i < |bs| ==> ValidInput(bs[i])
  }

  /** Every prefix of a valid stream is valid. */
  lemma PrefixValid(bs: seq<ByteIn>, m: nat)
    requires AllValid(bs) && m <= |bs|
    ensures AllValid(bs[..m])
  {
    assert forall i :: 0 <= i < m ==> bs[..m][i] == bs[i];
  }

  /**
   * Slot `j` of the line buffer after bytes `lo`..`lo + count - 1` of the
   * stream: byte `k` shows its two hex digits at slots 3k and 3k+1 and its
   * ASCII character at slot 51+k; every other slot is blank.
   */
  function SlotChar(bs: seq<ByteIn>, lo: nat, count: nat, j: int): char
    requires count <= RowBytes && lo + count <= |bs| && AllValid(bs) && 0 <= j < LineWidth
  {
    if j < HexArea && j % 3 != 2 && j / 3 < count then
      var b := bs[lo + j / 3];
      assert ValidInput(b);
      b.hex[j % 3]
    else if AsciiColumn <= j && j - AsciiColumn < count then
      var b := bs[lo + j - AsciiColumn];
      assert ValidInput(b);
      AsciiChar(b.value)
    else ' '
  }

  /** The line buffer holding bytes `lo`..`lo + count - 1` of the stream, slot by slot. */
  function RowLine(bs: seq<ByteIn>, lo: nat, count: nat): (r: seq<char>)
    requires count <= RowBytes && lo + count <= |bs|
    requires AllValid(bs)
    ensures |r| == LineWidth
  {
    seq(LineWidth, j requires 0 <= j < LineWidth => SlotChar(bs, lo, count, j))
  }

  /** A line buffer with no bytes in it is blank. */
  lemma RowLineEmpty(bs: seq<ByteIn>, lo: nat)
    requires lo <= |bs| && AllValid(bs)
    ensures RowLine(bs, lo, 0) == Blank()
  {
  }

  /** A row's line depends only on its own bytes, not on what follows them. */
  lemma RowLineOfPrefix(bs: seq<ByteIn>, m: nat, lo: nat, count: nat)
    requires count <= RowBytes && lo + count <= m <= |bs|
    requires AllValid(bs) && AllValid(bs[..m])
    ensures RowLine(bs[..m], lo, count) == RowLine(bs, lo, count)
  {
    forall j | 0 <= j < LineWidth ensures RowLine(bs[..m], lo, count)[j] == RowLine(bs, lo, count)[j] {
      if j < HexArea && j % 3 != 2 && j / 3 < count {
        assert bs[..m][lo + j / 3] == bs[lo + j / 3];
      } else if AsciiColumn <= j && j - AsciiColumn < count {
        assert bs[..m][lo + j - AsciiColumn] == bs[lo + j - AsciiColumn];
      }
    }
  }

  /** One row of the dump as written: its label address, its line buffer and its mask. */
  datatype Row = Row(start: int, line: seq<char>, mask: seq<bool>)

  predicate RowOk(row: Row) {
    IsAddress(row.start) && |row.line| == LineWidth && |row.mask| == RowBytes
  }

  predicate AllRowsOk(rows: seq<Row>) {
    forall i :: 0 <= i < |rows| ==> RowOk(rows[i])
  }

  /** The rows' text, one after another; only row 0 has no leading newline. */
  function ShownRows(highlight: bool, rows: seq<Row>): seq<Cell>
    requires AllRowsOk(rows)
    decreases |rows|
  {
    if rows == [] then []
    else
      var i := |rows| - 1;
      ShownRows(highlight, rows[..i]) + RenderRow(rows[i].start, rows[i].line, rows[i].mask, highlight, i == 0)
  }

  /** Row `i` shows bytes 16i..16i+15 of the stream. */
  predicate LinesOf(bs: seq<ByteIn>, rows: seq<Row>) {
    AllValid(bs) &&
    forall i :: 0 <= i < |rows| ==> RowBytes * i + RowBytes <= |bs| && rows[i].line == RowLine(bs, RowBytes * i, RowBytes)
  }

  /** Row `i` is labelled with the address 16i past `a0`, modulo 2^64. */
  predicate StartsFrom(a0: int, rows: seq<Row>) {
    forall i :: 0 <= i < |rows| ==> rows[i].start == (a0 + RowBytes * i) % Two64
  }

  /** Row `i` is coloured by the mask in force once byte 16i+15 has been fed. */
  predicate MasksOf(s: DumpState, bs: seq<ByteIn>, rows: seq<Row>)
    requires s.WellFormed() && AllValid(bs)
  {
    forall i :: 0 <= i < |rows| ==>
      RowBytes * i + RowBytes <= |bs| && rows[i].mask == FeedAll(s, bs[..RowBytes * i + RowBytes]).mask
  }

  /**
   * From a cleared counter and a blank line buffer, a stream of bytes whose
   * first address is `a0` appends one row per 16 bytes, and nothing else, to
   * the text control. Row `i` is labelled `a0 + 16i` (modulo 2^64), shows
   * bytes 16i..16i+15, and is coloured by the mask in force when its 16th
   * byte arrives. The bytes after the last full row wait in the line buffer.
   */
  lemma {:induction false} FeedAllText(s: DumpState, bs: seq<ByteIn>, a0: int) returns (rows: seq<Row>)
    requires s.WellFormed() && s.counter == 0 && s.line == Blank()
    requires AllValid(bs) && IsAddress(a0) && (bs != [] ==> a0 == bs[0].addr)
    ensures |rows| == |bs| / RowBytes && AllRowsOk(rows) && LinesOf(bs, rows) && StartsFrom(a0, rows)
    ensures FeedAll(s, bs).text == s.text + ShownRows(s.highlight, rows)
    ensures FeedAll(s, bs).line == RowLine(bs, RowBytes * (|bs| / RowBytes), |bs| % RowBytes)
    ensures |bs| % RowBytes == 0 && bs != [] ==> rows[|rows| - 1].mask == FeedAll(s, bs).mask
    ensures MasksOf(s, bs, rows)
    decreases |bs|
  {
    if bs == [] {
      rows := [];
      RowLineEmpty(bs, 0);
    } else {
      var n := |bs| - 1;
      var prefix := bs[..n];
      PrefixValid(bs, n);
      assert prefix != [] ==> prefix[0] == bs[0];
      var rows0 := FeedAllText(s, prefix, a0);
      LinesOfPrefix(bs, n, rows0);
      RowLineOfPrefix(bs, n, RowBytes * (n / RowBytes), n % RowBytes);
      var before := FeedAll(s, prefix);
      var after := FeedAll(s, bs);
      if n % RowBytes == RowBytes - 1 {
        FeedAllEndsRow(s, bs, a0);
        rows := RowEndsStep(s.highlight, bs, a0, rows0, s.text, before.text, before.line, RowStartAfter(a0, n),
          after.text, after.mask);
        MasksAppend(s, bs, rows0, rows);
      } else {
        FeedAllWithinRow(s, bs);
        RowGrowsStep(bs, rows0, before.line);
        rows := rows0;
        MasksOfPrefix(s, bs, rows);
      }
    }
  }

  /** The byte that ends a row appends that row's text, labelled with the row start. */
  lemma FeedAllEndsRow(s: DumpState, bs: seq<ByteIn>, a0: int)
    requires s.WellFormed() && s.counter == 0 && AllValid(bs) && IsAddress(a0)
    requires |bs| >= 1 && a0 == bs[0].addr && (|bs| - 1) % RowBytes == RowBytes - 1
    ensures var n := |bs| - 1;
      var before := FeedAll(s, bs[..n]);
      var after := FeedAll(s, bs);
      |after.mask| == RowBytes && after.line == Blank() &&
      after.text == before.text + RenderRow(RowStartAfter(a0, n), WriteByte(before.line, RowBytes - 1, bs[n].hex, bs[n].value),
        after.mask, s.highlight, n + 1 == RowBytes)
  {
    var n := |bs| - 1;
    var prefix := bs[..n];
    FeedAllLast(s, bs);
    var before := FeedAll(s, prefix);
    assert prefix[0] == bs[0];
    FeedAllRowStart(s, prefix);
    assert before.counter == n && before.highlight == s.highlight;
    var b := bs[n];
    FeedEndsRow(before, b.addr, b.hex, b.value);
    assert RowStartFor(before, b.addr) == before.rowStart;
  }

  /** A byte within a row writes nothing to the text control and one byte into the line buffer. */
  lemma FeedAllWithinRow(s: DumpState, bs: seq<ByteIn>)
    requires s.WellFormed() && s.counter == 0 && AllValid(bs)
    requires |bs| >= 1 && (|bs| - 1) % RowBytes != RowBytes - 1
    ensures var n := |bs| - 1;
      var before := FeedAll(s, bs[..n]);
      var after := FeedAll(s, bs);
      after.text == before.text && after.line == WriteByte(before.line, n % RowBytes, bs[n].hex, bs[n].value)
  {
    var n := |bs| - 1;
    FeedAllLast(s, bs);
    var before := FeedAll(s, bs[..n]);
    assert before.counter == n;
    var b := bs[n];
    FeedWithinRow(before, b.addr, b.hex, b.value);
  }

  /** FeedAllText's step for a byte that ends a row: one more row is written. */
  lemma RowEndsStep(highlight: bool, bs: seq<ByteIn>, a0: int, rows0: seq<Row>, text0: seq<Cell>,
                    before: seq<Cell>, line: seq<char>, start: int, after: seq<Cell>, mask: seq<bool>)
    returns (rows: seq<Row>)
    requires AllValid(bs) && |bs| >= 1 && IsAddress(a0) && |mask| == RowBytes
    requires var n := |bs| - 1;
      n % RowBytes == RowBytes - 1 &&
      |rows0| == n / RowBytes && AllRowsOk(rows0) && LinesOf(bs, rows0) && StartsFrom(a0, rows0) &&
      before == text0 + ShownRows(highlight, rows0) &&
      line == RowLine(bs, RowBytes * (n / RowBytes), n % RowBytes) &&
      start == RowStartAfter(a0, n) &&
      after == before + RenderRow(start, WriteByte(line, RowBytes - 1, bs[n].hex, bs[n].value), mask, highlight, n + 1 == RowBytes)
    ensures |rows| == |bs| / RowBytes && AllRowsOk(rows) && LinesOf(bs, rows) && StartsFrom(a0, rows)
    ensures after == text0 + ShownRows(highlight, rows)
    ensures Blank() == RowLine(bs, RowBytes * (|bs| / RowBytes), |bs| % RowBytes)
    ensures rows[|rows| - 1].mask == mask && rows[..|rows| - 1] == rows0
  {
    var n := |bs| - 1;
    var newLine := RowEndsLines(bs, rows0, line, start, mask);
    var row := Row(start, newLine, mask);
    StartsAppend(a0, n, rows0, row);
    RowEndsText(highlight, rows0, row, text0, before, after, n + 1 == RowBytes);
    rows := rows0 + [row];
    assert rows[..|rows| - 1] == rows0;
  }

  /** The masks recorded for a prefix's rows are the masks of the whole stream's rows. */
  lemma MasksOfPrefix(s: DumpState, bs: seq<ByteIn>, rows: seq<Row>)
    requires s.WellFormed() && AllValid(bs) && |bs| >= 1 && AllValid(bs[..|bs| - 1])
    requires MasksOf(s, bs[..|bs| - 1], rows)
    ensures MasksOf(s, bs, rows)
  {
    var n := |bs| - 1;
    forall i | 0 <= i < |rows|
      ensures RowBytes * i + RowBytes <= |bs| && rows[i].mask == FeedAll(s, bs[..RowBytes * i + RowBytes]).mask
    {
      var m := RowBytes * i + RowBytes;
      assert bs[..n][..m] == bs[..m];
    }
  }

  /** A row that ends is coloured by the mask after its 16th byte. */
  lemma MasksAppend(s: DumpState, bs: seq<ByteIn>, rows0: seq<Row>, rows: seq<Row>)
    requires s.WellFormed() && AllValid(bs) && |bs| >= 1 && AllValid(bs[..|bs| - 1])
    requires MasksOf(s, bs[..|bs| - 1], rows0)
    requires |rows| == |rows0| + 1 && rows[..|rows0|] == rows0 && |bs| == RowBytes * |rows|
    requires rows[|rows0|].mask == FeedAll(s, bs).mask
    ensures MasksOf(s, bs, rows)
  {
    MasksOfPrefix(s, bs, rows0);
    forall i | 0 <= i < |rows|
      ensures RowBytes * i + RowBytes <= |bs| && rows[i].mask == FeedAll(s, bs[..RowBytes * i + RowBytes]).mask
    {
      if i < |rows0| {
        assert rows[i] == rows0[i];
      } else {
        assert bs[..RowBytes * i + RowBytes] == bs;
      }
    }
  }

  /** A row that ends: the full line buffer is one more row of the stream. */
  lemma RowEndsLines(bs: seq<ByteIn>, rows0: seq<Row>, line: seq<char>, start: int, mask: seq<bool>)
    returns (newLine: seq<char>)
    requires |bs| >= 1 && (|bs| - 1) % RowBytes == RowBytes - 1
    requires |rows0| == (|bs| - 1) / RowBytes && LinesOf(bs, rows0)
    requires line == RowLine(bs, RowBytes * ((|bs| - 1) / RowBytes), RowBytes - 1)
    ensures var n := |bs| - 1;
      |newLine| == LineWidth && newLine == WriteByte(line, RowBytes - 1, bs[n].hex, bs[n].value)
    ensures |rows0| + 1 == |bs| / RowBytes && LinesOf(bs, rows0 + [Row(start, newLine, mask)])
    ensures Blank() == RowLine(bs, RowBytes * (|bs| / RowBytes), |bs| % RowBytes)
  {
    var q := |rows0|;
    assert RowBytes * q + RowBytes == |bs| && |bs| / RowBytes == q + 1 && |bs| % RowBytes == 0;
    newLine := RowLine(bs, RowBytes * q, RowBytes);
    RowLineNext(bs, RowBytes * q, RowBytes - 1);
    var rows := rows0 + [Row(start, newLine, mask)];
    forall i | 0 <= i < |rows| ensures RowBytes * i + RowBytes <= |bs| && rows[i].line == RowLine(bs, RowBytes * i, RowBytes) {
      if i < q {
        assert rows[i] == rows0[i];
      }
    }
    RowLineEmpty(bs, RowBytes * (q + 1));
  }

  /** A row that ends is labelled 16 past the row before it. */
  lemma StartsAppend(a0: int, n: nat, rows0: seq<Row>, row: Row)
    requires IsAddress(a0) && StartsFrom(a0, rows0) && |rows0| == n / RowBytes && row.start == RowStartAfter(a0, n)
    ensures StartsFrom(a0, rows0 + [row])
  {
    var rows := rows0 + [row];
    forall i | 0 <= i < |rows| ensures rows[i].start == (a0 + RowBytes * i) % Two64 {
      if i < |rows0| {
        assert rows[i] == rows0[i];
      }
    }
  }

  /** A row that ends: its text follows the earlier rows. */
  lemma RowEndsText(highlight: bool, rows0: seq<Row>, row: Row, text0: seq<Cell>, before: seq<Cell>, after: seq<Cell>,
                    first: bool)
    requires AllRowsOk(rows0) && RowOk(row) && first == (|rows0| == 0)
    requires before == text0 + ShownRows(highlight, rows0)
    requires after == before + RenderRow(row.start, row.line, row.mask, highlight, first)
    ensures AllRowsOk(rows0 + [row])
    ensures after == text0 + ShownRows(highlight, rows0 + [row])
  {
    ShownRowsAppend(highlight, rows0, row);
    ConcatAssoc(text0, ShownRows(highlight, rows0), RenderRow(row.start, row.line, row.mask, highlight, first));
  }

  /** One more row at the end of the text. */
  lemma ShownRowsAppend(highlight: bool, rows0: seq<Row>, row: Row)
    requires AllRowsOk(rows0) && RowOk(row)
    ensures AllRowsOk(rows0 + [row])
    ensures ShownRows(highlight, rows0 + [row]) ==
      ShownRows(highlight, rows0) + RenderRow(row.start, row.line, row.mask, highlight, |rows0| == 0)
  {
    var rows := rows0 + [row];
    assert rows[..|rows0|] == rows0 && rows[|rows0|] == row;
    forall i | 0 <= i < |rows| ensures RowOk(rows[i]) {
      if i < |rows0| {
        assert rows[i] == rows0[i];
      }
    }
  }

  lemma ConcatAssoc<T>(a: seq<T>, b: seq<T>, c: seq<T>)
    ensures (a + b) + c == a + (b + c)
  {
  }

  /** A byte within a row: the line buffer grows by one byte. */
  lemma RowGrowsStep(bs: seq<ByteIn>, rows: seq<Row>, line: seq<char>)
    requires |bs| >= 1 && (|bs| - 1) % RowBytes != RowBytes - 1
    requires LinesOf(bs, rows) && |rows| == (|bs| - 1) / RowBytes
    requires var n := |bs| - 1;
      line == RowLine(bs, RowBytes * (n / RowBytes), n % RowBytes)
    ensures var n := |bs| - 1;
      |rows| == |bs| / RowBytes &&
      WriteByte(line, n % RowBytes, bs[n].hex, bs[n].value) ==
        RowLine(bs, RowBytes * (|bs| / RowBytes), |bs| % RowBytes)
  {
    var n := |bs| - 1;
    var q := n / RowBytes;
    var k := n % RowBytes;
    assert |bs| / RowBytes == q && |bs| % RowBytes == k + 1;
    RowLineNext(bs, RowBytes * q, k);
  }

  /** The rows of a prefix are rows of the whole stream. */
  lemma LinesOfPrefix(bs: seq<ByteIn>, n: nat, rows: seq<Row>)
    requires n <= |bs| && AllValid(bs) && LinesOf(bs[..n], rows)
    ensures LinesOf(bs, rows)
  {
    forall i | 0 <= i < |rows| ensures RowBytes * i + RowBytes <= |bs| && rows[i].line == RowLine(bs, RowBytes * i, RowBytes) {
      RowLineOfPrefix(bs, n, RowBytes * i, RowBytes);
    }
  }

  /** One more byte of a row, written into the line buffer. */
  lemma RowLineNext(bs: seq<ByteIn>, lo: nat, count: nat)
    requires count < RowBytes && lo + count < |bs|
    requires AllValid(bs)
    ensures RowLine(bs, lo, count + 1) == WriteByte(RowLine(bs, lo, count), count, bs[lo + count].hex, bs[lo + count].value)
  {
    var b := bs[lo + count];
    assert ValidInput(b);
    var before := RowLine(bs, lo, count);
    var after := RowLine(bs, lo, count + 1);
    var written := WriteByte(before, count, b.hex, b.value);
    forall j | 0 <= j < LineWidth ensures after[j] == written[j] {
      if j == HexSlot(count) || j == HexSlot(count) + 1 || j == AsciiSlot(count) {
      } else {
        assert written[j] == before[j];
      }
    }
  }

  /** The table survives Clear: a value that differs from the one seen before Clear is still detected. */
  lemma HistorySurvivesClear(s: DumpState, addr: int, hexbyte: string, value: int)
    requires s.WellFormed() && IsAddress(addr) && |hexbyte| >= 2 && IsByte(value)
    requires addr in s.previous && s.previous[addr] != value
    requires s.highlight
    ensures var r := Feed(Cleared(s), addr, hexbyte, value);
      forall i :: 0 <= i < s.wordSize ==> r.mask[i]
  {
    var c := Cleared(s);
    assert c.counter == 0 && c.highlight && c.previous == s.previous && c.wordSize == s.wordSize;
    assert ByteAddress(RowStartFor(c, addr), 0) == addr;
    FeedMarks(c, addr, hexbyte, value);
  }

  // ---------------------------------------------------------------------
  // The `#` prefix in the address box

  /** The characters wxString::Trim removes. */
  predicate IsSpace(c: char) {
    c == ' ' || c == '\t' || c == '\n' || c == '\r' || c as int == 11 || c as int == 12
  }

  /** Trim(): drop trailing white space. */
  function TrimEnd(s: string): (r: string)
    ensures |r| <= |s| && r == s[..|r|]
    ensures r == [] || !IsSpace(r[|r| - 1])
    decreases |s|
  {
    if s != [] && IsSpace(s[|s| - 1]) then TrimEnd(s[..|s| - 1]) else s
  }

  /** Everything TrimEnd drops is white space. */
  lemma {:induction false} TrimEndDropsSpaces(s: string)
    ensures forall i :: |TrimEnd(s)| <= i < |s| ==> IsSpace(s[i])
    decreases |s|
  {
    if s != [] && IsSpace(s[|s| - 1]) {
      var s1 := s[..|s| - 1];
      TrimEndDropsSpaces(s1);
      forall i | |TrimEnd(s)| <= i < |s| ensures IsSpace(s[i]) {
        if i < |s| - 1 { assert s[i] == s1[i]; }
      }
    }
  }

  /** Trim(false): drop leading white space. */
  function TrimStart(s: string): (r: string)
    ensures |r| <= |s| && r == s[|s| - |r|..]
    ensures r == [] || !IsSpace(r[0])
    decreases |s|
  {
    if s != [] && IsSpace(s[0]) then TrimStart(s[1..]) else s
  }

  /** Everything TrimStart drops is white space. */
  lemma {:induction false} TrimStartDropsSpaces(s: string)
    ensures forall i :: 0 <= i < |s| - |TrimStart(s)| ==> IsSpace(s[i])
    decreases |s|
  {
    if s != [] && IsSpace(s[0]) {
      var s1 := s[1..];
      TrimStartDropsSpaces(s1);
      forall i | 0 <= i < |s| - |TrimStart(s)| ensures IsSpace(s[i]) {
        if i > 0 { assert s[i] == s1[i - 1]; }
      }
    }
  }

  /**
   * OnGo's reading of the address box: after trimming both ends, a leading
   * `#` asks for the expression to be frozen; the box then holds what follows
   * the `#`, without leading blanks. None means "no `#`".
   */
  function FreezeRequest(raw: string): (r: Option<string>)
    ensures r.Some? ==> r.value == [] || !IsSpace(r.value[0])
    ensures r.Some? ==> |r.value| < |raw|
    ensures r.Some? ==> HashThen(raw, r.value)
  {
    var address := TrimStart(TrimEnd(raw));
    if |address| > 0 && address[0] == '#' then
      HashPrefixShape(raw);
      Some(TrimStart(address[1..]))
    else None
  }

  /** Every character is white space. */
  predicate AllSpace(s: string) {
    forall i :: 0 <= i < |s| ==> IsSpace(s[i])
  }

  /**
   * `raw` reads: white space, `#`, white space, then `v`, then white space,
   * where `v` does not end in white space.
   */
  ghost predicate HashThen(raw: string, v: string) {
    (v == [] || !IsSpace(v[|v| - 1])) &&
    exists i, j :: HashAt(raw, v, i, j)
  }

  /** `raw[i]` is the `#`, and `v` starts at `j`, with only white space around them. */
  predicate HashAt(raw: string, v: string, i: int, j: int) {
    0 <= i < j <= |raw| - |v| &&
    AllSpace(raw[..i]) && raw[i] == '#' && AllSpace(raw[i + 1..j]) &&
    raw[j..j + |v|] == v && AllSpace(raw[j + |v|..])
  }

  lemma AllSpaceSlice(s: string, lo: int, hi: int)
    requires 0 <= lo <= hi <= |s|
    requires forall k :: lo <= k < hi ==> IsSpace(s[k])
    ensures AllSpace(s[lo..hi])
  {
    forall k | 0 <= k < hi - lo ensures IsSpace(s[lo..hi][k]) {
      assert s[lo..hi][k] == s[lo + k];
    }
  }

  /** What follows a leading `#`, trimmed, sits in `raw` between blanks as HashThen says. */
  lemma HashPrefixShape(raw: string)
    requires var u := TrimStart(TrimEnd(raw)); |u| > 0 && u[0] == '#'
    ensures HashThen(raw, TrimStart(TrimStart(TrimEnd(raw))[1..]))
  {
    TrimEndDropsSpaces(raw);
    HashAfterTrimEnd(raw, TrimEnd(raw));
  }

  /** HashPrefixShape once the trailing blanks of `raw` are known to be `raw[|t|..]`. */
  lemma HashAfterTrimEnd(raw: string, t: string)
    requires |t| <= |raw| && t == raw[..|t|]
    requires forall k :: |t| <= k < |raw| ==> IsSpace(raw[k])
    requires t == [] || !IsSpace(t[|t| - 1])
    requires |TrimStart(t)| > 0 && TrimStart(t)[0] == '#'
    ensures HashThen(raw, TrimStart(TrimStart(t)[1..]))
  {
    TrimStartDropsSpaces(t);
    HashAfterTrimStart(raw, t, TrimStart(t));
  }

  /** HashPrefixShape once the leading blanks of `t` are known to be `t[..|t| - |u|]`. */
  lemma HashAfterTrimStart(raw: string, t: string, u: string)
    requires |t| <= |raw| && t == raw[..|t|]
    requires forall k :: |t| <= k < |raw| ==> IsSpace(raw[k])
    requires t == [] || !IsSpace(t[|t| - 1])
    requires |u| <= |t| && u == t[|t| - |u|..]
    requires forall k :: 0 <= k < |t| - |u| ==> IsSpace(t[k])
    requires |u| > 0 && u[0] == '#'
    ensures HashThen(raw, TrimStart(u[1..]))
  {
    var w := u[1..];
    TrimStartDropsSpaces(w);
    SpacedHash(raw, t, u, TrimStart(w));
  }

  /**
   * The positions behind HashPrefixShape: `t` is `raw` less trailing blanks,
   * `u` is `t` less leading blanks, and `v` is `u` after its `#`, less leading blanks.
   */
  lemma SpacedHash(raw: string, t: string, u: string, v: string)
    requires |t| <= |raw| && t == raw[..|t|]
    requires forall k :: |t| <= k < |raw| ==> IsSpace(raw[k])
    requires t == [] || !IsSpace(t[|t| - 1])
    requires |u| <= |t| && u == t[|t| - |u|..]
    requires forall k :: 0 <= k < |t| - |u| ==> IsSpace(t[k])
    requires |u| > 0 && u[0] == '#'
    requires |v| < |u| && v == u[1..][|u| - 1 - |v|..]
    requires forall k :: 0 <= k < |u| - 1 - |v| ==> IsSpace(u[1..][k])
    ensures HashThen(raw, v)
  {
    var p := |t| - |u|;
    var j := |t| - |v|;
    forall k | 0 <= k < p ensures IsSpace(raw[k]) {
      assert raw[k] == t[k];
    }
    AllSpaceSlice(raw, 0, p);
    assert raw[..p] == raw[0..p];
    forall k | p + 1 <= k < j ensures IsSpace(raw[k]) {
      assert raw[k] == t[k];
      assert t[k] == u[k - p];
      assert u[k - p] == u[1..][k - p - 1];
    }
    AllSpaceSlice(raw, p + 1, j);
    AllSpaceSlice(raw, |t|, |raw|);
    assert raw[|t|..] == raw[|t|..|raw|];
    assert raw[j..j + |v|] == v by {
      forall k | 0 <= k < |v| ensures raw[j..j + |v|][k] == v[k] {
        assert raw[j + k] == t[j + k];
        assert t[j + k] == u[j + k - p];
        assert u[j + k - p] == u[1..][|u| - 1 - |v| + k];
      }
    }
    assert raw[p] == t[p] == u[0];
    assert HashAt(raw, v, p, j);
    if v != [] {
      assert v[|v| - 1] == u[|u| - 1] == t[|t| - 1];
    }
  }

  /** OnGo's effect on the state: the freeze flag and, when `#` was given, the box's text. */
  function AddressEntered(s: DumpState): (r: DumpState)
    ensures r == s.(addressText := r.addressText, freeze := r.freeze)
    ensures !r.freeze ==> r.addressText == s.addressText
    ensures r.freeze ==> HashThen(s.addressText, r.addressText)
    ensures r.freeze ==> r.addressText == [] || !IsSpace(r.addressText[0])
  {
    match FreezeRequest(s.addressText)
    case Some(stripped) => s.(addressText := stripped, freeze := true)
    case None => s.(freeze := false)
  }

  /**
   * Go freezes the address exactly when the first character of the box that
   * is not white space is `#`; nothing but the box and the flag changes.
   */
  lemma FreezeRequestedByLeadingHash(s: DumpState)
    ensures AddressEntered(s).freeze <==>
      exists j :: 0 <= j < |s.addressText| && s.addressText[j] == '#' &&
        forall i :: 0 <= i < j ==> IsSpace(s.addressText[i])
    ensures AddressEntered(s) == s.(addressText := AddressEntered(s).addressText, freeze := AddressEntered(s).freeze)
  {
    FirstNonSpace(s.addressText, '#');
  }

  /**
   * Trimming both ends leaves, at its front, the first character of `raw`
   * that is not white space.
   */
  lemma FirstNonSpace(raw: string, c: char)
    requires !IsSpace(c)
    ensures var u := TrimStart(TrimEnd(raw));
      (|u| > 0 && u[0] == c) <==>
      exists j :: 0 <= j < |raw| && raw[j] == c && forall i :: 0 <= i < j ==> IsSpace(raw[i])
  {
    var t := TrimEnd(raw);
    var u := TrimStart(t);
    var p := |t| - |u|;
    TrimEndDropsSpaces(raw);
    TrimStartDropsSpaces(t);
    forall i | 0 <= i < p ensures IsSpace(raw[i]) { assert raw[i] == t[i]; }
    if |u| > 0 {
      assert raw[p] == u[0];
      forall j | 0 <= j < |raw| && !IsSpace(raw[j]) && (forall i :: 0 <= i < j ==> IsSpace(raw[i]))
        ensures j == p
      {
        assert j >= p;
        assert !IsSpace(raw[p]);
      }
    } else {
      forall j | 0 <= j < |raw| ensures IsSpace(raw[j]) {
        assert t == [];
      }
    }
  }
}
