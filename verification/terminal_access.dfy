/**
 * The global terminal registry: one slot holding the panel (or null),
 * overwritten by the setter and read by the getter. The static global is
 * an object the program creates once.
 */
module TerminalAccess {
  import opened Terminal

  class TerminalSlot {
    var panel: TerminalPanel?   // g_TerminalPanel

    /** The slot starts out null. */
    constructor ()
      ensures panel == null
    {
      panel := null;
    }

    /** SetTerminalPanel: the slot holds `p` afterwards, whatever it held before (null included). */
    method SetTerminalPanel(p: TerminalPanel?)
      modifies this
      ensures panel == p
    {
      panel := p;
    }

    /** GetTerminalPanel: the slot's value, read without changing anything. */
    method GetTerminalPanel() returns (p: TerminalPanel?)
      ensures p == panel
    {
      p := panel;
    }
  }

  /** The last write wins: two sets in a row leave the second panel in the slot. */
  method LastSetWins(slot: TerminalSlot, first: TerminalPanel?, second: TerminalPanel?) returns (got: TerminalPanel?)
    modifies slot
    ensures got == second && slot.panel == second
  {
    slot.SetTerminalPanel(first);
    slot.SetTerminalPanel(second);
    got := slot.GetTerminalPanel();
  }
}
