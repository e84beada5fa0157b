/**
 * The ContextModel of wikilator.cpp: a hashed table of (24-bit key, 12-bit
 * state) slots indexed by the last eight bytes, with a 64-byte circular
 * history. A key mismatch in the slot resets its state before the update.
 */
module ContextModeling {
  import opened Words

  /** The multiplier of the slot hash. */
  const GOLDEN: nat := 0x9E3779B1
  /** The state a slot is reset to when its stored key differs: one half, 0x800 / 4096. */
  const INITIAL_STATE: nat := 0x800
  /** The largest 12-bit state. */
  const MAX_STATE: nat := 4095
  const HISTORY_SIZE: nat := 64

  /** `(context * 0x9E3779B1) & mask` with the product on uint64 and mask = tableSize - 1. */
  function Slot(context: nat, tableSize: nat): (slot: nat)
    requires IsPow2(tableSize)
    ensures slot < tableSize
  {
    SlotIsProductModTableSize(context, tableSize);
    And((context * GOLDEN) % TWO64, tableSize - 1)
  }

  /** The mask keeps the low bits of the 64-bit product: the slot is that product modulo the table size. */
  lemma SlotIsProductModTableSize(context: nat, tableSize: nat)
    requires IsPow2(tableSize)
    ensures And((context * GOLDEN) % TWO64, tableSize - 1) == ((context * GOLDEN) % TWO64) % tableSize
  {
    AndLowMask((context * GOLDEN) % TWO64, Log2(tableSize));
  }

  /** `(hist_pos + 1) & 0x3F`. */
  function NextHistPos(histPos: nat): (r: nat)
    ensures r == (histPos + 1) % HISTORY_SIZE
  {
    AndLowMask(histPos + 1, 6);
    Pow2Of6();
    And(histPos + 1, 0x3F)
  }

  /** `context & 0xFFFFFF`: the key stored in a slot. */
  function Key(context: nat): (k: nat)
    ensures k == context % 0x100_0000
  {
    AndLowMask(context, 24);
    Pow2Of24();
    And(context, 0xFF_FFFF)
  }

  /**
   * `(context << 8) | byte` on uint64. The shift leaves the low eight bits
   * clear, so the OR adds the byte.
   */
  function ShiftIn(context: nat, b: byte): (r: nat)
    requires context < TWO64
    ensures r == (context * 256 + b) % TWO64
    ensures r < TWO64 && r % 256 == b
    ensures r / 256 == context % 0x100_0000_0000_0000
  {
    var low := context % 0x100_0000_0000_0000;
    ShiftedLowBytes(context, b, low);
    ModUnique(low * 256 + b, 256, low, b);
    (context * 256) % TWO64 + b
  }

  /** The shift drops the top byte of the context: what stays is its low seven bytes, moved up one. */
  lemma ShiftedLowBytes(context: nat, b: byte, low: nat)
    requires low == context % 0x100_0000_0000_0000
    ensures (context * 256) % TWO64 == low * 256
    ensures (context * 256 + b) % TWO64 == low * 256 + b
  {
    var q := context / 0x100_0000_0000_0000;
    DivMod(context, 0x100_0000_0000_0000);
    ModUnique(context * 256, TWO64, q, low * 256);
    ModUnique(context * 256 + b, TWO64, q, low * 256 + b);
  }

  /**
   * `(state * 15 + byte * 16 + 8) >> 4` stored into a uint16_t. The state
   * moves a sixteenth of the way toward 16 * byte and never past it, and
   * a 12-bit state stays a 12-bit state.
   */
  function NextState(s: nat, b: byte): (r: nat)
    ensures s < TWO16 ==> r == (s * 15 + b * 16 + 8) / 16
    ensures s <= MAX_STATE ==> r <= MAX_STATE
    ensures s <= 16 * b ==> s <= r <= 16 * b
    ensures s < TWO16 && 16 * b <= s ==> 16 * b <= r <= s
  {
    ((s * 15 + b * 16 + 8) / 16) % TWO16
  }

  class ContextModel {
    const tableSize: nat
    const stateTable: array<int>   // uint16_t[table_size]
    const hashTable: array<int>    // uint32_t[table_size]
    const history: array<int>      // uint8_t[64]
    var context: nat               // uint64_t
    var histPos: nat

    ghost predicate Valid()
      reads this, stateTable, hashTable, history
    {
      && IsPow2(tableSize) && tableSize <= TWO32
      && stateTable.Length == tableSize && hashTable.Length == tableSize
      && history.Length == HISTORY_SIZE
      && stateTable != hashTable && history != stateTable && history != hashTable
      && context < TWO64 && histPos < HISTORY_SIZE
      && (forall i :: 0 <= i < tableSize ==> 0 <= stateTable[i] <= MAX_STATE)
      && (forall i :: 0 <= i < tableSize ==> 0 <= hashTable[i] < 0x100_0000)
      && (forall i :: 0 <= i < HISTORY_SIZE ==> 0 <= history[i] < 256)
    }

    /**
     * The tables start zeroed (the source's memset); table_size is given as
     * a power of two that the uint32_t mask can hold.
     */
    constructor (size: nat)
      requires IsPow2(size) && size <= TWO32
      ensures Valid() && tableSize == size
      ensures fresh(stateTable) && fresh(hashTable) && fresh(history)
      ensures context == 0 && histPos == 0
      ensures forall i :: 0 <= i < size ==> stateTable[i] == 0 && hashTable[i] == 0
      ensures forall i :: 0 <= i < HISTORY_SIZE ==> history[i] == 0
    {
      tableSize := size;
      stateTable := new int[size](_ => 0);
      hashTable := new int[size](_ => 0);
      history := new int[HISTORY_SIZE](_ => 0);
      context := 0;
      histPos := 0;
    }

    /** predict(): the 12-bit state of the slot the current context hashes to. */
    function Predict(): (p: int)
      requires Valid()
      reads this, stateTable, hashTable, history
      ensures 0 <= p <= MAX_STATE
      ensures p == stateTable[Slot(context, tableSize)]
    {
      stateTable[Slot(context, tableSize)]
    }

    /** update(byte). */
    method Update(b: byte)
      requires Valid()
      modifies this, stateTable, hashTable, history
      ensures Valid()
      ensures history[..] == old(history[..])[old(histPos) := b]
      ensures histPos == (old(histPos) + 1) % HISTORY_SIZE
      ensures context == (old(context) * 256 + b) % TWO64
      ensures var slot := Slot(context, tableSize);
              && hashTable[..] == old(hashTable[..])[slot := Key(context)]
              && stateTable[..] == old(stateTable[..])[slot :=
                   NextState(if old(hashTable[slot]) == Key(context) then old(stateTable[slot])
                             else INITIAL_STATE, b)]
    {
      ghost var H0, S0 := hashTable[..], stateTable[..];
      history[histPos] := b;
      histPos := NextHistPos(histPos);
      context := ShiftIn(context, b);
      var slot := Slot(context, tableSize);
      var key := Key(context);
      // A slot whose stored key differs is reclaimed with the neutral state.
      ghost var reclaimed := if H0[slot] == key then S0[slot] else INITIAL_STATE;
      assert reclaimed <= MAX_STATE;
      if hashTable[slot] != key {
        hashTable[slot] := key;
        stateTable[slot] := INITIAL_STATE;
      }
      assert stateTable[slot] == reclaimed && hashTable[..] == H0[slot := key];
      stateTable[slot] := NextState(stateTable[slot], b);
      assert stateTable[..] == S0[slot := NextState(reclaimed, b)];
    }
  }
}
