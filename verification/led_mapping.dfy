/**
 * The LED -> key mapping of the layer-colour effect.
 *
 * The physical layout `g_led_config.matrix_co` is a row-major matrix of LED
 * indices (`NO_LED` where nothing is mounted). For every LED the effect caches
 * the first matrix position, in row-major order, that carries that LED, or the
 * sentinel `(0xFF, 0xFF)` when no position does. The scan runs once: a flag
 * makes every later initialisation request a no-op.
 */
module LedMapping {
  import opened Types

  /**
   * A layout the 8-bit scan can walk: at most 255 rows and 255 columns (the
   * `uint8_t` loop counters never reach 256), every row of the same width.
   */
  predicate IsMatrix(m: seq<seq<uint8>>) {
    && |m| <= 255
    && forall r :: 0 <= r < |m| ==> |m[r]| <= 255 && |m[r]| == |m[0]|
  }

  predicate InMatrix(m: seq<seq<uint8>>, r: int, c: int) {
    0 <= r < |m| && 0 <= c < |m[r]|
  }

  /** Some position of the layout carries `led`. */
  ghost predicate Occurs(m: seq<seq<uint8>>, led: uint8) {
    exists r, c :: InMatrix(m, r, c) && m[r][c] == led
  }

  /** No position from row `r0` up to, but excluding, `(r, c)` in row-major order carries `led`. */
  ghost predicate NoneBefore(m: seq<seq<uint8>>, led: uint8, r0: int, r: int, c: int) {
    forall r', c' :: InMatrix(m, r', c') && r0 <= r' && (r' < r || (r' == r && c' < c)) ==> m[r'][c'] != led
  }

  /** `(r, c)` carries `led` and is the first position in row-major order to do so. */
  ghost predicate IsFirstMatch(m: seq<seq<uint8>>, led: uint8, r: int, c: int) {
    InMatrix(m, r, c) && m[r][c] == led && NoneBefore(m, led, 0, r, c)
  }

  /** What the cache must hold for `led`: its first position, or the sentinel when it has none. */
  ghost predicate IsEntryFor(m: seq<seq<uint8>>, led: uint8, k: KeyPos) {
    if Occurs(m, led) then IsFirstMatch(m, led, k.row as int, k.col as int) else k == UNMAPPED
  }

  /** Reference search in one row: the first column at or after `c` holding `led`. */
  function FindInRow(cells: seq<uint8>, led: uint8, c: nat): (o: Option<nat>)
    requires c <= |cells|
    ensures o.Some? ==> c <= o.value < |cells| && cells[o.value] == led
    ensures o.Some? ==> forall j :: c <= j < o.value ==> cells[j] != led
    ensures o.None? <==> forall j :: c <= j < |cells| ==> cells[j] != led
    decreases |cells| - c
  {
    if c == |cells| then None
    else if cells[c] == led then Some(c)
    else FindInRow(cells, led, c + 1)
  }

  /** Reference search over the rows from `r` on: the first `(row, col)` holding `led`. */
  function FindFrom(m: seq<seq<uint8>>, led: uint8, r: nat): (o: Option<(nat, nat)>)
    requires r <= |m|
    ensures o.Some? ==> r <= o.value.0 && InMatrix(m, o.value.0, o.value.1)
    ensures o.Some? ==> m[o.value.0][o.value.1] == led && NoneBefore(m, led, r, o.value.0, o.value.1)
    ensures o.None? <==> NoneBefore(m, led, r, |m|, 0)
    decreases |m| - r
  {
    if r == |m| then None
    else
      match FindInRow(m[r], led, 0)
      case Some(c) => Some((r, c))
      case None => FindFrom(m, led, r + 1)
  }

  /** The key position the scan records for `led`. */
  function FirstMatch(m: seq<seq<uint8>>, led: uint8): (k: KeyPos)
    requires IsMatrix(m)
    ensures IsEntryFor(m, led, k)
  {
    match FindFrom(m, led, 0)
    case Some((r, c)) => KeyPos(r as uint8, c as uint8)
    case None => UNMAPPED
  }

  /** The first match is unique, so the cache entry of an LED is fully determined by the layout. */
  lemma EntryUnique(m: seq<seq<uint8>>, led: uint8, k1: KeyPos, k2: KeyPos)
    requires IsEntryFor(m, led, k1) && IsEntryFor(m, led, k2)
    ensures k1 == k2
  {
  }

  /** The effect's persistent state: the one-shot flag and the cached table. */
  datatype Mapping = Mapping(initialized: bool, ledToKey: seq<KeyPos>)

  /** The state at power-on: flag clear, table zero-filled. */
  function PowerOn(ledCount: nat): Mapping {
    Mapping(false, seq(ledCount, _ => KeyPos(0, 0)))
  }

  /**
   * The states the effect can be in: one entry per LED, at most 255 LEDs (the
   * `uint8_t` LED counter), and once the flag is set the table is the scan result.
   */
  ghost predicate Valid(st: Mapping, m: seq<seq<uint8>>, ledCount: nat) {
    && IsMatrix(m)
    && ledCount <= 255
    && |st.ledToKey| == ledCount
    && (st.initialized ==> forall led :: 0 <= led < ledCount ==> st.ledToKey[led] == FirstMatch(m, led as uint8))
  }

  /** The power-on state is one of the states the effect can be in. */
  lemma PowerOnValid(m: seq<seq<uint8>>, ledCount: nat)
    requires IsMatrix(m) && ledCount <= 255
    ensures Valid(PowerOn(ledCount), m, ledCount) && !PowerOn(ledCount).initialized
  {
  }

  /** The scan of one LED: nested early-exit loops over rows and columns. */
  method ScanForLed(m: seq<seq<uint8>>, led: uint8) returns (key: KeyPos)
    requires IsMatrix(m)
    ensures IsEntryFor(m, led, key)
    ensures IsUnmapped(key) <==> !Occurs(m, led)
  {
    key := KeyPos(0, 0);
    var found := false;
    var row := 0;
    while row < |m| && !found
      invariant 0 <= row <= |m|
      invariant found ==> IsFirstMatch(m, led, key.row as int, key.col as int)
      invariant !found ==> NoneBefore(m, led, 0, row, 0)
    {
      var col := 0;
      while col < |m[row]|
        invariant 0 <= col <= |m[row]|
        invariant NoneBefore(m, led, 0, row, col)
      {
        if m[row][col] == led {
          key := KeyPos(row as uint8, col as uint8);
          found := true;
          break;
        }
        col := col + 1;
      }
      row := row + 1;
    }
    if !found {
      key := UNMAPPED;
    }
  }

  /**
   * `tui_layer_colors_init_mapping`: the first call fills the table and sets the
   * flag; with the flag set it returns the state unchanged.
   */
  method InitMapping(st: Mapping, m: seq<seq<uint8>>, ledCount: nat) returns (st': Mapping)
    requires Valid(st, m, ledCount)
    ensures Valid(st', m, ledCount) && st'.initialized
    ensures st.initialized ==> st' == st
    ensures forall led :: 0 <= led < ledCount ==> IsEntryFor(m, led as uint8, st'.ledToKey[led])
    ensures forall led :: 0 <= led < ledCount ==> (IsUnmapped(st'.ledToKey[led]) <==> !Occurs(m, led as uint8))
    ensures forall led :: 0 <= led < ledCount && !IsUnmapped(st'.ledToKey[led]) ==>
              && InMatrix(m, st'.ledToKey[led].row as int, st'.ledToKey[led].col as int)
              && m[st'.ledToKey[led].row][st'.ledToKey[led].col] == led as uint8
              && m[st'.ledToKey[led].row][st'.ledToKey[led].col] != NO_LED
  {
    if st.initialized {
      forall led | 0 <= led < ledCount
        ensures IsEntryFor(m, led as uint8, st.ledToKey[led])
      {
        assert st.ledToKey[led] == FirstMatch(m, led as uint8);
      }
      return st;
    }
    var table := st.ledToKey;
    var led := 0;
    while led < ledCount
      invariant 0 <= led <= ledCount
      invariant |table| == ledCount
      invariant forall l :: 0 <= l < led ==> IsEntryFor(m, l as uint8, table[l])
      invariant forall l :: 0 <= l < led ==> (IsUnmapped(table[l]) <==> !Occurs(m, l as uint8))
    {
      var key := ScanForLed(m, led as uint8);
      table := table[led := key];
      led := led + 1;
    }
    forall l | 0 <= l < ledCount
      ensures table[l] == FirstMatch(m, l as uint8)
    {
      EntryUnique(m, l as uint8, table[l], FirstMatch(m, l as uint8));
    }
    st' := Mapping(true, table);
  }
}
