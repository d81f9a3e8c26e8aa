/**
 * The frame renderer of the layer-colour effect (`TUI_LAYER_COLORS`).
 *
 * For every LED index in `[ledMin, ledMax)` that the framework's flag filter
 * accepts, the renderer takes the LED's cached key, resolves its effective layer
 * (layer 0 for an unmapped LED, without asking the resolver), clamps that layer
 * to the last row of the baked colour table and writes the colour stored for
 * `(layer, LED)`. With no colour table compiled in it writes nothing. It always
 * returns the framework's completion predicate at `ledMax`.
 *
 * The collaborators are parameters: `resolve` is the layer-stacking engine
 * (`layer_switch_get_layer`), `accepts` the LED-flag filter, `finished` the
 * completion predicate, and the colour writes are returned as a sequence in the
 * order they are made.
 */
module LayerColors {
  import opened Types
  import opened LedMapping

  /** One call of the colour sink `rgb_matrix_set_color(led, r, g, b)`. */
  datatype ColorWrite = ColorWrite(led: uint8, color: Rgb)

  /**
   * `tui_layer_colors_layer_count`: the value of `LAYER_BASE_COLORS_LAYER_COUNT`
   * as the function's `uint8_t` return type holds it, or 0 when the build does
   * not define the macro. The conversion keeps the value modulo 256, so a macro
   * value of 256 reads as "no table".
   */
  function LayerCount(configured: Option<int>): (n: uint8)
    ensures configured.None? ==> n == 0
    ensures configured.Some? ==> (configured.value - n as int) % 0x100 == 0
    ensures configured.Some? && 0 <= configured.value < 0x100 ==> n as int == configured.value
  {
    match configured
    case Some(v) => (v % 0x100) as uint8
    case None => 0
  }

  /**
   * The baked table `layer_base_colors[layer][led]` has a row of `ledCount`
   * colours for each of its first `count` layers.
   */
  predicate FitsTable(colors: seq<seq<Rgb>>, count: uint8, ledCount: nat) {
    && count as int <= |colors|
    && forall l :: 0 <= l < count as int ==> |colors[l]| == ledCount
  }

  /**
   * The clamp applied to a resolved layer: the result is a valid table row, it
   * never exceeds the resolved layer, and it is either that layer or the last row.
   */
  function Clamp(layer: uint8, count: uint8): (l: uint8)
    requires count > 0
    ensures l < count && l <= layer
    ensures l == layer || l == count - 1
  {
    if layer >= count then count - 1 else layer
  }

  /** The table row used for an LED whose cached key is `key`. */
  function EffectiveLayer(key: KeyPos, resolve: KeyPos -> uint8, count: uint8): uint8
    requires count > 0
  {
    Clamp(if IsUnmapped(key) then 0 else resolve(key), count)
  }

  /** The write the renderer makes for LED `i`. */
  function WriteFor(table: seq<KeyPos>, colors: seq<seq<Rgb>>, count: uint8,
                    resolve: KeyPos -> uint8, i: int): ColorWrite
    requires count > 0 && FitsTable(colors, count, |table|)
    requires 0 <= i < |table| <= 255
  {
    ColorWrite(i as uint8, colors[EffectiveLayer(table[i], resolve, count)][i])
  }

  /** Reference definition of the writes for the LEDs `[lo, hi)`, in ascending order. */
  function Writes(table: seq<KeyPos>, colors: seq<seq<Rgb>>, count: uint8,
                  resolve: KeyPos -> uint8, accepts: uint8 -> bool, lo: int, hi: int): seq<ColorWrite>
    requires count > 0 && FitsTable(colors, count, |table|) && |table| <= 255
    requires 0 <= lo && hi <= |table|
    decreases hi - lo
  {
    if hi <= lo then []
    else
      Writes(table, colors, count, resolve, accepts, lo, hi - 1)
      + (if accepts((hi - 1) as uint8) then [WriteFor(table, colors, count, resolve, hi - 1)] else [])
  }

  /** Reference definition of the keys handed to the resolver for the LEDs `[lo, hi)`. */
  function Lookups(table: seq<KeyPos>, accepts: uint8 -> bool, lo: int, hi: int): seq<KeyPos>
    requires |table| <= 255
    requires 0 <= lo && hi <= |table|
    decreases hi - lo
  {
    if hi <= lo then []
    else
      Lookups(table, accepts, lo, hi - 1)
      + (if accepts((hi - 1) as uint8) && !IsUnmapped(table[hi - 1]) then [table[hi - 1]] else [])
  }

  /** Every write names an LED of `[lo, hi)` that the filter accepts and carries that LED's colour. */
  ghost predicate WritesSoundFor(w: seq<ColorWrite>, table: seq<KeyPos>, colors: seq<seq<Rgb>>, count: uint8,
                                 resolve: KeyPos -> uint8, accepts: uint8 -> bool, lo: int, hi: int)
    requires count > 0 && FitsTable(colors, count, |table|) && |table| <= 255
    requires 0 <= lo && hi <= |table|
  {
    forall j :: 0 <= j < |w| ==>
      && lo <= w[j].led as int < hi
      && accepts(w[j].led)
      && w[j] == WriteFor(table, colors, count, resolve, w[j].led as int)
  }

  /** The LEDs of `w` strictly ascend. */
  ghost predicate Ascending(w: seq<ColorWrite>) {
    forall j, k :: 0 <= j < k < |w| ==> w[j].led < w[k].led
  }

  /** Every LED of `[lo, hi)` that the filter accepts gets its write somewhere in `w`. */
  ghost predicate CoversRange(w: seq<ColorWrite>, table: seq<KeyPos>, colors: seq<seq<Rgb>>, count: uint8,
                              resolve: KeyPos -> uint8, accepts: uint8 -> bool, lo: int, hi: int)
    requires count > 0 && FitsTable(colors, count, |table|) && |table| <= 255
    requires 0 <= lo && hi <= |table|
  {
    forall i: uint8 :: lo <= i as int < hi && accepts(i) ==>
      exists j :: 0 <= j < |w| && w[j] == WriteFor(table, colors, count, resolve, i as int)
  }

  /** Every write names an LED of the range that the filter accepts, and carries that LED's colour. */
  lemma {:induction false} WritesSound(table: seq<KeyPos>, colors: seq<seq<Rgb>>, count: uint8,
                                       resolve: KeyPos -> uint8, accepts: uint8 -> bool, lo: int, hi: int)
    requires count > 0 && FitsTable(colors, count, |table|) && |table| <= 255
    requires 0 <= lo && hi <= |table|
    ensures WritesSoundFor(Writes(table, colors, count, resolve, accepts, lo, hi),
                           table, colors, count, resolve, accepts, lo, hi)
    decreases hi - lo
  {
    if hi > lo {
      WritesSound(table, colors, count, resolve, accepts, lo, hi - 1);
      var w0 := Writes(table, colors, count, resolve, accepts, lo, hi - 1);
      var w := Writes(table, colors, count, resolve, accepts, lo, hi);
      forall j | 0 <= j < |w|
        ensures lo <= w[j].led as int < hi && accepts(w[j].led)
        ensures w[j] == WriteFor(table, colors, count, resolve, w[j].led as int)
      {
        if j < |w0| {
          assert w[j] == w0[j];
        }
      }
    }
  }

  /** The writes are made in strictly ascending LED order, so no LED is written twice. */
  lemma {:induction false} WritesAscending(table: seq<KeyPos>, colors: seq<seq<Rgb>>, count: uint8,
                                           resolve: KeyPos -> uint8, accepts: uint8 -> bool, lo: int, hi: int)
    requires count > 0 && FitsTable(colors, count, |table|) && |table| <= 255
    requires 0 <= lo && hi <= |table|
    ensures Ascending(Writes(table, colors, count, resolve, accepts, lo, hi))
    decreases hi - lo
  {
    if hi > lo {
      WritesAscending(table, colors, count, resolve, accepts, lo, hi - 1);
      WritesSound(table, colors, count, resolve, accepts, lo, hi - 1);
      var w0 := Writes(table, colors, count, resolve, accepts, lo, hi - 1);
      var w := Writes(table, colors, count, resolve, accepts, lo, hi);
      forall j, k | 0 <= j < k < |w|
        ensures w[j].led < w[k].led
      {
        assert w[j] == w0[j];
        if k < |w0| {
          assert w[k] == w0[k];
        } else {
          assert w[k].led as int == hi - 1;
        }
      }
    }
  }

  /** Every LED of the range that the filter accepts is written. */
  lemma {:induction false} WritesComplete(table: seq<KeyPos>, colors: seq<seq<Rgb>>, count: uint8,
                                          resolve: KeyPos -> uint8, accepts: uint8 -> bool, lo: int, hi: int)
    requires count > 0 && FitsTable(colors, count, |table|) && |table| <= 255
    requires 0 <= lo && hi <= |table|
    ensures CoversRange(Writes(table, colors, count, resolve, accepts, lo, hi),
                        table, colors, count, resolve, accepts, lo, hi)
    decreases hi - lo
  {
    if hi > lo {
      WritesComplete(table, colors, count, resolve, accepts, lo, hi - 1);
      var w0 := Writes(table, colors, count, resolve, accepts, lo, hi - 1);
      var w := Writes(table, colors, count, resolve, accepts, lo, hi);
      forall i: uint8 | lo <= i as int < hi && accepts(i)
        ensures exists j :: 0 <= j < |w| && w[j] == WriteFor(table, colors, count, resolve, i as int)
      {
        if i as int == hi - 1 {
          assert w[|w| - 1] == WriteFor(table, colors, count, resolve, i as int);
        } else {
          var j :| 0 <= j < |w0| && w0[j] == WriteFor(table, colors, count, resolve, i as int);
          assert w[j] == w0[j];
        }
      }
    }
  }

  /** `k` is the cached key of some LED of `[lo, hi)` that the filter accepts. */
  ghost predicate KeyOfAcceptedLed(k: KeyPos, table: seq<KeyPos>, accepts: uint8 -> bool, lo: int, hi: int)
    requires hi <= |table|
  {
    exists i: uint8 :: lo <= i as int < hi && accepts(i) && k == table[i]
  }

  /** Every key in `q` is a mapped key of some LED of `[lo, hi)` that the filter accepts. */
  ghost predicate LookupsSoundFor(q: seq<KeyPos>, table: seq<KeyPos>, accepts: uint8 -> bool, lo: int, hi: int)
    requires 0 <= lo && hi <= |table| <= 255
  {
    forall j :: 0 <= j < |q| ==>
      && !IsUnmapped(q[j])
      && KeyOfAcceptedLed(q[j], table, accepts, lo, hi)
  }

  /** The resolver is only ever asked about mapped keys of accepted LEDs in the range. */
  lemma {:induction false} LookupsMapped(table: seq<KeyPos>, accepts: uint8 -> bool, lo: int, hi: int)
    requires |table| <= 255
    requires 0 <= lo && hi <= |table|
    ensures LookupsSoundFor(Lookups(table, accepts, lo, hi), table, accepts, lo, hi)
    decreases hi - lo
  {
    if hi > lo {
      LookupsMapped(table, accepts, lo, hi - 1);
      var q0 := Lookups(table, accepts, lo, hi - 1);
      var q := Lookups(table, accepts, lo, hi);
      forall j | 0 <= j < |q|
        ensures !IsUnmapped(q[j])
        ensures KeyOfAcceptedLed(q[j], table, accepts, lo, hi)
      {
        if j < |q0| {
          assert q[j] == q0[j];
          var i: uint8 :| lo <= i as int < hi - 1 && accepts(i) && q0[j] == table[i];
          assert q[j] == table[i];
        } else {
          var i: uint8 := (hi - 1) as uint8;
          assert q[j] == table[i];
        }
      }
    }
  }

  /**
   * What the resolver answers for an unmapped key never matters: two resolvers
   * that agree on every mapped key give the same writes.
   */
  lemma {:induction false} UnmappedIgnoresResolver(table: seq<KeyPos>, colors: seq<seq<Rgb>>, count: uint8,
                                                   resolve: KeyPos -> uint8, resolve': KeyPos -> uint8,
                                                   accepts: uint8 -> bool, lo: int, hi: int)
    requires count > 0 && FitsTable(colors, count, |table|) && |table| <= 255
    requires 0 <= lo && hi <= |table|
    requires forall k :: !IsUnmapped(k) ==> resolve(k) == resolve'(k)
    ensures Writes(table, colors, count, resolve, accepts, lo, hi)
         == Writes(table, colors, count, resolve', accepts, lo, hi)
    decreases hi - lo
  {
    if hi > lo {
      UnmappedIgnoresResolver(table, colors, count, resolve, resolve', accepts, lo, hi - 1);
    }
  }

  /**
   * The loop of `TUI_LAYER_COLORS` over `[ledMin, ledMax)` once the table is
   * known to have layers: skip LEDs the filter rejects, resolve the layer of
   * mapped keys only, clamp it, and write the baked colour.
   */
  method RenderLoop(table: seq<KeyPos>, colors: seq<seq<Rgb>>, count: uint8,
                    resolve: KeyPos -> uint8, accepts: uint8 -> bool, ledMin: uint8, ledMax: uint8)
    returns (writes: seq<ColorWrite>, lookups: seq<KeyPos>)
    requires count > 0 && FitsTable(colors, count, |table|) && |table| <= 255
    requires ledMax as int <= |table|
    ensures writes == Writes(table, colors, count, resolve, accepts, ledMin as int, ledMax as int)
    ensures lookups == Lookups(table, accepts, ledMin as int, ledMax as int)
  {
    writes, lookups := [], [];
    var i := ledMin as int;
    while i < ledMax as int
      invariant ledMin as int <= i && (i <= ledMax as int || i == ledMin as int)
      invariant i <= ledMax as int ==> writes == Writes(table, colors, count, resolve, accepts, ledMin as int, i)
      invariant i <= ledMax as int ==> lookups == Lookups(table, accepts, ledMin as int, i)
      invariant i > ledMax as int ==> writes == [] && lookups == []
    {
      if accepts(i as uint8) {
        var key := table[i];
        var layer: uint8 := 0;
        if key.row != 0xFF && key.col != 0xFF {
          layer := resolve(key);
          lookups := lookups + [key];
        }
        if layer >= count {
          layer := count - 1;
        }
        assert layer == EffectiveLayer(key, resolve, count);
        writes := writes + [ColorWrite(i as uint8, colors[layer][i])];
      }
      assert writes == Writes(table, colors, count, resolve, accepts, ledMin as int, i + 1);
      assert lookups == Lookups(table, accepts, ledMin as int, i + 1);
      i := i + 1;
    }
  }

  /**
   * The render loop seen from outside: what is written, in which order, with
   * which colour, and which keys reach the resolver.
   */
  method PaintRange(table: seq<KeyPos>, colors: seq<seq<Rgb>>, count: uint8,
                    resolve: KeyPos -> uint8, accepts: uint8 -> bool, ledMin: uint8, ledMax: uint8)
    returns (writes: seq<ColorWrite>, lookups: seq<KeyPos>)
    requires count > 0 && FitsTable(colors, count, |table|) && |table| <= 255
    requires ledMax as int <= |table|
    ensures forall j :: 0 <= j < |writes| ==> ledMin <= writes[j].led < ledMax && accepts(writes[j].led)
    ensures forall j, k :: 0 <= j < k < |writes| ==> writes[j].led < writes[k].led
    ensures forall i: uint8 :: ledMin <= i < ledMax && accepts(i) ==> exists j :: 0 <= j < |writes| && writes[j].led == i
    ensures forall j :: 0 <= j < |writes| && IsUnmapped(table[writes[j].led]) ==>
              writes[j].color == colors[0][writes[j].led]
    ensures forall j :: 0 <= j < |writes| && !IsUnmapped(table[writes[j].led]) ==>
              writes[j].color == colors[Clamp(resolve(table[writes[j].led]), count)][writes[j].led]
    ensures forall j :: 0 <= j < |lookups| ==>
              && !IsUnmapped(lookups[j])
              && KeyOfAcceptedLed(lookups[j], table, accepts, ledMin as int, ledMax as int)
    ensures writes == Writes(table, colors, count, resolve, accepts, ledMin as int, ledMax as int)
    ensures lookups == Lookups(table, accepts, ledMin as int, ledMax as int)
  {
    writes, lookups := RenderLoop(table, colors, count, resolve, accepts, ledMin, ledMax);
    WritesSound(table, colors, count, resolve, accepts, ledMin as int, ledMax as int);
    WritesAscending(table, colors, count, resolve, accepts, ledMin as int, ledMax as int);
    WritesComplete(table, colors, count, resolve, accepts, ledMin as int, ledMax as int);
    LookupsMapped(table, accepts, ledMin as int, ledMax as int);
  }

  /**
   * `TUI_LAYER_COLORS`: ensure the mapping is built, then paint the LEDs
   * `[ledMin, ledMax)` unless no colour table is compiled in. Returns the new
   * effect state, the colour writes and the resolver queries in the order they
   * are made, and the completion flag.
   */
  method RenderFrame(st: Mapping, m: seq<seq<uint8>>, ledCount: nat,
                     configured: Option<int>, colors: seq<seq<Rgb>>,
                     resolve: KeyPos -> uint8, accepts: uint8 -> bool, finished: uint8 -> bool,
                     ledMin: uint8, ledMax: uint8)
    returns (st': Mapping, writes: seq<ColorWrite>, lookups: seq<KeyPos>, done: bool)
    requires Valid(st, m, ledCount)
    requires FitsTable(colors, LayerCount(configured), ledCount)
    requires ledMax as int <= ledCount
    ensures Valid(st', m, ledCount) && st'.initialized
    ensures st.initialized ==> st' == st
    ensures done == finished(ledMax)
    ensures LayerCount(configured) == 0 ==> writes == [] && lookups == []
    ensures configured.None? ==> writes == [] && lookups == []
    ensures configured.Some? && configured.value % 0x100 == 0 ==> writes == [] && lookups == []
    ensures LayerCount(configured) > 0 ==>
      && writes == Writes(st'.ledToKey, colors, LayerCount(configured), resolve, accepts, ledMin as int, ledMax as int)
      && lookups == Lookups(st'.ledToKey, accepts, ledMin as int, ledMax as int)
    ensures forall j :: 0 <= j < |writes| ==> ledMin <= writes[j].led < ledMax && accepts(writes[j].led)
    ensures forall j, k :: 0 <= j < k < |writes| ==> writes[j].led < writes[k].led
    ensures LayerCount(configured) > 0 ==>
      forall i: uint8 :: ledMin <= i < ledMax && accepts(i) ==> exists j :: 0 <= j < |writes| && writes[j].led == i
    ensures forall j :: 0 <= j < |writes| ==>
              writes[j].color == colors[EffectiveLayer(st'.ledToKey[writes[j].led], resolve, LayerCount(configured))][writes[j].led]
    ensures forall j :: 0 <= j < |lookups| ==>
              && !IsUnmapped(lookups[j])
              && KeyOfAcceptedLed(lookups[j], st'.ledToKey, accepts, ledMin as int, ledMax as int)
  {
    st' := InitMapping(st, m, ledCount);
    var count := LayerCount(configured);
    if count == 0 {
      writes, lookups := [], [];
      done := finished(ledMax);
      return;
    }
    writes, lookups := PaintRange(st'.ledToKey, colors, count, resolve, accepts, ledMin, ledMax);
    done := finished(ledMax);
  }
}
