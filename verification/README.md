# TUI layer colours — a Dafny model

This project models the QMK RGB-matrix effect `TUI_LAYER_COLORS`. The effect
paints every LED with the colour baked for the layer that is currently in
effect on the key under that LED.

It has two parts.

- **LED → key mapping** (`tui_layer_colors_init_mapping`). The first call scans
  the layout `g_led_config.matrix_co` once. For each LED it caches the first
  matrix position, in row-major order, whose cell holds that LED. An LED that
  lights no key gets the sentinel `(0xFF, 0xFF)`. A one-shot flag turns every
  later call into a no-op.
- **Frame renderer** (`TUI_LAYER_COLORS`). It walks the LEDs of
  `[led_min, led_max)` that the framework's flag filter accepts. For each one it
  picks a layer:
  - layer 0 when the cached key is unmapped, without asking the resolver;
  - otherwise the layer the layer-stacking engine resolves for that key.

  It then clamps the layer to the last row of the baked table and writes the
  colour stored for `(layer, LED)`. If no table is compiled in, it writes
  nothing. It always returns the framework's completion predicate at `led_max`.

Files:

- `types.dfy` (module `Types`): `uint8`, key positions with the `UNMAPPED`
  sentinel, RGB triplets, `Option`.
- `led_mapping.dfy` (module `LedMapping`): the layout, the declarative "first
  match" specification, a recursive reference search, and the effect state
  (`Mapping`: flag plus table). It also holds the imperative scan and
  `InitMapping`.
- `layer_colors.dfy` (module `LayerColors`): the clamp, the layer choice, and
  reference definitions of the write sequence (`Writes`) and the
  resolver-query sequence (`Lookups`). It also holds lemmas about both, the
  render loop `RenderLoop`, its observable summary `PaintRange`, and
  `RenderFrame`.
- `scenarios.dfy` (module `Scenarios`): a 2×2 worked example, rendered twice
  from power-on through `RenderFrame`, and the two fallbacks.

The effect's static state (the flag and the cached table) is an immutable
`Mapping` value. It is passed into `InitMapping` and `RenderFrame`, and they
return the new one. The external collaborators are parameters:

- the resolver `layer_switch_get_layer` is `resolve: KeyPos -> uint8`;
- the LED-flag filter is `accepts: uint8 -> bool`;
- `rgb_matrix_check_finished_leds` is `finished: uint8 -> bool`.

Each colour write `rgb_matrix_set_color(i, r, g, b)` becomes one element of the
returned `writes` sequence, in call order. Each resolver query becomes one
element of `lookups`. The build-time `LAYER_BASE_COLORS_LAYER_COUNT` is
`configured: Option<int>`, where `None` means it is not defined. `LayerCount`
turns that into the count the effect uses, keeping it modulo 256 as the
function's `uint8_t` return type does.

The loop counters of the source are `uint8_t`, and the model requires the LED
count, the row count and the column count to be at most 255, for these reasons:

- the LED loop `led < COUNT` has no other exit, so above 255 LEDs it never ends;
- the row and column loops also stop on a match (the `!found` guard and the
  `break`), but an LED that is never found keeps them wrapping forever when the
  bound is above 255;
- a match at row or column 255 would be stored as 0xFF, and the renderer's
  sentinel test would then take it for an unmapped key.

Within these bounds two consequences are proved:

- a position the scan finds never has a coordinate `0xFF`, so it is never
  mistaken for the sentinel;
- a cached position never points at a `NO_LED` (0xFF) cell.

Both are postconditions of `InitMapping`.

## Model

| member | source | states |
|---|---|---|
| LedMapping.FindInRow | quantum/rgb_matrix/animations/tui_layer_colors_anim.h:42-48 | The column found is the first at or after the start whose cell holds the LED; none is found exactly when no such cell exists |
| LedMapping.FindFrom | quantum/rgb_matrix/animations/tui_layer_colors_anim.h:41-50 | The position found is in the matrix, holds the LED, and no earlier row-major position from the start row holds it; none is found exactly when no cell from the start row holds it |
| LedMapping.FirstMatch | quantum/rgb_matrix/animations/tui_layer_colors_anim.h:37-58 | The key recorded for an LED is its first row-major position if any cell holds it, and the sentinel otherwise |
| LedMapping.EntryUnique | quantum/rgb_matrix/animations/tui_layer_colors_anim.h:41-58 | At most one key satisfies the first-match-or-sentinel rule, so the cached table is determined by the layout alone |
| LedMapping.PowerOnValid | quantum/rgb_matrix/animations/tui_layer_colors_anim.h:29-30 | The power-on state (flag clear, zeroed table) satisfies the effect's state invariant |
| LedMapping.ScanForLed | quantum/rgb_matrix/animations/tui_layer_colors_anim.h:38-58 | The nested early-exit scan for one LED yields its first row-major position, or the sentinel exactly when no cell holds the LED |
| LedMapping.InitMapping | quantum/rgb_matrix/animations/tui_layer_colors_anim.h:32-62 | Afterwards the flag is set. A call with the flag already set changes neither the flag nor the table, so a second call is a no-op. Every entry is the LED's first row-major position, or the sentinel exactly when no position holds the LED. A mapped entry lies in the matrix and never on a `NO_LED` cell |
| LayerColors.LayerCount | quantum/rgb_matrix/animations/tui_layer_colors_anim.h:64-70 | Without the macro the count is 0. With it, the count is the `uint8_t` congruent to the macro's value modulo 256, which is the value itself when it lies in 0..255 |
| LayerColors.Clamp | quantum/rgb_matrix/animations/tui_layer_colors_anim.h:93-95 | The clamped layer is a valid table row and never above the resolved layer. It is either the resolved layer or the last row, so an in-range layer is kept and an out-of-range one becomes `count - 1` |
| LayerColors.WritesSound | quantum/rgb_matrix/animations/tui_layer_colors_anim.h:83-101 | Every write names an LED of the range that the filter accepts, and carries the colour of that LED's clamped effective layer |
| LayerColors.WritesAscending | quantum/rgb_matrix/animations/tui_layer_colors_anim.h:83-102 | Writes happen in strictly ascending LED order, so no LED is written twice |
| LayerColors.WritesComplete | quantum/rgb_matrix/animations/tui_layer_colors_anim.h:83-102 | Every LED of the range that the filter accepts receives its write |
| LayerColors.LookupsMapped | quantum/rgb_matrix/animations/tui_layer_colors_anim.h:84-91 | The resolver is only asked about mapped keys, each being the cached key of an accepted LED of the range |
| LayerColors.UnmappedIgnoresResolver | quantum/rgb_matrix/animations/tui_layer_colors_anim.h:88-91 | Resolvers that agree on every mapped key produce identical writes: an unmapped LED's colour never depends on the resolver |
| LayerColors.RenderLoop | quantum/rgb_matrix/animations/tui_layer_colors_anim.h:83-102 | The imperative loop, with its skip, its unmapped-key fallback, its clamp and its writes, produces exactly the reference write sequence and the reference resolver-query sequence for the range, also when `led_min` exceeds `led_max` |
| LayerColors.PaintRange | quantum/rgb_matrix/animations/tui_layer_colors_anim.h:83-102 | The render loop makes exactly the reference writes and resolver queries. Writes stay in the range, pass the filter and ascend, and cover every accepted LED. An unmapped LED gets layer 0's colour and a mapped LED gets the colour of its clamped resolved layer. Queried keys are mapped |
| LayerColors.RenderFrame | quantum/rgb_matrix/animations/tui_layer_colors_anim.h:64-105 | The mapping is built first, with the flag honoured. With no colour table (macro undefined, or a value that is 0 modulo 256) there are no writes and no resolver queries. Otherwise the writes and queries are the reference sequences for the range: in range, filtered, ascending, complete, each with its effective layer's colour, queries only for mapped keys of accepted LEDs. The result is always the completion predicate at `led_max` |
| Scenarios.ScenarioMapping | quantum/rgb_matrix/animations/tui_layer_colors_anim.h:37-58 | On the 2×2 example LED 0 maps to (0,0), LED 1 to (1,0), and an LED absent from the layout to the sentinel |
| Scenarios.ScenarioFrame | quantum/rgb_matrix/animations/tui_layer_colors_anim.h:72-105 | On the example, a first frame from power-on rendering `[0, 2)` asks the resolver about (0,0) then (1,0), and writes layer 1's colour to LED 0, then layer 0's colour to LED 1. A second frame keeps the state and makes the same writes |
| Scenarios.ScenarioFallbacks | quantum/rgb_matrix/animations/tui_layer_colors_anim.h:88-95 | An unmapped LED uses layer 0. A resolved layer 7 in a 3-layer table uses layer 2 |

## Left out

- `pgm_read_byte` and PROGMEM placement (lines 97-99) are a platform memory-access primitive. The colour table is a plain read-only `seq<seq<Rgb>>`.
- `layer_switch_get_layer` (lines 23, 90) lives in QMK's layer engine. It is the uninterpreted parameter `resolve`.
- `RGB_MATRIX_EFFECT`, `RGB_MATRIX_USE_LIMITS`, `RGB_MATRIX_TEST_LED_FLAGS` and the `#ifdef` scaffolding (lines 1, 17-20, 73, 84) are effect-registration and frame-limiting macros. The range is the pair of inputs `ledMin`, `ledMax`. The flag test is the predicate `accepts`; an LED it rejects is skipped, as with `continue`.
- `rgb_matrix_set_color` (line 101) is a hardware sink. Each call is one element of the returned `writes`.
- `rgb_matrix_check_finished_leds` (lines 80, 104) is external. The model only shows that its result is returned unchanged.
- The build-time choice of `LAYER_BASE_COLORS_LAYER_COUNT` (lines 64-70) is the input `configured`: the macro's integer value, or `None` when it is undefined. `LayerCount` applies the `uint8_t` conversion of the return type.
- The extern `layer_base_colors_layer_count` (line 26) is declared but never read, so it is not modelled.
- The generated colour data, colour-space conversion and brightness are outside this effect.
- LED, row and column counts above 255 are excluded by precondition. Above 255 LEDs the LED loop never ends; above 255 rows or columns the scan of an LED that is never found never ends, and a match at index 255 would collide with the 0xFF sentinel.
- LedMapping.InitMapping and LayerColors.RenderFrame take the effect state only in a reachable form, stated by `LedMapping.Valid`: either the power-on state or a state an earlier call returned. `PowerOnValid` and the `Valid` postconditions of both methods show that every state the effect can reach qualifies. The C statics cannot hold anything else.
- The caller's promise that `led_max` does not exceed the LED count is a precondition. A `led_min` above `led_max` is allowed and paints nothing.
