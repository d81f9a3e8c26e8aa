/**
 * A worked example of the effect on a 2x2 matrix whose second column has no
 * LEDs: LED 0 sits under key (0, 0) and LED 1 under key (1, 0); the colour table
 * has two layers and the resolver puts key (0, 0) on layer 1 and every other key
 * on layer 0.
 */
module Scenarios {
  import opened Types
  import opened LedMapping
  import opened LayerColors

  const Layout: seq<seq<uint8>> := [[0, NO_LED], [1, NO_LED]]

  const Colors: seq<seq<Rgb>> := [[Rgb(10, 0, 0), Rgb(20, 0, 0)], [Rgb(0, 10, 0), Rgb(0, 20, 0)]]

  function Resolver(k: KeyPos): uint8 {
    if k == KeyPos(0, 0) then 1 else 0
  }

  /** The scan maps LED 0 to (0, 0), LED 1 to (1, 0), and a third LED to the sentinel. */
  lemma ScenarioMapping()
    ensures FirstMatch(Layout, 0) == KeyPos(0, 0)
    ensures FirstMatch(Layout, 1) == KeyPos(1, 0)
    ensures FirstMatch(Layout, 2) == UNMAPPED
  {
    assert FindInRow(Layout[0], 1, 0) == None;
    assert FindFrom(Layout, 1, 1) == Some((1, 0));
  }

  /**
   * Two frames from power-on: the first builds the mapping, asks the resolver
   * about keys (0, 0) and (1, 0), and writes layer 1's colour to LED 0, then
   * layer 0's colour to LED 1; the second leaves the state as the first left it
   * and makes the same writes.
   */
  method ScenarioFrame() returns (first: Mapping, second: Mapping, writes: seq<ColorWrite>,
                                  lookups: seq<KeyPos>, again: seq<ColorWrite>)
    ensures first.initialized && second == first
    ensures writes == [ColorWrite(0, Rgb(0, 10, 0)), ColorWrite(1, Rgb(20, 0, 0))]
    ensures lookups == [KeyPos(0, 0), KeyPos(1, 0)]
    ensures again == writes
  {
    PowerOnValid(Layout, 2);
    ScenarioMapping();
    var done: bool;
    first, writes, lookups, done := RenderFrame(PowerOn(2), Layout, 2, Some(2), Colors, Resolver,
                                                _ => true, _ => true, 0, 2);
    var lookups2;
    second, again, lookups2, done := RenderFrame(first, Layout, 2, Some(2), Colors, Resolver,
                                                 _ => true, _ => true, 0, 2);
  }

  /** An LED without a key shows layer 0, and a resolved layer 7 of a 3-layer table shows layer 2. */
  lemma ScenarioFallbacks(resolve: KeyPos -> uint8)
    requires resolve(KeyPos(0, 0)) == 7
    ensures EffectiveLayer(UNMAPPED, resolve, 3) == 0
    ensures EffectiveLayer(KeyPos(0, 0), resolve, 3) == 2
  {
  }
}
