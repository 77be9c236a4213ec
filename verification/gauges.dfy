/** The paging of the gauge panel (`CarberryPanelGauges` in carberry_gui.py):
    the panel shows the supported sensors six at a time, starting at
    `istart`, and a left or right click moves one page back or forward. Only
    the index arithmetic is modelled; what a page looks like on screen is
    not. */
module Gauges {

  /** Sensors per page. */
  const PageSize: nat := 6

  /** `get_sensors_to_display(istart)`: the page of sensors starting at
      `istart`, empty when `istart` is past the end. */
  function SensorsToDisplay<T>(sensors: seq<T>, istart: nat): (page: seq<T>)
    ensures |page| <= PageSize
    ensures istart < |sensors| <==> |page| > 0
    ensures istart + |page| <= |sensors| || page == []
    ensures forall k :: 0 <= k < |page| ==> page[k] == sensors[istart + k]
    // a short page only at the end of the list
    ensures |page| < PageSize ==> istart + |page| >= |sensors|
  {
    if istart < |sensors| then
      sensors[istart..if istart + PageSize < |sensors| then istart + PageSize else |sensors|]
    else []
  }

  /** Every page from `istart` on, one after the other. */
  function PagesFrom<T>(sensors: seq<T>, istart: nat): seq<T>
    decreases |sensors| - istart
  {
    if istart < |sensors| then SensorsToDisplay(sensors, istart) + PagesFrom(sensors, istart + PageSize)
    else []
  }

  /** Paging loses and repeats nothing: the pages from `istart` on, put
      together, are the rest of the list. */
  lemma {:induction false} PagesRebuildList<T>(sensors: seq<T>, istart: nat)
    requires istart <= |sensors|
    decreases |sensors| - istart
    ensures PagesFrom(sensors, istart) == sensors[istart..]
  {
    if istart < |sensors| {
      var page := SensorsToDisplay(sensors, istart);
      if istart + PageSize < |sensors| {
        PagesRebuildList(sensors, istart + PageSize);
        assert page == sensors[istart..istart + PageSize];
        assert sensors[istart..] == page + sensors[istart + PageSize..];
      } else {
        assert page == sensors[istart..];
        assert PagesFrom(sensors, istart + PageSize) == [];
      }
    }
  }

  /** `on_left`: one page back, but never before the first sensor. */
  function OnLeft(istart: nat): (next: nat)
    ensures next <= istart
    ensures istart >= PageSize ==> next == istart - PageSize
    ensures istart < PageSize ==> next == 0
  {
    if istart < PageSize then 0 else istart - PageSize
  }

  /** `on_right` with `count` sensors: one page forward, unless that page
      would be empty. */
  function OnRight(count: nat, istart: nat): (next: nat)
    ensures next == istart || next == istart + PageSize
    ensures next == istart + PageSize <==> istart + PageSize < count
  {
    if istart + PageSize < count then istart + PageSize else istart
  }

  datatype Click = Left | Right

  /** The page start after a run of clicks. */
  function Run(count: nat, istart: nat, clicks: seq<Click>): nat
    decreases clicks
  {
    if clicks == [] then istart
    else
      var next := if clicks[0].Left? then OnLeft(istart) else OnRight(count, istart);
      Run(count, next, clicks[1..])
  }

  /** The panel's invariant: the page starts on a multiple of six, and on a
      sensor unless the list is empty. */
  predicate Aligned(count: nat, istart: nat) {
    istart % PageSize == 0 && (istart == 0 || istart < count)
  }

  /** Each click keeps the invariant. */
  lemma ClickKeepsAligned(count: nat, istart: nat)
    requires Aligned(count, istart)
    ensures Aligned(count, OnLeft(istart))
    ensures Aligned(count, OnRight(count, istart))
  {
  }

  /** Every run of clicks keeps the invariant. */
  lemma {:induction false} RunStaysAligned(count: nat, istart: nat, clicks: seq<Click>)
    requires Aligned(count, istart)
    decreases clicks
    ensures Aligned(count, Run(count, istart, clicks))
  {
    if clicks != [] {
      ClickKeepsAligned(count, istart);
      var next := if clicks[0].Left? then OnLeft(istart) else OnRight(count, istart);
      RunStaysAligned(count, next, clicks[1..]);
    }
  }

  /** From the panel's initial `istart = 0`, whatever the clicks, the page
      starts on a multiple of six and is never empty while there are
      sensors. */
  lemma PanelPageNeverEmpty<T>(sensors: seq<T>, clicks: seq<Click>)
    ensures Run(|sensors|, 0, clicks) % PageSize == 0
    ensures |sensors| > 0 ==> SensorsToDisplay(sensors, Run(|sensors|, 0, clicks)) != []
  {
    RunStaysAligned(|sensors|, 0, clicks);
  }

  /** Left undoes a right click that moved. */
  lemma RightThenLeft(count: nat, istart: nat)
    requires istart + PageSize < count
    ensures OnLeft(OnRight(count, istart)) == istart
  {
  }

  /** Right undoes a left click that moved, on an aligned page. */
  lemma LeftThenRight(count: nat, istart: nat)
    requires Aligned(count, istart) && istart >= PageSize
    ensures OnRight(count, OnLeft(istart)) == istart
  {
  }
}
