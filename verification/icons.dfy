/**
 * The status-bar threshold maps: battery percentage to a battery icon, and WiFi signal
 * strength (RSSI, in dBm, 0 meaning "not connected") to an icon and a description.
 * The bitmaps and the description texts themselves are data; they are named here by enums.
 */
module Icons {

  /** The battery bitmaps, from empty (no bar) to full. */
  datatype BatteryIcon = Battery0Bar | Battery1Bar | Battery2Bar | Battery3Bar
                       | Battery4Bar | Battery5Bar | Battery6Bar | BatteryFull

  /** The number of bars the battery icon shows (the full battery counts as 7). */
  function Bars(icon: BatteryIcon): nat
  {
    match icon
    case Battery0Bar => 0
    case Battery1Bar => 1
    case Battery2Bar => 2
    case Battery3Bar => 3
    case Battery4Bar => 4
    case Battery5Bar => 5
    case Battery6Bar => 6
    case BatteryFull => 7
  }

  /** The percentages at which the battery icon gains a bar, in ascending order. */
  const BATTERY_THRESHOLDS: seq<nat> := [8, 22, 36, 50, 65, 79, 93]

  /** How many of `thresholds` the value `v` has reached. */
  function Reached(v: int, thresholds: seq<int>): (n: nat)
    ensures n <= |thresholds|
  {
    if |thresholds| == 0 then 0
    else (if v >= thresholds[0] then 1 else 0) + Reached(v, thresholds[1..])
  }

  /** A larger value reaches at least as many thresholds. */
  lemma {:induction false} ReachedMonotone(v: int, u: int, thresholds: seq<int>)
    requires v <= u
    ensures Reached(v, thresholds) <= Reached(u, thresholds)
  {
    if |thresholds| > 0 {
      ReachedMonotone(v, u, thresholds[1..]);
    }
  }

  /** `getBatBitmap24(batPercent)`: one bar for each threshold the percentage has reached. */
  function GetBatBitmap24(batPercent: nat): (icon: BatteryIcon)
    ensures Bars(icon) == Reached(batPercent, BATTERY_THRESHOLDS)
  {
    BatteryReached(batPercent);
    if batPercent >= 93 then BatteryFull
    else if batPercent >= 79 then Battery6Bar
    else if batPercent >= 65 then Battery5Bar
    else if batPercent >= 50 then Battery4Bar
    else if batPercent >= 36 then Battery3Bar
    else if batPercent >= 22 then Battery2Bar
    else if batPercent >= 8 then Battery1Bar
    else Battery0Bar
  }

  lemma BatteryReached(p: int)
    ensures Reached(p, BATTERY_THRESHOLDS) ==
      if p >= 93 then 7 else if p >= 79 then 6 else if p >= 65 then 5 else if p >= 50 then 4
      else if p >= 36 then 3 else if p >= 22 then 2 else if p >= 8 then 1 else 0
  {
    assert Reached(p, [93]) == (if p >= 93 then 1 else 0) by { assert [93][1..] == []; }
    assert Reached(p, [79, 93]) == (if p >= 79 then 1 else 0) + Reached(p, [93]) by { assert [79, 93][1..] == [93]; }
    assert Reached(p, [65, 79, 93]) == (if p >= 65 then 1 else 0) + Reached(p, [79, 93]) by {
      assert [65, 79, 93][1..] == [79, 93];
    }
    assert Reached(p, [50, 65, 79, 93]) == (if p >= 50 then 1 else 0) + Reached(p, [65, 79, 93]) by {
      assert [50, 65, 79, 93][1..] == [65, 79, 93];
    }
    assert Reached(p, [36, 50, 65, 79, 93]) == (if p >= 36 then 1 else 0) + Reached(p, [50, 65, 79, 93]) by {
      assert [36, 50, 65, 79, 93][1..] == [50, 65, 79, 93];
    }
    assert Reached(p, [22, 36, 50, 65, 79, 93]) == (if p >= 22 then 1 else 0) + Reached(p, [36, 50, 65, 79, 93]) by {
      assert [22, 36, 50, 65, 79, 93][1..] == [36, 50, 65, 79, 93];
    }
    assert BATTERY_THRESHOLDS[1..] == [22, 36, 50, 65, 79, 93];
  }

  /** A fuller battery never shows fewer bars. */
  lemma BatteryMonotone(p: nat, q: nat)
    requires p <= q
    ensures Bars(GetBatBitmap24(p)) <= Bars(GetBatBitmap24(q))
  {
    ReachedMonotone(p, q, BATTERY_THRESHOLDS);
  }

  /** The WiFi bitmaps: the crossed-out one and one to four bars. */
  datatype WiFiIcon = WiFiX | WiFi1Bar | WiFi2Bar | WiFi3Bar | WiFiFull

  /** The WiFi descriptions (`TXT_WIFI_*`). */
  datatype WiFiDescription = NoConnection | Poor | Fair | Good | Excellent

  /** The RSSI values (dBm) at which the signal gains a level, in ascending order. */
  const WIFI_THRESHOLDS: seq<int> := [-70, -60, -50]

  /** The signal level: 0 when not connected, otherwise 1 plus the thresholds reached. */
  function SignalLevel(rssi: int): (level: nat)
    ensures level <= 4
    ensures (level == 0) <==> (rssi == 0)
  {
    if rssi == 0 then 0 else 1 + Reached(rssi, WIFI_THRESHOLDS)
  }

  lemma WiFiReached(rssi: int)
    ensures Reached(rssi, WIFI_THRESHOLDS) == if rssi >= -50 then 3 else if rssi >= -60 then 2 else if rssi >= -70 then 1 else 0
  {
    assert Reached(rssi, [-50]) == (if rssi >= -50 then 1 else 0) by { assert [-50][1..] == []; }
    assert [-60, -50][1..] == [-50];
    assert WIFI_THRESHOLDS[1..] == [-60, -50];
  }

  function IconLevel(icon: WiFiIcon): nat
  {
    match icon
    case WiFiX => 0
    case WiFi1Bar => 1
    case WiFi2Bar => 2
    case WiFi3Bar => 3
    case WiFiFull => 4
  }

  function DescriptionLevel(desc: WiFiDescription): nat
  {
    match desc
    case NoConnection => 0
    case Poor => 1
    case Fair => 2
    case Good => 3
    case Excellent => 4
  }

  /** `getWiFiBitmap16(rssi)`. */
  function GetWiFiBitmap16(rssi: int): (icon: WiFiIcon)
    ensures IconLevel(icon) == SignalLevel(rssi)
  {
    WiFiReached(rssi);
    if rssi == 0 then WiFiX
    else if rssi >= -50 then WiFiFull
    else if rssi >= -60 then WiFi3Bar
    else if rssi >= -70 then WiFi2Bar
    else WiFi1Bar
  }

  /** `getWiFidesc(rssi)`. */
  function GetWiFiDesc(rssi: int): (desc: WiFiDescription)
    ensures DescriptionLevel(desc) == SignalLevel(rssi)
  {
    WiFiReached(rssi);
    if rssi == 0 then NoConnection
    else if rssi >= -50 then Excellent
    else if rssi >= -60 then Good
    else if rssi >= -70 then Fair
    else Poor
  }

  /** The icon and the text shown beside it always describe the same level. */
  lemma WiFiIconMatchesDescription(rssi: int)
    ensures IconLevel(GetWiFiBitmap16(rssi)) == DescriptionLevel(GetWiFiDesc(rssi))
    ensures GetWiFiBitmap16(rssi) == WiFiX <==> GetWiFiDesc(rssi) == NoConnection
    ensures GetWiFiBitmap16(rssi) == WiFiFull <==> GetWiFiDesc(rssi) == Excellent
  {
  }

  /** Among connected readings (non-zero RSSI), a stronger signal never shows a lower level.
      The value 0 is the "not connected" marker and sits outside this order. */
  lemma WiFiMonotone(rssi1: int, rssi2: int)
    requires rssi1 != 0 && rssi2 != 0 && rssi1 <= rssi2
    ensures IconLevel(GetWiFiBitmap16(rssi1)) <= IconLevel(GetWiFiBitmap16(rssi2))
  {
    ReachedMonotone(rssi1, rssi2, WIFI_THRESHOLDS);
  }
}
