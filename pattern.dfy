/** The rainbow animation of ld-framework/Pattern.cpp: the global hue table filled by
  * `rainbowSetup`, and the `Pattern` object whose `setup` and `loop` drive four pixels
  * of an OctoWS2811 strip from that table.
  *
  * The strip driver is a foreign library; here it is a sink that records, in a ghost
  * trace, every `setPixel` and `show` it is asked to perform.
  */
module Animation {
  import opened Hsv

  /** The value (brightness) every hue-table entry is computed with. */
  const Brightness: Byte := 50

  /** The number of entries of the global `hues` table. */
  const TableSize: nat := 256

  /** The modulus applied to `offset + ticks` when the table is read. It is one less
    * than the table size, so the last entry is never read. */
  const Period: nat := 255

  // ---------------------------------------------------------------------------
  // The hue table
  // ---------------------------------------------------------------------------

  /** Entry `i` of the table: hue `i` at full saturation and value `Brightness`. */
  function HueEntry(i: Byte): nat
  {
    SetLedColorHsv(i, 255, Brightness)
  }

  /** The whole table as `rainbowSetup` leaves it. */
  function HueTable(): (t: seq<int>)
    ensures |t| == TableSize
  {
    seq(TableSize, (i: int) requires 0 <= i < TableSize => HueEntry(i))
  }

  /** A colour of the table's kind: below 2^24, no channel above `Brightness`, one
    * channel off and one channel at `Brightness`. */
  ghost predicate IsRainbowColour(rgb: int)
  {
    0 <= rgb < PackedLimit &&
    var c := Unpack(rgb);
    c.red <= Brightness && c.green <= Brightness && c.blue <= Brightness &&
    (c.red == 0 || c.green == 0 || c.blue == 0) &&
    (c.red == Brightness || c.green == Brightness || c.blue == Brightness)
  }

  /** Every entry of the table is a fully saturated colour at brightness 50. */
  lemma HueTableColours()
    ensures forall i :: 0 <= i < TableSize ==> IsRainbowColour(HueTable()[i])
  {
    forall i | 0 <= i < TableSize
      ensures IsRainbowColour(HueTable()[i])
    {
      FullySaturatedHasDarkChannel(i, Brightness);
    }
  }

  /** The first entry of the table is pure dim red and the last one dim red with
    * blue at 1. */
  lemma HueTableEnds()
    ensures HueTable()[0] == 0x320000
    ensures HueTable()[255] == 0x320001
  {
    var v := Brightness;
    assert HueTable()[0] == 0x320000 by {
      FirstHue(v);
    }
    assert HueTable()[255] == 0x320001 by {
      assert (v as int) * 9 / 256 == 1;
      LastHue(v);
    }
  }

  /** `rainbowSetup`: fills the table in place, entry by entry. Whatever the array held
    * before, it holds the same table afterwards, so running it again changes nothing. */
  method RainbowSetup(hues: array<int>)
    requires hues.Length == TableSize
    modifies hues
    ensures hues[..] == HueTable()
  {
    for i := 0 to TableSize
      invariant forall j :: 0 <= j < i ==> hues[j] == HueEntry(j)
    {
      hues[i] := SetLedColorHsv(i, 255, Brightness);
    }
    assert forall j :: 0 <= j < TableSize ==> hues[..][j] == HueTable()[j];
  }

  // ---------------------------------------------------------------------------
  // Frames
  // ---------------------------------------------------------------------------

  /** What the strip driver is asked to do. */
  datatype LedEvent = SetPixel(pixel: nat, colour: int) | Show

  /** The table index read for one phase offset at a given tick. */
  function FrameIndex(offset: nat, ticks: nat): (k: nat)
    ensures k < Period && k < TableSize
  {
    (offset + ticks) % Period
  }

  /** One call of `loop`: pixels 1 to 4 get the entries at phase offsets 140, 170, 200
    * and 230, then the frame is shown. */
  function Frame(table: seq<int>, ticks: nat): (f: seq<LedEvent>)
    requires |table| == TableSize
    ensures |f| == 5
  {
    [ SetPixel(1, table[FrameIndex(140, ticks)]),
      SetPixel(2, table[FrameIndex(170, ticks)]),
      SetPixel(3, table[FrameIndex(200, ticks)]),
      SetPixel(4, table[FrameIndex(230, ticks)]),
      Show ]
  }

  /** `n` consecutive calls of `loop`, starting at tick `ticks`: the first `n - 1`
    * calls followed by the frame of the last one. */
  function Frames(table: seq<int>, ticks: nat, n: nat): (events: seq<LedEvent>)
    requires |table| == TableSize
    ensures |events| == 5 * n
    decreases n
  {
    if n == 0 then [] else Frames(table, ticks, n - 1) + Frame(table, ticks + n - 1)
  }

  /** The tick-0 indices are the offsets themselves, and at tick 115 the fourth pixel
    * has wrapped round to index 90. */
  lemma FrameIndexExamples()
    ensures FrameIndex(140, 0) == 140 && FrameIndex(170, 0) == 170
    ensures FrameIndex(200, 0) == 200 && FrameIndex(230, 0) == 230
    ensures FrameIndex(230, 115) == 90
  {
  }

  /** The last table entry is never read: a table differing from another only there
    * gives the same frames. */
  lemma FrameIgnoresLastEntry(table: seq<int>, other: seq<int>, ticks: nat)
    requires |table| == |other| == TableSize
    requires table[..TableSize - 1] == other[..TableSize - 1]
    ensures Frame(table, ticks) == Frame(other, ticks)
  {
    forall k | 0 <= k < TableSize - 1
      ensures table[k] == other[k]
    {
      assert table[k] == table[..TableSize - 1][k];
      assert other[k] == other[..TableSize - 1][k];
    }
  }

  /** Each table index read repeats after `Period` ticks. */
  lemma FrameIndexPeriodic(offset: nat, ticks: nat)
    ensures FrameIndex(offset, ticks + Period) == FrameIndex(offset, ticks)
  {
    assert offset + (ticks + Period) == (offset + ticks) + 255;
  }

  /** The frame repeats every `Period` ticks. */
  lemma {:induction false} FramePeriodic(table: seq<int>, ticks: nat, n: nat)
    requires |table| == TableSize
    ensures Frame(table, ticks + n * Period) == Frame(table, ticks)
    decreases n
  {
    if n > 0 {
      var t := ticks + (n - 1) * Period;
      assert ticks + n * Period == t + Period;
      FrameIndexPeriodic(140, t);
      FrameIndexPeriodic(170, t);
      FrameIndexPeriodic(200, t);
      FrameIndexPeriodic(230, t);
      calc {
        Frame(table, t + Period);
        Frame(table, t);
        { FramePeriodic(table, ticks, n - 1); }
        Frame(table, ticks);
      }
    }
  }

  /** The number of `show` requests in a trace. */
  function ShowCount(events: seq<LedEvent>): nat
  {
    if events == [] then 0
    else (if events[0] == Show then 1 else 0) + ShowCount(events[1..])
  }

  /** A trace has no shows counted exactly when it holds no `Show` request. */
  lemma {:induction false} ShowCountZero(events: seq<LedEvent>)
    ensures ShowCount(events) == 0 <==> Show !in events
    decreases |events|
  {
    if events != [] {
      ShowCountZero(events[1..]);
      assert events == [events[0]] + events[1..];
    }
  }

  /** Counting the shows of two traces one after the other adds their counts. */
  lemma {:induction false} ShowCountAppend(a: seq<LedEvent>, b: seq<LedEvent>)
    ensures ShowCount(a + b) == ShowCount(a) + ShowCount(b)
    decreases |a|
  {
    if a != [] {
      assert (a + b)[1..] == a[1..] + b;
      ShowCountAppend(a[1..], b);
    } else {
      assert a + b == b;
    }
  }

  /** One call of `loop` asks for exactly one show, after its four pixel writes. */
  lemma FrameShowsOnce(table: seq<int>, ticks: nat)
    requires |table| == TableSize
    ensures ShowCount(Frame(table, ticks)) == 1
  {
    var f := Frame(table, ticks);
    assert f[1..][1..][1..][1..] == [Show];
    assert [Show][1..] == [];
    calc {
      ShowCount(f);
      ShowCount(f[1..]);
      ShowCount(f[1..][1..]);
      ShowCount(f[1..][1..][1..]);
      ShowCount(f[1..][1..][1..][1..]);
      1 + ShowCount([]);
    }
  }

  /** Of the `5 * n` events of `n` calls of `loop` exactly `n` are shows, so `4 * n`
    * are pixel writes. */
  lemma {:induction false} FramesCount(table: seq<int>, ticks: nat, n: nat)
    requires |table| == TableSize
    ensures ShowCount(Frames(table, ticks, n)) == n
    decreases n
  {
    if n == 0 {
      assert Frames(table, ticks, n) == [];
    } else {
      var earlier, last := Frames(table, ticks, n - 1), Frame(table, ticks + n - 1);
      assert ShowCount(earlier) == n - 1 by {
        FramesCount(table, ticks, n - 1);
      }
      assert ShowCount(last) == 1 by {
        FrameShowsOnce(table, ticks + n - 1);
      }
      assert Frames(table, ticks, n) == earlier + last;
      ShowCountAppend(earlier, last);
    }
  }

  /** Call `k` of `n` consecutive calls of `loop` is exactly the frame of tick
    * `ticks + k`: event `j` of that call is event `j` of `Frame(table, ticks + k)`. */
  lemma {:induction false} FramesAt(table: seq<int>, ticks: nat, n: nat, k: nat, j: nat)
    requires |table| == TableSize
    requires k < n && j < 5
    ensures 5 * k + j < |Frames(table, ticks, n)|
    ensures Frames(table, ticks, n)[5 * k + j] == Frame(table, ticks + k)[j]
    decreases n
  {
    var earlier, last := Frames(table, ticks, n - 1), Frame(table, ticks + n - 1);
    assert Frames(table, ticks, n) == earlier + last;
    if k < n - 1 {
      FramesAt(table, ticks, n - 1, k, j);
      assert (earlier + last)[5 * k + j] == earlier[5 * k + j];
    } else {
      assert k == n - 1 && |earlier| == 5 * k;
      assert (earlier + last)[|earlier| + j] == last[j];
    }
  }

  /** Once the table is built, every colour `loop` writes is a fully saturated colour at
    * brightness 50, taken from entries 0..254. */
  lemma FrameColours(ticks: nat)
    ensures forall e :: e in Frame(HueTable(), ticks) && e.SetPixel? ==>
      1 <= e.pixel <= 4 && IsRainbowColour(e.colour) && e.colour in HueTable()[..Period]
  {
    HueTableColours();
    var t := HueTable();
    var i1, i2 := FrameIndex(140, ticks), FrameIndex(170, ticks);
    var i3, i4 := FrameIndex(200, ticks), FrameIndex(230, ticks);
    assert t[i1] == t[..Period][i1] && t[i2] == t[..Period][i2];
    assert t[i3] == t[..Period][i3] && t[i4] == t[..Period][i4];
  }

  // ---------------------------------------------------------------------------
  // The pattern object
  // ---------------------------------------------------------------------------

  /** The OctoWS2811 strip as the pattern sees it: a sink recording each request. */
  class LedSink {
    ghost var trace: seq<LedEvent>

    constructor ()
      ensures trace == []
    {
      trace := [];
    }

    /** `leds->setPixel(pixel, colour)`. */
    method SetPixel(pixel: nat, colour: int)
      modifies this
      ensures trace == old(trace) + [LedEvent.SetPixel(pixel, colour)]
    {
      trace := trace + [LedEvent.SetPixel(pixel, colour)];
    }

    /** `leds->show()`. */
    method Show()
      modifies this
      ensures trace == old(trace) + [LedEvent.Show]
    {
      trace := trace + [LedEvent.Show];
    }
  }

  /** A `Pattern`: a tick counter and a non-owning reference to the strip. The global
    * `hues` table it reads and fills is shared, so it is handed in as well. */
  class Pattern {
    var ticks: nat
    const leds: LedSink
    const hues: array<int>

    ghost predicate Valid()
    {
      hues.Length == TableSize
    }

    /** Stores the strip and the table; `ticks` is set only by `Setup`. */
    constructor (leds: LedSink, hues: array<int>)
      requires hues.Length == TableSize
      ensures Valid() && this.leds == leds && this.hues == hues
    {
      this.leds := leds;
      this.hues := hues;
    }

    /** `Pattern::setup`: zeroes the counter and builds the table; nothing is sent to
      * the strip. */
    method Setup()
      requires Valid()
      modifies this, hues
      ensures ticks == 0 && hues[..] == HueTable()
      ensures leds.trace == old(leds.trace)
    {
      ticks := 0;
      RainbowSetup(hues);
    }

    /** `Pattern::loop`: writes pixels 1 to 4 from the table at tick `ticks`, shows
      * the frame once, and advances the counter by one; the table is not touched. */
    method Loop()
      requires Valid()
      modifies this, leds
      ensures ticks == old(ticks) + 1
      ensures leds.trace == old(leds.trace) + Frame(hues[..], old(ticks))
      ensures unchanged(hues)
    {
      leds.SetPixel(1, hues[FrameIndex(140, ticks)]);
      leds.SetPixel(2, hues[FrameIndex(170, ticks)]);
      leds.SetPixel(3, hues[FrameIndex(200, ticks)]);
      leds.SetPixel(4, hues[FrameIndex(230, ticks)]);
      leds.Show();
      ticks := ticks + 1;
    }
  }

  /** The sketch's main loop run for `n` iterations: `n` calls of `Pattern::loop`.
    * The strip receives exactly `Frames` of the table from the starting tick, which
    * holds `n` shows, and the counter advances by `n`. */
  method RunLoops(p: Pattern, n: nat)
    requires p.Valid()
    modifies p, p.leds
    ensures p.ticks == old(p.ticks) + n
    ensures p.leds.trace == old(p.leds.trace) + Frames(p.hues[..], old(p.ticks), n)
    ensures ShowCount(p.leds.trace) == ShowCount(old(p.leds.trace)) + n
    ensures unchanged(p.hues)
  {
    for k := 0 to n
      invariant p.ticks == old(p.ticks) + k
      invariant p.leds.trace == old(p.leds.trace) + Frames(p.hues[..], old(p.ticks), k)
      invariant unchanged(p.hues)
    {
      p.Loop();
    }
    ShowCountAppend(old(p.leds.trace), Frames(p.hues[..], old(p.ticks), n));
    FramesCount(p.hues[..], old(p.ticks), n);
  }
}
