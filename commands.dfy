/** What the driver puts on the wire: each byte goes out with the A0 line
    low (command) or high (data). The SPI registers, chip select and busy
    waits are not modelled; a transfer is one entry of the trace. */
module Commands {
  import opened Geometry
  import opened Raster

  /** One byte sent to the controller; `a0 == false` for a command. */
  datatype Wire = Wire(a0: bool, value: bv8)

  function Command(v: bv8): Wire { Wire(false, v) }
  function DataByte(v: bv8): Wire { Wire(true, v) }

  /** `MBED_LCD_set_page(p)`: one command whose high nibble is the
      page-address tag 0xB and whose low nibble is the low nibble of p. */
  function PageSelect(p: bv8): (t: seq<Wire>)
    ensures |t| == 1 && !t[0].a0
    ensures t[0].value & 0xF0 == 0xB0 && t[0].value & 0x0F == p & 0x0F
  {
    [Command(0xB0 | (p & 0x0F))]
  }

  /** `MBED_LCD_set_start_line(x)`: two commands tagged 0x1 and 0x0 in their
      high nibbles carrying the high and the low nibble of x; putting the two
      nibbles back together gives x. */
  function StartLine(x: bv8): (t: seq<Wire>)
    ensures |t| == 2 && !t[0].a0 && !t[1].a0
    ensures t[0].value & 0xF0 == 0x10 && t[1].value & 0xF0 == 0x00
    ensures ((t[0].value & 0x0F) << 4) | t[1].value == x
  {
    [Command(0x10 | ((x & 0xF0) >> 4)), Command(0x00 | (x & 0x0F))]
  }

  /** `MBED_LCD_sendData(val, len)`: the bytes in order, each as data. */
  function DataRun(bytes: seq<bv8>): (t: seq<Wire>)
    ensures |t| == |bytes|
  {
    if bytes == [] then [] else [DataByte(bytes[0])] + DataRun(bytes[1..])
  }

  /** Byte k of the run is byte k of the buffer, sent as data. */
  lemma {:induction false} DataRunBytes(bytes: seq<bv8>, k: int)
    requires 0 <= k < |bytes|
    ensures DataRun(bytes)[k] == DataByte(bytes[k])
  {
    if k > 0 {
      DataRunBytes(bytes[1..], k - 1);
    }
  }

  /** Sending two buffers one after the other sends their concatenation. */
  lemma {:induction false} DataRunAppend(a: seq<bv8>, b: seq<bv8>)
    ensures DataRun(a + b) == DataRun(a) + DataRun(b)
  {
    if a == [] {
      assert a + b == b;
    } else {
      assert (a + b)[0] == a[0] && (a + b)[1..] == a[1..] + b;
      DataRunAppend(a[1..], b);
      calc {
        DataRun(a + b);
        [DataByte(a[0])] + DataRun(a[1..] + b);
        [DataByte(a[0])] + (DataRun(a[1..]) + DataRun(b));
        ([DataByte(a[0])] + DataRun(a[1..])) + DataRun(b);
      }
    }
  }

  /** What one pass of the `VideoRam2LCD` loop sends for page p: three
      commands, then the page as data. */
  function PageFrame(r: Ram, p: int): (t: seq<Wire>)
    requires IsRam(r) && 0 <= p < Lines
    ensures |t| == FrameLength && t[3..] == DataRun(r[p])
    ensures forall k :: 0 <= k < 3 ==> !t[k].a0
  {
    PageSelect(p as bv8) + StartLine(0) + DataRun(r[p])
  }

  /** Entries per page frame: page select, two start-line commands, a row. */
  const FrameLength: int := 3 + Columns

  /** What `VideoRam2LCD` sends for pages 0 .. n-1. */
  function RefreshTrace(r: Ram, n: int): (t: seq<Wire>)
    requires IsRam(r) && 0 <= n <= Lines
    ensures |t| == n * FrameLength
  {
    if n == 0 then [] else RefreshTrace(r, n - 1) + PageFrame(r, n - 1)
  }

  /** Sending page n's frame after the refresh of pages 0 .. n-1 is the
      refresh of pages 0 .. n. */
  lemma RefreshStep(t: seq<Wire>, r: Ram, n: int)
    requires IsRam(r) && 0 <= n < Lines
    ensures t + RefreshTrace(r, n) + PageSelect(n as bv8) + StartLine(0) + DataRun(r[n]) ==
            t + RefreshTrace(r, n + 1)
  {
    assert RefreshTrace(r, n + 1) == RefreshTrace(r, n) + PageFrame(r, n);
  }

  /** The refresh, read back from the wire: page p's frame starts at
      p * FrameLength with command 0xB0 | p, then commands 0x10 and 0x00,
      then the 128 bytes of page p as data, column 0 first. */
  lemma {:induction false} RefreshLayout(r: Ram, n: int, p: int, k: int)
    requires IsRam(r) && 0 <= n <= Lines && 0 <= p < n && 0 <= k < Columns
    ensures RefreshTrace(r, n)[p * FrameLength] == Command(0xB0 | p as bv8)
    ensures RefreshTrace(r, n)[p * FrameLength + 1] == Command(0x10)
    ensures RefreshTrace(r, n)[p * FrameLength + 2] == Command(0x00)
    ensures RefreshTrace(r, n)[p * FrameLength + 3 + k] == DataByte(r[p][k])
  {
    var t := RefreshTrace(r, n);
    DataRunBytes(r[p], k);
    if p < n - 1 {
      RefreshLayout(r, n - 1, p, k);
      assert t == RefreshTrace(r, n - 1) + PageFrame(r, n - 1);
      assert p * FrameLength + 3 + k < (n - 1) * FrameLength;
    } else {
      assert t == RefreshTrace(r, n - 1) + PageFrame(r, n - 1);
      assert |RefreshTrace(r, n - 1)| == p * FrameLength;
      assert 0 <= p < 4;
      assert (p as bv8) & 0x0F == p as bv8;
    }
  }

  /** The refresh carries exactly the RAM: the data part of page p's frame
      is page p sent as data, and the whole refresh is Lines frames long. */
  lemma RefreshCarriesRam(r: Ram, p: int)
    requires IsRam(r) && 0 <= p < Lines
    ensures |RefreshTrace(r, Lines)| == Lines * FrameLength
    ensures RefreshTrace(r, Lines)[p * FrameLength + 3 .. (p + 1) * FrameLength] == DataRun(r[p])
  {
    var t := RefreshTrace(r, Lines);
    var slice := t[p * FrameLength + 3 .. (p + 1) * FrameLength];
    forall k | 0 <= k < Columns
      ensures slice[k] == DataRun(r[p])[k]
    {
      RefreshLayout(r, Lines, p, k);
      DataRunBytes(r[p], k);
    }
  }

  /** The command script `MBED_LCD_init` sends after the reset pulse:
      display off, bias, segment direction, common direction, resistor
      ratio, power control, start line 0, display on, contrast command and
      value, normal (non-inverted) display. */
  function InitScript(): (t: seq<Wire>)
    ensures |t| == 11 && forall k :: 0 <= k < |t| ==> !t[k].a0
  {
    [Command(0xAE), Command(0xA2), Command(0xA0), Command(0xC8), Command(0x22),
     Command(0x2F), Command(0x40), Command(0xAF), Command(0x81), Command(0x17),
     Command(0xA6)]
  }
}
