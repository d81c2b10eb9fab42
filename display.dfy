// The 5.65-inch seven-colour e-paper panel driver: what each public method
// puts on the panel's pins and SPI bus, as an ordered trace of events.
module Display {
  import opened Base

  /** The panel's pixel codes; each fits in a 4-bit nibble. */
  datatype Color = Black | White | Green | Blue | Red | Yellow | Orange | Clean
  {
    /** The enum value the panel expects for this colour. */
    function Code(): (b: byte)
      ensures b < 8
    {
      match this
      case Black => 0
      case White => 1
      case Green => 2
      case Blue => 3
      case Red => 4
      case Yellow => 5
      case Orange => 6
      case Clean => 7
    }
  }

  /** The colour with a given code. */
  function ColorOf(code: byte): (c: Color)
    requires code < 8
    ensures c.Code() == code
  {
    if code == 0 then Black
    else if code == 1 then White
    else if code == 2 then Green
    else if code == 3 then Blue
    else if code == 4 then Red
    else if code == 5 then Yellow
    else if code == 6 then Orange
    else Clean
  }

  /** Codes identify colours: decoding a colour's code gives the colour back. */
  lemma ColorOfCode(c: Color)
    ensures ColorOf(c.Code()) == c
  {
    match c
    case Black =>
    case White =>
    case Green =>
    case Blue =>
    case Red =>
    case Yellow =>
    case Orange =>
    case Clean =>
  }

  /** Two pixels in one byte: the first in the high nibble, the second in the low one. */
  function Pack(first: Color, second: Color): (b: byte)
    ensures b >> 4 == first.Code()
    ensures b & 0x0F == second.Code()
  {
    (first.Code() << 4) | second.Code()
  }

  /** A byte whose two nibbles are both colour codes. */
  predicate IsPixelPair(b: byte)
  {
    b >> 4 < 8 && b & 0x0F < 8
  }

  /** The two pixels a byte of image data stands for. */
  function Unpack(b: byte): (pixels: (Color, Color))
    requires IsPixelPair(b)
    ensures pixels.0.Code() == b >> 4 && pixels.1.Code() == b & 0x0F
  {
    (ColorOf(b >> 4), ColorOf(b & 0x0F))
  }

  /** Packing loses nothing: both pixels come back out of the byte. */
  lemma UnpackPack(first: Color, second: Color)
    ensures IsPixelPair(Pack(first, second))
    ensures Unpack(Pack(first, second)) == (first, second)
  {
    ColorOfCode(first);
    ColorOfCode(second);
  }

  /** Every byte whose nibbles are colour codes is the packing of its two pixels. */
  lemma PackUnpack(b: byte)
    requires IsPixelPair(b)
    ensures Pack(Unpack(b).0, Unpack(b).1) == b
  {
    assert ((b >> 4) << 4) | (b & 0x0F) == b;
  }

  /** What the driver does to the outside world, one step at a time. */
  datatype Event =
    | BeginTransaction      // takes the SPI bus
    | EndTransaction        // releases the SPI bus
    | CsLow | CsHigh        // chip select
    | ResetLow | ResetHigh  // the panel's reset line
    | Delay(ms: nat)
    | WaitBusyHigh          // polling until the busy line reads high
    | WaitBusyLow           // polling until the busy line reads low
    | Cmd(command: byte)    // DC low, then the byte over SPI
    | Data(value: byte)     // DC high, then the byte over SPI

  /** The panel's view of a trace: a command byte with the data bytes that
      follow it, or any other event on its own. */
  datatype Op = Command(command: byte, params: seq<byte>) | Signal(event: Event)

  /** Only bytes sent with DC low or high belong to a command. */
  predicate WellFormed(ops: seq<Op>)
  {
    forall i :: 0 <= i < |ops| && ops[i].Signal? ==> !ops[i].event.Cmd? && !ops[i].event.Data?
  }

  function DataOf(bytes: seq<byte>): (es: seq<Event>)
  {
    seq(|bytes|, i requires 0 <= i < |bytes| => Data(bytes[i]))
  }

  lemma DataOfConcat(a: seq<byte>, b: seq<byte>)
    ensures DataOf(a + b) == DataOf(a) + DataOf(b)
  {
  }

  /** Data sent in consecutive chunks is the data of the whole prefix. */
  lemma DataOfChunks(bytes: seq<byte>, position: nat, n: nat)
    requires position + n <= |bytes|
    ensures DataOf(bytes[..position]) + DataOf(bytes[position..position + n]) == DataOf(bytes[..position + n])
  {
    assert bytes[..position] + bytes[position..position + n] == bytes[..position + n];
    DataOfConcat(bytes[..position], bytes[position..position + n]);
  }

  /** The trace after sending each byte of `bytes` as data onto `t`. */
  function PutData(t: seq<Event>, bytes: seq<byte>): seq<Event>
    decreases |bytes|
  {
    if bytes == [] then t else PutData(t + [Data(bytes[0])], bytes[1..])
  }

  /** The trace after one op goes out after `t`. */
  function Put(t: seq<Event>, op: Op): seq<Event>
  {
    match op
    case Command(c, params) => PutData(t + [Cmd(c)], params)
    case Signal(e) => t + [e]
  }

  /** The trace after the ops go out, in order, after `t`. */
  function Send(t: seq<Event>, ops: seq<Op>): seq<Event>
    decreases |ops|
  {
    if ops == [] then t else Send(Put(t, ops[0]), ops[1..])
  }

  lemma {:induction false} PutDataAppends(t: seq<Event>, bytes: seq<byte>)
    ensures PutData(t, bytes) == t + DataOf(bytes)
    decreases |bytes|
  {
    if bytes != [] {
      PutDataAppends(t + [Data(bytes[0])], bytes[1..]);
      assert t + [Data(bytes[0])] + DataOf(bytes[1..]) == t + DataOf(bytes);
    }
  }

  /** The events one op stands for. */
  function Frame(op: Op): seq<Event>
  {
    match op
    case Command(c, params) => [Cmd(c)] + DataOf(params)
    case Signal(e) => [e]
  }

  lemma PutAppends(t: seq<Event>, op: Op)
    ensures Put(t, op) == t + Frame(op)
  {
    match op
    case Command(c, params) =>
      PutDataAppends(t + [Cmd(c)], params);
    case Signal(e) =>
  }

  /** Sending only ever appends: what was on the trace stays, and what a list
      of ops adds does not depend on it. */
  lemma {:induction false} SendAppends(t: seq<Event>, ops: seq<Op>)
    ensures Send(t, ops) == t + Send([], ops)
    decreases |ops|
  {
    if ops != [] {
      PutAppends(t, ops[0]);
      PutAppends([], ops[0]);
      SendAppends(Put(t, ops[0]), ops[1..]);
      SendAppends(Put([], ops[0]), ops[1..]);
      assert [] + Frame(ops[0]) == Frame(ops[0]);
    }
  }

  /** The trace of a non-empty list: the first op's events, then the rest's. */
  lemma SendFirst(ops: seq<Op>)
    requires ops != []
    ensures Send([], ops) == Frame(ops[0]) + Send([], ops[1..])
  {
    PutAppends([], ops[0]);
    SendAppends(Put([], ops[0]), ops[1..]);
    assert [] + Frame(ops[0]) == Frame(ops[0]);
  }

  /** Sending two lists is sending their concatenation. */
  lemma {:induction false} SendConcat(t: seq<Event>, a: seq<Op>, b: seq<Op>)
    ensures Send(t, a + b) == Send(Send(t, a), b)
    decreases |a|
  {
    if a != [] {
      assert (a + b)[0] == a[0];
      assert (a + b)[1..] == a[1..] + b;
      SendConcat(Put(t, a[0]), a[1..], b);
    } else {
      assert a + b == b;
    }
  }

  /** One command frame on the bus: the command byte, then its data bytes. */
  lemma CommandOnBus(t: seq<Event>, c: byte, params: seq<byte>)
    ensures Send(t, [Command(c, params)]) == t + [Cmd(c)] + DataOf(params)
  {
    assert [Command(c, params)][1..] == [];
    PutDataAppends(t + [Cmd(c)], params);
  }

  /** The number of data events at the front of a trace. */
  function DataRun(es: seq<Event>): (n: nat)
    ensures n <= |es|
    ensures forall i :: 0 <= i < n ==> es[i].Data?
    ensures n < |es| ==> !es[n].Data?
  {
    if es == [] || !es[0].Data? then 0 else 1 + DataRun(es[1..])
  }

  function Values(es: seq<Event>): seq<byte>
    requires forall i :: 0 <= i < |es| ==> es[i].Data?
  {
    seq(|es|, i requires 0 <= i < |es| => es[i].value)
  }

  /** Reads a trace back as the panel sees it; a data byte with no command
      before it makes the trace unreadable. */
  function Parse(es: seq<Event>): (r: Option<seq<Op>>)
    decreases |es|
  {
    if es == [] then Some([])
    else match es[0]
      case Data(_) => None
      case Cmd(c) =>
        var n := DataRun(es[1..]);
        (match Parse(es[1 + n..])
         case None => None
         case Some(rest) => Some([Command(c, Values(es[1..1 + n]))] + rest))
      case _ =>
        (match Parse(es[1..])
         case None => None
         case Some(rest) => Some([Signal(es[0])] + rest))
  }

  lemma WellFormedTail(ops: seq<Op>)
    requires WellFormed(ops) && ops != []
    ensures WellFormed(ops[1..])
    ensures ops[0].Signal? ==> !ops[0].event.Cmd? && !ops[0].event.Data?
  {
    forall i | 0 <= i < |ops[1..]| && ops[1..][i].Signal?
      ensures !ops[1..][i].event.Cmd? && !ops[1..][i].event.Data?
    {
      assert ops[1..][i] == ops[i + 1];
    }
  }

  /** A well-formed list of ops never starts its trace with a data byte. */
  lemma FirstOfSend(ops: seq<Op>)
    requires WellFormed(ops)
    requires Send([], ops) != []
    ensures !Send([], ops)[0].Data?
  {
    SendFirst(ops);
    WellFormedTail(ops);
  }

  /** Reading a command frame back: the command with exactly its data bytes,
      as long as the next event is not itself a data byte. */
  lemma ParseCommandFrame(c: byte, params: seq<byte>, tail: seq<Event>)
    requires tail == [] || !tail[0].Data?
    ensures Parse([Cmd(c)] + DataOf(params) + tail)
         == match Parse(tail)
            case None => None
            case Some(rest) => Some([Command(c, params)] + rest)
  {
    var es := [Cmd(c)] + DataOf(params) + tail;
    assert es[1..] == DataOf(params) + tail;
    assert DataRun(es[1..]) == |params|;
    assert es[1 + |params|..] == tail;
    assert Values(es[1..1 + |params|]) == params;
  }

  lemma ParseSignal(e: Event, tail: seq<Event>)
    requires !e.Cmd? && !e.Data?
    ensures Parse([e] + tail)
         == match Parse(tail)
            case None => None
            case Some(rest) => Some([Signal(e)] + rest)
  {
    assert ([e] + tail)[1..] == tail;
  }

  /** Any well-formed list of ops can be read back from the trace it produces. */
  lemma {:induction false} ParseSend(ops: seq<Op>)
    requires WellFormed(ops)
    ensures Parse(Send([], ops)) == Some(ops)
    decreases |ops|
  {
    if ops != [] {
      var tail := Send([], ops[1..]);
      WellFormedTail(ops);
      ParseSend(ops[1..]);
      SendFirst(ops);
      assert ops == [ops[0]] + ops[1..];
      match ops[0]
      case Command(c, params) =>
        if tail != [] {
          FirstOfSend(ops[1..]);
        }
        ParseCommandFrame(c, params, tail);
      case Signal(e) =>
        ParseSignal(e, tail);
    }
  }

  /** Whatever reads back is well formed and reproduces the trace exactly. */
  lemma {:induction false} SendParse(es: seq<Event>, ops: seq<Op>)
    requires Parse(es) == Some(ops)
    ensures WellFormed(ops)
    ensures Send([], ops) == es
    decreases |es|
  {
    if es != [] {
      var op, tail;
      if es[0].Cmd? {
        var n := DataRun(es[1..]);
        op := Command(es[0].command, Values(es[1..1 + n]));
        tail := es[1 + n..];
        assert Frame(op) == es[..1 + n];
      } else {
        op := Signal(es[0]);
        tail := es[1..];
      }
      var rest := Parse(tail).value;
      assert ops == [op] + rest;
      SendParse(tail, rest);
      WellFormedConcat([op], rest);
      assert ops[1..] == rest;
      SendFirst(ops);
    }
  }

  // ---------------------------------------------------------------------
  // The command tables.

  /** A 16-bit big-endian value. */
  function Word(high: byte, low: byte): nat
  {
    high as nat * 256 + low as nat
  }

  /** The parameters of the resolution command: 600 by 448, high byte first,
      fixed whatever size the driver was constructed with. */
  function ResolutionBytes(): (p: seq<byte>)
    ensures |p| == 4
    ensures Word(p[0], p[1]) == 600 && Word(p[2], p[3]) == 448
  {
    [0x02, 0x58, 0x01, 0xC0]
  }

  function ResolutionOps(): seq<Op>
  {
    [Command(0x61, ResolutionBytes())]
  }

  /** The reset pulse: low for 1 ms, then high and a 200 ms settle. */
  function ResetOps(): seq<Op>
  {
    [Signal(ResetLow), Signal(Delay(1)), Signal(ResetHigh), Signal(Delay(200))]
  }

  /** Taking the bus and resetting the panel, then waiting for it. */
  function SessionOps(): seq<Op>
  {
    [Signal(BeginTransaction), Signal(CsLow)] + ResetOps() + [Signal(WaitBusyHigh)]
  }

  /** The register settings written at start-up. */
  function PanelSetupOps(): seq<Op>
  {
    [ Command(0x00, [0xEF, 0x08])              // panel setting
    , Command(0x01, [0x37, 0x00, 0x23, 0x23])  // power setting
    , Command(0x03, [0x00])                    // power-off sequence
    , Command(0x06, [0xC7, 0xC7, 0x1D])        // booster soft start
    , Command(0x30, [0x3C])                    // PLL: 50 Hz
    , Command(0x41, [0x00])                    // temperature sensor
    , Command(0x50, [0x37])                    // VCOM and data interval
    , Command(0x60, [0x22])
    ]
  }

  function PanelFinishOps(): seq<Op>
  {
    ResolutionOps() + [Command(0xE3, [0xAA]), Signal(Delay(100)), Command(0x50, [0x37])]
  }

  /** Everything Init sends, in order. */
  function InitOps(): seq<Op>
  {
    SessionOps() + PanelSetupOps() + PanelFinishOps()
  }

  lemma SessionOnBus(t: seq<Event>)
    ensures Send(t, SessionOps()) == Send(t + [BeginTransaction] + [CsLow], ResetOps()) + [WaitBusyHigh]
  {
    SendConcat(t, [Signal(BeginTransaction), Signal(CsLow)] + ResetOps(), [Signal(WaitBusyHigh)]);
    SendConcat(t, [Signal(BeginTransaction), Signal(CsLow)], ResetOps());
  }

  lemma PanelSetupOnBus(t: seq<Event>)
    ensures Send(t, PanelSetupOps())
         == t + [Cmd(0x00)] + [Data(0xEF)] + [Data(0x08)]
            + [Cmd(0x01)] + [Data(0x37)] + [Data(0x00)] + [Data(0x23)] + [Data(0x23)]
            + [Cmd(0x03)] + [Data(0x00)]
            + [Cmd(0x06)] + [Data(0xC7)] + [Data(0xC7)] + [Data(0x1D)]
            + [Cmd(0x30)] + [Data(0x3C)]
            + [Cmd(0x41)] + [Data(0x00)]
            + [Cmd(0x50)] + [Data(0x37)]
            + [Cmd(0x60)] + [Data(0x22)]
  {
  }

  lemma PanelFinishOnBus(t: seq<Event>)
    ensures Send(t, PanelFinishOps())
         == Send(t, ResolutionOps()) + [Cmd(0xE3)] + [Data(0xAA)] + [Delay(100)] + [Cmd(0x50)] + [Data(0x37)]
  {
    SendConcat(t, ResolutionOps(), [Command(0xE3, [0xAA]), Signal(Delay(100)), Command(0x50, [0x37])]);
  }

  lemma InitInParts(t: seq<Event>)
    ensures Send(t, InitOps()) == Send(Send(Send(t, SessionOps()), PanelSetupOps()), PanelFinishOps())
  {
    SendConcat(t, SessionOps() + PanelSetupOps(), PanelFinishOps());
    SendConcat(t, SessionOps(), PanelSetupOps());
  }

  /** The start of a frame; the image data follows as parameters of 0x10. */
  function BeginImageOps(): seq<Op>
  {
    ResolutionOps() + [Command(0x10, [])]
  }

  /** Power on, refresh, power off, each waited for, then a 500 ms pause. */
  function EndImageOps(): seq<Op>
  {
    [ Command(0x04, []), Signal(WaitBusyHigh)
    , Command(0x12, []), Signal(WaitBusyHigh)
    , Command(0x02, []), Signal(WaitBusyLow)
    , Signal(Delay(500))
    ]
  }

  /** Deep sleep with its check code, then the reset line low and the bus released. */
  function SleepOps(): seq<Op>
  {
    [ Signal(Delay(100)), Command(0x07, [0xA5]), Signal(Delay(100))
    , Signal(ResetLow), Signal(EndTransaction), Signal(CsHigh)
    ]
  }

  /** A whole frame whose pixel bytes are `data`. */
  function ImageOps(data: seq<byte>): seq<Op>
  {
    ResolutionOps() + [Command(0x10, data)] + EndImageOps()
  }

  function Fill(b: byte, n: nat): (s: seq<byte>)
  {
    seq(n, _ => b)
  }

  /** A frame of one colour: width / 2 * height bytes, two pixels each. */
  function ClearOps(color: Color, width: nat, height: nat): seq<Op>
  {
    ImageOps(Fill(Pack(color, color), width / 2 * height))
  }

  /** A frame's trace is the begin-image trace, the data bytes, and the
      end-image trace. */
  lemma ImageOnBus(t: seq<Event>, data: seq<byte>)
    ensures Send(t, ImageOps(data))
         == Send(Send(t, BeginImageOps()) + DataOf(data), EndImageOps())
  {
    var r := Send(t, ResolutionOps());
    SendConcat(t, ResolutionOps() + [Command(0x10, data)], EndImageOps());
    SendConcat(t, ResolutionOps(), [Command(0x10, data)]);
    SendConcat(t, ResolutionOps(), [Command(0x10, [])]);
    CommandOnBus(r, 0x10, data);
    CommandOnBus(r, 0x10, []);
  }

  /** Clearing covers the panel: the frame's data is width / 2 * height bytes,
      every one of them two pixels of the colour, which is one pixel per
      position when the width is even. */
  lemma ClearFillsPanel(color: Color, width: nat, height: nat)
    ensures ClearOps(color, width, height)[1].Command?
    ensures ClearOps(color, width, height)[1].command == 0x10
    ensures var data := ClearOps(color, width, height)[1].params;
      && |data| == width / 2 * height
      && (width % 2 == 0 ==> 2 * |data| == width * height)
      && forall i :: 0 <= i < |data| ==> IsPixelPair(data[i]) && Unpack(data[i]) == (color, color)
  {
    var data := Fill(Pack(color, color), width / 2 * height);
    assert ClearOps(color, width, height)[1] == Command(0x10, data);
    UnpackPack(color, color);
    if width % 2 == 0 {
      calc {
        2 * |data|;
        2 * (width / 2 * height);
        (2 * (width / 2)) * height;
        width * height;
      }
    }
  }

  lemma WellFormedConcat(a: seq<Op>, b: seq<Op>)
    requires WellFormed(a) && WellFormed(b)
    ensures WellFormed(a + b)
  {
    forall i | 0 <= i < |a + b| && (a + b)[i].Signal?
      ensures !(a + b)[i].event.Cmd? && !(a + b)[i].event.Data?
    {
      if i >= |a| {
        assert (a + b)[i] == b[i - |a|];
      }
    }
  }

  /** Init's trace reads back as exactly its register table. */
  lemma InitReadsBack()
    ensures Parse(Send([], InitOps())) == Some(InitOps())
  {
    WellFormedConcat([Signal(BeginTransaction), Signal(CsLow)], ResetOps());
    WellFormedConcat([Signal(BeginTransaction), Signal(CsLow)] + ResetOps(), [Signal(WaitBusyHigh)]);
    WellFormedConcat(SessionOps(), PanelSetupOps());
    WellFormedConcat(ResolutionOps(), [Command(0xE3, [0xAA]), Signal(Delay(100)), Command(0x50, [0x37])]);
    WellFormedConcat(SessionOps() + PanelSetupOps(), PanelFinishOps());
    ParseSend(InitOps());
  }

  /** A frame's trace reads back as the resolution, the data command carrying
      exactly the image bytes, and the refresh sequence. */
  lemma ImageReadsBack(data: seq<byte>)
    ensures Parse(Send([], ImageOps(data))) == Some(ImageOps(data))
  {
    WellFormedConcat(ResolutionOps(), [Command(0x10, data)]);
    WellFormedConcat(ResolutionOps() + [Command(0x10, data)], EndImageOps());
    ParseSend(ImageOps(data));
  }

  // ---------------------------------------------------------------------
  // The bus session: the driver holds the SPI bus from init to sleep.

  /** Events that take or release the shared bus or the panel's chip select. */
  predicate SessionEvent(e: Event)
  {
    e.BeginTransaction? || e.EndTransaction? || e.CsLow? || e.CsHigh?
  }

  /** Ops that neither take nor release the bus. */
  predicate Quiet(ops: seq<Op>)
  {
    forall i :: 0 <= i < |ops| && ops[i].Signal? ==> !SessionEvent(ops[i].event)
  }

  lemma QuietConcat(a: seq<Op>, b: seq<Op>)
    requires Quiet(a) && Quiet(b)
    ensures Quiet(a + b)
  {
    forall i | 0 <= i < |a + b| && (a + b)[i].Signal?
      ensures !SessionEvent((a + b)[i].event)
    {
      if i >= |a| {
        assert (a + b)[i] == b[i - |a|];
      }
    }
  }

  /** Quiet ops put no session event on the bus. */
  lemma {:induction false} QuietSend(ops: seq<Op>)
    requires Quiet(ops)
    ensures forall i :: 0 <= i < |Send([], ops)| ==> !SessionEvent(Send([], ops)[i])
    decreases |ops|
  {
    if ops != [] {
      var rest := ops[1..];
      assert Quiet(rest) by {
        forall i | 0 <= i < |rest| && rest[i].Signal? ensures !SessionEvent(rest[i].event) {
          assert rest[i] == ops[i + 1];
        }
      }
      QuietSend(rest);
      SendFirst(ops);
      var f := Frame(ops[0]);
      assert forall i :: 0 <= i < |f| ==> !SessionEvent(f[i]);
      var es := f + Send([], rest);
      forall i | 0 <= i < |es| ensures !SessionEvent(es[i]) {
        if i >= |f| {
          assert es[i] == Send([], rest)[i - |f|];
        }
      }
    }
  }

  /** A frame never touches the bus session. */
  lemma ImageIsQuiet(data: seq<byte>)
    ensures Quiet(ImageOps(data))
  {
    QuietConcat(ResolutionOps(), [Command(0x10, data)]);
    QuietConcat(ResolutionOps() + [Command(0x10, data)], EndImageOps());
  }

  /** Init takes the bus and selects the panel before anything else, Sleep
      releases both after everything else, and whatever quiet ops are sent in
      between stay inside that one session. */
  lemma InitToSleepHoldsBus(middle: seq<Op>)
    requires Quiet(middle)
    ensures var es := Send([], InitOps() + middle + SleepOps());
      && |es| >= 4
      && es[0] == BeginTransaction && es[1] == CsLow
      && es[|es| - 2] == EndTransaction && es[|es| - 1] == CsHigh
      && forall i :: 2 <= i < |es| - 2 ==> !SessionEvent(es[i])
  {
    var opening := [Signal(BeginTransaction), Signal(CsLow)];
    var closing := [Signal(EndTransaction), Signal(CsHigh)];
    var sleeping := [Signal(Delay(100)), Command(0x07, [0xA5]), Signal(Delay(100)), Signal(ResetLow)];
    var setup := ResetOps() + [Signal(WaitBusyHigh)] + PanelSetupOps() + PanelFinishOps();
    var inner := setup + middle + sleeping;
    assert SleepOps() == sleeping + closing;
    assert InitOps() == opening + setup;
    assert InitOps() + middle + SleepOps() == opening + inner + closing;
    QuietConcat(setup, middle);
    QuietConcat(setup + middle, sleeping);
    QuietSend(inner);

    SendConcat([], opening + inner, closing);
    SendConcat([], opening, inner);
    SendAppends(Send([], opening), inner);
    SendAppends(Send([], opening + inner), closing);
    var held := Send([], inner);
    var es := [BeginTransaction, CsLow] + held + [EndTransaction, CsHigh];
    assert Send([], InitOps() + middle + SleepOps()) == es;
    forall i | 2 <= i < |es| - 2 ensures !SessionEvent(es[i]) {
      assert es[i] == held[i - 2];
    }
  }

  // ---------------------------------------------------------------------
  // The driver.

  type uint16 = x: nat | x < 0x1_0000

  class EPaperDisplay {
    /** Kept for the clear loop's count; the resolution command ignores them. */
    const width: uint16
    const height: uint16
    /** Everything the driver has done to the pins and the bus so far. */
    var trace: seq<Event>

    constructor (width: uint16, height: uint16)
      ensures this.width == width && this.height == height
      ensures trace == []
    {
      this.width := width;
      this.height := height;
      trace := [];
    }

    /** Reset the panel and prepare it for use; also the way out of sleep. */
    method Init()
      modifies this
      ensures trace == Send(old(trace), InitOps())
    {
      ghost var start := trace;
      trace := trace + [BeginTransaction];
      trace := trace + [CsLow];

      Reset();
      WaitForBusyHigh();
      SessionOnBus(start);
      ghost var afterSession := trace;

      SendCommand(0x00);
      SendData(0xEF);
      SendData(0x08);

      SendCommand(0x01);
      SendData(0x37);
      SendData(0x00);
      SendData(0x23);
      SendData(0x23);

      SendCommand(0x03);
      SendData(0x00);

      SendCommand(0x06);
      SendData(0xC7);
      SendData(0xC7);
      SendData(0x1D);

      SendCommand(0x30);
      SendData(0x3C);

      SendCommand(0x41);
      SendData(0x00);

      SendCommand(0x50);
      SendData(0x37);

      SendCommand(0x60);
      SendData(0x22);
      PanelSetupOnBus(afterSession);
      ghost var afterSetup := trace;

      SendResolution();

      SendCommand(0xE3);
      SendData(0xAA);

      trace := trace + [Delay(100)];

      SendCommand(0x50);
      SendData(0x37);
      PanelFinishOnBus(afterSetup);
      InitInParts(start);
    }

    /** Fill the whole panel with one colour. */
    method Clear(color: Color)
      modifies this
      ensures trace == Send(old(trace), ClearOps(color, width, height))
    {
      BeginImage();
      ghost var begun := trace;
      var pair := Pack(color, color);
      var count := width / 2 * height;
      for i := 0 to count
        invariant trace == begun + DataOf(Fill(pair, i))
      {
        SendPixelPair(color, color);
        assert DataOf(Fill(pair, i + 1)) == DataOf(Fill(pair, i)) + [Data(pair)];
      }
      EndImage();
      ImageOnBus(old(trace), Fill(pair, count));
    }

    method BeginImage()
      modifies this
      ensures trace == Send(old(trace), BeginImageOps())
    {
      SendResolution();
      SendCommand(0x10);
    }

    /** Two pixels of image data in one data byte. */
    method SendPixelPair(first: Color, second: Color)
      modifies this
      ensures trace == old(trace) + [Data(Pack(first, second))]
    {
      SendData((first.Code() << 4) | second.Code());
    }

    /** The first `count` bytes of `data`, in order, as data. */
    method SendImageData(data: array<byte>, count: nat)
      requires count <= data.Length
      modifies this
      ensures trace == old(trace) + DataOf(data[..count])
    {
      for i := 0 to count
        invariant trace == old(trace) + DataOf(data[..i])
      {
        SendData(data[i]);
        assert DataOf(data[..i + 1]) == DataOf(data[..i]) + [Data(data[i])];
      }
    }

    /** Refresh the panel to show what was sent. */
    method EndImage()
      modifies this
      ensures trace == Send(old(trace), EndImageOps())
    {
      SendCommand(0x04);
      WaitForBusyHigh();

      SendCommand(0x12);
      WaitForBusyHigh();

      SendCommand(0x02);
      WaitForBusyLow();

      trace := trace + [Delay(500)];
    }

    /** Low-power state; Init wakes the panel again. */
    method Sleep()
      modifies this
      ensures trace == Send(old(trace), SleepOps())
    {
      trace := trace + [Delay(100)];

      SendCommand(0x07);
      SendData(0xA5);

      trace := trace + [Delay(100)];

      trace := trace + [ResetLow];

      trace := trace + [EndTransaction];
      trace := trace + [CsHigh];
    }

    method Reset()
      modifies this
      ensures trace == Send(old(trace), ResetOps())
    {
      trace := trace + [ResetLow];
      trace := trace + [Delay(1)];
      trace := trace + [ResetHigh];
      trace := trace + [Delay(200)];
    }

    method SendCommand(command: byte)
      modifies this
      ensures trace == old(trace) + [Cmd(command)]
    {
      trace := trace + [Cmd(command)];
    }

    method SendData(data: byte)
      modifies this
      ensures trace == old(trace) + [Data(data)]
    {
      trace := trace + [Data(data)];
    }

    method WaitForBusyHigh()
      modifies this
      ensures trace == old(trace) + [WaitBusyHigh]
    {
      trace := trace + [WaitBusyHigh];
    }

    method WaitForBusyLow()
      modifies this
      ensures trace == old(trace) + [WaitBusyLow]
    {
      trace := trace + [WaitBusyLow];
    }

    method SendResolution()
      modifies this
      ensures trace == Send(old(trace), ResolutionOps())
    {
      SendCommand(0x61);
      SendData(0x02);
      SendData(0x58);
      SendData(0x01);
      SendData(0xC0);
    }
  }
}
