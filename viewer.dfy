// SdImageViewer: one display cycle per wake-up, joining the card to the panel.
module Viewer {
  import opened Base
  import opened CStrings
  import opened Storage
  import opened Rotation
  import opened Display
  import opened Enumerator
  import opened Util

  /** Size of the stack buffer the image is streamed through. */
  const ReadBufferSize: nat := 4200

  /** The solid colour shown for each kind of failure. */
  const NoImageColor: Color := Blue
  const CardFailureColor: Color := Orange
  const LowBatteryColor: Color := Red

  /** "LowBattery.bin" in ASCII: the system image shown on a low battery. */
  const LowBatteryFileName: seq<byte> :=
    [0x4C, 0x6F, 0x77, 0x42, 0x61, 0x74, 0x74, 0x65, 0x72, 0x79, 0x2E, 0x62, 0x69, 0x6E]

  /** One display cycle: wake the panel, clean it, then show the file's bytes
      as the image, or clear to the fallback colour when no file is open,
      and put the panel back to sleep. */
  function DisplayOps(file: File, fallbackColor: Color, width: nat, height: nat): seq<Op>
  {
    InitOps()
    + ClearOps(Clean, width, height)
    + (if file.Open? then ImageOps(file.entry.data) else ClearOps(fallbackColor, width, height))
    + SleepOps()
  }

  /** A display cycle is sent as its four parts, one after the other. */
  lemma DisplayInParts(t: seq<Event>, shown: seq<Op>, file: File, fallbackColor: Color, width: nat, height: nat)
    requires shown == if file.Open? then ImageOps(file.entry.data) else ClearOps(fallbackColor, width, height)
    ensures Send(t, DisplayOps(file, fallbackColor, width, height))
         == Send(Send(Send(Send(t, InitOps()), ClearOps(Clean, width, height)), shown), SleepOps())
  {
    SendConcat(t, InitOps() + ClearOps(Clean, width, height) + shown, SleepOps());
    SendConcat(t, InitOps() + ClearOps(Clean, width, height), shown);
    SendConcat(t, InitOps(), ClearOps(Clean, width, height));
  }

  /** Every display cycle, on both branches, is a single bus session: init
      takes the bus first, sleep releases it last, and nothing in between
      releases or retakes it. */
  lemma DisplayHoldsBusOnce(file: File, fallbackColor: Color, width: nat, height: nat)
    ensures var es := Send([], DisplayOps(file, fallbackColor, width, height));
      && |es| >= 4
      && es[0] == BeginTransaction && es[1] == CsLow
      && es[|es| - 2] == EndTransaction && es[|es| - 1] == CsHigh
      && forall i :: 2 <= i < |es| - 2 ==> !SessionEvent(es[i])
  {
    var cleaning := ClearOps(Clean, width, height);
    var shown := if file.Open? then ImageOps(file.entry.data) else ClearOps(fallbackColor, width, height);
    ImageIsQuiet(Fill(Pack(Clean, Clean), width / 2 * height));
    if file.Open? {
      ImageIsQuiet(file.entry.data);
    } else {
      ImageIsQuiet(Fill(Pack(fallbackColor, fallbackColor), width / 2 * height));
    }
    QuietConcat(cleaning, shown);
    assert DisplayOps(file, fallbackColor, width, height) == InitOps() + (cleaning + shown) + SleepOps();
    InitToSleepHoldsBus(cleaning + shown);
  }

  class SdImageViewer {
    const ePaper: EPaperDisplay
    const sd: SdEnumerator

    constructor (ePaper: EPaperDisplay, sd: SdEnumerator)
      ensures this.ePaper == ePaper && this.sd == sd
    {
      this.ePaper := ePaper;
      this.sd := sd;
    }

    /** The open-file branch of displayImage: starts a frame, streams the
        file's bytes through a ReadBufferSize buffer until a read returns 0,
        and refreshes the panel. However the bytes are chunked, the panel
        receives exactly the one-frame image of the whole file. */
    method StreamImage(data: seq<byte>)
      modifies ePaper
      ensures ePaper.trace == Send(old(ePaper.trace), ImageOps(data))
    {
      ePaper.BeginImage();
      ghost var begun := ePaper.trace;

      var buf := new byte[ReadBufferSize];
      var position := 0;
      var bytesRead := Read(data, position, buf, ArraySize(buf));
      while bytesRead > 0
        invariant position <= |data|
        invariant bytesRead == Min(ReadBufferSize, |data| - position)
        invariant buf.Length == ReadBufferSize
        invariant buf[..bytesRead] == data[position..position + bytesRead]
        invariant ePaper.trace == begun + DataOf(data[..position])
        decreases |data| - position
      {
        ePaper.SendImageData(buf, bytesRead);
        DataOfChunks(data, position, bytesRead);
        position := position + bytesRead;
        bytesRead := Read(data, position, buf, ArraySize(buf));
      }
      assert data[..position] == data;

      ePaper.EndImage();
      ImageOnBus(old(ePaper.trace), data);
    }

    /** One display cycle: wake and clean the panel, show the open file or
        the fallback colour, and put the panel to sleep. */
    method DisplayImage(file: File, fallbackColor: Color)
      modifies ePaper
      ensures ePaper.trace
           == Send(old(ePaper.trace), DisplayOps(file, fallbackColor, ePaper.width, ePaper.height))
    {
      ePaper.Init();
      ePaper.Clear(Clean);
      ghost var shown := if file.Open? then ImageOps(file.entry.data)
                         else ClearOps(fallbackColor, ePaper.width, ePaper.height);

      if file.Open? {
        StreamImage(file.entry.data);
      } else {
        ePaper.Clear(fallbackColor);
      }

      ePaper.Sleep();
      DisplayInParts(old(ePaper.trace), shown, file, fallbackColor, ePaper.width, ePaper.height);
    }

    /** Advances the rotation and shows the next image; a card that does not
        start gives the card-failure colour and leaves the cursor alone. */
    method ShowNextImage(cardBegins: bool, root: seq<Entry>)
      requires sd.Valid()
      modifies ePaper, sd.currentFileName
      ensures sd.Valid()
      ensures cardBegins ==>
        var file := NextImage(root, sd.expectedFileSize, old(sd.Cursor()));
        && ePaper.trace == Send(old(ePaper.trace), DisplayOps(file, NoImageColor, ePaper.width, ePaper.height))
        && sd.Cursor() == (if file.Open? then file.entry.name else [])
      ensures !cardBegins ==>
        && ePaper.trace == Send(old(ePaper.trace), DisplayOps(NotOpen, CardFailureColor, ePaper.width, ePaper.height))
        && sd.currentFileName[..] == old(sd.currentFileName[..])
    {
      var file := NotOpen;
      if cardBegins {
        file := sd.GetNextImage(root);
        DisplayImage(file, NoImageColor);
      } else {
        DisplayImage(file, CardFailureColor);
      }
    }

    /** Shows the cursor's image again, or the next one when it has gone. */
    method ShowCurrentImage(cardBegins: bool, root: seq<Entry>)
      requires sd.Valid()
      modifies ePaper, sd.currentFileName
      ensures sd.Valid()
      ensures cardBegins && OpenByName(root, old(sd.Cursor())).Open? ==>
        && ePaper.trace == Send(old(ePaper.trace),
                                DisplayOps(OpenByName(root, old(sd.Cursor())), NoImageColor, ePaper.width, ePaper.height))
        && sd.Cursor() == old(sd.Cursor())
      ensures cardBegins && OpenByName(root, old(sd.Cursor())).NotOpen? ==>
        var file := NextImage(root, sd.expectedFileSize, old(sd.Cursor()));
        && ePaper.trace == Send(old(ePaper.trace), DisplayOps(file, NoImageColor, ePaper.width, ePaper.height))
        && sd.Cursor() == (if file.Open? then file.entry.name else [])
      ensures !cardBegins ==>
        && ePaper.trace == Send(old(ePaper.trace), DisplayOps(NotOpen, CardFailureColor, ePaper.width, ePaper.height))
        && sd.currentFileName[..] == old(sd.currentFileName[..])
    {
      var file := NotOpen;
      if cardBegins {
        file := sd.GetCurrentImage(root);
        DisplayImage(file, NoImageColor);
      } else {
        DisplayImage(file, CardFailureColor);
      }
    }

    /** Shows a fixed image from the system directory; the caller's colour
        stands in both for a card that does not start and a missing file. */
    method ShowSystemImage(cardBegins: bool, system: seq<Entry>, fileName: seq<byte>, fallbackColor: Color)
      modifies ePaper
      ensures ePaper.trace
           == Send(old(ePaper.trace),
                   DisplayOps(if cardBegins then OpenByName(system, fileName) else NotOpen,
                              fallbackColor, ePaper.width, ePaper.height))
    {
      var file := NotOpen;
      if cardBegins {
        file := sd.GetSystemImage(system, fileName);
      }
      DisplayImage(file, fallbackColor);
    }

    method ShowLowBatteryImage(cardBegins: bool, system: seq<Entry>)
      modifies ePaper
      ensures ePaper.trace
           == Send(old(ePaper.trace),
                   DisplayOps(if cardBegins then OpenByName(system, LowBatteryFileName) else NotOpen,
                              LowBatteryColor, ePaper.width, ePaper.height))
    {
      ShowSystemImage(cardBegins, system, LowBatteryFileName, LowBatteryColor);
    }
  }
}
