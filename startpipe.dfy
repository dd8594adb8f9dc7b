/**
 * Starting the loopback pipe (`v4l2_startpipe` and its public wrapper
 * `vid_startpipe`): obtain a device handle, either by discovery (device name
 * "-") or by opening the named device, then query its capabilities, read its
 * output format and propose the caller's geometry with VIDIOC_S_FMT.
 *
 * The device's answers are inputs: `Device` says what each ioctl returns.
 * `StartPipe` is the sequence itself; `Start` is what it must produce.
 */
module StartPipe {
  import opened Sys
  import opened Formats
  import Discovery
  import Capabilities

  /** The device name that asks for discovery. */
  const AutoDevice: string := "-"

  /**
   * The device's answers: the capability record VIDIOC_QUERYCAP fills in,
   * the format VIDIOC_G_FMT fills in, and whether VIDIOC_S_FMT succeeds;
   * `None` and `false` stand for an ioctl that returns -1.
   */
  datatype Device = Device(queryCap: Option<Capabilities.Capability>, getFormat: Option<Format>, setFormatOk: bool)

  /** What the start returns (the descriptor or -1), the calls it made, and the capability report it printed. */
  datatype Started = Started(fd: int, events: seq<Event>, report: Option<Capabilities.CapReport>)

  /** A handle and the calls made to obtain it. */
  datatype Handle = Handle(fd: int, events: seq<Event>)

  /** The handle: from discovery for "-", otherwise from opening the named device read-write. */
  function GetHandle(devName: string, reg: Discovery.Registry, openFd: int): Handle {
    if devName == AutoDevice then Handle(Discovery.Discover(reg).fd, Discovery.Discover(reg).events)
    else Handle(openFd, [Open(devName, ReadWrite, openFd)])
  }

  /** What the start returns and does. */
  function Start(devName: string, width: int, height: int, pixelformat: int,
                 reg: Discovery.Registry, openFd: int, dev: Device): Started
    requires GeometryFits(width, height) && IsInt(pixelformat)
  {
    var h := GetHandle(devName, reg, openFd);
    if h.fd < 0 then Started(-1, h.events, None)
    else Negotiate(h, width, height, pixelformat, dev)
  }

  /**
   * The negotiation on an open handle: the handle's calls followed by the
   * ioctls; the start succeeds, with the handle, only when all three succeed,
   * and the capability report exists once QUERYCAP has succeeded.
   */
  function Negotiate(h: Handle, width: int, height: int, pixelformat: int, dev: Device): Started
    requires GeometryFits(width, height) && IsInt(pixelformat)
  {
    var ok := dev.queryCap.Some? && dev.getFormat.Some? && dev.setFormatOk;
    Started(
      if ok then h.fd else -1,
      h.events + NegotiateIoctls(h.fd, width, height, pixelformat, dev),
      if dev.queryCap.Some? then Some(Capabilities.Report(dev.queryCap.value)) else None)
  }

  /** The negotiation call by call: the trace and result at each of its three exits. */
  lemma NegotiateSteps(h: Handle, width: int, height: int, pixelformat: int, dev: Device)
    requires GeometryFits(width, height) && IsInt(pixelformat)
    ensures var r := Negotiate(h, width, height, pixelformat, dev);
      dev.queryCap.None? ==> r == Started(-1, h.events + [Ioctl(h.fd, QueryCap, false)], None)
    ensures var r := Negotiate(h, width, height, pixelformat, dev);
      var afterCap := h.events + [Ioctl(h.fd, QueryCap, true)];
      dev.queryCap.Some? ==>
        && r.report == Some(Capabilities.Report(dev.queryCap.value))
        && (dev.getFormat.None? ==> r.fd == -1 && r.events == afterCap + [Ioctl(h.fd, GetFormat(GetFormatArg), false)])
        && (dev.getFormat.Some? ==>
              var v := ProposedFormat(dev.getFormat.value, width, height, pixelformat);
              && r.fd == (if dev.setFormatOk then h.fd else -1)
              && r.events == afterCap + [Ioctl(h.fd, GetFormat(GetFormatArg), true)] + [Ioctl(h.fd, SetFormat(v), dev.setFormatOk)])
  {
    var calls := NegotiateIoctls(h.fd, width, height, pixelformat, dev);
    var c1 := Ioctl(h.fd, QueryCap, dev.queryCap.Some?);
    if dev.queryCap.Some? {
      var c2 := Ioctl(h.fd, GetFormat(GetFormatArg), dev.getFormat.Some?);
      if dev.getFormat.None? {
        assert h.events + calls == h.events + [c1] + [c2];
      } else {
        var c3 := Ioctl(h.fd, SetFormat(ProposedFormat(dev.getFormat.value, width, height, pixelformat)), dev.setFormatOk);
        assert h.events + calls == h.events + [c1] + [c2] + [c3];
      }
    }
  }

  /** The ioctls the negotiation makes, in order, ending with the first that fails. */
  function NegotiateIoctls(fd: int, width: int, height: int, pixelformat: int, dev: Device): seq<Event>
    requires GeometryFits(width, height) && IsInt(pixelformat)
  {
    [Ioctl(fd, QueryCap, dev.queryCap.Some?)] +
    if dev.queryCap.None? then []
    else
      [Ioctl(fd, GetFormat(GetFormatArg), dev.getFormat.Some?)] +
      if dev.getFormat.None? then []
      else [Ioctl(fd, SetFormat(ProposedFormat(dev.getFormat.value, width, height, pixelformat)), dev.setFormatOk)]
  }

  // ---------------------------------------------------------------------------
  // The start

  /**
   * `v4l2_startpipe`. A discovered or opened handle below zero ends the start
   * before any ioctl; otherwise QUERYCAP, G_FMT and S_FMT run in turn and the
   * first failure returns -1 with the handle left open.
   */
  method StartPipe(devName: string, width: int, height: int, pixelformat: int,
                   reg: Discovery.Registry, openFd: int, dev: Device)
    returns (fd: int, events: seq<Event>, report: Option<Capabilities.CapReport>)
    requires GeometryFits(width, height) && IsInt(pixelformat)
    requires devName == AutoDevice ==> forall e | e in reg.entries :: Discovery.WellFormed(e)
    ensures Started(fd, events, report) == Start(devName, width, height, pixelformat, reg, openFd, dev)
  {
    report := None;
    var handle;
    if devName == AutoDevice {
      var pipepath;
      handle, pipepath, events := Discovery.OpenVidpipe(reg);
    } else {
      handle := openFd;
      events := [Open(devName, ReadWrite, handle)];
    }

    if handle < 0 {
      fd := -1;
      return;
    }
    NegotiateSteps(Handle(handle, events), width, height, pixelformat, dev);

    if dev.queryCap.None? {
      events := events + [Ioctl(handle, QueryCap, false)];
      fd := -1;
      return;
    }
    events := events + [Ioctl(handle, QueryCap, true)];
    var shown := Capabilities.ShowVcap(dev.queryCap.value);
    report := Some(shown);

    var v := GetFormatArg;
    if dev.getFormat.None? {
      events := events + [Ioctl(handle, GetFormat(v), false)];
      fd := -1;
      return;
    }
    events := events + [Ioctl(handle, GetFormat(v), true)];
    v := dev.getFormat.value;

    v := v.(bufType := BufTypeVideoOutput);
    v := v.(pix := v.pix.(width := ToU32(width)));
    v := v.(pix := v.pix.(height := ToU32(height)));
    v := v.(pix := v.pix.(pixelformat := ToU32(pixelformat)));
    v := v.(pix := v.pix.(sizeimage := ToU32(CDiv(3 * width * height, 2))));
    v := v.(pix := v.pix.(bytesperline := ToU32(width)));
    v := v.(pix := v.pix.(field := FieldNone));
    v := v.(pix := v.pix.(colorspace := ColorspaceSrgb));

    if !dev.setFormatOk {
      events := events + [Ioctl(handle, SetFormat(v), false)];
      fd := -1;
      return;
    }
    events := events + [Ioctl(handle, SetFormat(v), true)];
    fd := handle;
  }

  /** `vid_startpipe`: the public entry point, a plain pass-through. */
  method VidStartPipe(devName: string, width: int, height: int, pixelformat: int,
                      reg: Discovery.Registry, openFd: int, dev: Device)
    returns (fd: int, events: seq<Event>, report: Option<Capabilities.CapReport>)
    requires GeometryFits(width, height) && IsInt(pixelformat)
    requires devName == AutoDevice ==> forall e | e in reg.entries :: Discovery.WellFormed(e)
    ensures Started(fd, events, report) == Start(devName, width, height, pixelformat, reg, openFd, dev)
  {
    fd, events, report := StartPipe(devName, width, height, pixelformat, reg, openFd, dev);
  }

  // ---------------------------------------------------------------------------
  // What the start guarantees

  /**
   * The start returns a descriptor exactly when the handle opened and all three
   * ioctls succeeded, and then it is the handle itself; every other outcome is
   * -1. For "-" the handle is the first loopback device discovery finds.
   */
  lemma StartSucceedsIff(devName: string, width: int, height: int, pixelformat: int,
                         reg: Discovery.Registry, openFd: int, dev: Device)
    requires GeometryFits(width, height) && IsInt(pixelformat)
    ensures var r := Start(devName, width, height, pixelformat, reg, openFd, dev);
      var h := GetHandle(devName, reg, openFd);
      (r.fd >= 0 <==> h.fd >= 0 && dev.queryCap.Some? && dev.getFormat.Some? && dev.setFormatOk) &&
      (r.fd >= 0 ==> r.fd == h.fd) && (r.fd < 0 ==> r.fd == -1)
    ensures var r := Start(devName, width, height, pixelformat, reg, openFd, dev);
      devName == AutoDevice && r.fd >= 0 ==>
        var es := reg.entries;
        var k := Discovery.FirstQualifying(es);
        k < |es| && r.fd == es[k].nodeFd
  {
  }

  /** A handle below zero ends the start with -1 before any ioctl. */
  lemma FailedOpenNoIoctl(devName: string, width: int, height: int, pixelformat: int,
                          reg: Discovery.Registry, openFd: int, dev: Device)
    requires GeometryFits(width, height) && IsInt(pixelformat)
    requires GetHandle(devName, reg, openFd).fd < 0
    ensures Start(devName, width, height, pixelformat, reg, openFd, dev).fd == -1
    ensures Ioctls(Start(devName, width, height, pixelformat, reg, openFd, dev).events) == []
  {
    HandleNoIoctl(devName, reg, openFd);
  }

  lemma HandleNoIoctl(devName: string, reg: Discovery.Registry, openFd: int)
    ensures Ioctls(GetHandle(devName, reg, openFd).events) == []
  {
    if devName == AutoDevice {
      Discovery.DiscoverNoIoctl(reg);
    } else {
      CountsSingle(Open(devName, ReadWrite, openFd));
    }
  }

  /**
   * On an open handle the ioctls are QUERYCAP, G_FMT on the zeroed output
   * record, and S_FMT with the proposed format, in that order, all on the
   * handle; each runs only if the one before it succeeded, and the last one
   * made failed unless all three succeeded.
   */
  lemma IoctlOrder(devName: string, width: int, height: int, pixelformat: int,
                   reg: Discovery.Registry, openFd: int, dev: Device)
    requires GeometryFits(width, height) && IsInt(pixelformat)
    requires GetHandle(devName, reg, openFd).fd >= 0
    ensures var r := Start(devName, width, height, pixelformat, reg, openFd, dev);
      var fd := GetHandle(devName, reg, openFd).fd;
      var calls := Ioctls(r.events);
      && 1 <= |calls| <= 3
      && calls[0] == Ioctl(fd, QueryCap, dev.queryCap.Some?)
      && (|calls| >= 2 <==> dev.queryCap.Some?)
      && (|calls| >= 2 ==> calls[1] == Ioctl(fd, GetFormat(GetFormatArg), dev.getFormat.Some?))
      && (|calls| == 3 <==> dev.queryCap.Some? && dev.getFormat.Some?)
      && (|calls| == 3 ==>
            calls[2] == Ioctl(fd, SetFormat(ProposedFormat(dev.getFormat.value, width, height, pixelformat)), dev.setFormatOk))
      && (r.fd >= 0 <==> calls[|calls| - 1].ok)
  {
    HandleNoIoctl(devName, reg, openFd);
    NegotiateCalls(GetHandle(devName, reg, openFd), width, height, pixelformat, dev);
  }

  /** The ioctl calls of the negotiation on a handle obtained without ioctls; it opens and closes nothing. */
  lemma NegotiateCalls(h: Handle, width: int, height: int, pixelformat: int, dev: Device)
    requires GeometryFits(width, height) && IsInt(pixelformat)
    requires Ioctls(h.events) == []
    ensures Ioctls(Negotiate(h, width, height, pixelformat, dev).events) ==
      NegotiateIoctls(h.fd, width, height, pixelformat, dev)
    ensures Opened(Negotiate(h, width, height, pixelformat, dev).events) == Opened(h.events)
    ensures Closed(Negotiate(h, width, height, pixelformat, dev).events) == Closed(h.events)
  {
    var calls := NegotiateIoctls(h.fd, width, height, pixelformat, dev);
    CountsAppend(h.events, calls);
    OnlyIoctls(calls);
  }

  /**
   * Descriptors left open: the start never closes its handle, so an ioctl
   * failure leaks it just as success hands it to the caller; discovery's
   * match also leaves its attribute descriptor open.
   */
  lemma StartBalance(devName: string, width: int, height: int, pixelformat: int,
                     reg: Discovery.Registry, openFd: int, dev: Device)
    requires GeometryFits(width, height) && IsInt(pixelformat)
    ensures var r := Start(devName, width, height, pixelformat, reg, openFd, dev);
      var h := GetHandle(devName, reg, openFd);
      Opened(r.events) == Closed(r.events) +
        (if h.fd < 0 then 0 else if devName == AutoDevice then 2 else 1)
  {
    var h := GetHandle(devName, reg, openFd);
    if devName == AutoDevice {
      Discovery.DiscoverBalance(reg);
    } else {
      CountsSingle(Open(devName, ReadWrite, openFd));
    }
    if h.fd >= 0 {
      HandleNoIoctl(devName, reg, openFd);
      NegotiateCalls(h, width, height, pixelformat, dev);
    }
  }

  /** The capability report is printed exactly when QUERYCAP succeeded, and describes what it returned. */
  lemma ReportShown(devName: string, width: int, height: int, pixelformat: int,
                    reg: Discovery.Registry, openFd: int, dev: Device)
    requires GeometryFits(width, height) && IsInt(pixelformat)
    ensures var r := Start(devName, width, height, pixelformat, reg, openFd, dev);
      (r.report.Some? <==> GetHandle(devName, reg, openFd).fd >= 0 && dev.queryCap.Some?) &&
      (r.report.Some? ==> r.report.value == Capabilities.Report(dev.queryCap.value))
  {
  }
}
