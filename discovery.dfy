/**
 * Loopback discovery (`v4l2_open_vidpipe`): scan the entries of
 * /sys/class/video4linux in directory order, keep those named `video...`,
 * read each one's `name` attribute, and return `/dev/<entry>`, opened
 * read-write, for the first whose attribute starts with the loopback
 * signature and whose device opens.
 *
 * The directory listing and every open, read and close outcome are inputs:
 * a `Registry` says whether the directory opens and, per entry, what its
 * attribute open returns, what reading it yields and what opening its device
 * node returns. `OpenVidpipe` is the scan itself over the source's two
 * 255-character buffers; `Discover` is what it must produce, and the lemmas
 * below state the scan's guarantees (and its two resource slips) about it.
 */
module Discovery {
  import opened CStrings
  import opened Sys

  const BufSize: nat := 255                    // char buffer[255], pipepath[255]
  const ReadCount: nat := 254                  // sizeof(buffer) - 1
  const SysfsDir: string := "/sys/class/video4linux/"
  const AttrSuffix: string := "/name"
  const DevDir: string := "/dev/"
  const VideoPrefix: string := "video"
  const Signature: string := "Loopback video device"

  /** The longest video entry name whose attribute path fits the buffer with its NUL. */
  const MaxVideoName: nat := 226

  /** What reading an entry's `name` attribute gives: an error, or the file's text. */
  datatype AttrRead = ReadFails | ReadData(content: seq<char>)

  /**
   * One directory entry and the outcomes of the calls the scan may make for it:
   * the descriptor open(2) returns for its attribute path, the attribute read,
   * and the descriptor open(2) returns for its device node.
   */
  datatype Entry = Entry(name: string, attrFd: int, attrRead: AttrRead, nodeFd: int)

  /** The sysfs class directory: whether opendir succeeds, and its entries in readdir order. */
  datatype Registry = Registry(dirOk: bool, entries: seq<Entry>)

  /** The scan's result: the descriptor (or -1), the path it logs as opened, and its calls. */
  datatype Discovered = Discovered(fd: int, path: string, events: seq<Event>)

  predicate IsVideoName(name: string) {
    |name| >= |VideoPrefix| && name[..|VideoPrefix|] == VideoPrefix
  }

  /**
   * A directory entry name is a C string; a video entry's name is short enough
   * for its attribute path to fit `buffer` (see `AttrPathOverrunAsWritten`).
   */
  predicate WellFormed(e: Entry) {
    NoNul(e.name) && (IsVideoName(e.name) ==> |e.name| <= MaxVideoName)
  }

  function AttrPath(name: string): string { SysfsDir + name + AttrSuffix }

  function NodePath(name: string): string { DevDir + name }

  /** The attribute text begins with the 21-character loopback signature. */
  predicate HasSignature(content: seq<char>) {
    |content| >= |Signature| && content[..|Signature|] == Signature
  }

  /** The minor number atoi parses after the signature (only logged). */
  function Minor(content: seq<char>): int
    requires HasSignature(content)
  {
    Atoi(ReadResult(content, ReadCount)[|Signature|..])
  }

  /** The entry is the loopback device the scan takes. */
  predicate Qualifies(e: Entry) {
    && IsVideoName(e.name)
    && e.attrFd >= 0
    && e.attrRead.ReadData?
    && HasSignature(e.attrRead.content)
    && e.nodeFd >= 0
  }

  /**
   * The calls the scan makes for one entry: for a `video...` entry, the
   * attribute open, then what the read and the signature check lead to, then
   * the close of the attribute descriptor on every path but the match. A failed
   * attribute open still reaches that close, which is then close(-1).
   */
  function VisitEvents(e: Entry): seq<Event> {
    if !IsVideoName(e.name) then []
    else
      [Open(AttrPath(e.name), ReadOnly, e.attrFd)] + ProbeEvents(e) +
      (if Qualifies(e) then [] else [Close(e.attrFd)])
  }

  /** The calls between the attribute open and its close: the read and, for a loopback, the device open. */
  function ProbeEvents(e: Entry): seq<Event> {
    if e.attrFd < 0 then []
    else if e.attrRead.ReadFails? then [Read(e.attrFd, ReadCount, -1)]
    else
      var content := e.attrRead.content;
      [Read(e.attrFd, ReadCount, |ReadResult(content, ReadCount)|)] +
      if HasSignature(content) then
        [Found(NodePath(e.name), Minor(content)), Open(NodePath(e.name), ReadWrite, e.nodeFd)]
      else []
  }

  /** The calls for a run of entries visited one after another. */
  function VisitAll(es: seq<Entry>): seq<Event> {
    if es == [] then [] else VisitAll(es[..|es| - 1]) + VisitEvents(es[|es| - 1])
  }

  /** The index of the first qualifying entry, or |es| when there is none. */
  function FirstQualifying(es: seq<Entry>): (k: nat)
    ensures k <= |es|
    ensures k < |es| ==> Qualifies(es[k])
    ensures forall j :: 0 <= j < k ==> !Qualifies(es[j])
  {
    if es == [] then 0
    else if Qualifies(es[0]) then 0
    else 1 + FirstQualifying(es[1..])
  }

  /** The calls of a scan that has visited the first n entries. */
  function ScanEvents(es: seq<Entry>, n: nat): seq<Event>
    requires n <= |es|
  {
    [OpenDir(SysfsDir, true)] + VisitAll(es[..n])
  }

  /** What the scan returns and does, given the directory's contents and the call outcomes. */
  function Discover(reg: Registry): Discovered {
    if !reg.dirOk then Discovered(-1, "", [OpenDir(SysfsDir, false)])
    else
      var es := reg.entries;
      var k := FirstQualifying(es);
      if k < |es| then Discovered(es[k].nodeFd, NodePath(es[k].name), ScanEvents(es, k + 1) + [CloseDir])
      else Discovered(-1, "", ScanEvents(es, |es|) + [CloseDir])
  }

  // ---------------------------------------------------------------------------
  // The scan

  /**
   * `v4l2_open_vidpipe`. Entries are taken in readdir order; for a `video...`
   * entry, `ProbeEntry` does the attribute check and the device open. The
   * first device that opens ends the scan. When nothing is found `pipepath` is
   * returned empty.
   */
  method OpenVidpipe(reg: Registry) returns (pipeFd: int, pipepath: string, events: seq<Event>)
    requires forall e | e in reg.entries :: WellFormed(e)
    ensures Discovered(pipeFd, pipepath, events) == Discover(reg)
  {
    if !reg.dirOk {
      pipeFd, pipepath, events := -1, "", [OpenDir(SysfsDir, false)];
      return;
    }
    var buffer := new char[BufSize];
    var pipeBuf := new char[BufSize];
    pipeFd, pipepath, events := Scan(reg, buffer, pipeBuf);
    events := events + [CloseDir];
  }

  /**
   * The readdir loop over an open directory, up to (not including) the
   * closedir: the calls made and the device taken, if any.
   */
  method Scan(reg: Registry, buffer: array<char>, pipeBuf: array<char>)
    returns (pipeFd: int, pipepath: string, events: seq<Event>)
    requires reg.dirOk && forall e | e in reg.entries :: WellFormed(e)
    requires buffer.Length == BufSize && pipeBuf.Length == BufSize && buffer != pipeBuf
    modifies buffer, pipeBuf
    ensures Discovered(pipeFd, pipepath, events + [CloseDir]) == Discover(reg)
  {
    pipeFd := -1;
    pipepath := "";
    events := [OpenDir(SysfsDir, true)];
    for i := 0 to |reg.entries|
      invariant pipeFd == -1
      invariant i <= FirstQualifying(reg.entries)
      invariant events == ScanEvents(reg.entries, i)
    {
      ScanStep(reg.entries, i);
      var tfd, visit := VisitEntry(buffer, pipeBuf, reg.entries[i]);
      events := events + visit;
      if tfd >= 0 {
        pipepath := CStr(pipeBuf[..]);
        if pipeFd >= 0 {
          // Never taken: pipe_fd is only set just before the break.
          events := events + [Close(pipeFd)];
        }
        pipeFd := tfd;
        DiscoverAt(reg, i);
        return;
      }
    }
    DiscoverNone(reg);
  }

  /**
   * One pass of the scan loop: entries whose name does not start with "video"
   * are skipped without a call; the others are probed.
   */
  method VisitEntry(buffer: array<char>, pipeBuf: array<char>, e: Entry) returns (tfd: int, visit: seq<Event>)
    requires buffer.Length == BufSize && pipeBuf.Length == BufSize && buffer != pipeBuf
    requires WellFormed(e)
    modifies buffer, pipeBuf
    ensures visit == VisitEvents(e)
    ensures tfd >= 0 <==> Qualifies(e)
    ensures Qualifies(e) ==> tfd == e.nodeFd && CStr(pipeBuf[..]) == NodePath(e.name)
    ensures !Qualifies(e) ==> pipeBuf[..] == old(pipeBuf[..])
  {
    StrNEqLiteral(e.name, VideoPrefix, |VideoPrefix|);
    if StrNEq(e.name, VideoPrefix, |VideoPrefix|) {
      tfd, visit := ProbeEntry(buffer, pipeBuf, e);
    } else {
      tfd, visit := -1, [];
    }
  }

  /**
   * One `video...` entry: open and read its attribute, compare the signature,
   * open its device node read-write and, on success, copy the device path to
   * `pipeBuf`. Returns the device descriptor when the entry is taken and -1
   * otherwise, with the calls made.
   */
  method ProbeEntry(buffer: array<char>, pipeBuf: array<char>, e: Entry) returns (tfd: int, visit: seq<Event>)
    requires buffer.Length == BufSize && pipeBuf.Length == BufSize && buffer != pipeBuf
    requires WellFormed(e) && IsVideoName(e.name)
    modifies buffer, pipeBuf
    ensures visit == VisitEvents(e)
    ensures tfd >= 0 <==> Qualifies(e)
    ensures Qualifies(e) ==> tfd == e.nodeFd && CStr(pipeBuf[..]) == NodePath(e.name)
    ensures !Qualifies(e) ==> pipeBuf[..] == old(pipeBuf[..])
  {
    tfd := -1;
    var attrPath := AttrPathInto(buffer, e.name);
    var fd := e.attrFd;
    VisitSteps(e);
    visit := [Open(attrPath, ReadOnly, fd)];
    if fd >= 0 {
      var len := if e.attrRead.ReadFails? then -1 else |ReadResult(e.attrRead.content, ReadCount)|;
      visit := visit + [Read(fd, ReadCount, len)];
      if len < 0 {
        visit := visit + [Close(fd)];
        return;
      }
      var isLoopback, minor := CheckAttribute(buffer, e.attrRead.content);
      if !isLoopback {
        visit := visit + [Close(fd)];
        return;
      }
      var nodePath := NodePathInto(buffer, e.name);
      visit := visit + [Found(nodePath, minor)];
      var nodeFd := e.nodeFd;
      visit := visit + [Open(nodePath, ReadWrite, nodeFd)];
      if nodeFd >= 0 {
        StrNCpy(pipeBuf, nodePath, BufSize);
        tfd := nodeFd;
        return;
      }
    }
    visit := visit + [Close(fd)];
  }

  /**
   * Lines 40-42: `buffer` := the sysfs directory, the entry name and "/name",
   * with the strncat bounds as written; for names of at most 226 characters
   * the terminating NUL stays inside the buffer.
   */
  method AttrPathInto(buffer: array<char>, name: string) returns (path: string)
    requires buffer.Length == BufSize && NoNul(name) && |name| <= MaxVideoName
    modifies buffer
    ensures path == CStr(buffer[..]) == AttrPath(name)
  {
    LiteralsHaveNoNul();
    StrNCpy(buffer, SysfsDir, BufSize);
    StrNCat(buffer, name, CatBoundAsWritten(BufSize, StrLen(buffer[..])));
    StrNCat(buffer, AttrSuffix, CatBoundAsWritten(BufSize, StrLen(buffer[..])));
    path := CStr(buffer[..]);
  }

  /**
   * Lines 46-60 after a successful read: the bytes read land at the front of
   * `buffer` and are NUL-terminated, strncmp compares the signature, and atoi
   * parses what follows it.
   */
  method CheckAttribute(buffer: array<char>, content: seq<char>) returns (isLoopback: bool, minor: int)
    requires buffer.Length == BufSize
    modifies buffer
    ensures isLoopback == HasSignature(content)
    ensures isLoopback ==> minor == Minor(content)
    ensures var d := ReadResult(content, ReadCount);
      buffer[..] == ReadInto(old(buffer[..]), d)[|d| := NUL]
  {
    minor := 0;
    var got := ReadResult(content, ReadCount);
    var len := |got|;
    ReadIntoBuffer(buffer, got);
    buffer[len] := NUL;
    SignatureInBuffer(content, buffer[..]);
    isLoopback := StrNEq(buffer[..], Signature, |Signature|);
    if isLoopback {
      assert buffer[|Signature|..] == got[|Signature|..] + [NUL] + buffer[len + 1..];
      AtoiStopsAtNul(got[|Signature|..], buffer[len + 1..]);
      minor := Atoi(buffer[|Signature|..]);
    }
  }

  /** Lines 62-63: `buffer` := "/dev/" and the entry name, with the strncat bound as written. */
  method NodePathInto(buffer: array<char>, name: string) returns (path: string)
    requires buffer.Length == BufSize && NoNul(name) && |name| <= MaxVideoName
    modifies buffer
    ensures path == CStr(buffer[..]) == NodePath(name)
  {
    LiteralsHaveNoNul();
    StrCpy(buffer, DevDir);
    StrNCat(buffer, name, CatBoundAsWritten(BufSize, StrLen(buffer[..])));
    path := CStr(buffer[..]);
  }

  // ---------------------------------------------------------------------------
  // Steps of the scan's proof

  /** The calls between an entry's attribute open and its close, case by case. */
  lemma ProbeSteps(e: Entry)
    ensures e.attrFd < 0 ==> ProbeEvents(e) == []
    ensures e.attrFd >= 0 && e.attrRead.ReadFails? ==> ProbeEvents(e) == [Read(e.attrFd, ReadCount, -1)]
    ensures e.attrFd >= 0 && e.attrRead.ReadData? ==>
      var content := e.attrRead.content;
      var read := Read(e.attrFd, ReadCount, |ReadResult(content, ReadCount)|);
      ProbeEvents(e) ==
        if HasSignature(content) then
          [read, Found(NodePath(e.name), Minor(content)), Open(NodePath(e.name), ReadWrite, e.nodeFd)]
        else [read]
  {
  }

  /** An entry's calls, listed in the order the scan makes them, on each of its paths. */
  lemma VisitSteps(e: Entry)
    requires IsVideoName(e.name)
    ensures var attrOpen := Open(AttrPath(e.name), ReadOnly, e.attrFd);
      var close := Close(e.attrFd);
      && (e.attrFd < 0 ==> VisitEvents(e) == [attrOpen] + [close])
      && (e.attrFd >= 0 && e.attrRead.ReadFails? ==>
            VisitEvents(e) == [attrOpen] + [Read(e.attrFd, ReadCount, -1)] + [close])
      && (e.attrFd >= 0 && e.attrRead.ReadData? ==>
            var content := e.attrRead.content;
            var read := Read(e.attrFd, ReadCount, |ReadResult(content, ReadCount)|);
            && (!HasSignature(content) ==> VisitEvents(e) == [attrOpen] + [read] + [close])
            && (HasSignature(content) ==>
                  var found := Found(NodePath(e.name), Minor(content));
                  var nodeOpen := Open(NodePath(e.name), ReadWrite, e.nodeFd);
                  && (e.nodeFd >= 0 ==> VisitEvents(e) == [attrOpen] + [read] + [found] + [nodeOpen])
                  && (e.nodeFd < 0 ==> VisitEvents(e) == [attrOpen] + [read] + [found] + [nodeOpen] + [close])))
  {
    ProbeSteps(e);
    var attrOpen := Open(AttrPath(e.name), ReadOnly, e.attrFd);
    var close := Close(e.attrFd);
    if e.attrFd >= 0 && e.attrRead.ReadData? && HasSignature(e.attrRead.content) {
      var content := e.attrRead.content;
      var read := Read(e.attrFd, ReadCount, |ReadResult(content, ReadCount)|);
      var found := Found(NodePath(e.name), Minor(content));
      var nodeOpen := Open(NodePath(e.name), ReadWrite, e.nodeFd);
      Regroup(attrOpen, read, found, nodeOpen, close);
    } else if e.attrFd < 0 {
      assert [attrOpen] + [] == [attrOpen];
    }
  }

  lemma LiteralsHaveNoNul()
    ensures NoNul(SysfsDir) && NoNul(AttrSuffix) && NoNul(DevDir) && NoNul(VideoPrefix) && NoNul(Signature)
  {
  }

  lemma ScanStep(es: seq<Entry>, i: nat)
    requires i < |es|
    ensures ScanEvents(es, i + 1) == ScanEvents(es, i) + VisitEvents(es[i])
  {
    var run := es[..i + 1];
    assert run[..|run| - 1] == es[..i];
    assert VisitAll(run) == VisitAll(es[..i]) + VisitEvents(es[i]);
    Assoc([OpenDir(SysfsDir, true)], VisitAll(es[..i]), VisitEvents(es[i]));
  }

  /** The scan's outcome when entry i is the first that qualifies. */
  lemma DiscoverAt(reg: Registry, i: nat)
    requires reg.dirOk && i < |reg.entries| && Qualifies(reg.entries[i])
    requires i <= FirstQualifying(reg.entries)
    ensures Discover(reg) == Discovered(reg.entries[i].nodeFd, NodePath(reg.entries[i].name),
      ScanEvents(reg.entries, i + 1) + [CloseDir])
  {
    assert FirstQualifying(reg.entries) == i;
  }

  /** The scan's outcome when no entry qualifies. */
  lemma DiscoverNone(reg: Registry)
    requires reg.dirOk && FirstQualifying(reg.entries) == |reg.entries|
    ensures Discover(reg) == Discovered(-1, "", ScanEvents(reg.entries, |reg.entries|) + [CloseDir])
  {
  }

  /**
   * After the attribute read, `buffer` holds the bytes read and a NUL. The
   * strncmp against the signature then succeeds exactly when the attribute
   * text starts with the signature: the 254-byte read limit never hides it,
   * and text shorter than the signature always fails.
   */
  lemma {:induction false} SignatureInBuffer(content: seq<char>, b: seq<char>)
    requires |b| == BufSize
    requires var d := ReadResult(content, ReadCount); b[..|d|] == d && b[|d|] == NUL
    ensures StrNEq(b, Signature, |Signature|) <==> HasSignature(content)
  {
    var d := ReadResult(content, ReadCount);
    LiteralsHaveNoNul();
    StrNEqLiteral(b, Signature, |Signature|);
    if |d| >= |Signature| {
      assert b[..|Signature|] == d[..|Signature|];
      assert content[..|Signature|] == d[..|Signature|];
    } else {
      assert d == content;
      assert b[..|Signature|][|d|] == NUL != Signature[|d|];
    }
  }

  // ---------------------------------------------------------------------------
  // What the scan guarantees

  /**
   * The scan yields a descriptor exactly when the directory opens and some
   * entry qualifies, and then it is the device of the first such entry in
   * readdir order, with `pipepath` its /dev path.
   */
  lemma DiscoverFindsFirstLoopback(reg: Registry)
    ensures Discover(reg).fd >= 0 <==>
      reg.dirOk && exists k :: 0 <= k < |reg.entries| && Qualifies(reg.entries[k])
    ensures Discover(reg).fd >= 0 ==>
      exists k :: 0 <= k < |reg.entries| && Qualifies(reg.entries[k]) &&
        (forall j :: 0 <= j < k ==> !Qualifies(reg.entries[j])) &&
        Discover(reg).fd == reg.entries[k].nodeFd &&
        Discover(reg).path == NodePath(reg.entries[k].name)
    ensures Discover(reg).fd < 0 ==> Discover(reg).fd == -1
  {
    if reg.dirOk {
      var k := FirstQualifying(reg.entries);
      if k < |reg.entries| {
        assert Qualifies(reg.entries[k]);
      }
    }
  }

  /** The scan stops at its match: entries listed after it change nothing. */
  lemma {:induction false} DiscoverStopsAtMatch(reg: Registry, later: seq<Entry>)
    requires Discover(reg).fd >= 0
    ensures Discover(Registry(reg.dirOk, reg.entries + later)) == Discover(reg)
  {
    var es := reg.entries;
    var k := FirstQualifying(es);
    assert forall j :: 0 <= j <= k ==> (es + later)[j] == es[j];
    DiscoverAt(reg, k);
    DiscoverAt(Registry(reg.dirOk, es + later), k);
    assert (es + later)[..k + 1] == es[..k + 1];
  }

  lemma AttrPathInjective(a: string, b: string)
    requires AttrPath(a) == AttrPath(b)
    ensures a == b
  {
    assert a == AttrPath(a)[|SysfsDir|..|SysfsDir| + |a|];
  }

  lemma NodePathInjective(a: string, b: string)
    requires NodePath(a) == NodePath(b)
    ensures a == b
  {
    assert a == NodePath(a)[|DevDir|..];
  }

  lemma AttrPathIsNotNodePath(a: string, b: string)
    ensures AttrPath(a) != NodePath(b)
  {
    assert AttrPath(a)[1] == 's' && NodePath(b)[1] == 'd';
  }

  /** The paths opened for entries visited, none of them derived from a name that is not `video...`. */
  lemma {:induction false} VisitAllOpensOnlyVideo(es: seq<Entry>, name: string)
    requires !IsVideoName(name)
    ensures forall ev | ev in VisitAll(es) && ev.Open? :: ev.path != AttrPath(name) && ev.path != NodePath(name)
    decreases |es|
  {
    if es != [] {
      var e := es[|es| - 1];
      VisitAllOpensOnlyVideo(es[..|es| - 1], name);
      forall ev | ev in VisitEvents(e) && ev.Open?
        ensures ev.path != AttrPath(name) && ev.path != NodePath(name)
      {
        assert IsVideoName(e.name);
        assert ev.path == AttrPath(e.name) || ev.path == NodePath(e.name);
        AttrPathIsNotNodePath(e.name, name);
        AttrPathIsNotNodePath(name, e.name);
        if ev.path == AttrPath(name) {
          AttrPathInjective(e.name, name);
        }
        if ev.path == NodePath(name) {
          NodePathInjective(e.name, name);
        }
      }
    }
  }

  /** Entries whose name does not start with `video` are never opened: neither their attribute nor their node. */
  lemma NonVideoNeverOpened(reg: Registry, name: string)
    requires !IsVideoName(name)
    ensures forall ev | ev in Discover(reg).events && ev.Open? :: ev.path != AttrPath(name) && ev.path != NodePath(name)
  {
    if reg.dirOk {
      var es := reg.entries;
      var k := FirstQualifying(es);
      VisitAllOpensOnlyVideo(es[..if k < |es| then k + 1 else |es|], name);
    }
  }

  /** Between the attribute open and its close nothing is closed, and only the device open of a loopback can succeed. */
  lemma ProbeBalance(e: Entry)
    ensures Closed(ProbeEvents(e)) == 0
    ensures Opened(ProbeEvents(e)) == (if e.attrFd >= 0 && e.attrRead.ReadData? &&
      HasSignature(e.attrRead.content) && e.nodeFd >= 0 then 1 else 0)
  {
    ProbeSteps(e);
    if e.attrFd >= 0 {
      var read := Read(e.attrFd, ReadCount,
        if e.attrRead.ReadFails? then -1 else |ReadResult(e.attrRead.content, ReadCount)|);
      CountsSingle(read);
      if e.attrRead.ReadData? && HasSignature(e.attrRead.content) {
        var found := Found(NodePath(e.name), Minor(e.attrRead.content));
        var node := Open(NodePath(e.name), ReadWrite, e.nodeFd);
        CountsTriple(read, found, node);
        CountsSingle(found);
        CountsSingle(node);
      }
    }
  }

  /**
   * Descriptors one entry leaves open: none for a skipped entry (its attribute
   * descriptor is closed), two for the match (its device and, never closed,
   * its attribute descriptor).
   */
  lemma VisitBalance(e: Entry)
    ensures Opened(VisitEvents(e)) == Closed(VisitEvents(e)) + (if Qualifies(e) then 2 else 0)
  {
    if IsVideoName(e.name) {
      var head := [Open(AttrPath(e.name), ReadOnly, e.attrFd)];
      var probe := ProbeEvents(e);
      var tail: seq<Event> := if Qualifies(e) then [] else [Close(e.attrFd)];
      assert VisitEvents(e) == head + probe + tail;
      CountsAppend(head + probe, tail);
      CountsAppend(head, probe);
      CountsSingle(head[0]);
      CountsSingle(Close(e.attrFd));
      ProbeBalance(e);
    }
  }

  lemma {:induction false} VisitAllBalanced(es: seq<Entry>)
    requires forall j :: 0 <= j < |es| ==> !Qualifies(es[j])
    ensures Opened(VisitAll(es)) == Closed(VisitAll(es))
    decreases |es|
  {
    if es != [] {
      VisitAllBalanced(es[..|es| - 1]);
      VisitBalance(es[|es| - 1]);
      CountsAppend(VisitAll(es[..|es| - 1]), VisitEvents(es[|es| - 1]));
    }
  }

  /**
   * Resource accounting of a whole scan: every descriptor it opens is closed
   * again, except on success, when two stay open: the one returned and the
   * matched entry's attribute descriptor, which the `break` skips closing.
   */
  lemma DiscoverBalance(reg: Registry)
    ensures Opened(Discover(reg).events) == Closed(Discover(reg).events) + (if Discover(reg).fd >= 0 then 2 else 0)
  {
    CountsSingle(OpenDir(SysfsDir, reg.dirOk));
    if reg.dirOk {
      var es := reg.entries;
      var k := FirstQualifying(es);
      var n := if k < |es| then k + 1 else |es|;
      VisitAllBalanced(es[..if k < |es| then k else |es|]);
      if k < |es| {
        ScanStep(es, k);
        VisitBalance(es[k]);
        CountsAppend([OpenDir(SysfsDir, true)] + VisitAll(es[..k]), VisitEvents(es[k]));
      } else {
        assert es[..|es|] == es;
      }
      CountsAppend([OpenDir(SysfsDir, true)], VisitAll(es[..if k < |es| then k else |es|]));
      CountsAppend(ScanEvents(es, n), [CloseDir]);
      CountsSingle(CloseDir);
    }
  }

  /** With no usable loopback entry the scan fails and leaves no descriptor open. */
  lemma NoLoopbackNoHandle(reg: Registry)
    requires forall e | e in reg.entries :: !Qualifies(e)
    ensures Discover(reg).fd == -1
    ensures Opened(Discover(reg).events) == Closed(Discover(reg).events)
  {
    DiscoverFindsFirstLoopback(reg);
    DiscoverBalance(reg);
  }

  /** The calls made for the matched entry, in order; the list ends without a close. */
  lemma MatchVisit(e: Entry)
    requires Qualifies(e)
    ensures VisitEvents(e) == [
      Open(AttrPath(e.name), ReadOnly, e.attrFd),
      Read(e.attrFd, ReadCount, |ReadResult(e.attrRead.content, ReadCount)|),
      Found(NodePath(e.name), Minor(e.attrRead.content)),
      Open(NodePath(e.name), ReadWrite, e.nodeFd)]
  {
    ProbeSteps(e);
    assert VisitEvents(e) == [Open(AttrPath(e.name), ReadOnly, e.attrFd)] + ProbeEvents(e);
  }

  /**
   * On success the scan's last calls are the matched entry's attribute open
   * (a real descriptor), its read, the log line, the device open and the
   * closedir: nothing is closed after the match, so neither the close of a
   * previous tentative handle nor the close of the attribute descriptor runs.
   */
  lemma DiscoverSuccessTail(reg: Registry)
    requires Discover(reg).fd >= 0
    ensures var d := Discover(reg);
      var e := reg.entries[FirstQualifying(reg.entries)];
      e.attrFd >= 0 && |d.events| >= 5 &&
      d.events[|d.events| - 5..] == VisitEvents(e) + [CloseDir]
  {
    var es := reg.entries;
    var k := FirstQualifying(es);
    assert reg.dirOk && k < |es|;
    var e := es[k];
    DiscoverAt(reg, k);
    ScanStep(es, k);
    MatchVisit(e);
    Assoc(ScanEvents(es, k), VisitEvents(e), [CloseDir]);
    Suffix(ScanEvents(es, k), VisitEvents(e) + [CloseDir]);
  }

  /** The text the loopback driver puts in its `name` attribute parses to its minor number. */
  lemma LoopbackAttributeMinor(n: nat)
    requires |Signature| + 2 + |Decimal(n)| <= ReadCount
    ensures var content := Signature + " " + Decimal(n) + "\n";
      HasSignature(content) && Minor(content) == n
  {
    var d := Decimal(n);
    var tail := " " + d + "\n";
    var content := Signature + tail;
    assert content == Signature + " " + d + "\n";
    assert content[..|Signature|] == Signature;
    assert ReadResult(content, ReadCount) == content;
    assert content[|Signature|..] == tail;
    AtoiDecimal(" ", n, "\n");
  }

  // ---------------------------------------------------------------------------
  // The attribute path's terminating NUL (lines 40-42)

  /**
   * Where the attribute path's NUL lands with the strncat bounds as written,
   * `sizeof(buffer) - strlen(buffer)`, for an entry name of `nameLen`
   * characters; an index of `BufSize` or more is past the end of `buffer`.
   * When the first strncat already runs off the end the second one is not
   * followed further.
   */
  function AttrPathNulAsWritten(nameLen: nat): nat {
    var afterName := CatEnd(|SysfsDir|, nameLen, CatBoundAsWritten(BufSize, |SysfsDir|));
    if afterName >= BufSize then afterName
    else CatEnd(afterName, |AttrSuffix|, CatBoundAsWritten(BufSize, afterName))
  }

  /** With the bounds as written the NUL is stored past the buffer exactly for names longer than 226. */
  lemma AttrPathOverrunAsWritten(nameLen: nat)
    ensures AttrPathNulAsWritten(nameLen) >= BufSize <==> nameLen > MaxVideoName
    ensures nameLen > MaxVideoName ==> AttrPathNulAsWritten(nameLen) == BufSize
  {
  }

  /** A 227-character `video...` name: the NUL is written at buffer[255], one byte past the end. */
  lemma AttrPathOverrunExample()
    ensures AttrPathNulAsWritten(MaxVideoName + 1) == BufSize
  {
  }

  /** The same with the corrected bound `sizeof(buffer) - strlen(buffer) - 1`, which the code does not use. */
  function AttrPathNul(nameLen: nat): nat {
    var afterName := CatEnd(|SysfsDir|, nameLen, CatBound(BufSize, |SysfsDir|));
    CatEnd(afterName, |AttrSuffix|, CatBound(BufSize, afterName))
  }

  /**
   * With the corrected bound the NUL always stays inside the buffer, and for
   * every name the scan accepts it is where the bounds as written put it: just
   * after the complete path.
   */
  lemma AttrPathNulInBounds(nameLen: nat)
    ensures AttrPathNul(nameLen) < BufSize
    ensures nameLen <= MaxVideoName ==>
      AttrPathNul(nameLen) == AttrPathNulAsWritten(nameLen) == |SysfsDir| + nameLen + |AttrSuffix|
  {
  }

  lemma {:induction false} VisitAllNoIoctl(es: seq<Entry>)
    ensures forall ev | ev in VisitAll(es) :: !ev.Ioctl?
    decreases |es|
  {
    if es != [] {
      VisitAllNoIoctl(es[..|es| - 1]);
    }
  }

  /** Discovery issues no ioctl. */
  lemma DiscoverNoIoctl(reg: Registry)
    ensures Ioctls(Discover(reg).events) == []
  {
    if reg.dirOk {
      var es := reg.entries;
      var k := FirstQualifying(es);
      VisitAllNoIoctl(es[..if k < |es| then k + 1 else |es|]);
    }
    NoIoctls(Discover(reg).events);
  }
}
