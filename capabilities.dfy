/**
 * The capability report `show_vcap` prints after VIDIOC_QUERYCAP: the
 * driver's version word split into three bytes, and the capability flags
 * set in the capability mask, looked up in the sentinel-terminated
 * `cap_list` table. A flag stands for the line `show_vcap` prints for it.
 *
 * Only what the report computes is modelled; the text it prints (the
 * padded names of `cap_list`, and the driver, card and bus strings it
 * echoes) is not.
 */
module Capabilities {

  /** The entries of `cap_list`, one per V4L2 capability flag, and the closing `Last`. */
  datatype Flag =
    | VideoCapture
    | VideoCaptureMplane
    | VideoOutput
    | VideoOutputMplane
    | VideoM2m
    | VideoM2mMplane
    | VideoOverlay
    | VbiCapture
    | VbiOutput
    | SlicedVbiCapture
    | SlicedVbiOutput
    | RdsCapture
    | VideoOutputOverlay
    | HwFreqSeek
    | RdsOutput
    | Tuner
    | Audio
    | Radio
    | Modulator
    | SdrCapture
    | ExtPixFormat
    | SdrOutput
    | ReadWrite
    | AsyncIo
    | Streaming
    | DeviceCaps
    | Last

  /** A `cap_list` entry: the flag and its bit (the table's `int` code read as unsigned). */
  datatype CapEnt = CapEnt(cap: Flag, code: bv32)

  /** `cap_list`, in table order, ending with the zero-code sentinel. */
  const CapList: seq<CapEnt> := [
      CapEnt(VideoCapture, 0x00000001),
      CapEnt(VideoCaptureMplane, 0x00001000),
      CapEnt(VideoOutput, 0x00000002),
      CapEnt(VideoOutputMplane, 0x00002000),
      CapEnt(VideoM2m, 0x00004000),
      CapEnt(VideoM2mMplane, 0x00008000),
      CapEnt(VideoOverlay, 0x00000004),
      CapEnt(VbiCapture, 0x00000010),
      CapEnt(VbiOutput, 0x00000020),
      CapEnt(SlicedVbiCapture, 0x00000040),
      CapEnt(SlicedVbiOutput, 0x00000080),
      CapEnt(RdsCapture, 0x00000100),
      CapEnt(VideoOutputOverlay, 0x00000200),
      CapEnt(HwFreqSeek, 0x00000400),
      CapEnt(RdsOutput, 0x00000800),
      CapEnt(Tuner, 0x00010000),
      CapEnt(Audio, 0x00020000),
      CapEnt(Radio, 0x00040000),
      CapEnt(Modulator, 0x00080000),
      CapEnt(SdrCapture, 0x00100000),
      CapEnt(ExtPixFormat, 0x00200000),
      CapEnt(SdrOutput, 0x00400000),
      CapEnt(ReadWrite, 0x01000000),
      CapEnt(AsyncIo, 0x02000000),
      CapEnt(Streaming, 0x04000000),
      CapEnt(DeviceCaps, 0x80000000),
      CapEnt(Last, 0)
    ]

  /** The index of the sentinel entry. */
  const SentinelIndex: nat := 26

  /** The bits some table entry stands for. */
  const KnownCaps: bv32 := 0x877F_FFF7

  /** The fields of `struct v4l2_capability` the report computes with. */
  datatype Capability = Capability(version: bv32, capabilities: bv32)

  /** The version as printed: major, minor and patch byte. */
  datatype Version = Version(major: bv32, minor: bv32, patch: bv32)

  /** What `show_vcap` reports. */
  datatype CapReport = CapReport(version: Version, flags: seq<Flag>)

  // ---------------------------------------------------------------------------
  // The table

  /** The flag `code` is set in the mask `c`. */
  predicate IsSet(c: bv32, code: bv32) {
    c & code != 0
  }

  /** The first zero code at or after index `i` is at index `k`. */
  predicate SentinelAt(t: seq<CapEnt>, i: nat, k: nat) {
    i <= k < |t| && t[k].code == 0 && forall j :: i <= j < k ==> t[j].code != 0
  }

  /** The codes of the entries from `i` to `k` all lie within the bits `m`. */
  predicate CodesWithin(t: seq<CapEnt>, i: nat, k: nat, m: bv32)
    requires k <= |t|
  {
    forall j :: i <= j < k ==> Within(t[j].code, m)
  }

  /** Every bit of `code` lies in `m`. */
  predicate Within(code: bv32, m: bv32) {
    code & m == code
  }

  /** The union of the codes of the entries from `i` up to the first zero code. */
  function Mask(t: seq<CapEnt>, i: nat): bv32
    decreases |t| - i
  {
    if i >= |t| || t[i].code == 0 then 0 else t[i].code | Mask(t, i + 1)
  }

  /** The entries, from index `i` up to the first zero code, whose bit is set in `c`, in table order. */
  function Selected(t: seq<CapEnt>, i: nat, c: bv32): seq<CapEnt>
    decreases |t| - i
  {
    if i >= |t| || t[i].code == 0 then []
    else (if IsSet(c, t[i].code) then [t[i]] else []) + Selected(t, i + 1, c)
  }

  /** The flags of a run of entries. */
  function Flags(es: seq<CapEnt>): seq<Flag> {
    if es == [] then [] else [es[0].cap] + Flags(es[1..])
  }

  /** The flags the report lists for the capability mask `c`. */
  function DecodeCaps(c: bv32): seq<Flag> {
    Flags(Selected(CapList, 0, c))
  }

  function VersionOf(v: bv32): (r: Version)
    ensures r.major < 256 && r.minor < 256 && r.patch < 256
  {
    Version((v >> 16) & 0xFF, (v >> 8) & 0xFF, v & 0xFF)
  }

  /** The kernel's `KERNEL_VERSION(a, b, c)` encoding, which the version word follows. */
  function KernelVersion(a: bv32, b: bv32, c: bv32): bv32 {
    (a << 16) + (b << 8) + c
  }

  function Report(cap: Capability): CapReport {
    CapReport(VersionOf(cap.version), DecodeCaps(cap.capabilities))
  }

  // ---------------------------------------------------------------------------
  // The report

  /** `show_vcap`: the version bytes, and the capability flags from `cap_list`. */
  method ShowVcap(cap: Capability) returns (report: CapReport)
    ensures report == Report(cap)
  {
    var vers := cap.version;
    var version := Version((vers >> 16) & 0xFF, (vers >> 8) & 0xFF, vers & 0xFF);
    TableSentinel();
    var flags := ListCaps(CapList, SentinelIndex, cap.capabilities);
    report := CapReport(version, flags);
  }

  /**
   * The loop of `show_vcap` over a sentinel-terminated table: walk the
   * entries until the first zero code, keeping the flags whose bit is set
   * in `c`.
   */
  method ListCaps(table: seq<CapEnt>, ghost k: nat, c: bv32) returns (flags: seq<Flag>)
    requires SentinelAt(table, 0, k)
    ensures flags == Flags(Selected(table, 0, c))
  {
    flags := [];
    var i := 0;
    while table[i].code != 0
      invariant 0 <= i <= k
      invariant flags + Flags(Selected(table, i, c)) == Flags(Selected(table, 0, c))
      decreases k - i
    {
      SelectedStep(table, i, c);
      var head: seq<Flag> := if IsSet(c, table[i].code) then [table[i].cap] else [];
      FlagsAssoc(flags, head, Flags(Selected(table, i + 1, c)));
      if IsSet(c, table[i].code) {
        flags := flags + [table[i].cap];
      } else {
        assert flags + head == flags;
      }
      i := i + 1;
    }
    assert flags + [] == flags;
  }

  // ---------------------------------------------------------------------------
  // What the report means

  /** The table's only zero code is the sentinel's. */
  lemma TableSentinel()
    ensures |CapList| == SentinelIndex + 1
    ensures SentinelAt(CapList, 0, SentinelIndex)
  {
    TableFrontNonZero();
    TableBackNonZero();
  }

  lemma TableFrontNonZero()
    ensures forall j :: 0 <= j < 13 ==> CapList[j].code != 0
  {
    TableFrontCodes();
  }

  lemma TableBackNonZero()
    ensures forall j :: 13 <= j < SentinelIndex ==> CapList[j].code != 0
  {
    assert CapList[13].code != 0;
    assert CapList[14].code != 0;
    assert CapList[15].code != 0;
    assert CapList[16].code != 0;
    assert CapList[17].code != 0;
    assert CapList[18].code != 0;
    assert CapList[19].code != 0;
    assert CapList[20].code != 0;
    assert CapList[21].code != 0;
    assert CapList[22].code != 0;
    assert CapList[23].code != 0;
    assert CapList[24].code != 0;
    assert CapList[25].code != 0;
  }

  /** `KnownCaps` is the union of the table's codes. */
  lemma TableKnownCaps()
    ensures Mask(CapList, 0) == KnownCaps
  {
    TableBackMask();
    TableFrontCodes();
    MaskStep(CapList, 12);
    assert Mask(CapList, 12) == 0x877F0E00;
    MaskStep(CapList, 11);
    assert Mask(CapList, 11) == 0x877F0F00;
    MaskStep(CapList, 10);
    assert Mask(CapList, 10) == 0x877F0F80;
    MaskStep(CapList, 9);
    assert Mask(CapList, 9) == 0x877F0FC0;
    MaskStep(CapList, 8);
    assert Mask(CapList, 8) == 0x877F0FE0;
    MaskStep(CapList, 7);
    assert Mask(CapList, 7) == 0x877F0FF0;
    MaskStep(CapList, 6);
    assert Mask(CapList, 6) == 0x877F0FF4;
    MaskStep(CapList, 5);
    assert Mask(CapList, 5) == 0x877F8FF4;
    MaskStep(CapList, 4);
    assert Mask(CapList, 4) == 0x877FCFF4;
    MaskStep(CapList, 3);
    assert Mask(CapList, 3) == 0x877FEFF4;
    MaskStep(CapList, 2);
    assert Mask(CapList, 2) == 0x877FEFF6;
    MaskStep(CapList, 1);
    assert Mask(CapList, 1) == 0x877FFFF6;
    MaskStep(CapList, 0);
    assert Mask(CapList, 0) == 0x877FFFF7;
  }

  /** The codes of the table's first 13 entries. */
  lemma TableFrontCodes()
    ensures |CapList| == 27
    ensures CapList[0].code == 0x00000001
    ensures CapList[1].code == 0x00001000
    ensures CapList[2].code == 0x00000002
    ensures CapList[3].code == 0x00002000
    ensures CapList[4].code == 0x00004000
    ensures CapList[5].code == 0x00008000
    ensures CapList[6].code == 0x00000004
    ensures CapList[7].code == 0x00000010
    ensures CapList[8].code == 0x00000020
    ensures CapList[9].code == 0x00000040
    ensures CapList[10].code == 0x00000080
    ensures CapList[11].code == 0x00000100
    ensures CapList[12].code == 0x00000200
  {
    TableCodes0();
    TableCodes5();
    TableCodes9();
  }

  lemma TableCodes0()
    ensures CapList[0].code == 0x00000001
    ensures CapList[1].code == 0x00001000
    ensures CapList[2].code == 0x00000002
    ensures CapList[3].code == 0x00002000
    ensures CapList[4].code == 0x00004000
  {
    assert CapList[0].code == 0x00000001;
    assert CapList[1].code == 0x00001000;
    assert CapList[2].code == 0x00000002;
    assert CapList[3].code == 0x00002000;
    assert CapList[4].code == 0x00004000;
  }

  lemma TableCodes5()
    ensures CapList[5].code == 0x00008000
    ensures CapList[6].code == 0x00000004
    ensures CapList[7].code == 0x00000010
    ensures CapList[8].code == 0x00000020
  {
    assert CapList[5].code == 0x00008000;
    assert CapList[6].code == 0x00000004;
    assert CapList[7].code == 0x00000010;
    assert CapList[8].code == 0x00000020;
  }

  lemma TableCodes9()
    ensures CapList[9].code == 0x00000040
    ensures CapList[10].code == 0x00000080
    ensures CapList[11].code == 0x00000100
    ensures CapList[12].code == 0x00000200
  {
    assert CapList[9].code == 0x00000040;
    assert CapList[10].code == 0x00000080;
    assert CapList[11].code == 0x00000100;
    assert CapList[12].code == 0x00000200;
  }

  /** One step of the union: a non-zero code joins the union of the rest. */
  lemma MaskStep(t: seq<CapEnt>, i: nat)
    requires i < |t| && t[i].code != 0
    ensures Mask(t, i) == t[i].code | Mask(t, i + 1)
  {
  }

  /** The union of the codes from entry 13 on. */
  lemma TableBackMask()
    ensures Mask(CapList, 13) == 0x877F0C00
  {
    assert Mask(CapList, 26) == 0;
    assert Mask(CapList, 25) == 0x80000000;
    assert Mask(CapList, 24) == 0x84000000;
    assert Mask(CapList, 23) == 0x86000000;
    assert Mask(CapList, 22) == 0x87000000;
    assert Mask(CapList, 21) == 0x87400000;
    assert Mask(CapList, 20) == 0x87600000;
    assert Mask(CapList, 19) == 0x87700000;
    assert Mask(CapList, 18) == 0x87780000;
    assert Mask(CapList, 17) == 0x877C0000;
    assert Mask(CapList, 16) == 0x877E0000;
    assert Mask(CapList, 15) == 0x877F0000;
    assert Mask(CapList, 14) == 0x877F0800;
    assert Mask(CapList, 13) == 0x877F0C00;
  }

  /** The union of a table's codes covers each of them, up to the sentinel. */
  lemma {:induction false} MaskCovers(t: seq<CapEnt>, i: nat, k: nat)
    requires SentinelAt(t, i, k)
    ensures CodesWithin(t, i, k, Mask(t, i))
    decreases k - i
  {
    if i < k {
      MaskCovers(t, i + 1, k);
    }
  }

  lemma SelectedStep(t: seq<CapEnt>, i: nat, c: bv32)
    requires i < |t| && t[i].code != 0
    ensures Flags(Selected(t, i, c)) ==
      (if IsSet(c, t[i].code) then [t[i].cap] else []) + Flags(Selected(t, i + 1, c))
  {
    var head: seq<CapEnt> := if IsSet(c, t[i].code) then [t[i]] else [];
    FlagsAppend(head, Selected(t, i + 1, c));
  }

  lemma FlagsAssoc(a: seq<Flag>, b: seq<Flag>, c: seq<Flag>)
    ensures a + (b + c) == a + b + c
  {
  }

  lemma FlagsAppend(a: seq<CapEnt>, b: seq<CapEnt>)
    ensures Flags(a + b) == Flags(a) + Flags(b)
  {
    if a != [] {
      assert (a + b)[0] == a[0];
      assert (a + b)[1..] == a[1..] + b;
      FlagsAppend(a[1..], b);
    } else {
      assert a + b == b;
    }
  }

  /**
   * The entries reported are exactly the entries before the sentinel whose
   * bit is set in the mask.
   */
  lemma {:induction false} SelectedExactly(t: seq<CapEnt>, i: nat, k: nat, c: bv32, e: CapEnt)
    requires SentinelAt(t, i, k)
    ensures e in Selected(t, i, c) <==> e in t[i..k] && IsSet(c, e.code)
    decreases k - i
  {
    if i < k {
      SelectedExactly(t, i + 1, k, c, e);
      var head: seq<CapEnt> := if IsSet(c, t[i].code) then [t[i]] else [];
      assert Selected(t, i, c) == head + Selected(t, i + 1, c);
      assert e in Selected(t, i, c) <==> e in head || e in Selected(t, i + 1, c);
      assert e in head <==> e == t[i] && IsSet(c, e.code);
      assert t[i..k] == [t[i]] + t[i + 1..k];
      assert e in t[i..k] <==> e == t[i] || e in t[i + 1..k];
    } else {
      assert Selected(t, i, c) == [];
    }
  }

  /** Bits outside `m`, which covers every code in the table, change nothing in the report. */
  lemma {:induction false} SelectedIgnoresUnknown(t: seq<CapEnt>, i: nat, k: nat, c: bv32, m: bv32)
    requires SentinelAt(t, i, k) && CodesWithin(t, i, k, m)
    ensures Selected(t, i, c & m) == Selected(t, i, c)
    decreases k - i
  {
    if i < k {
      SelectedIgnoresUnknown(t, i + 1, k, c, m);
      MaskedTest(c, t[i].code, m);
      SameTest(t, i, c, c & m);
    }
  }

  lemma MaskedTest(c: bv32, code: bv32, m: bv32)
    requires Within(code, m)
    ensures IsSet(c & m, code) == IsSet(c, code)
  {
    assert (c & m) & code == c & code;
  }

  /** Two masks that agree on entry `i`'s bit select the same entries from `i` on if they do from `i + 1` on. */
  lemma SameTest(t: seq<CapEnt>, i: nat, c: bv32, d: bv32)
    requires i < |t| && IsSet(c, t[i].code) == IsSet(d, t[i].code)
    requires Selected(t, i + 1, c) == Selected(t, i + 1, d)
    ensures Selected(t, i, c) == Selected(t, i, d)
  {
  }

  /**
   * The report lists exactly the `cap_list` entries before the sentinel
   * whose bit is set in the mask.
   */
  lemma DecodeCapsExactly(c: bv32, e: CapEnt)
    ensures e in Selected(CapList, 0, c) <==> e in CapList[0..SentinelIndex] && IsSet(c, e.code)
  {
    TableSentinel();
    SelectedExactly(CapList, 0, SentinelIndex, c, e);
  }

  /** Unknown bits print nothing: the report for `c` is the report for its known bits. */
  lemma DecodeCapsUnknownBits(c: bv32)
    ensures Selected(CapList, 0, c & KnownCaps) == Selected(CapList, 0, c)
  {
    TableSentinel();
    TableKnownCaps();
    MaskCovers(CapList, 0, SentinelIndex);
    SelectedIgnoresUnknown(CapList, 0, SentinelIndex, c, KnownCaps);
  }

  /** The entries of `s` whose bit is set in `c`, in order: a plain filter, built from the back. */
  function Filter(s: seq<CapEnt>, c: bv32): seq<CapEnt> {
    if s == [] then []
    else Filter(s[..|s| - 1], c) + (if IsSet(c, s[|s| - 1].code) then [s[|s| - 1]] else [])
  }

  lemma {:induction false} FilterCons(e: CapEnt, s: seq<CapEnt>, c: bv32)
    ensures Filter([e] + s, c) == (if IsSet(c, e.code) then [e] else []) + Filter(s, c)
    decreases |s|
  {
    var head: seq<CapEnt> := if IsSet(c, e.code) then [e] else [];
    if s == [] {
      assert ([e] + s)[..0] == [];
      assert Filter([e] + s, c) == head;
    } else {
      var es := [e] + s;
      var init := s[..|s| - 1];
      var last := s[|s| - 1];
      var tail: seq<CapEnt> := if IsSet(c, last.code) then [last] else [];
      assert es[|es| - 1] == last;
      assert es[..|es| - 1] == [e] + init;
      assert Filter(es, c) == Filter([e] + init, c) + tail;
      FilterCons(e, init, c);
      assert Filter(s, c) == Filter(init, c) + tail;
      assert Filter(es, c) == head + Filter(init, c) + tail;
    }
  }

  /**
   * The walk up to the sentinel keeps exactly the entries a filter of the
   * table before the sentinel keeps, in the same order.
   */
  lemma {:induction false} SelectedIsFilter(t: seq<CapEnt>, i: nat, k: nat, c: bv32)
    requires SentinelAt(t, i, k)
    ensures Selected(t, i, c) == Filter(t[i..k], c)
    decreases k - i
  {
    if i < k {
      SelectedIsFilter(t, i + 1, k, c);
      assert t[i..k] == [t[i]] + t[i + 1..k];
      FilterCons(t[i], t[i + 1..k], c);
    } else {
      assert t[i..k] == [];
    }
  }

  /** The report lists the flags of `cap_list` whose bit is set, in table order, and nothing else. */
  lemma DecodeCapsIsFilter(c: bv32)
    ensures Selected(CapList, 0, c) == Filter(CapList[0..SentinelIndex], c)
  {
    TableSentinel();
    SelectedIsFilter(CapList, 0, SentinelIndex, c);
  }

  /** Splitting a `KERNEL_VERSION` word gives back its three parts. */
  lemma VersionRoundTrip(a: bv32, b: bv32, c: bv32)
    requires a < 256 && b < 256 && c < 256
    ensures VersionOf(KernelVersion(a, b, c)) == Version(a, b, c)
  {
  }

  /** Re-encoding the split version gives back the word's low 24 bits; the top byte is not shown. */
  lemma VersionSplitRoundTrip(v: bv32)
    ensures var r := VersionOf(v); KernelVersion(r.major, r.minor, r.patch) == v & 0xFF_FFFF
  {
  }
}
