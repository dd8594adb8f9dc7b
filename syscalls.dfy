/**
 * The operating-system calls the loopback writer makes, as a trace of events.
 *
 * Nothing here performs I/O: each call's outcome is an input of the model (an
 * oracle), and each operation returns the list of calls it made with the
 * outcomes it saw. File descriptors follow C: a negative value is a failure.
 */
module Sys {
  import Formats

  datatype Option<T> = None | Some(value: T)

  /** The access mode passed to open(2). */
  datatype Mode = ReadOnly | ReadWrite

  /** The V4L2 ioctls the pipe start issues. */
  datatype Request =
    | QueryCap                         // VIDIOC_QUERYCAP
    | GetFormat(arg: Formats.Format)   // VIDIOC_G_FMT, with the record passed in
    | SetFormat(arg: Formats.Format)   // VIDIOC_S_FMT, with the proposed record

  datatype Event =
    | OpenDir(path: string, ok: bool)               // opendir(3); ok is false for NULL
    | Open(path: string, mode: Mode, fd: int)       // open(2) and the descriptor it returned
    | Read(fd: int, count: nat, result: int)        // read(2): requested count, bytes read or -1
    | Found(path: string, minor: int)               // the "found video device" log line
    | Close(fd: int)                                // close(2)
    | CloseDir                                      // closedir(3)
    | Ioctl(fd: int, request: Request, ok: bool)    // ioctl(2); ok is false for -1

  /** What read(fd, buf, count) returns from a file holding `content`: at most `count` bytes. */
  function ReadResult(content: seq<char>, count: nat): (d: seq<char>)
    ensures |d| <= count && d <= content
    ensures |content| <= count ==> d == content
  {
    if |content| <= count then content else content[..count]
  }

  /** The number of open(2) calls in a trace that returned a descriptor. */
  function Opened(events: seq<Event>): nat
  {
    if events == [] then 0
    else Opened(events[..|events| - 1]) + (if events[|events| - 1].Open? && events[|events| - 1].fd >= 0 then 1 else 0)
  }

  /** The number of close(2) calls in a trace on a descriptor (not on -1). */
  function Closed(events: seq<Event>): nat
  {
    if events == [] then 0
    else Closed(events[..|events| - 1]) + (if events[|events| - 1].Close? && events[|events| - 1].fd >= 0 then 1 else 0)
  }

  /** The ioctl(2) calls of a trace, in order. */
  function Ioctls(events: seq<Event>): seq<Event> {
    if events == [] then []
    else Ioctls(events[..|events| - 1]) + (if events[|events| - 1].Ioctl? then [events[|events| - 1]] else [])
  }

  lemma {:induction false} CountsAppend(a: seq<Event>, b: seq<Event>)
    ensures Opened(a + b) == Opened(a) + Opened(b)
    ensures Closed(a + b) == Closed(a) + Closed(b)
    ensures Ioctls(a + b) == Ioctls(a) + Ioctls(b)
    decreases |b|
  {
    if b == [] {
      assert a + b == a;
    } else {
      var b' := b[..|b| - 1];
      assert (a + b)[..|a + b| - 1] == a + b';
      CountsAppend(a, b');
    }
  }

  lemma CountsSingle(x: Event)
    ensures Opened([x]) == (if x.Open? && x.fd >= 0 then 1 else 0)
    ensures Closed([x]) == (if x.Close? && x.fd >= 0 then 1 else 0)
    ensures Ioctls([x]) == (if x.Ioctl? then [x] else [])
  {
    assert [x][..0] == [];
  }

  /** A trace without ioctl calls has an empty ioctl list. */
  lemma {:induction false} NoIoctls(events: seq<Event>)
    requires forall e | e in events :: !e.Ioctl?
    ensures Ioctls(events) == []
    decreases |events|
  {
    if events != [] {
      assert events[|events| - 1] in events;
      NoIoctls(events[..|events| - 1]);
    }
  }

  /** A trace of ioctl calls only is its own ioctl list, and opens and closes nothing. */
  lemma {:induction false} OnlyIoctls(events: seq<Event>)
    requires forall i :: 0 <= i < |events| ==> events[i].Ioctl?
    ensures Ioctls(events) == events
    ensures Opened(events) == 0 && Closed(events) == 0
    decreases |events|
  {
    if events != [] {
      var front := events[..|events| - 1];
      assert front + [events[|events| - 1]] == events;
      OnlyIoctls(front);
    }
  }

  lemma Assoc(a: seq<Event>, b: seq<Event>, c: seq<Event>)
    ensures a + (b + c) == a + b + c
  {
  }

  lemma Suffix(a: seq<Event>, b: seq<Event>)
    ensures (a + b)[|a + b| - |b|..] == b
  {
  }

  /** A visit's calls grouped as open, probe and close, or listed one by one. */
  lemma Regroup(a: Event, b: Event, c: Event, d: Event, x: Event)
    ensures [a] + [b, c, d] + [] == [a] + [b] + [c] + [d]
    ensures [a] + [b, c, d] + [x] == [a] + [b] + [c] + [d] + [x]
  {
  }

  /** The counts of three calls are the sums of their single counts. */
  lemma CountsTriple(a: Event, b: Event, c: Event)
    ensures Opened([a, b, c]) == Opened([a]) + Opened([b]) + Opened([c])
    ensures Closed([a, b, c]) == Closed([a]) + Closed([b]) + Closed([c])
  {
    assert [a, b, c] == [a] + [b] + [c];
    CountsAppend([a] + [b], [c]);
    CountsAppend([a], [b]);
  }

  /** The counts of a trace extended by one call. */
  lemma CountsSnoc(a: seq<Event>, x: Event)
    ensures Opened(a + [x]) == Opened(a) + (if x.Open? && x.fd >= 0 then 1 else 0)
    ensures Closed(a + [x]) == Closed(a) + (if x.Close? && x.fd >= 0 then 1 else 0)
    ensures Ioctls(a + [x]) == Ioctls(a) + (if x.Ioctl? then [x] else [])
  {
    assert (a + [x])[..|a + [x]| - 1] == a;
  }
}
