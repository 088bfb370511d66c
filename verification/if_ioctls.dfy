/** `IfIoctls` (IfIoctls.cpp): the classic socket-ioctl operations on a
    named interface. Each opens a datagram socket, issues one or two ioctl
    requests and closes the socket again.

    The operating system is an oracle: it picks the descriptor `socket()`
    returns, answers every ioctl, and gives the flags word SIOCGIFFLAGS
    reads, each possibly depending on everything that happened before.
    The descriptor the object holds (`m_fd`) and the history of system
    calls form the state. The interface flags are a 16-bit word, as in
    `ifr_flags`. */
module IfIoctls {
  import opened Common
  import opened InterfaceRecord

  const IFF_UP: bv16 := 0x1
  const IFF_RUNNING: bv16 := 0x40
  const ARPHRD_ETHER: int := 1
  const ARPHRD_IEEE80211_RADIOTAP: int := 803

  datatype Request =
    | GetFlagsReq(name: string)                               // SIOCGIFFLAGS
    | SetFlagsReq(name: string, flags: bv16)                  // SIOCSIFFLAGS
    | SetHwAddrReq(name: string, mac: Mac, family: int)       // SIOCSIFHWADDR
    | PowerOffReq(name: string)                               // SIOCSIWPOWER, power.disabled = 1

  datatype IoEvent =
    | SocketOpened(fd: int)
    | FdClosed(fd: int)
    | Ioctl(req: Request, ok: bool)

  datatype Os = Os(
    socket: seq<IoEvent> -> int,
    ioctl: (seq<IoEvent>, Request) -> bool,
    readFlags: (seq<IoEvent>, string) -> bv16)

  datatype IoState = IoState(fd: int, trace: seq<IoEvent>)

  /** A new state together with the operation's return value. */
  datatype Outcome<T> = Outcome(st: IoState, value: T)

  // ---------------------------------------------------------------------
  // Descriptor handling

  /** `Close()`: close the descriptor if it is positive and forget it. */
  function Close(st: IoState): (r: Outcome<bool>)
    ensures r.value
    ensures r.st.fd <= 0
    ensures st.fd > 0 ==> r.st.trace == st.trace + [FdClosed(st.fd)] && r.st.fd == -1
    ensures st.fd <= 0 ==> r.st == st
  {
    if st.fd > 0 then Outcome(IoState(-1, st.trace + [FdClosed(st.fd)]), true)
    else Outcome(st, true)
  }

  /** `Open()`: release any held descriptor, then take a new socket. */
  function Open(os: Os, st: IoState): (r: Outcome<bool>)
    ensures |r.st.trace| > |st.trace| && r.st.trace[..|st.trace|] == st.trace
    ensures st.fd > 0 ==> r.st.trace[|st.trace|] == FdClosed(st.fd)
    ensures Last(r.st.trace) == SocketOpened(r.st.fd)
    ensures r.value <==> r.st.fd >= 0
  {
    var c := Close(st).st;
    var fd := os.socket(c.trace);
    Outcome(IoState(fd, c.trace + [SocketOpened(fd)]), fd >= 0)
  }

  function Issue(os: Os, st: IoState, req: Request): (r: Outcome<bool>)
    ensures r.st == IoState(st.fd, st.trace + [Ioctl(req, r.value)])
  {
    var ok := os.ioctl(st.trace, req);
    Outcome(IoState(st.fd, st.trace + [Ioctl(req, ok)]), ok)
  }

  /** The ioctl requests in a trace, with their answers. */
  function Ioctls(t: seq<IoEvent>): (r: seq<IoEvent>)
    ensures forall e | e in r :: e in t && e.Ioctl?
  {
    if t == [] then []
    else Ioctls(t[..|t| - 1]) + (if t[|t| - 1].Ioctl? then [t[|t| - 1]] else [])
  }

  lemma {:induction false} IoctlsAppend(t: seq<IoEvent>, u: seq<IoEvent>)
    ensures Ioctls(t + u) == Ioctls(t) + Ioctls(u)
    decreases |u|
  {
    if u == [] {
      assert t + u == t;
    } else {
      assert (t + u)[..|t + u| - 1] == t + u[..|u| - 1];
      IoctlsAppend(t, u[..|u| - 1]);
    }
  }

  /** The ioctls an operation issued after `st`. */
  function IssuedSince(st: IoState, after: IoState): seq<IoEvent>
    requires |st.trace| <= |after.trace|
  {
    Ioctls(after.trace[|st.trace|..])
  }

  /** A stretch with no ioctl in it contributes nothing. */
  lemma {:induction false} IoctlsOfQuiet(u: seq<IoEvent>)
    requires forall e | e in u :: !e.Ioctl?
    ensures Ioctls(u) == []
    decreases |u|
  {
    if u != [] {
      assert u[|u| - 1] in u;
      assert forall e | e in u[..|u| - 1] :: e in u;
      IoctlsOfQuiet(u[..|u| - 1]);
    }
  }

  /** One ioctl between two quiet stretches is the only one there. */
  lemma IoctlsAround(pre: seq<IoEvent>, e: IoEvent, post: seq<IoEvent>)
    requires e.Ioctl?
    requires forall x | x in pre :: !x.Ioctl?
    requires forall x | x in post :: !x.Ioctl?
    ensures Ioctls(pre + [e] + post) == [e]
  {
    IoctlsOfQuiet(pre);
    IoctlsOfQuiet(post);
    IoctlsAppend(pre + [e], post);
    IoctlsAppend(pre, [e]);
    assert [e][..0] == [];
  }

  /** What Open adds to the trace: at most a close, then the new socket. */
  function OpenEvents(os: Os, st: IoState): (u: seq<IoEvent>)
    ensures forall x | x in u :: !x.Ioctl?
  {
    (if st.fd > 0 then [FdClosed(st.fd)] else []) + [SocketOpened(Open(os, st).st.fd)]
  }

  lemma OpenAppends(os: Os, st: IoState)
    ensures Open(os, st).st.trace == st.trace + OpenEvents(os, st)
  {
  }

  lemma OpenIssuesNothing(os: Os, st: IoState)
    ensures IssuedSince(st, Open(os, st).st) == []
  {
    OpenAppends(os, st);
    assert Open(os, st).st.trace[|st.trace|..] == OpenEvents(os, st);
    IoctlsOfQuiet(OpenEvents(os, st));
  }

  /** Open, then issue `req` and close the socket whatever the answer; the
      shape of every call here but the power-save one. */
  lemma {:induction false} IssueAndClose(os: Os, st: IoState, req: Request)
    requires Open(os, st).value
    ensures var o := Open(os, st).st;
      var i := Issue(os, o, req);
      var c := Close(i.st).st;
      && |c.trace| > |st.trace| && c.trace[..|st.trace|] == st.trace
      && IssuedSince(st, c) == [Ioctl(req, i.value)]
  {
    var o := Open(os, st).st;
    var i := Issue(os, o, req);
    var c := Close(i.st).st;
    var pre := OpenEvents(os, st);
    var post: seq<IoEvent> := if i.st.fd > 0 then [FdClosed(i.st.fd)] else [];
    OpenAppends(os, st);
    assert c.trace == st.trace + (pre + [Ioctl(req, i.value)] + post);
    assert c.trace[..|st.trace|] == st.trace;
    assert c.trace[|st.trace|..] == pre + [Ioctl(req, i.value)] + post;
    IoctlsAround(pre, Ioctl(req, i.value), post);
  }

  /** Open and issue `req`, keeping the socket: the request is the only one issued. */
  lemma IssueAndKeep(os: Os, st: IoState, req: Request)
    requires Open(os, st).value
    ensures var i := Issue(os, Open(os, st).st, req);
      IssuedSince(st, i.st) == [Ioctl(req, i.value)]
  {
    var i := Issue(os, Open(os, st).st, req);
    var pre := OpenEvents(os, st);
    OpenAppends(os, st);
    assert i.st.trace[|st.trace|..] == pre + [Ioctl(req, i.value)] + [];
    IoctlsAround(pre, Ioctl(req, i.value), []);
  }

  /** Open, issue `req`, close whatever the answer: the shape of every
      setter but the power-save one. The only request is `req`, and the
      result is its answer. */
  function OpenIssueClose(os: Os, st: IoState, req: Request): (r: Outcome<bool>)
    ensures r.st.fd <= 0
    ensures |r.st.trace| > |st.trace| && r.st.trace[..|st.trace|] == st.trace
    ensures (IssuedSince(st, r.st) == [] && !r.value) || IssuedSince(st, r.st) == [Ioctl(req, r.value)]
  {
    var o := Open(os, st);
    if !o.value then
      OpenIssuesNothing(os, st);
      Outcome(o.st, false)
    else
      var i := Issue(os, o.st, req);
      IssueAndClose(os, st, req);
      Outcome(Close(i.st).st, i.value)
  }

  // ---------------------------------------------------------------------
  // Flags

  /** `GetFlags(name, flags)`: the flags word, or `None` when no socket
      could be had or the ioctl failed. The socket is closed either way. */
  function GetFlags(os: Os, st: IoState, name: string): (r: Outcome<Option<bv16>>)
    ensures r.st.fd <= 0
    ensures |r.st.trace| > |st.trace| && r.st.trace[..|st.trace|] == st.trace
    ensures || (IssuedSince(st, r.st) == [] && r.value.None?)
            || IssuedSince(st, r.st) == [Ioctl(GetFlagsReq(name), r.value.Some?)]
  {
    var o := Open(os, st);
    if !o.value then
      OpenIssuesNothing(os, st);
      Outcome(o.st, None)
    else
      var i := Issue(os, o.st, GetFlagsReq(name));
      IssueAndClose(os, st, GetFlagsReq(name));
      Outcome(Close(i.st).st, if i.value then Some(os.readFlags(o.st.trace, name)) else None)
  }

  /** `SetFlags(name, flags)`. */
  function SetFlags(os: Os, st: IoState, name: string, flags: bv16): Outcome<bool> {
    OpenIssueClose(os, st, SetFlagsReq(name, flags))
  }

  /** `flags |= IFF_UP`: the up bit set, every other bit kept. */
  function WithUp(f: bv16): (g: bv16)
    ensures g & IFF_UP == IFF_UP
    ensures g & !IFF_UP == f & !IFF_UP
  {
    f | IFF_UP
  }

  /** `flags &= ~IFF_UP`: the up bit cleared, every other bit kept. */
  function WithoutUp(f: bv16): (g: bv16)
    ensures g & IFF_UP == 0
    ensures g & !IFF_UP == f & !IFF_UP
  {
    f & !IFF_UP
  }

  /** `BringInterfaceUp(name)`: read the flags, set IFF_UP, write them back. */
  function BringInterfaceUp(os: Os, st: IoState, name: string): (r: Outcome<bool>)
    ensures r.st.fd <= 0
    ensures var g := GetFlags(os, st, name);
      && (g.value.None? ==> r == Outcome(g.st, false))
      && (g.value.Some? ==> r == SetFlags(os, g.st, name, WithUp(g.value.value)))
  {
    var g := GetFlags(os, st, name);
    if g.value.None? then Outcome(g.st, false)
    else SetFlags(os, g.st, name, WithUp(g.value.value))
  }

  /** `BringInterfaceDown(name)`: read the flags, clear IFF_UP, write them back. */
  function BringInterfaceDown(os: Os, st: IoState, name: string): (r: Outcome<bool>)
    ensures r.st.fd <= 0
    ensures var g := GetFlags(os, st, name);
      && (g.value.None? ==> r == Outcome(g.st, false))
      && (g.value.Some? ==> r == SetFlags(os, g.st, name, WithoutUp(g.value.value)))
  {
    var g := GetFlags(os, st, name);
    if g.value.None? then Outcome(g.st, false)
    else SetFlags(os, g.st, name, WithoutUp(g.value.value))
  }

  /** Up and Down write the flags exactly when they could read them: the
      requests are the read and then, if it succeeded, one write; a failed
      read returns false with nothing written. */
  lemma {:induction false} UpDownRequests(os: Os, st: IoState, name: string)
    ensures var g := GetFlags(os, st, name);
      var up := BringInterfaceUp(os, st, name);
      && |up.st.trace| >= |g.st.trace| >= |st.trace|
      && (g.value.None? ==> !up.value && IssuedSince(st, up.st) == IssuedSince(st, g.st))
      && (g.value.Some? ==>
            IssuedSince(st, up.st) == IssuedSince(st, g.st) + IssuedSince(g.st, up.st)
            && ((IssuedSince(g.st, up.st) == [] && !up.value)
                || IssuedSince(g.st, up.st) == [Ioctl(SetFlagsReq(name, WithUp(g.value.value)), up.value)]))
    ensures var g := GetFlags(os, st, name);
      var down := BringInterfaceDown(os, st, name);
      && |down.st.trace| >= |g.st.trace| >= |st.trace|
      && (g.value.None? ==> !down.value && IssuedSince(st, down.st) == IssuedSince(st, g.st))
      && (g.value.Some? ==>
            IssuedSince(st, down.st) == IssuedSince(st, g.st) + IssuedSince(g.st, down.st)
            && ((IssuedSince(g.st, down.st) == [] && !down.value)
                || IssuedSince(g.st, down.st) == [Ioctl(SetFlagsReq(name, WithoutUp(g.value.value)), down.value)]))
  {
    var g := GetFlags(os, st, name);
    var up := BringInterfaceUp(os, st, name);
    var down := BringInterfaceDown(os, st, name);
    if g.value.Some? {
      SinceSplits(st, g.st, up.st);
      SinceSplits(st, g.st, down.st);
    }
  }

  lemma SinceSplits(a: IoState, b: IoState, c: IoState)
    requires |a.trace| <= |b.trace| <= |c.trace|
    requires b.trace[..|a.trace|] == a.trace && c.trace[..|b.trace|] == b.trace
    ensures IssuedSince(a, c) == IssuedSince(a, b) + IssuedSince(b, c)
  {
    assert c.trace[|a.trace|..] == b.trace[|a.trace|..] + c.trace[|b.trace|..];
    IoctlsAppend(b.trace[|a.trace|..], c.trace[|b.trace|..]);
  }

  /** The `int` that receives the `short` ifr_flags: sign extension. */
  function SignExtend(f: bv16): (x: int)
    ensures -0x8000 <= x < 0x8000
    ensures x % 0x10000 == f as int
  {
    var v := f as int;
    if v < 0x8000 then v else v - 0x10000
  }

  datatype InterfaceFlags = InterfaceFlags(ok: bool, rawFlags: int, isUp: bool, isRunning: bool)

  /** `GetInterfaceFlags(name, rawFlags, isUp, isRunning)`. */
  function GetInterfaceFlags(os: Os, st: IoState, name: string): (r: Outcome<InterfaceFlags>)
    ensures r.st == GetFlags(os, st, name).st
    ensures var g := GetFlags(os, st, name).value;
      && (g.None? ==> r.value == InterfaceFlags(false, 0, false, false))
      && (g.Some? ==>
            && r.value.ok
            && r.value.rawFlags == SignExtend(g.value)
            && r.value.rawFlags % 0x10000 == g.value as int
            && (r.value.isUp <==> g.value & IFF_UP == IFF_UP)
            && (r.value.isRunning <==> g.value & IFF_RUNNING == IFF_RUNNING))
  {
    var g := GetFlags(os, st, name);
    if g.value.None? then Outcome(g.st, InterfaceFlags(false, 0, false, false))
    else
      var f := g.value.value;
      Outcome(g.st, InterfaceFlags(true, SignExtend(f), f & IFF_UP != 0, f & IFF_RUNNING != 0))
  }

  // ---------------------------------------------------------------------
  // A kernel that remembers the flags it was given

  /** The flags of the last successful SIOCSIFFLAGS on `name` in `t`. */
  function LastSetFlags(t: seq<IoEvent>, name: string): Option<bv16> {
    if t == [] then None
    else
      var e := t[|t| - 1];
      if e.Ioctl? && e.ok && e.req.SetFlagsReq? && e.req.name == name then Some(e.req.flags)
      else LastSetFlags(t[..|t| - 1], name)
  }

  /** SIOCGIFFLAGS reads back what the last successful SIOCSIFFLAGS wrote. */
  ghost predicate Coherent(os: Os) {
    forall h, name | LastSetFlags(h, name).Some? :: os.readFlags(h, name) == LastSetFlags(h, name).value
  }

  /** Events that touch no interface's flags leave the last written flags as they were. */
  lemma {:induction false} LastSetFlagsSkips(t: seq<IoEvent>, u: seq<IoEvent>, name: string)
    requires forall e | e in u :: !e.Ioctl?
    ensures LastSetFlags(t + u, name) == LastSetFlags(t, name)
    decreases |u|
  {
    if u == [] {
      assert t + u == t;
    } else {
      assert (t + u)[..|t + u| - 1] == t + u[..|u| - 1];
      assert (t + u)[|t + u| - 1] == u[|u| - 1];
      assert u[|u| - 1] in u;
      assert forall e | e in u[..|u| - 1] :: e in u;
      LastSetFlagsSkips(t, u[..|u| - 1], name);
    }
  }

  /** After a successful bring-up, a coherent kernel reports the interface
      up, with every other flag as read before. */
  lemma {:induction false} UpIsVisible(os: Os, st: IoState, name: string)
    requires Coherent(os)
    requires BringInterfaceUp(os, st, name).value
    ensures var g := GetFlags(os, st, name).value.value;
      var after := GetInterfaceFlags(os, BringInterfaceUp(os, st, name).st, name).value;
      after.ok ==>
        && after.isUp
        && after.rawFlags % 0x10000 == WithUp(g) as int
  {
    var g := GetFlags(os, st, name);
    var f := WithUp(g.value.value);
    WriteIsVisible(os, g.st, name, f);
  }

  /** After a successful bring-down, a coherent kernel reports the interface down. */
  lemma {:induction false} DownIsVisible(os: Os, st: IoState, name: string)
    requires Coherent(os)
    requires BringInterfaceDown(os, st, name).value
    ensures var g := GetFlags(os, st, name).value.value;
      var after := GetInterfaceFlags(os, BringInterfaceDown(os, st, name).st, name).value;
      after.ok ==>
        && !after.isUp
        && after.rawFlags % 0x10000 == WithoutUp(g) as int
  {
    var g := GetFlags(os, st, name);
    var f := WithoutUp(g.value.value);
    WriteIsVisible(os, g.st, name, f);
  }

  /** A successful SetFlags followed by a read returns the flags written. */
  lemma {:induction false} WriteIsVisible(os: Os, st: IoState, name: string, f: bv16)
    requires Coherent(os) && st.fd <= 0
    requires SetFlags(os, st, name, f).value
    ensures var after := GetFlags(os, SetFlags(os, st, name, f).st, name).value;
      after.Some? ==> after.value == f
  {
    var o := Open(os, st);
    var i := Issue(os, o.st, SetFlagsReq(name, f));
    var c := Close(i.st).st;
    assert LastSetFlags(i.st.trace, name) == Some(f);
    var o2 := Open(os, c);
    assert o2.st.trace == i.st.trace + (o2.st.trace[|i.st.trace|..]);
    LastSetFlagsSkips(i.st.trace, o2.st.trace[|i.st.trace|..], name);
  }

  // ---------------------------------------------------------------------
  // MAC address and power save

  /** `SetMacAddress(name, mac, isMonitorMode)`: one SIOCSIFHWADDR whose
      address family is Radiotap for a monitor interface and Ethernet otherwise. */
  function SetMacAddress(os: Os, st: IoState, name: string, mac: Mac, isMonitorMode: bool): (r: Outcome<bool>)
    ensures r.st.fd <= 0
    ensures |r.st.trace| > |st.trace|
    ensures || (IssuedSince(st, r.st) == [] && !r.value)
            || (|IssuedSince(st, r.st)| == 1 && IssuedSince(st, r.st)[0].ok == r.value)
    ensures forall e | e in IssuedSince(st, r.st) ::
      && e.req.SetHwAddrReq? && e.req.name == name && e.req.mac == mac
      && (e.req.family == ARPHRD_IEEE80211_RADIOTAP <==> isMonitorMode)
      && (e.req.family == ARPHRD_ETHER <==> !isMonitorMode)
  {
    var family := if isMonitorMode then ARPHRD_IEEE80211_RADIOTAP else ARPHRD_ETHER;
    OpenIssueClose(os, st, SetHwAddrReq(name, mac, family))
  }

  /** `SetWirelessPowerSaveOff(name)`: on success the socket is left open. */
  function SetWirelessPowerSaveOff(os: Os, st: IoState, name: string): (r: Outcome<bool>)
    ensures |r.st.trace| > |st.trace| && r.st.trace[..|st.trace|] == st.trace
    ensures r.value ==> r.st.fd >= 0 && Last(r.st.trace) == Ioctl(PowerOffReq(name), true)
    ensures !r.value ==> r.st.fd <= 0
    ensures || (IssuedSince(st, r.st) == [] && !r.value)
            || IssuedSince(st, r.st) == [Ioctl(PowerOffReq(name), r.value)]
  {
    var o := Open(os, st);
    if !o.value then
      OpenIssuesNothing(os, st);
      Outcome(o.st, false)
    else
      var i := Issue(os, o.st, PowerOffReq(name));
      if i.value then
        IssueAndKeep(os, st, PowerOffReq(name));
        i
      else
        var c := Close(i.st).st;
        IssueAndClose(os, st, PowerOffReq(name));
        Outcome(c, false)
  }

  /** The descriptor the power-save call leaves open is closed by the next
      operation's `Open`, before it takes a new socket. */
  lemma NextOpenReleasesPowerSaveSocket(os: Os, st: IoState, name: string)
    requires SetWirelessPowerSaveOff(os, st, name).value
    ensures var s := SetWirelessPowerSaveOff(os, st, name).st;
      s.fd > 0 ==> Open(os, s).st.trace[|s.trace|] == FdClosed(s.fd)
  {
  }

  /** `Close` treats descriptor 0 as no descriptor: it is never closed. */
  lemma CloseKeepsDescriptorZero(trace: seq<IoEvent>)
    ensures Close(IoState(0, trace)).st == IoState(0, trace)
  {
  }
}
