/** The kernel as the interface manager sees it. Every nl80211 request and
    every interface ioctl the coordinator issues is one `Call`; the kernel
    answers success or failure, and the answer may depend on everything that
    happened before (the `history`), so one `Kernel` value stands for any
    behaviour the real kernel and drivers could show. A run of the
    coordinator is recorded as the sequence of calls it made with their
    answers. */
module Kernel {
  import opened Common
  import opened InterfaceRecord

  /** Operating modes the coordinator creates interfaces in. */
  datatype Mode = Station | AccessPoint | Monitor

  datatype Call =
    | ListInterfaces                                  // GetInterfaceList (nl80211 GET_INTERFACE dump)
    | PowerSaveOff(name: string)                      // IfIoctls::SetWirelessPowerSaveOff
    | SetMac(name: string, mac: Mac, monitorMode: bool) // IfIoctls::SetMacAddress
    | BringUp(name: string)                           // IfIoctls::BringInterfaceUp
    | BringDown(name: string)                         // IfIoctls::BringInterfaceDown
    | Create(name: string, phy: uint32, mode: Mode)   // Create{Station,Ap,Monitor}Interface
    | Delete(name: string)                            // DeleteInterface

  datatype Event = Event(call: Call, ok: bool)

  /** `answer` decides every call but the interface dump; `listing` gives the
      dump's result, `None` when it cannot be read. */
  datatype Kernel = Kernel(
    answer: (seq<Event>, Call) -> bool,
    listing: seq<Event> -> Option<seq<OneInterface>>)

  /** Issue one call after `history` and record the kernel's answer. */
  function Issue(k: Kernel, history: seq<Event>, c: Call): seq<Event>
    requires !c.ListInterfaces?
  {
    history + [Event(c, k.answer(history, c))]
  }

  /** Read the interface list after `history`, recording whether it could be read. */
  function Relist(k: Kernel, history: seq<Event>): seq<Event> {
    history + [Event(ListInterfaces, k.listing(history).Some?)]
  }

  /** `after` continues `before` without altering it. */
  predicate Extends(after: seq<Event>, before: seq<Event>) {
    |before| <= |after| && after[..|before|] == before
  }

  lemma ExtendsTransitive(c: seq<Event>, b: seq<Event>, a: seq<Event>)
    requires Extends(c, b) && Extends(b, a)
    ensures Extends(c, a)
  {
    assert c[..|a|] == c[..|b|][..|a|];
  }
}
