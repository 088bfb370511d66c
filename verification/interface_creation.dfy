/** `InterfaceManagerNl80211::CreateInterfaces` (InterfaceManagerNl80211.cpp):
    prepare the station and AP interfaces on the TI radio, re-read the
    interface list, delete the leftovers on the TI radio, prepare the monitor
    interface on the other radio, delete its leftovers and re-read the list.

    The hardware rule the sequence exists for: power save must be switched
    off on an interface before it is brought up, or the TI firmware crashes.
    `PowerSaveBeforeBringUp` proves that every run obeys it. */
module InterfaceCreation {
  import opened Common
  import opened InterfaceRecord
  import opened Kernel
  import opened InterfaceManager

  /** The station interface's name (the literal `sta0` the source brings down). */
  const StaName: string := "sta0"

  /** The monitor interface's name. */
  const MonName: string := "mon0"

  // ---------------------------------------------------------------------
  // Addresses

  /** The station's MAC: the TI OUI followed by three random bytes (the
      draws of `rand() % 256` are parameters). */
  function StationMac(r3: byte, r4: byte, r5: byte): (mac: Mac)
    ensures mac[..3] == TiChipsetOui
    ensures mac[3] == r3 && mac[4] == r4 && mac[5] == r5
  {
    TiChipsetOui + [r3, r4, r5]
  }

  /** The AP's MAC: the station's with the last octet incremented as a
      `uint8_t` (`mac[5]++`, so 255 wraps to 0). */
  function ApMac(sta: Mac): (mac: Mac)
    ensures mac[..5] == sta[..5]
    ensures mac[5] == (sta[5] as int + 1) % 256
  {
    sta[..5] + [(sta[5] as int + 1) % 256]
  }

  /** The two generated addresses share the TI OUI and are never equal, as
      the kernel demands of interfaces on one network. */
  lemma GeneratedMacsDistinct(r3: byte, r4: byte, r5: byte)
    ensures var sta := StationMac(r3, r4, r5);
      && ApMac(sta)[..3] == TiChipsetOui
      && ApMac(sta) != sta
  {
    var sta := StationMac(r3, r4, r5);
    assert ApMac(sta)[..3] == ApMac(sta)[..5][..3];
    assert ApMac(sta)[5] != sta[5];
  }

  // ---------------------------------------------------------------------
  // Trace predicates

  /** The BringUp at `j` is directly preceded by a power-save-off on the same
      name, with at most a MAC assignment to that name in between, all inside
      the part of the trace from `from` on. */
  predicate UpGuarded(t: seq<Event>, from: nat, j: nat)
    requires j < |t| && t[j].call.BringUp?
  {
    var n := t[j].call.name;
    || (from + 1 <= j && t[j - 1].call == PowerSaveOff(n))
    || (from + 2 <= j && t[j - 1].call.SetMac? && t[j - 1].call.name == n
        && t[j - 2].call == PowerSaveOff(n))
  }

  predicate PowerSaveGuardsUp(t: seq<Event>, from: nat) {
    forall j | from <= j < |t| && t[j].call.BringUp? :: UpGuarded(t, from, j)
  }

  /** A call that (re)starts an interface with power save in its default state
      or that activates it. */
  predicate Activates(c: Call, n: string) {
    (c.BringUp? || c.Create?) && c.name == n
  }

  /** The hardware ordering rule over the part of a trace from `from` on:
      each BringUp of a name comes after a power-save-off on that name, and
      the interface was neither recreated nor brought up in between. */
  predicate PowerSaveBeforeBringUp(t: seq<Event>, from: nat) {
    forall j {:trigger PowerSaveBefore(t, from, j)} | from <= j < |t| && t[j].call.BringUp? ::
      PowerSaveBefore(t, from, j)
  }

  /** The bring-up at `j` has a power-save-off on its interface before it,
      from `from` on, with no re-creation or bring-up of it in between. */
  predicate PowerSaveBefore(t: seq<Event>, from: nat, j: nat)
    requires j < |t| && t[j].call.BringUp?
  {
    exists i | from <= i < j ::
      && t[i].call == PowerSaveOff(t[j].call.name)
      && forall m | i < m < j :: !Activates(t[m].call, t[j].call.name)
  }

  lemma GuardedIsPowerSaveFirst(t: seq<Event>, from: nat)
    requires PowerSaveGuardsUp(t, from)
    ensures PowerSaveBeforeBringUp(t, from)
  {
    forall j | from <= j < |t| && t[j].call.BringUp?
      ensures PowerSaveBefore(t, from, j)
    {
      assert UpGuarded(t, from, j);
      if from + 1 <= j && t[j - 1].call == PowerSaveOff(t[j].call.name) {
        assert t[j - 1].call == PowerSaveOff(t[j].call.name);
      } else {
        assert t[j - 2].call == PowerSaveOff(t[j].call.name);
      }
    }
  }

  /** Appending a guarded segment keeps the whole trace guarded. */
  lemma GuardsCompose(t2: seq<Event>, t1: seq<Event>, from: nat)
    requires from <= |t1| && Extends(t2, t1)
    requires PowerSaveGuardsUp(t1, from) && PowerSaveGuardsUp(t2, |t1|)
    ensures PowerSaveGuardsUp(t2, from)
  {
    forall j | from <= j < |t2| && t2[j].call.BringUp?
      ensures UpGuarded(t2, from, j)
    {
      if j < |t1| {
        assert t2[j] == t2[..|t1|][j];
        assert t2[j - 1] == t2[..|t1|][j - 1];
        if j >= 2 { assert t2[j - 2] == t2[..|t1|][j - 2]; }
        assert UpGuarded(t1, from, j);
      } else {
        assert UpGuarded(t2, |t1|, j);
      }
    }
  }

  /** Every call in the trace from `from` on satisfies `p`. */
  predicate AllCalls(t: seq<Event>, from: nat, p: Call -> bool) {
    forall j | from <= j < |t| :: p(t[j].call)
  }

  lemma AllCallsCompose(t2: seq<Event>, t1: seq<Event>, from: nat, p: Call -> bool)
    requires from <= |t1| && Extends(t2, t1)
    requires AllCalls(t1, from, p) && AllCalls(t2, |t1|, p)
    ensures AllCalls(t2, from, p)
  {
    forall j | from <= j < |t1| ensures p(t2[j].call) {
      assert t2[j] == t2[..|t1|][j];
    }
  }

  /** Every bring-up from `from` on succeeded. */
  predicate UpsOk(t: seq<Event>, from: nat) {
    forall j | from <= j < |t| && t[j].call.BringUp? :: t[j].ok
  }

  lemma UpsOkCompose(t2: seq<Event>, t1: seq<Event>, from: nat)
    requires from <= |t1| && Extends(t2, t1)
    requires UpsOk(t1, from) && UpsOk(t2, |t1|)
    ensures UpsOk(t2, from)
  {
    forall j | from <= j < |t1| && t2[j].call.BringUp? ensures t2[j].ok {
      assert t2[j] == t2[..|t1|][j];
    }
  }

  /** Calls whose failure always ends CreateInterfaces: re-reading the
      interface list, creating an interface, bringing one up. */
  predicate Decisive(c: Call) {
    c.ListInterfaces? || c.Create? || c.BringUp?
  }

  /** From `from` on, the run goes on only after failures it tolerates: a
      failed call other than the last is never decisive, and a failed
      bring-down other than the last is a cleanup's, followed by the delete
      of the same interface. So a failed decisive call, or a failed
      bring-down of a role interface, is the last call of the run. */
  predicate FailuresStop(t: seq<Event>, from: nat) {
    forall j {:trigger ToleratedAt(t, j)} | from <= j < |t| - 1 && !t[j].ok :: ToleratedAt(t, j)
  }

  /** A failure at `j` the run may go on after: the call is not decisive,
      and a bring-down is followed by the delete of the same interface. */
  predicate ToleratedAt(t: seq<Event>, j: nat)
    requires j + 1 < |t|
  {
    && !Decisive(t[j].call)
    && (t[j].call.BringDown? ==> t[j + 1].call == Delete(t[j].call.name))
  }

  /** The trace ends in a call that succeeded or in a delete. */
  predicate EndsTolerably(t: seq<Event>) {
    |t| > 0 ==> t[|t| - 1].ok || t[|t| - 1].call.Delete?
  }

  lemma FailuresStopCompose(t2: seq<Event>, t1: seq<Event>, from: nat)
    requires from <= |t1| && Extends(t2, t1)
    requires FailuresStop(t1, from) && FailuresStop(t2, |t1|)
    requires from < |t1| ==> EndsTolerably(t1)
    ensures FailuresStop(t2, from)
  {
    forall j | from <= j < |t2| - 1 && !t2[j].ok
      ensures ToleratedAt(t2, j)
    {
      if j < |t1| {
        assert t2[j] == t2[..|t1|][j];
        if j + 1 < |t1| {
          assert ToleratedAt(t1, j);
          assert t2[j + 1] == t2[..|t1|][j + 1];
        }
      } else {
        assert ToleratedAt(t2, j);
      }
    }
  }

  /** Every decisive call from `from` on succeeded. */
  predicate DecisiveOk(t: seq<Event>, from: nat) {
    forall j | from <= j < |t| && Decisive(t[j].call) :: t[j].ok
  }

  /** A run whose failures stop it and whose last call succeeded had no
      failed decisive call. */
  lemma FailuresStopLastOk(t: seq<Event>, from: nat)
    requires FailuresStop(t, from) && from < |t| && Last(t).ok
    ensures DecisiveOk(t, from)
  {
    forall j | from <= j < |t| - 1 && !t[j].ok ensures !Decisive(t[j].call) {
      assert ToleratedAt(t, j);
    }
  }

  /** A segment without BringUp is trivially guarded and has no failed bring-up. */
  lemma NoBringUpIsGuarded(t: seq<Event>, from: nat)
    requires AllCalls(t, from, (c: Call) => !c.BringUp?)
    ensures PowerSaveGuardsUp(t, from) && UpsOk(t, from)
  {
  }

  /** Three consecutive segments, each guarded and each making only calls
      that satisfy `p`, make a guarded whole of such calls; when every
      bring-up in each segment succeeded, every bring-up in the whole did. */
  lemma ThreeSegments(t3: seq<Event>, t2: seq<Event>, t1: seq<Event>, t0: seq<Event>, p: Call -> bool)
    requires Extends(t1, t0) && Extends(t2, t1) && Extends(t3, t2)
    requires PowerSaveGuardsUp(t1, |t0|) && PowerSaveGuardsUp(t2, |t1|) && PowerSaveGuardsUp(t3, |t2|)
    requires AllCalls(t1, |t0|, p) && AllCalls(t2, |t1|, p) && AllCalls(t3, |t2|, p)
    ensures Extends(t3, t0) && PowerSaveGuardsUp(t3, |t0|) && AllCalls(t3, |t0|, p)
    ensures UpsOk(t1, |t0|) && UpsOk(t2, |t1|) && UpsOk(t3, |t2|) ==> UpsOk(t3, |t0|)
  {
    ExtendsTransitive(t2, t1, t0);
    ExtendsTransitive(t3, t2, t0);
    GuardsCompose(t2, t1, |t0|);
    GuardsCompose(t3, t2, |t0|);
    AllCallsCompose(t2, t1, |t0|, p);
    AllCallsCompose(t3, t2, |t0|, p);
    if UpsOk(t1, |t0|) && UpsOk(t2, |t1|) && UpsOk(t3, |t2|) {
      UpsOkCompose(t2, t1, |t0|);
      UpsOkCompose(t3, t2, |t0|);
    }
  }

  /** The event `e` occurs in `t` from `from` on. */
  predicate Happened(t: seq<Event>, from: nat, e: Event) {
    exists j | from <= j < |t| :: t[j] == e
  }

  lemma HappenedExtends(t2: seq<Event>, t1: seq<Event>, from: nat, e: Event)
    requires Extends(t2, t1) && Happened(t1, from, e)
    ensures Happened(t2, from, e)
  {
    var j :| from <= j < |t1| && t1[j] == e;
    assert t2[j] == t2[..|t1|][j];
  }

  /** Some call from `from` on is `c`, whatever the kernel answered. */
  predicate Issued(t: seq<Event>, from: nat, c: Call) {
    exists j | from <= j < |t| :: t[j].call == c
  }

  lemma IssuedExtends(t2: seq<Event>, t1: seq<Event>, from: nat, c: Call)
    requires Extends(t2, t1) && Issued(t1, from, c)
    ensures Issued(t2, from, c)
  {
    var j :| from <= j < |t1| && t1[j].call == c;
    assert t2[j] == t2[..|t1|][j];
  }

  // ---------------------------------------------------------------------
  // One role interface

  datatype CreateError =
    | BringDownFailed(name: string)
    | CreateFailed(name: string)
    | BringUpFailed(name: string)
    | RelistFailed
    | FinalRelistFailed

  datatype Step = Step(trace: seq<Event>, error: Option<CreateError>)

  /** The first call for a role interface: bring it down when the list shows
      it on `phy` already, create it otherwise. */
  function Reuse(known: seq<OneInterface>, phy: uint32, name: string, mode: Mode): (c: Call)
    ensures GetInterfaceByPhyAndName(known, phy, name).Some? ==> c == BringDown(name)
    ensures GetInterfaceByPhyAndName(known, phy, name).None? ==> c == Create(name, phy, mode)
  {
    if GetInterfaceByPhyAndName(known, phy, name).Some? then BringDown(name)
    else Create(name, phy, mode)
  }

  /** Switch power save off on `name` (failure tolerated), set its MAC when
      one is given (failure tolerated), bring it up (failure fatal). */
  function Activate(k: Kernel, history: seq<Event>, name: string, mac: Option<Mac>): (r: Step)
    ensures Extends(r.trace, history) && |r.trace| >= |history| + 2
    ensures r.trace[|history|].call == PowerSaveOff(name)
    ensures mac.Some? ==> r.trace[|history| + 1].call == SetMac(name, mac.value, false)
    ensures PowerSaveGuardsUp(r.trace, |history|)
    ensures AllCalls(r.trace, |history|, (c: Call) =>
      (c.PowerSaveOff? || c.SetMac? || c.BringUp?) && c.name == name)
    ensures AllCalls(r.trace, |history|, (c: Call) => c.SetMac? ==> mac == Some(c.mac) && !c.monitorMode)
    ensures Last(r.trace).call == BringUp(name)
    ensures r.error.None? <==> Last(r.trace).ok
    ensures r.error.Some? ==> r.error.value == BringUpFailed(name)
    ensures r.error.None? ==> UpsOk(r.trace, |history|)
    ensures FailuresStop(r.trace, |history|)
  {
    var t2 := Issue(k, history, PowerSaveOff(name));
    var t3 := if mac.Some? then Issue(k, t2, SetMac(name, mac.value, false)) else t2;
    var t4 := Issue(k, t3, BringUp(name));
    assert UpGuarded(t4, |history|, |t4| - 1);
    Step(t4, if k.answer(t3, BringUp(name)) then None else Some(BringUpFailed(name)))
  }

  /** Bring `name` down when the list shows it on `phy` already, create it
      otherwise; stop if that fails; then activate it. */
  function PrepareVif(k: Kernel, history: seq<Event>, known: seq<OneInterface>,
                      phy: uint32, name: string, mode: Mode, mac: Option<Mac>): (r: Step)
    ensures Extends(r.trace, history) && |r.trace| > |history|
    ensures r.trace[|history|].call == Reuse(known, phy, name, mode)
    ensures PowerSaveGuardsUp(r.trace, |history|)
    ensures AllCalls(r.trace, |history|, (c: Call) => !c.ListInterfaces? && !c.Delete? && c.name == name)
    ensures AllCalls(r.trace, |history|, (c: Call) => c.SetMac? ==> mac == Some(c.mac) && !c.monitorMode)
    ensures mac.Some? && r.error.None? ==>
      |r.trace| > |history| + 2 && r.trace[|history| + 2].call == SetMac(name, mac.value, false)
    ensures r.error.Some? <==> !Last(r.trace).ok
    ensures r.error.Some? ==> Last(r.trace).call in {Reuse(known, phy, name, mode), BringUp(name)}
    ensures r.error.None? ==> Last(r.trace) == Event(BringUp(name), true)
    ensures r.error.None? ==> UpsOk(r.trace, |history|)
  {
    var first := Reuse(known, phy, name, mode);
    var t1 := Issue(k, history, first);
    if !k.answer(history, first) then
      Step(t1, Some(if first.BringDown? then BringDownFailed(name) else CreateFailed(name)))
    else
      var a := Activate(k, t1, name, mac);
      ExtendsTransitive(a.trace, t1, history);
      assert a.trace[|history|] == a.trace[..|t1|][|history|];
      GuardsCompose(a.trace, t1, |history|);
      AllCallsCompose(a.trace, t1, |history|, (c: Call) => !c.ListInterfaces? && !c.Delete? && c.name == name);
      AllCallsCompose(a.trace, t1, |history|, (c: Call) => c.SetMac? ==> mac == Some(c.mac) && !c.monitorMode);
      if a.error.None? then
        UpsOkCompose(a.trace, t1, |history|);
        a
      else
        a
  }

  // ---------------------------------------------------------------------
  // Cleanup loops

  /** The interfaces a cleanup loop removes: on `phy`, with a name not in `keep`. */
  predicate IsDoomed(i: OneInterface, phy: uint32, keep: seq<string>) {
    i.phy == phy && i.Name() !in keep
  }

  function Doomed(list: seq<OneInterface>, phy: uint32, keep: seq<string>): (r: seq<OneInterface>)
    ensures forall i | i in r :: i in list && IsDoomed(i, phy, keep)
    ensures forall i | i in list && IsDoomed(i, phy, keep) :: i in r
  {
    if list == [] then []
    else
      var rest := Doomed(list[1..], phy, keep);
      assert forall i | i in list :: i == list[0] || i in list[1..];
      if IsDoomed(list[0], phy, keep) then [list[0]] + rest else rest
  }

  /** From `from` on, `t` holds a bring-down and a delete for each interface
      of `d`, in order. */
  predicate PairsAt(t: seq<Event>, from: nat, d: seq<OneInterface>) {
    && from + 2 * |d| <= |t|
    && forall m | 0 <= m < |d| ::
         && t[from + 2 * m].call == BringDown(d[m].Name())
         && t[from + 2 * m + 1].call == Delete(d[m].Name())
  }

  lemma PairsAtCons(t: seq<Event>, t1: seq<Event>, from: nat, i: OneInterface, d: seq<OneInterface>)
    requires |t1| == from + 2 && Extends(t, t1)
    requires t1[from].call == BringDown(i.Name()) && t1[from + 1].call == Delete(i.Name())
    requires PairsAt(t, |t1|, d)
    ensures PairsAt(t, from, [i] + d)
  {
    var e := [i] + d;
    assert t[from] == t[..|t1|][from];
    assert t[from + 1] == t[..|t1|][from + 1];
    forall m | 1 <= m < |e|
      ensures t[from + 2 * m].call == BringDown(e[m].Name())
      ensures t[from + 2 * m + 1].call == Delete(e[m].Name())
    {
      var n := m - 1;
      assert e[m] == d[n];
      assert from + 2 * m == |t1| + 2 * n;
    }
  }

  /** The names of a list of interfaces. */
  function NamesOf(d: seq<OneInterface>): set<string> {
    set i | i in d :: i.Name()
  }

  /** Every delete from `from` on names one of `names`. */
  predicate DeletesAmong(t: seq<Event>, from: nat, names: set<string>) {
    forall j | from <= j < |t| && t[j].call.Delete? :: t[j].call.name in names
  }

  lemma DeletesAmongCompose(t2: seq<Event>, t1: seq<Event>, from: nat, n1: set<string>, n2: set<string>)
    requires from <= |t1| && Extends(t2, t1)
    requires DeletesAmong(t1, from, n1) && DeletesAmong(t2, |t1|, n2)
    ensures DeletesAmong(t2, from, n1 + n2)
  {
    forall j | from <= j < |t1| && t2[j].call.Delete? ensures t2[j].call.name in n1 {
      assert t2[j] == t2[..|t1|][j];
    }
  }

  lemma PairsAtExtends(t2: seq<Event>, t1: seq<Event>, from: nat, d: seq<OneInterface>)
    requires Extends(t2, t1) && PairsAt(t1, from, d)
    ensures PairsAt(t2, from, d)
  {
    forall m | 0 <= m < |d|
      ensures t2[from + 2 * m].call == BringDown(d[m].Name())
      ensures t2[from + 2 * m + 1].call == Delete(d[m].Name())
    {
      assert t2[from + 2 * m] == t2[..|t1|][from + 2 * m];
      assert t2[from + 2 * m + 1] == t2[..|t1|][from + 2 * m + 1];
    }
  }

  /** A segment made only of the pairs for `d` deletes nothing outside `d`. */
  lemma {:induction false} PairsDeleteOnly(t: seq<Event>, from: nat, d: seq<OneInterface>)
    requires PairsAt(t, from, d) && |t| == from + 2 * |d|
    ensures DeletesAmong(t, from, NamesOf(d))
  {
    forall j | from <= j < |t| && t[j].call.Delete? ensures t[j].call.name in NamesOf(d) {
      var m := (j - from) / 2;
      assert j == from + 2 * m || j == from + 2 * m + 1;
      assert d[m] in d;
    }
  }

  /** A cleanup loop: for every doomed interface, in list order, bring it
      down and delete it, whatever the kernel answers to either call (a
      failed delete does not end the loop). */
  function DeleteLoop(k: Kernel, history: seq<Event>, list: seq<OneInterface>,
                      phy: uint32, keep: seq<string>): (r: seq<Event>)
    ensures Extends(r, history)
    ensures |r| == |history| + 2 * |Doomed(list, phy, keep)|
    ensures PairsAt(r, |history|, Doomed(list, phy, keep))
    ensures AllCalls(r, |history|, (c: Call) => c.BringDown? || c.Delete?)
    ensures FailuresStop(r, |history|)
    ensures EndsTolerably(history) ==> EndsTolerably(r)
    decreases |list|
  {
    if list == [] then history
    else
      var i := list[0];
      var t1 := if IsDoomed(i, phy, keep)
        then Issue(k, Issue(k, history, BringDown(i.Name())), Delete(i.Name()))
        else history;
      var r := DeleteLoop(k, t1, list[1..], phy, keep);
      ExtendsTransitive(r, t1, history);
      AllCallsCompose(r, t1, |history|, (c: Call) => c.BringDown? || c.Delete?);
      FailuresStopCompose(r, t1, |history|);
      if IsDoomed(i, phy, keep) then
        PairsAtCons(r, t1, |history|, i, Doomed(list[1..], phy, keep));
        r
      else
        r
  }

  // ---------------------------------------------------------------------
  // The other radio

  datatype PhySearch = PhySearch(found: bool, phy: uint32)

  /** The phy of the first interface not on the TI radio; 1 when there is none. */
  function OtherPhy(list: seq<OneInterface>, tiPhy: uint32): (r: PhySearch)
    ensures r.found <==> exists i | i in list :: i.phy != tiPhy
    ensures r.found ==> exists k | 0 <= k < |list| ::
      && list[k].phy == r.phy
      && forall j | 0 <= j < k :: list[j].phy == tiPhy
    ensures r.found ==> r.phy != tiPhy
    ensures !r.found ==> r.phy == 1
  {
    if list == [] then PhySearch(false, 1)
    else if list[0].phy != tiPhy then PhySearch(true, list[0].phy)
    else
      var r := OtherPhy(list[1..], tiPhy);
      assert forall i | i in list :: i == list[0] || i in list[1..];
      assert forall k | 1 <= k < |list| :: list[k] == list[1..][k - 1];
      r
  }

  // ---------------------------------------------------------------------
  // The whole sequence

  datatype CreateRun = CreateRun(trace: seq<Event>, result: Result<seq<OneInterface>, CreateError>)

  /** A call whose failure ends CreateInterfaces: the first call or the
      bring-up of a role interface, or re-reading the interface list. */
  predicate Fatal(c: Call, apName: string) {
    || c.ListInterfaces?
    || ((c.BringDown? || c.Create? || c.BringUp?) && c.name in {StaName, apName, MonName})
  }

  /** What every run, finished or failed, looks like. */
  predicate RunShape(r: CreateRun, history: seq<Event>, apName: string) {
    && Extends(r.trace, history) && |r.trace| > |history|
    && PowerSaveGuardsUp(r.trace, |history|)
    && (r.result.Failure? ==> !Last(r.trace).ok && Fatal(Last(r.trace).call, apName))
    && (r.result.Success? ==> Last(r.trace) == Event(ListInterfaces, true))
  }

  /** Prepare `mon0` on the other radio (no MAC is assigned to it), delete
      that radio's other interfaces and re-read the list. */
  function MonitorAndClean(k: Kernel, history: seq<Event>, list: seq<OneInterface>,
                           monPhy: uint32, apName: string): (r: CreateRun)
    ensures RunShape(r, history, apName)
    ensures AllCalls(r.trace, |history|, (c: Call) => !c.SetMac?)
    ensures r.result.Success? ==>
      && UpsOk(r.trace, |history|)
      && Happened(r.trace, |history|, Event(BringUp(MonName), true))
  {
    var mon := PrepareVif(k, history, list, monPhy, MonName, Monitor, None);
    if mon.error.Some? then CreateRun(mon.trace, Failure(mon.error.value))
    else
      var t3 := DeleteLoop(k, mon.trace, list, monPhy, [MonName]);
      var t4 := Relist(k, t3);
      NoBringUpIsGuarded(t3, |mon.trace|);
      ThreeSegments(t4, t3, mon.trace, history, (c: Call) => !c.SetMac?);
      if k.listing(t3).None? then CreateRun(t4, Failure(FinalRelistFailed))
      else
        assert mon.trace[|mon.trace| - 1] == Event(BringUp(MonName), true);
        HappenedExtends(t4, mon.trace, |history|, Event(BringUp(MonName), true));
        CreateRun(t4, Success(k.listing(t3).value))
  }

  /** `InterfaceManagerNl80211::CreateInterfaces`, monitor part: re-read the
      list, clean up the TI radio, then prepare `mon0` on the other radio and
      clean that one up. */
  function MonitorStage(k: Kernel, history: seq<Event>, tiPhy: uint32, apName: string): (r: CreateRun)
    ensures RunShape(r, history, apName)
    ensures k.listing(history).None? ==> r.trace == Relist(k, history) && r.result == Failure(RelistFailed)
    ensures AllCalls(r.trace, |history|, (c: Call) => !c.SetMac?)
    ensures r.result.Success? ==>
      && UpsOk(r.trace, |history|)
      && Happened(r.trace, |history|, Event(BringUp(MonName), true))
  {
    var t1 := Relist(k, history);
    if k.listing(history).None? then CreateRun(t1, Failure(RelistFailed))
    else
      var list := k.listing(history).value;
      var t2 := DeleteLoop(k, t1, list, tiPhy, [apName, StaName]);
      var r := MonitorAndClean(k, t2, list, OtherPhy(list, tiPhy).phy, apName);
      NoBringUpIsGuarded(t2, |t1|);
      ThreeSegments(r.trace, t2, t1, history, (c: Call) => !c.SetMac?);
      r
  }

  /** The MAC assignments CreateInterfaces makes: the generated station
      address on `sta0`, its successor on the AP interface, never in monitor
      mode. */
  predicate MacOk(c: Call, apName: string, staMac: Mac) {
    c.SetMac? ==>
      && !c.monitorMode
      && ((c.name == StaName && c.mac == staMac) || (c.name == apName && c.mac == ApMac(staMac)))
  }

  lemma AllCallsWeaken(t: seq<Event>, from: nat, p: Call -> bool, q: Call -> bool)
    requires AllCalls(t, from, p)
    requires forall j | from <= j < |t| :: p(t[j].call) ==> q(t[j].call)
    ensures AllCalls(t, from, q)
  {
  }

  /** The error PrepareVif reports names the step that failed: the refused
      bring-down or create, or else the bring-up. */
  lemma {:induction false} PrepareVifErrors(k: Kernel, history: seq<Event>, known: seq<OneInterface>,
                                            phy: uint32, name: string, mode: Mode, mac: Option<Mac>)
    ensures var first := Reuse(known, phy, name, mode);
      var r := PrepareVif(k, history, known, phy, name, mode, mac);
      && (!k.answer(history, first) ==>
            r.error == Some(if first.BringDown? then BringDownFailed(name) else CreateFailed(name)))
      && (k.answer(history, first) && r.error.Some? ==> r.error.value == BringUpFailed(name))
  {
    var first := Reuse(known, phy, name, mode);
    if k.answer(history, first) {
      var a := Activate(k, Issue(k, history, first), name, mac);
    }
  }

  /** Preparing a role interface with the MAC address that role is meant to get only ever assigns that address. */
  lemma PrepareVifMacOk(k: Kernel, history: seq<Event>, known: seq<OneInterface>, phy: uint32,
                        name: string, mode: Mode, mac: Mac, apName: string, staMac: Mac)
    requires (name == StaName && mac == staMac) || (name == apName && mac == ApMac(staMac))
    ensures AllCalls(PrepareVif(k, history, known, phy, name, mode, Some(mac)).trace, |history|,
                     (c: Call) => MacOk(c, apName, staMac))
  {
    AllCallsWeaken(PrepareVif(k, history, known, phy, name, mode, Some(mac)).trace, |history|,
      (c: Call) => c.SetMac? ==> Some(mac) == Some(c.mac) && !c.monitorMode,
      (c: Call) => MacOk(c, apName, staMac));
  }

  /** What the role stage may do to interfaces: `sta0` is created on the TI
      radio as a station and the AP interface there as an access point, only
      those two are brought down, and nothing is deleted or re-read. */
  predicate RoleTarget(c: Call, tiPhy: uint32, apName: string) {
    && !c.ListInterfaces? && !c.Delete?
    && (c.Create? ==> c == Create(StaName, tiPhy, Station) || c == Create(apName, tiPhy, AccessPoint))
    && (c.BringDown? ==> c.name == StaName || c.name == apName)
  }

  /** Preparing `sta0` as a station or the AP interface as an access point
      on the TI radio only ever creates or brings down that role's interface. */
  lemma PrepareVifRole(k: Kernel, history: seq<Event>, known: seq<OneInterface>, tiPhy: uint32,
                       name: string, mode: Mode, mac: Option<Mac>, apName: string)
    requires (name == StaName && mode == Station) || (name == apName && mode == AccessPoint)
    ensures AllCalls(PrepareVif(k, history, known, tiPhy, name, mode, mac).trace, |history|,
                     (c: Call) => RoleTarget(c, tiPhy, apName))
  {
    var t := PrepareVif(k, history, known, tiPhy, name, mode, mac).trace;
    PrepareVifFirstCall(k, history, known, tiPhy, name, mode, mac);
    forall j | |history| <= j < |t| ensures RoleTarget(t[j].call, tiPhy, apName) {
      assert t[j].call.name == name;
    }
  }

  /** `InterfaceManagerNl80211::CreateInterfaces`, role part: prepare `sta0`
      and then the AP interface on the TI radio. */
  function RoleStage(k: Kernel, history: seq<Event>, known: seq<OneInterface>,
                     tiPhy: uint32, apName: string, staMac: Mac): (r: Step)
    ensures Extends(r.trace, history) && |r.trace| > |history|
    ensures PowerSaveGuardsUp(r.trace, |history|)
    ensures AllCalls(r.trace, |history|, (c: Call) => MacOk(c, apName, staMac))
    ensures r.error.Some? <==> !Last(r.trace).ok
    ensures r.error.Some? ==> Fatal(Last(r.trace).call, apName)
    ensures r.error.None? ==> Last(r.trace) == Event(BringUp(apName), true)
    ensures r.error.None? ==>
      && UpsOk(r.trace, |history|)
      && Happened(r.trace, |history|, Event(BringUp(StaName), true))
      && Issued(r.trace, |history|, SetMac(StaName, staMac, false))
      && Issued(r.trace, |history|, SetMac(apName, ApMac(staMac), false))
  {
    var sta := PrepareVif(k, history, known, tiPhy, StaName, Station, Some(staMac));
    PrepareVifMacOk(k, history, known, tiPhy, StaName, Station, staMac, apName, staMac);
    if sta.error.Some? then sta
    else
      var ap := PrepareVif(k, sta.trace, known, tiPhy, apName, AccessPoint, Some(ApMac(staMac)));
      PrepareVifMacOk(k, sta.trace, known, tiPhy, apName, AccessPoint, ApMac(staMac), apName, staMac);
      ExtendsTransitive(ap.trace, sta.trace, history);
      GuardsCompose(ap.trace, sta.trace, |history|);
      AllCallsCompose(ap.trace, sta.trace, |history|, (c: Call) => MacOk(c, apName, staMac));
      if ap.error.None? then
        assert sta.trace[|sta.trace| - 1] == Event(BringUp(StaName), true);
        HappenedExtends(ap.trace, sta.trace, |history|, Event(BringUp(StaName), true));
        assert sta.trace[|history| + 2].call == SetMac(StaName, staMac, false);
        IssuedExtends(ap.trace, sta.trace, |history|, SetMac(StaName, staMac, false));
        assert ap.trace[|sta.trace| + 2].call == SetMac(apName, ApMac(staMac), false);
        UpsOkCompose(ap.trace, sta.trace, |history|);
        ap
      else
        ap
  }

  /** `CreateInterfaces()` after a successful Init; `r3`..`r5` are the random
      MAC bytes. The hardware rule holds on every run: each bring-up follows
      a power-save-off on the same interface, with no re-creation or earlier
      bring-up of it in between. */
  function CreateInterfaces(k: Kernel, history: seq<Event>, m: Manager,
                            r3: byte, r4: byte, r5: byte): (r: CreateRun)
    requires |m.ti| >= 1
    ensures RunShape(r, history, m.apName)
    ensures PowerSaveBeforeBringUp(r.trace, |history|)
    ensures AllCalls(r.trace, |history|, (c: Call) => MacOk(c, m.apName, StationMac(r3, r4, r5)))
    ensures r.result.Success? ==>
      && UpsOk(r.trace, |history|)
      && Happened(r.trace, |history|, Event(BringUp(StaName), true))
      && Happened(r.trace, |history|, Event(BringUp(m.apName), true))
      && Happened(r.trace, |history|, Event(BringUp(MonName), true))
      && Issued(r.trace, |history|, SetMac(StaName, StationMac(r3, r4, r5), false))
      && Issued(r.trace, |history|, SetMac(m.apName, ApMac(StationMac(r3, r4, r5)), false))
  {
    var tiPhy := m.ti[0].phy;
    var staMac := StationMac(r3, r4, r5);
    var roles := RoleStage(k, history, m.interfaces, tiPhy, m.apName, staMac);
    if roles.error.Some? then
      GuardedIsPowerSaveFirst(roles.trace, |history|);
      CreateRun(roles.trace, Failure(roles.error.value))
    else
      var mon := MonitorStage(k, roles.trace, tiPhy, m.apName);
      AllCallsWeaken(mon.trace, |roles.trace|, (c: Call) => !c.SetMac?,
        (c: Call) => MacOk(c, m.apName, staMac));
      ExtendsTransitive(mon.trace, roles.trace, history);
      GuardsCompose(mon.trace, roles.trace, |history|);
      GuardedIsPowerSaveFirst(mon.trace, |history|);
      AllCallsCompose(mon.trace, roles.trace, |history|, (c: Call) => MacOk(c, m.apName, staMac));
      if mon.result.Success? then
        assert roles.trace[|roles.trace| - 1] == Event(BringUp(m.apName), true);
        HappenedExtends(mon.trace, roles.trace, |history|, Event(BringUp(StaName), true));
        HappenedExtends(mon.trace, roles.trace, |history|, Event(BringUp(m.apName), true));
        IssuedExtends(mon.trace, roles.trace, |history|, SetMac(StaName, staMac, false));
        IssuedExtends(mon.trace, roles.trace, |history|, SetMac(m.apName, ApMac(staMac), false));
        UpsOkCompose(mon.trace, roles.trace, |history|);
        mon
      else
        mon
  }

  /** CreateInterfaces is the role stage, then (if it succeeded) the monitor stage. */
  lemma CreateInterfacesUnfolds(k: Kernel, history: seq<Event>, m: Manager, r3: byte, r4: byte, r5: byte)
    requires |m.ti| >= 1
    ensures var roles := RoleStage(k, history, m.interfaces, m.ti[0].phy, m.apName, StationMac(r3, r4, r5));
      CreateInterfaces(k, history, m, r3, r4, r5) ==
        if roles.error.Some? then CreateRun(roles.trace, Failure(roles.error.value))
        else MonitorStage(k, roles.trace, m.ti[0].phy, m.apName)
  {
  }

  /** After a successful monitor preparation, MonitorAndClean's trace is the cleanup loop and a re-read. */
  lemma MonitorAndCleanUnfolds(k: Kernel, history: seq<Event>, list: seq<OneInterface>,
                               monPhy: uint32, apName: string)
    ensures var mon := PrepareVif(k, history, list, monPhy, MonName, Monitor, None);
      var r := MonitorAndClean(k, history, list, monPhy, apName);
      && (mon.error.Some? ==> r.trace == mon.trace && r.result == Failure(mon.error.value))
      && (mon.error.None? ==>
            var t3 := DeleteLoop(k, mon.trace, list, monPhy, [MonName]);
            r.trace == Relist(k, t3) && (r.result.Success? <==> k.listing(t3).Some?))
  {
  }

  /** MonitorAndClean deletes only the monitor radio's leftovers and, on
      success, brings each down and deletes it, in list order, just before
      the final re-read. */
  lemma {:induction false} MonitorAndCleanTargets(k: Kernel, history: seq<Event>, list: seq<OneInterface>,
                                                  monPhy: uint32, apName: string)
    ensures var r := MonitorAndClean(k, history, list, monPhy, apName);
      var doomed := Doomed(list, monPhy, [MonName]);
      && DeletesAmong(r.trace, |history|, NamesOf(doomed))
      && (r.result.Success? || r.result == Failure(FinalRelistFailed) ==>
            PairsAt(r.trace, |r.trace| - 1 - 2 * |doomed|, doomed))
  {
    MonitorAndCleanDeletes(k, history, list, monPhy, apName);
    MonitorAndCleanPairs(k, history, list, monPhy, apName);
  }

  lemma {:induction false} MonitorAndCleanDeletes(k: Kernel, history: seq<Event>, list: seq<OneInterface>,
                                                  monPhy: uint32, apName: string)
    ensures DeletesAmong(MonitorAndClean(k, history, list, monPhy, apName).trace, |history|,
                         NamesOf(Doomed(list, monPhy, [MonName])))
  {
    var doomed := Doomed(list, monPhy, [MonName]);
    var mon := PrepareVif(k, history, list, monPhy, MonName, Monitor, None);
    MonitorAndCleanUnfolds(k, history, list, monPhy, apName);
    assert DeletesAmong(mon.trace, |history|, {});
    if mon.error.None? {
      var t3 := DeleteLoop(k, mon.trace, list, monPhy, [MonName]);
      var t4 := Relist(k, t3);
      PairsDeleteOnly(t3, |mon.trace|, doomed);
      DeletesAmongCompose(t3, mon.trace, |history|, {}, NamesOf(doomed));
      DeletesAmongCompose(t4, t3, |history|, NamesOf(doomed), {});
      assert {} + NamesOf(doomed) + {} == NamesOf(doomed);
    }
  }

  lemma {:induction false} MonitorAndCleanPairs(k: Kernel, history: seq<Event>, list: seq<OneInterface>,
                                                monPhy: uint32, apName: string)
    ensures var r := MonitorAndClean(k, history, list, monPhy, apName);
      var doomed := Doomed(list, monPhy, [MonName]);
      r.result.Success? || r.result == Failure(FinalRelistFailed) ==>
        PairsAt(r.trace, |r.trace| - 1 - 2 * |doomed|, doomed)
  {
    var doomed := Doomed(list, monPhy, [MonName]);
    var mon := PrepareVif(k, history, list, monPhy, MonName, Monitor, None);
    MonitorAndCleanUnfolds(k, history, list, monPhy, apName);
    PrepareVifErrors(k, history, list, monPhy, MonName, Monitor, None);
    if mon.error.None? {
      var t3 := DeleteLoop(k, mon.trace, list, monPhy, [MonName]);
      PairsAtExtends(Relist(k, t3), t3, |mon.trace|, doomed);
    }
  }

  /** The monitor stage on a readable list is the TI cleanup loop followed by MonitorAndClean. */
  lemma MonitorStageUnfolds(k: Kernel, history: seq<Event>, tiPhy: uint32, apName: string)
    requires k.listing(history).Some?
    ensures var list := k.listing(history).value;
      var t2 := DeleteLoop(k, Relist(k, history), list, tiPhy, [apName, StaName]);
      MonitorStage(k, history, tiPhy, apName) == MonitorAndClean(k, t2, list, OtherPhy(list, tiPhy).phy, apName)
  {
  }

  /** The monitor stage's deletions: each names an interface of the list it
      re-read that sits on the TI radio under neither the AP nor the station
      name, or on the monitor's radio under a name other than `mon0`; the TI
      radio's leftovers are brought down and deleted in list order right
      after the re-read. */
  lemma {:induction false} MonitorStageCleanup(k: Kernel, history: seq<Event>, tiPhy: uint32, apName: string)
    requires k.listing(history).Some?
    ensures var r := MonitorStage(k, history, tiPhy, apName);
      var list := k.listing(history).value;
      var tiDoomed := Doomed(list, tiPhy, [apName, StaName]);
      var monDoomed := Doomed(list, OtherPhy(list, tiPhy).phy, [MonName]);
      && DeletesAmong(r.trace, |history|, NamesOf(tiDoomed) + NamesOf(monDoomed))
      && PairsAt(r.trace, |history| + 1, tiDoomed)
  {
    MonitorStageDeletes(k, history, tiPhy, apName);
    MonitorStageTiPairs(k, history, tiPhy, apName);
  }

  lemma {:induction false} MonitorStageDeletes(k: Kernel, history: seq<Event>, tiPhy: uint32, apName: string)
    requires k.listing(history).Some?
    ensures var list := k.listing(history).value;
      DeletesAmong(MonitorStage(k, history, tiPhy, apName).trace, |history|,
                   NamesOf(Doomed(list, tiPhy, [apName, StaName]))
                   + NamesOf(Doomed(list, OtherPhy(list, tiPhy).phy, [MonName])))
  {
    var list := k.listing(history).value;
    var tiDoomed := Doomed(list, tiPhy, [apName, StaName]);
    var monDoomed := Doomed(list, OtherPhy(list, tiPhy).phy, [MonName]);
    var t1 := Relist(k, history);
    var t2 := DeleteLoop(k, t1, list, tiPhy, [apName, StaName]);
    var r := MonitorAndClean(k, t2, list, OtherPhy(list, tiPhy).phy, apName);
    MonitorStageUnfolds(k, history, tiPhy, apName);
    MonitorAndCleanDeletes(k, t2, list, OtherPhy(list, tiPhy).phy, apName);
    PairsDeleteOnly(t2, |t1|, tiDoomed);
    assert DeletesAmong(t1, |history|, {});
    DeletesAmongCompose(t2, t1, |history|, {}, NamesOf(tiDoomed));
    DeletesAmongCompose(r.trace, t2, |history|, {} + NamesOf(tiDoomed), NamesOf(monDoomed));
    assert {} + NamesOf(tiDoomed) + NamesOf(monDoomed) == NamesOf(tiDoomed) + NamesOf(monDoomed);
  }

  lemma {:induction false} MonitorStageTiPairs(k: Kernel, history: seq<Event>, tiPhy: uint32, apName: string)
    requires k.listing(history).Some?
    ensures PairsAt(MonitorStage(k, history, tiPhy, apName).trace, |history| + 1,
                    Doomed(k.listing(history).value, tiPhy, [apName, StaName]))
  {
    var list := k.listing(history).value;
    var t1 := Relist(k, history);
    var t2 := DeleteLoop(k, t1, list, tiPhy, [apName, StaName]);
    var r := MonitorAndClean(k, t2, list, OtherPhy(list, tiPhy).phy, apName);
    MonitorStageUnfolds(k, history, tiPhy, apName);
    assert |t1| == |history| + 1;
    PairsAtExtends(r.trace, t2, |t1|, Doomed(list, tiPhy, [apName, StaName]));
  }

  // ---------------------------------------------------------------------
  // Which failures end the run, and which interfaces it creates

  /** PrepareVif's first call is the bring-down or create `Reuse` picks, and
      when the kernel refuses it the step ends there with an error. The only
      interface it creates is `name` on `phy` in `mode`, and it goes on only
      after the failures it tolerates. */
  lemma {:induction false} PrepareVifFirstCall(k: Kernel, history: seq<Event>, known: seq<OneInterface>,
                                               phy: uint32, name: string, mode: Mode, mac: Option<Mac>)
    ensures var first := Reuse(known, phy, name, mode);
      var r := PrepareVif(k, history, known, phy, name, mode, mac);
      && r.trace[|history|] == Event(first, k.answer(history, first))
      && (!k.answer(history, first) ==> r.trace == Issue(k, history, first) && r.error.Some?)
      && FailuresStop(r.trace, |history|)
      && AllCalls(r.trace, |history|, (c: Call) => c.Create? ==> c == Create(name, phy, mode))
  {
    var first := Reuse(known, phy, name, mode);
    var t1 := Issue(k, history, first);
    if k.answer(history, first) {
      var a := Activate(k, t1, name, mac);
      assert a.trace[|history|] == a.trace[..|t1|][|history|];
      FailuresStopCompose(a.trace, t1, |history|);
      AllCallsCompose(a.trace, t1, |history|, (c: Call) => c.Create? ==> c == Create(name, phy, mode));
    }
  }

  /** The role stage starts with `sta0`'s bring-down or create and stops
      there when that is refused; a refused create, bring-up or role
      bring-down ends it. On success every create and bring-up succeeded,
      the AP's first call among them. */
  lemma {:induction false} RoleStageFailures(k: Kernel, history: seq<Event>, known: seq<OneInterface>,
                                             tiPhy: uint32, apName: string, staMac: Mac)
    ensures var first := Reuse(known, tiPhy, StaName, Station);
      var r := RoleStage(k, history, known, tiPhy, apName, staMac);
      && r.trace[|history|] == Event(first, k.answer(history, first))
      && (!k.answer(history, first) ==> r.trace == Issue(k, history, first) && r.error.Some?)
      && FailuresStop(r.trace, |history|)
      && (r.error.None? ==>
            && DecisiveOk(r.trace, |history|)
            && Happened(r.trace, |history|, Event(Reuse(known, tiPhy, apName, AccessPoint), true)))
  {
    var sta := PrepareVif(k, history, known, tiPhy, StaName, Station, Some(staMac));
    PrepareVifFirstCall(k, history, known, tiPhy, StaName, Station, Some(staMac));
    if sta.error.None? {
      var ap := PrepareVif(k, sta.trace, known, tiPhy, apName, AccessPoint, Some(ApMac(staMac)));
      PrepareVifFirstCall(k, sta.trace, known, tiPhy, apName, AccessPoint, Some(ApMac(staMac)));
      assert ap.trace[|history|] == ap.trace[..|sta.trace|][|history|];
      FailuresStopCompose(ap.trace, sta.trace, |history|);
      if ap.error.None? {
        assert ap.trace[|sta.trace|] == Event(Reuse(known, tiPhy, apName, AccessPoint), true);
        FailuresStopLastOk(ap.trace, |history|);
      }
    }
  }

  /** The role stage creates `sta0` only as a station and the AP interface
      only as an access point, both on the TI radio. */
  lemma {:induction false} RoleStageTargets(k: Kernel, history: seq<Event>, known: seq<OneInterface>,
                                            tiPhy: uint32, apName: string, staMac: Mac)
    ensures AllCalls(RoleStage(k, history, known, tiPhy, apName, staMac).trace, |history|,
                     (c: Call) => RoleTarget(c, tiPhy, apName))
  {
    var sta := PrepareVif(k, history, known, tiPhy, StaName, Station, Some(staMac));
    PrepareVifRole(k, history, known, tiPhy, StaName, Station, Some(staMac), apName);
    if sta.error.None? {
      var ap := PrepareVif(k, sta.trace, known, tiPhy, apName, AccessPoint, Some(ApMac(staMac)));
      PrepareVifRole(k, sta.trace, known, tiPhy, apName, AccessPoint, Some(ApMac(staMac)), apName);
      AllCallsCompose(ap.trace, sta.trace, |history|, (c: Call) => RoleTarget(c, tiPhy, apName));
    }
  }

  /** MonitorAndClean starts with `mon0`'s bring-down or create and stops
      there when that is refused; otherwise it goes on only after the
      failures it tolerates. */
  lemma {:induction false} MonitorAndCleanFailures(k: Kernel, history: seq<Event>, list: seq<OneInterface>,
                                                   monPhy: uint32, apName: string)
    ensures var first := Reuse(list, monPhy, MonName, Monitor);
      var r := MonitorAndClean(k, history, list, monPhy, apName);
      && r.trace[|history|] == Event(first, k.answer(history, first))
      && (!k.answer(history, first) ==> r.trace == Issue(k, history, first) && r.result.Failure?)
      && FailuresStop(r.trace, |history|)
  {
    var mon := PrepareVif(k, history, list, monPhy, MonName, Monitor, None);
    PrepareVifFirstCall(k, history, list, monPhy, MonName, Monitor, None);
    MonitorAndCleanUnfolds(k, history, list, monPhy, apName);
    if mon.error.None? {
      var t3 := DeleteLoop(k, mon.trace, list, monPhy, [MonName]);
      var t4 := Relist(k, t3);
      assert t4[|history|] == t3[..|mon.trace|][|history|];
      FailuresStopCompose(t3, mon.trace, |history|);
      FailuresStopCompose(t4, t3, |history|);
    }
  }

  /** The only interface MonitorAndClean creates is `mon0` on `monPhy` in monitor mode. */
  lemma {:induction false} MonitorAndCleanCreates(k: Kernel, history: seq<Event>, list: seq<OneInterface>,
                                                  monPhy: uint32, apName: string)
    ensures AllCalls(MonitorAndClean(k, history, list, monPhy, apName).trace, |history|,
                     (c: Call) => c.Create? ==> c == Create(MonName, monPhy, Monitor))
  {
    var mon := PrepareVif(k, history, list, monPhy, MonName, Monitor, None);
    PrepareVifFirstCall(k, history, list, monPhy, MonName, Monitor, None);
    MonitorAndCleanUnfolds(k, history, list, monPhy, apName);
    if mon.error.None? {
      var t3 := DeleteLoop(k, mon.trace, list, monPhy, [MonName]);
      AllCallsCompose(t3, mon.trace, |history|, (c: Call) => c.Create? ==> c == Create(MonName, monPhy, Monitor));
      AllCallsCompose(Relist(k, t3), t3, |history|, (c: Call) => c.Create? ==> c == Create(MonName, monPhy, Monitor));
    }
  }

  /** The monitor stage starts by re-reading the list and goes on only after
      the failures it tolerates. */
  lemma {:induction false} MonitorStageFailures(k: Kernel, history: seq<Event>, tiPhy: uint32, apName: string)
    ensures var r := MonitorStage(k, history, tiPhy, apName);
      && r.trace[|history|] == Event(ListInterfaces, k.listing(history).Some?)
      && FailuresStop(r.trace, |history|)
  {
    if k.listing(history).Some? {
      var list := k.listing(history).value;
      var t1 := Relist(k, history);
      var t2 := DeleteLoop(k, t1, list, tiPhy, [apName, StaName]);
      var r := MonitorAndClean(k, t2, list, OtherPhy(list, tiPhy).phy, apName);
      MonitorStageUnfolds(k, history, tiPhy, apName);
      MonitorAndCleanFailures(k, t2, list, OtherPhy(list, tiPhy).phy, apName);
      ExtendsTransitive(r.trace, t2, t1);
      assert r.trace[|history|] == r.trace[..|t1|][|history|];
      FailuresStopCompose(t2, t1, |history|);
      FailuresStopCompose(r.trace, t2, |history|);
    }
  }

  /** The only interface the monitor stage creates is `mon0`, in monitor
      mode, on the radio OtherPhy picks from the list it re-read. */
  lemma {:induction false} MonitorStageCreates(k: Kernel, history: seq<Event>, tiPhy: uint32, apName: string)
    ensures AllCalls(MonitorStage(k, history, tiPhy, apName).trace, |history|, (c: Call) =>
      c.Create? ==>
        k.listing(history).Some? && c == Create(MonName, OtherPhy(k.listing(history).value, tiPhy).phy, Monitor))
  {
    if k.listing(history).Some? {
      var list := k.listing(history).value;
      var monPhy := OtherPhy(list, tiPhy).phy;
      var t1 := Relist(k, history);
      var t2 := DeleteLoop(k, t1, list, tiPhy, [apName, StaName]);
      var r := MonitorAndClean(k, t2, list, monPhy, apName);
      MonitorStageUnfolds(k, history, tiPhy, apName);
      MonitorAndCleanCreates(k, t2, list, monPhy, apName);
      AllCallsCompose(t2, t1, |history|, (c: Call) => c.Create? ==> c == Create(MonName, monPhy, Monitor));
      AllCallsCompose(r.trace, t2, |history|, (c: Call) => c.Create? ==> c == Create(MonName, monPhy, Monitor));
    }
  }

  /** CreateInterfaces starts with `sta0`'s bring-down or create, and when
      the kernel refuses it the run ends there with an error. */
  lemma {:induction false} CreateInterfacesFirstCall(k: Kernel, history: seq<Event>, m: Manager,
                                                     r3: byte, r4: byte, r5: byte)
    requires |m.ti| >= 1
    ensures var first := Reuse(m.interfaces, m.ti[0].phy, StaName, Station);
      var r := CreateInterfaces(k, history, m, r3, r4, r5);
      && r.trace[|history|] == Event(first, k.answer(history, first))
      && (!k.answer(history, first) ==> r.trace == Issue(k, history, first) && r.result.Failure?)
  {
    var tiPhy := m.ti[0].phy;
    var staMac := StationMac(r3, r4, r5);
    var roles := RoleStage(k, history, m.interfaces, tiPhy, m.apName, staMac);
    RoleStageFailures(k, history, m.interfaces, tiPhy, m.apName, staMac);
    if roles.error.None? {
      var mon := MonitorStage(k, roles.trace, tiPhy, m.apName);
      assert mon.trace[|history|] == mon.trace[..|roles.trace|][|history|];
    }
  }

  /** Whatever fails along the way, a refused re-read, create, bring-up or
      role bring-down is the last call of CreateInterfaces, and a refused
      last call means the run failed. */
  lemma {:induction false} CreateInterfacesFailures(k: Kernel, history: seq<Event>, m: Manager,
                                                    r3: byte, r4: byte, r5: byte)
    requires |m.ti| >= 1
    ensures var r := CreateInterfaces(k, history, m, r3, r4, r5);
      && FailuresStop(r.trace, |history|)
      && (!Last(r.trace).ok ==> r.result.Failure?)
  {
    var tiPhy := m.ti[0].phy;
    var staMac := StationMac(r3, r4, r5);
    var roles := RoleStage(k, history, m.interfaces, tiPhy, m.apName, staMac);
    RoleStageFailures(k, history, m.interfaces, tiPhy, m.apName, staMac);
    if roles.error.None? {
      var mon := MonitorStage(k, roles.trace, tiPhy, m.apName);
      MonitorStageFailures(k, roles.trace, tiPhy, m.apName);
      FailuresStopCompose(mon.trace, roles.trace, |history|);
    }
  }

  /** A run of CreateInterfaces that succeeds had every re-read, create and
      bring-up accepted. */
  lemma {:induction false} CreateInterfacesSucceeds(k: Kernel, history: seq<Event>, m: Manager, r3: byte, r4: byte, r5: byte)
    requires |m.ti| >= 1
    ensures var r := CreateInterfaces(k, history, m, r3, r4, r5);
      r.result.Success? ==> DecisiveOk(r.trace, |history|)
  {
    var tiPhy := m.ti[0].phy;
    var staMac := StationMac(r3, r4, r5);
    var roles := RoleStage(k, history, m.interfaces, tiPhy, m.apName, staMac);
    CreateInterfacesUnfolds(k, history, m, r3, r4, r5);
    if roles.error.None? {
      var mon := MonitorStage(k, roles.trace, tiPhy, m.apName);
      RoleStageFailures(k, history, m.interfaces, tiPhy, m.apName, staMac);
      MonitorStageFailures(k, roles.trace, tiPhy, m.apName);
      FailuresStopCompose(mon.trace, roles.trace, |history|);
      if mon.result.Success? {
        FailuresStopLastOk(mon.trace, |history|);
      }
    }
  }

  /** CreateInterfaces creates `sta0` only on the TI radio as a station and
      the AP interface only there as an access point; every other interface
      it creates is in monitor mode. */
  lemma {:induction false} CreateInterfacesRoleCreates(k: Kernel, history: seq<Event>, m: Manager,
                                                       r3: byte, r4: byte, r5: byte)
    requires |m.ti| >= 1
    ensures var tiPhy := m.ti[0].phy;
      AllCalls(CreateInterfaces(k, history, m, r3, r4, r5).trace, |history|, (c: Call) =>
        c.Create? && c.mode != Monitor ==>
          c == Create(StaName, tiPhy, Station) || c == Create(m.apName, tiPhy, AccessPoint))
  {
    var tiPhy := m.ti[0].phy;
    var staMac := StationMac(r3, r4, r5);
    var roles := RoleStage(k, history, m.interfaces, tiPhy, m.apName, staMac);
    var p := (c: Call) => c.Create? && c.mode != Monitor ==>
      c == Create(StaName, tiPhy, Station) || c == Create(m.apName, tiPhy, AccessPoint);
    RoleStageTargets(k, history, m.interfaces, tiPhy, m.apName, staMac);
    AllCallsWeaken(roles.trace, |history|, (c: Call) => RoleTarget(c, tiPhy, m.apName), p);
    if roles.error.None? {
      var mon := MonitorStage(k, roles.trace, tiPhy, m.apName);
      MonitorStageCreates(k, roles.trace, tiPhy, m.apName);
      AllCallsWeaken(mon.trace, |roles.trace|, (c: Call) =>
        c.Create? ==>
          k.listing(roles.trace).Some? && c == Create(MonName, OtherPhy(k.listing(roles.trace).value, tiPhy).phy, Monitor), p);
      AllCallsCompose(mon.trace, roles.trace, |history|, p);
    }
  }

  /** The call at `i` is the first re-read of the list from `from` on, and it
      returned a list. */
  predicate FirstRead(k: Kernel, t: seq<Event>, from: nat, i: nat) {
    && from <= i < |t|
    && t[i].call == ListInterfaces
    && k.listing(t[..i]).Some?
    && forall n | from <= n < i :: !t[n].call.ListInterfaces?
  }

  /** The call at `j` creates `mon0` in monitor mode on the radio OtherPhy
      picks from the list the first re-read before it returned. */
  predicate MonitorCreateOnReadPhy(k: Kernel, t: seq<Event>, from: nat, tiPhy: uint32, j: nat)
    requires j < |t|
  {
    exists i | 0 <= i < j && FirstRead(k, t, from, i) ::
      t[j].call == Create(MonName, OtherPhy(k.listing(t[..i]).value, tiPhy).phy, Monitor)
  }

  /** Every monitor-mode interface the monitor stage creates is `mon0`, on
      the radio OtherPhy picks from the list the stage's re-read returned. */
  lemma {:induction false} MonitorStageMonitorCreates(k: Kernel, history: seq<Event>, tiPhy: uint32, apName: string)
    ensures var r := MonitorStage(k, history, tiPhy, apName);
      forall j | |history| <= j < |r.trace| && r.trace[j].call.Create? && r.trace[j].call.mode == Monitor ::
        MonitorCreateOnReadPhy(k, r.trace, |history|, tiPhy, j)
  {
    var r := MonitorStage(k, history, tiPhy, apName);
    MonitorStageFailures(k, history, tiPhy, apName);
    MonitorStageCreates(k, history, tiPhy, apName);
    forall j | |history| <= j < |r.trace| && r.trace[j].call.Create? && r.trace[j].call.mode == Monitor
      ensures MonitorCreateOnReadPhy(k, r.trace, |history|, tiPhy, j)
    {
      assert r.trace[..|history|] == history;
      assert j != |history|;
      assert FirstRead(k, r.trace, |history|, |history|);
    }
  }

  /** A prefix that neither re-reads the list nor creates a monitor-mode
      interface keeps "every monitor create is on the first read's radio"
      true from its own start. */
  lemma {:induction false} MonitorCreatesAfter(k: Kernel, t: seq<Event>, pre: seq<Event>, from: nat, tiPhy: uint32)
    requires from <= |pre| && Extends(t, pre)
    requires AllCalls(pre, from, (c: Call) => !c.ListInterfaces? && !(c.Create? && c.mode == Monitor))
    requires forall j | |pre| <= j < |t| && t[j].call.Create? && t[j].call.mode == Monitor ::
      MonitorCreateOnReadPhy(k, t, |pre|, tiPhy, j)
    ensures forall j | from <= j < |t| && t[j].call.Create? && t[j].call.mode == Monitor ::
      MonitorCreateOnReadPhy(k, t, from, tiPhy, j)
  {
    forall j | from <= j < |t| && t[j].call.Create? && t[j].call.mode == Monitor
      ensures MonitorCreateOnReadPhy(k, t, from, tiPhy, j)
    {
      assert MonitorCreateOnReadPhy(k, t, |pre|, tiPhy, j);
      var i :| 0 <= i < j && FirstRead(k, t, |pre|, i)
        && t[j].call == Create(MonName, OtherPhy(k.listing(t[..i]).value, tiPhy).phy, Monitor);
      forall n | from <= n < |pre| ensures !t[n].call.ListInterfaces? {
        assert t[n] == t[..|pre|][n];
      }
      assert FirstRead(k, t, from, i);
    }
  }

  /** Every monitor-mode interface CreateInterfaces creates is `mon0`, on
      the radio OtherPhy picks from the list its first re-read returned. */
  lemma {:induction false} CreateInterfacesMonitorCreates(k: Kernel, history: seq<Event>, m: Manager,
                                                          r3: byte, r4: byte, r5: byte)
    requires |m.ti| >= 1
    ensures var r := CreateInterfaces(k, history, m, r3, r4, r5);
      forall j | |history| <= j < |r.trace| && r.trace[j].call.Create? && r.trace[j].call.mode == Monitor ::
        MonitorCreateOnReadPhy(k, r.trace, |history|, m.ti[0].phy, j)
  {
    var tiPhy := m.ti[0].phy;
    var staMac := StationMac(r3, r4, r5);
    var roles := RoleStage(k, history, m.interfaces, tiPhy, m.apName, staMac);
    RoleStageTargets(k, history, m.interfaces, tiPhy, m.apName, staMac);
    AllCallsWeaken(roles.trace, |history|, (c: Call) => RoleTarget(c, tiPhy, m.apName),
      (c: Call) => !c.ListInterfaces? && !(c.Create? && c.mode == Monitor));
    if roles.error.None? {
      var mon := MonitorStage(k, roles.trace, tiPhy, m.apName);
      MonitorStageMonitorCreates(k, roles.trace, tiPhy, m.apName);
      MonitorCreatesAfter(k, mon.trace, roles.trace, |history|, tiPhy);
    }
  }

  // Which addresses are assigned

  /** PrepareVif assigns the address it is given exactly when the kernel
      accepts the bring-down or create: the MAC assignment is issued whatever
      the power-save-off answered, and before the bring-up. */
  lemma {:induction false} PrepareVifAssignsMac(k: Kernel, history: seq<Event>, known: seq<OneInterface>,
                                                phy: uint32, name: string, mode: Mode, mac: Mac)
    ensures var r := PrepareVif(k, history, known, phy, name, mode, Some(mac));
      Issued(r.trace, |history|, SetMac(name, mac, false)) <==> k.answer(history, Reuse(known, phy, name, mode))
  {
    var first := Reuse(known, phy, name, mode);
    var r := PrepareVif(k, history, known, phy, name, mode, Some(mac));
    PrepareVifFirstCall(k, history, known, phy, name, mode, Some(mac));
    if k.answer(history, first) {
      var t1 := Issue(k, history, first);
      var a := Activate(k, t1, name, Some(mac));
      assert r.trace[|t1| + 1].call == SetMac(name, mac, false);
    }
  }

  /** The role stage assigns `sta0` the generated station address exactly
      when the kernel accepts `sta0`'s bring-down or create. */
  lemma {:induction false} RoleStageStationMac(k: Kernel, history: seq<Event>, known: seq<OneInterface>,
                                               tiPhy: uint32, apName: string, staMac: Mac)
    ensures var r := RoleStage(k, history, known, tiPhy, apName, staMac);
      (Issued(r.trace, |history|, SetMac(StaName, staMac, false))
       <==> k.answer(history, Reuse(known, tiPhy, StaName, Station)))
  {
    var sta := PrepareVif(k, history, known, tiPhy, StaName, Station, Some(staMac));
    PrepareVifAssignsMac(k, history, known, tiPhy, StaName, Station, staMac);
    PrepareVifFirstCall(k, history, known, tiPhy, StaName, Station, Some(staMac));
    if sta.error.None? {
      var ap := PrepareVif(k, sta.trace, known, tiPhy, apName, AccessPoint, Some(ApMac(staMac)));
      IssuedExtends(ap.trace, sta.trace, |history|, SetMac(StaName, staMac, false));
    }
  }

  /** CreateInterfaces assigns `sta0` the address built from the three random
      bytes exactly when the kernel accepts `sta0`'s bring-down or create. */
  lemma {:induction false} CreateInterfacesStationMac(k: Kernel, history: seq<Event>, m: Manager,
                                                      r3: byte, r4: byte, r5: byte)
    requires |m.ti| >= 1
    ensures var r := CreateInterfaces(k, history, m, r3, r4, r5);
      (Issued(r.trace, |history|, SetMac(StaName, StationMac(r3, r4, r5), false))
       <==> k.answer(history, Reuse(m.interfaces, m.ti[0].phy, StaName, Station)))
  {
    var tiPhy := m.ti[0].phy;
    var staMac := StationMac(r3, r4, r5);
    var roles := RoleStage(k, history, m.interfaces, tiPhy, m.apName, staMac);
    CreateInterfacesUnfolds(k, history, m, r3, r4, r5);
    RoleStageStationMac(k, history, m.interfaces, tiPhy, m.apName, staMac);
    if roles.error.None? {
      var mon := MonitorStage(k, roles.trace, tiPhy, m.apName);
      RoleStageFailures(k, history, m.interfaces, tiPhy, m.apName, staMac);
      IssuedExtends(mon.trace, roles.trace, |history|, SetMac(StaName, staMac, false));
    }
  }
}
