/** `InterfaceManagerNl80211::Init` and the list helpers it relies on
    (InterfaceManagerNl80211.cpp): counting the physical radios, splitting
    the interfaces by the TI chipset's OUI, looking an interface up by phy
    and name, and choosing the AP and monitor interface names. */
module InterfaceManager {
  import opened Common
  import opened InterfaceRecord
  import opened Kernel

  /** First three MAC bytes of the built-in TI chip: D0-B5-C2. */
  const TiChipsetOui: seq<byte> := [0xD0, 0xB5, 0xC2]

  /** The interface belongs to the built-in TI radio (the `memcmp` of the
      first three MAC bytes against the OUI). */
  predicate IsTi(i: OneInterface) {
    i.mac[..3] == TiChipsetOui
  }

  /** The set of physical radio ids the interfaces sit on. */
  function PhysOf(list: seq<OneInterface>): set<uint32> {
    set i | i in list :: i.phy
  }

  // ---------------------------------------------------------------------
  // Distinct phy ids

  /** Walk `list` in order, appending each phy id not yet in `acc`. */
  function DistinctPhysFrom(list: seq<OneInterface>, acc: seq<uint32>): (r: seq<uint32>)
    requires NoDuplicates(acc)
    ensures NoDuplicates(r)
    ensures Elements(r) == Elements(acc) + PhysOf(list)
    ensures |acc| <= |r| && r[..|acc|] == acc
    decreases |list|
  {
    if list == [] then acc
    else
      var phy := list[0].phy;
      var acc' := if phy in acc then acc else acc + [phy];
      assert PhysOf(list) == {phy} + PhysOf(list[1..]) by {
        assert list == [list[0]] + list[1..];
      }
      var r := DistinctPhysFrom(list[1..], acc');
      assert r[..|acc|] == acc by {
        assert r[..|acc|] == r[..|acc'|][..|acc|];
      }
      r
  }

  /** The `phys` vector Init builds: every phy id once, in order of first appearance. */
  function DistinctPhys(list: seq<OneInterface>): (r: seq<uint32>)
    ensures NoDuplicates(r)
    ensures Elements(r) == PhysOf(list)
  {
    var r := DistinctPhysFrom(list, []);
    assert Elements<uint32>([]) == {};
    r
  }

  /** Init's phy count is the number of distinct phys. */
  lemma DistinctPhysCount(list: seq<OneInterface>)
    ensures |DistinctPhys(list)| == |PhysOf(list)|
  {
    var r := DistinctPhys(list);
    NoDuplicatesCardinality(r);
  }

  // ---------------------------------------------------------------------
  // CategorizeInterfaceList

  datatype Categories = Categories(ti: seq<OneInterface>, notTi: seq<OneInterface>, found: bool)

  /** Split the interfaces into the TI and the other radio, keeping list order. */
  function Categorize(list: seq<OneInterface>): (r: Categories)
    ensures forall i | i in r.ti :: IsTi(i)
    ensures forall i | i in r.notTi :: !IsTi(i)
    ensures |r.ti| + |r.notTi| == |list|
    ensures r.found <==> r.ti != []
  {
    if list == [] then Categories([], [], false)
    else
      var head, tail := list[0], list[1..];
      var rest := Categorize(tail);
      if IsTi(head) then Categories([head] + rest.ti, rest.notTi, true)
      else Categories(rest.ti, [head] + rest.notTi, rest.found)
  }

  /** The two parts together hold exactly the interfaces of the list. */
  lemma {:induction false} CategorizePermutes(list: seq<OneInterface>)
    ensures var r := Categorize(list);
      multiset(r.ti) + multiset(r.notTi) == multiset(list)
  {
    if list != [] {
      var head, tail := list[0], list[1..];
      var r, rest := Categorize(list), Categorize(tail);
      CategorizePermutes(tail);
      assert list == [head] + tail;
      assert multiset(list) == multiset{head} + multiset(tail);
      if IsTi(head) {
        assert r.ti == [head] + rest.ti && r.notTi == rest.notTi;
        assert multiset(r.ti) == multiset{head} + multiset(rest.ti);
      } else {
        assert r.ti == rest.ti && r.notTi == [head] + rest.notTi;
        assert multiset(r.notTi) == multiset{head} + multiset(rest.notTi);
      }
    }
  }

  /** The TI interface is found exactly when some interface carries the TI OUI. */
  lemma {:induction false} CategorizeFound(list: seq<OneInterface>)
    ensures Categorize(list).found <==> exists i | i in list :: IsTi(i)
  {
    var cat := Categorize(list);
    CategorizePermutes(list);
    if cat.found {
      var t := cat.ti[0];
      assert t in multiset(cat.ti);
      assert t in multiset(list);
      assert t in list && IsTi(t);
    } else {
      forall i | i in list ensures !IsTi(i) {
        assert i in multiset(list);
        assert multiset(cat.ti) == multiset{};
        assert i in multiset(cat.notTi);
        assert i in cat.notTi;
      }
    }
  }

  // ---------------------------------------------------------------------
  // GetInterfaceByPhyAndName

  predicate HasPhyAndName(i: OneInterface, phy: uint32, name: string) {
    i.phy == phy && i.Name() == name
  }

  /** The first interface on `phy` called `name`, if any. */
  function GetInterfaceByPhyAndName(list: seq<OneInterface>, phy: uint32, name: string): (r: Option<OneInterface>)
    ensures r.None? <==> forall k | 0 <= k < |list| :: !HasPhyAndName(list[k], phy, name)
    ensures r.Some? ==> exists k | 0 <= k < |list| ::
      && r.value == list[k]
      && HasPhyAndName(list[k], phy, name)
      && forall j | 0 <= j < k :: !HasPhyAndName(list[j], phy, name)
  {
    if list == [] then None
    else if HasPhyAndName(list[0], phy, name) then Some(list[0])
    else
      var r := GetInterfaceByPhyAndName(list[1..], phy, name);
      assert forall k | 1 <= k < |list| :: list[k] == list[1..][k - 1];
      r
  }

  // ---------------------------------------------------------------------
  // Init

  /** From position `from` on, `t` holds one power-save-off per interface of `list`, in list order. */
  predicate SweptInOrder(t: seq<Event>, from: nat, list: seq<OneInterface>) {
    && from + |list| <= |t|
    && forall i | 0 <= i < |list| :: t[from + i].call == PowerSaveOff(list[i].Name())
  }

  /** Init's power-save sweep: one attempt per interface, answers ignored. */
  function PowerSaveSweep(k: Kernel, history: seq<Event>, list: seq<OneInterface>): (r: seq<Event>)
    ensures Extends(r, history)
    ensures |r| == |history| + |list|
    ensures SweptInOrder(r, |history|, list)
    decreases |list|
  {
    if list == [] then history
    else
      var r := PowerSaveSweep(k, Issue(k, history, PowerSaveOff(list[0].Name())), list[1..]);
      assert forall i | 1 <= i < |list| :: list[i] == list[1..][i - 1];
      r
  }

  /** What a successful Init leaves behind. */
  datatype Manager = Manager(
    interfaces: seq<OneInterface>,
    ti: seq<OneInterface>,
    notTi: seq<OneInterface>,
    apName: string,
    monName: string)

  datatype InitError =
    | InterfaceListUnavailable
    | PhyCountNotTwo(count: nat)
    | NoTiPhy
    | TiVifCountNotOne(count: nat)
    | OtherVifCountNotOne(count: nat)

  datatype InitRun = InitRun(trace: seq<Event>, result: Result<Manager, InitError>)

  /** The part of Init after the phy count check: categorize, insist on one
      interface per radio, and take their names as the AP and monitor names. */
  function ChooseRoles(list: seq<OneInterface>): (r: Result<Manager, InitError>)
    ensures (forall i | i in list :: !IsTi(i)) ==> r == Failure(NoTiPhy)
    ensures r.Success? <==> |list| == 2 && IsTi(list[0]) != IsTi(list[1])
    ensures r.Success? ==>
      var m := r.value;
      && m.interfaces == list
      && |m.ti| == 1 && |m.notTi| == 1
      && m.ti[0] in list && IsTi(m.ti[0])
      && m.notTi[0] in list && !IsTi(m.notTi[0])
      && m.apName == m.ti[0].Name()
      && m.monName == m.notTi[0].Name()
  {
    var cat := Categorize(list);
    CategorizePair(list);
    CategorizeFound(list);
    CategorizePermutes(list);
    if !cat.found then Failure(NoTiPhy)
    else if |cat.ti| != 1 then Failure(TiVifCountNotOne(|cat.ti|))
    else if |cat.notTi| != 1 then Failure(OtherVifCountNotOne(|cat.notTi|))
    else
      assert cat.ti[0] in multiset(list) && cat.notTi[0] in multiset(list);
      Success(Manager(list, cat.ti, cat.notTi, cat.ti[0].Name(), cat.notTi[0].Name()))
  }

  /** `Init()` on a manager whose interface lists are still empty. */
  function Init(k: Kernel, history: seq<Event>): (r: InitRun)
    ensures Extends(r.trace, history) && |r.trace| > |history|
    ensures r.trace[|history|] == Event(ListInterfaces, k.listing(history).Some?)
    ensures k.listing(history).None? ==>
      r.result == Failure(InterfaceListUnavailable) && |r.trace| == |history| + 1
    ensures k.listing(history).Some? && |PhysOf(k.listing(history).value)| != 2 ==>
      r.result == Failure(PhyCountNotTwo(|PhysOf(k.listing(history).value)|))
      && |r.trace| == |history| + 1
    ensures k.listing(history).Some? && |PhysOf(k.listing(history).value)| == 2 ==>
      var list := k.listing(history).value;
      && |r.trace| == |history| + 1 + |list|
      && SweptInOrder(r.trace, |history| + 1, list)
      && r.result == ChooseRoles(list)
  {
    var t1 := Relist(k, history);
    if k.listing(history).None? then InitRun(t1, Failure(InterfaceListUnavailable))
    else
      var list := k.listing(history).value;
      var phys := DistinctPhys(list);
      DistinctPhysCount(list);
      if |phys| != 2 then InitRun(t1, Failure(PhyCountNotTwo(|phys|)))
      else
        var t2 := PowerSaveSweep(k, t1, list);
        assert t2[|history|] == t2[..|t1|][|history|];
        assert |t1| == |history| + 1;
        ExtendsTransitive(t2, t1, history);
        InitRun(t2, ChooseRoles(list))
  }

  /** Init succeeds exactly when the list is readable, spans two phys and
      holds one TI interface and one other; the AP name is then the TI
      interface's and the monitor name the other's. */
  lemma InitSucceeds(k: Kernel, history: seq<Event>)
    ensures var r := Init(k, history);
      r.result.Success? <==>
        && k.listing(history).Some?
        && var list := k.listing(history).value;
           |PhysOf(list)| == 2 && |list| == 2 && IsTi(list[0]) != IsTi(list[1])
    ensures var r := Init(k, history);
      r.result.Success? ==>
        var list := k.listing(history).value;
        var m := r.result.value;
        && m.interfaces == list
        && m.ti[0] in list && IsTi(m.ti[0]) && m.apName == m.ti[0].Name()
        && m.notTi[0] in list && !IsTi(m.notTi[0]) && m.monName == m.notTi[0].Name()
  {
  }

  /** One TI and one other interface is the same as a two-element list
      whose elements disagree on the OUI test. */
  lemma CategorizePair(list: seq<OneInterface>)
    ensures var cat := Categorize(list);
      (|cat.ti| == 1 && |cat.notTi| == 1) <==> (|list| == 2 && IsTi(list[0]) != IsTi(list[1]))
  {
    if |list| == 2 {
      assert list[1..][1..] == [];
    }
  }

  /** A successful Init found exactly two interfaces, one per radio: the
      TI interface and the other one sit on different phys. */
  lemma {:induction false} InitSuccessTopology(k: Kernel, history: seq<Event>)
    ensures var r := Init(k, history).result;
      r.Success? ==>
        && |r.value.interfaces| == 2
        && r.value.ti[0].phy != r.value.notTi[0].phy
        && PhysOf(r.value.interfaces) == {r.value.ti[0].phy, r.value.notTi[0].phy}
  {
    if Init(k, history).result.Success? {
      InitSucceeds(k, history);
      RolesOnDistinctPhys(k.listing(history).value);
    }
  }

  lemma {:induction false} RolesOnDistinctPhys(list: seq<OneInterface>)
    requires |PhysOf(list)| == 2 && ChooseRoles(list).Success?
    ensures var m := ChooseRoles(list).value;
      && |list| == 2
      && m.ti[0].phy != m.notTi[0].phy
      && PhysOf(list) == {m.ti[0].phy, m.notTi[0].phy}
  {
    var m := ChooseRoles(list).value;
    var a, b := list[0], list[1];
    assert list == [a, b];
    assert PhysOf(list) == {a.phy, b.phy};
    assert a.phy != b.phy;
    if IsTi(a) {
      assert m.ti[0] == a && m.notTi[0] == b;
    } else {
      assert m.ti[0] == b && m.notTi[0] == a;
    }
  }

  /** Init's verdict depends on the interface list alone: whatever the
      kernel answers to the power-save calls, the result is the same. */
  lemma InitIgnoresPowerSaveAnswers(k1: Kernel, k2: Kernel, history: seq<Event>)
    requires k1.listing(history) == k2.listing(history)
    ensures Init(k1, history).result == Init(k2, history).result
  {
  }
}
