/** `Terminator` (Terminator.cpp): stop every running instance of a program
    by name, escalating from SIGTERM to SIGKILL.

    The `/proc` directory is an input: one pass sees a snapshot, a sequence
    of entries, each with its name and the lines of its `status` file
    (`None` when that file cannot be opened), or `None` when `/proc` itself
    cannot be opened. `Terminate` sees one snapshot per pass, `dirAt(n)`
    for its n-th pass, which stands in for the processes exiting while it
    sleeps between passes. */
module Terminator {
  import opened Common

  const SIGTERM: int := 15
  const SIGKILL: int := 9
  /** The signal value that makes a pass count matches without signalling them. */
  const CountOnly: int := -1

  datatype ProcEntry = ProcEntry(name: string, status: Option<seq<string>>)

  // ---------------------------------------------------------------------
  // Decimal text

  predicate IsDigit(c: char) {
    '0' <= c <= '9'
  }

  predicate AllDigits(s: string) {
    forall i | 0 <= i < |s| :: IsDigit(s[i])
  }

  function DigitChar(d: nat): (c: char)
    requires d < 10
    ensures IsDigit(c)
  {
    ('0' as int + d) as char
  }

  /** The decimal digits of `n`, without leading zeros. */
  function Digits(n: nat): (s: string)
    ensures |s| > 0 && AllDigits(s)
    ensures |s| > 1 ==> s[0] != '0'
  {
    if n < 10 then [DigitChar(n)]
    else
      var s := Digits(n / 10) + [DigitChar(n % 10)];
      assert s[0] == Digits(n / 10)[0];
      s
  }

  /** How `stringstream << pid` writes a process id. */
  function DecimalText(n: int): (s: string)
    ensures n >= 0 ==> s == Digits(n)
    ensures n < 0 ==> |s| > 0 && s[0] == '-'
  {
    if n < 0 then "-" + Digits(-n) else Digits(n)
  }

  /** The value of a string of digits. */
  function DigitsValue(s: string): nat
    requires AllDigits(s)
  {
    if s == [] then 0
    else DigitsValue(s[..|s| - 1]) * 10 + (s[|s| - 1] as int - '0' as int)
  }

  /** The longest prefix of `s` made of digits. */
  function LeadingDigits(s: string): (r: string)
    ensures AllDigits(r) && |r| <= |s| && r == s[..|r|]
    ensures |r| < |s| ==> !IsDigit(s[|r|])
  {
    if s == [] || !IsDigit(s[0]) then []
    else [s[0]] + LeadingDigits(s[1..])
  }

  /** `atoi` on a `/proc` entry name: the value of its leading digits. */
  function Atoi(s: string): nat {
    DigitsValue(LeadingDigits(s))
  }

  /** Reading back the digits of `n` gives `n`. */
  lemma {:induction false} DigitsRoundTrip(n: nat)
    ensures DigitsValue(Digits(n)) == n
  {
    var s := Digits(n);
    if n >= 10 {
      DigitsRoundTrip(n / 10);
      assert s[..|s| - 1] == Digits(n / 10);
    }
  }

  lemma {:induction false} LeadingDigitsOfDigits(s: string)
    requires AllDigits(s)
    ensures LeadingDigits(s) == s
  {
    if s != [] {
      LeadingDigitsOfDigits(s[1..]);
    }
  }

  /** `atoi` undoes `stringstream << pid` for every non-negative id. */
  lemma AtoiDecimalText(n: nat)
    ensures Atoi(DecimalText(n)) == n
  {
    LeadingDigitsOfDigits(Digits(n));
    DigitsRoundTrip(n);
  }

  // ---------------------------------------------------------------------
  // One pass over /proc

  /** A status line that `substr(0, 5) == "Name:"` accepts. */
  predicate IsNameLine(line: string) {
    |line| >= 5 && line[..5] == "Name:"
  }

  /** `line.substr(6)`: the text after "Name:" and one separator character. */
  function NameValue(line: string): string {
    if |line| >= 6 then line[6..] else ""
  }

  /** The process name a status file gives: the value of its first
      "Name:" line; `None` when the file cannot be opened or has none. */
  function StatusName(status: Option<seq<string>>): (r: Option<string>)
    ensures status.None? ==> r.None?
    ensures status.Some? ==>
      var lines := status.value;
      && (r.None? <==> forall k | 0 <= k < |lines| :: !IsNameLine(lines[k]))
      && (r.Some? ==> exists k | 0 <= k < |lines| ::
            && IsNameLine(lines[k]) && r.value == NameValue(lines[k])
            && forall j | 0 <= j < k :: !IsNameLine(lines[j]))
  {
    if status.None? then None else FirstName(status.value)
  }

  function FirstName(lines: seq<string>): (r: Option<string>)
    ensures r.None? <==> forall k | 0 <= k < |lines| :: !IsNameLine(lines[k])
    ensures r.Some? ==> exists k | 0 <= k < |lines| ::
      && IsNameLine(lines[k]) && r.value == NameValue(lines[k])
      && forall j | 0 <= j < k :: !IsNameLine(lines[j])
  {
    if lines == [] then None
    else if IsNameLine(lines[0]) then Some(NameValue(lines[0]))
    else
      var r := FirstName(lines[1..]);
      assert forall k | 1 <= k < |lines| :: lines[k] == lines[1..][k - 1];
      r
  }

  /** The entries a pass counts: a process directory (its name starts with a
      digit), not the caller's own, whose status names `appName`. */
  predicate Matches(e: ProcEntry, appName: string, ignorePid: int32) {
    && |e.name| > 0 && IsDigit(e.name[0])
    && e.name != DecimalText(ignorePid)
    && StatusName(e.status) == Some(appName)
  }

  /** `Matches` as a test on one entry. */
  function Selector(appName: string, ignorePid: int32): ProcEntry -> bool {
    e => Matches(e, appName, ignorePid)
  }

  /** The matching entries among the first `n`, in directory order. */
  function MatchingUpTo(entries: seq<ProcEntry>, n: nat, appName: string, ignorePid: int32): (r: seq<ProcEntry>)
    requires n <= |entries|
    ensures |r| <= n
  {
    FilterUpTo(entries, n, Selector(appName, ignorePid))
  }

  /** The matching entries, in directory order. */
  function Matching(entries: seq<ProcEntry>, appName: string, ignorePid: int32): (r: seq<ProcEntry>)
    ensures |r| <= |entries|
  {
    MatchingUpTo(entries, |entries|, appName, ignorePid)
  }

  /** The matching entries are exactly the entries that match. */
  lemma MatchingSelects(entries: seq<ProcEntry>, appName: string, ignorePid: int32)
    ensures var r := Matching(entries, appName, ignorePid);
      && (forall e | e in r :: e in entries && Matches(e, appName, ignorePid))
      && (forall e | e in entries && Matches(e, appName, ignorePid) :: e in r)
  {
    var keep := Selector(appName, ignorePid);
    FilterUpToSound(entries, |entries|, keep);
    FilterUpToComplete(entries, |entries|, keep);
  }

  /** The process ids of `entries`, as `atoi` reads them. */
  function Pids(entries: seq<ProcEntry>): (r: seq<nat>)
    ensures |r| == |entries|
  {
    if entries == [] then []
    else Pids(entries[..|entries| - 1]) + [Atoi(entries[|entries| - 1].name)]
  }

  /** Each pid is `atoi` of its entry's name. */
  lemma {:induction false} PidsAt(entries: seq<ProcEntry>)
    ensures forall j | 0 <= j < |entries| :: Pids(entries)[j] == Atoi(entries[j].name)
    decreases |entries|
  {
    if entries != [] {
      var init := entries[..|entries| - 1];
      PidsAt(init);
      assert forall j | 0 <= j < |init| :: entries[j] == init[j];
    }
  }

  lemma PidsSnoc(entries: seq<ProcEntry>, e: ProcEntry)
    ensures Pids(entries + [e]) == Pids(entries) + [Atoi(e.name)]
  {
    assert (entries + [e])[..|entries|] == entries;
  }

  /** What one pass reports: the number of matches, and the processes it
      sent the signal to (their `kill` results do not matter). */
  datatype Pass = Pass(count: nat, kills: seq<nat>)

  /** The outcome of `KillInstancesOf(signal, appName, ignorePid, numKilled)`
      on a snapshot; `None` is the `false` return when `/proc` cannot be opened. */
  function Sweep(signal: int, appName: string, ignorePid: int32, dir: Option<seq<ProcEntry>>): (r: Option<Pass>)
    ensures r.None? <==> dir.None?
    ensures r.Some? ==> r.value.count == |Matching(dir.value, appName, ignorePid)|
    ensures r.Some? && signal < 0 ==> r.value.kills == []
    ensures r.Some? && signal >= 0 ==> r.value.kills == Pids(Matching(dir.value, appName, ignorePid))
  {
    if dir.None? then None
    else
      var ms := Matching(dir.value, appName, ignorePid);
      Some(Pass(|ms|, if signal >= 0 then Pids(ms) else []))
  }

  /** The processes a pass with `signal` signals among the matches `ms`. */
  function Kills(signal: int, ms: seq<ProcEntry>): seq<nat> {
    if signal >= 0 then Pids(ms) else []
  }

  /** Looking at one more entry adds one to the count exactly when it
      matches, and adds its pid to the kills when it matches and the signal
      is non-negative. */
  lemma CountStep(signal: int, appName: string, ignorePid: int32, entries: seq<ProcEntry>, i: nat)
    requires i < |entries|
    ensures var before := MatchingUpTo(entries, i, appName, ignorePid);
      Kills(signal, MatchingUpTo(entries, i + 1, appName, ignorePid))
      == Kills(signal, before)
         + (if Matches(entries[i], appName, ignorePid) && signal >= 0 then [Atoi(entries[i].name)] else [])
  {
    var before := MatchingUpTo(entries, i, appName, ignorePid);
    if !Matches(entries[i], appName, ignorePid) {
      assert before + [] == before;
    } else if signal >= 0 {
      PidsSnoc(before, entries[i]);
    }
  }

  /** The loop of `KillInstancesOf`: walk the entries once, count each match
      and signal it unless `signal` is negative. */
  method CountAndSignal(signal: int, appName: string, ignorePid: int32, entries: seq<ProcEntry>)
    returns (numKilled: nat, kills: seq<nat>)
    ensures numKilled == |Matching(entries, appName, ignorePid)|
    ensures kills == if signal >= 0 then Pids(Matching(entries, appName, ignorePid)) else []
  {
    numKilled := 0;
    kills := [];
    var i := 0;
    while i < |entries|
      invariant 0 <= i <= |entries|
      invariant numKilled == |MatchingUpTo(entries, i, appName, ignorePid)|
      invariant kills == Kills(signal, MatchingUpTo(entries, i, appName, ignorePid))
    {
      CountStep(signal, appName, ignorePid, entries, i);
      if Matches(entries[i], appName, ignorePid) {
        if signal >= 0 {
          kills := kills + [Atoi(entries[i].name)];
        }
        numKilled := numKilled + 1;
      }
      i := i + 1;
    }
  }

  /** `KillInstancesOf`: false, with no count, when `/proc` cannot be opened. */
  method KillInstancesOf(signal: int, appName: string, ignorePid: int32, dir: Option<seq<ProcEntry>>)
    returns (ok: bool, numKilled: nat, kills: seq<nat>)
    ensures !ok <==> dir.None?
    ensures !ok ==> numKilled == 0 && kills == []
    ensures ok ==> Sweep(signal, appName, ignorePid, dir) == Some(Pass(numKilled, kills))
  {
    if dir.None? {
      return false, 0, [];
    }
    ok := true;
    numKilled, kills := CountAndSignal(signal, appName, ignorePid, dir.value);
  }

  /** The pass signals exactly the processes it counts, and counts them the
      same way whatever the signal. */
  lemma CountIgnoresSignal(s1: int, s2: int, appName: string, ignorePid: int32, dir: Option<seq<ProcEntry>>)
    requires dir.Some? && s1 >= 0 && s2 < 0
    ensures var p1 := Sweep(s1, appName, ignorePid, dir).value;
      var p2 := Sweep(s2, appName, ignorePid, dir).value;
      && p1.count == p2.count == |p1.kills|
      && p2.kills == []
  {
  }

  /** A `/proc` name in canonical form: the decimal text of its own value. */
  predicate Canonical(name: string) {
    |name| > 0 && IsDigit(name[0]) ==> name == Digits(Atoi(name))
  }

  /** The caller's own process is never signalled, provided the process
      directories carry canonical decimal names, as the kernel writes them. */
  lemma {:induction false} IgnoredPidNeverSignalled(signal: int, appName: string, ignorePid: int32,
                                                    entries: seq<ProcEntry>)
    requires forall e | e in entries :: Canonical(e.name)
    ensures ignorePid !in Sweep(signal, appName, ignorePid, Some(entries)).value.kills
  {
    var ms := Matching(entries, appName, ignorePid);
    MatchingSelects(entries, appName, ignorePid);
    PidsAt(ms);
    var kills := Sweep(signal, appName, ignorePid, Some(entries)).value.kills;
    if signal >= 0 {
      forall j | 0 <= j < |kills| ensures kills[j] != ignorePid {
        assert ms[j] in ms;
      }
    }
  }

  // ---------------------------------------------------------------------
  // Terminate

  /** `pass(signal, n)`: what `KillInstancesOf(signal, …)` reports as the
      n-th pass of a run, on the snapshot it then sees. */
  type PassOracle = (int, nat) -> Option<Pass>

  /** The passes of a run against the snapshots `dirAt`. */
  function Passes(appName: string, ignorePid: int32, dirAt: nat -> Option<seq<ProcEntry>>): PassOracle {
    (signal: int, n: nat) => Sweep(signal, appName, ignorePid, dirAt(n))
  }

  /** One pass of `Terminate`: the signal used and what the pass reported. */
  datatype Record = Record(signal: int, result: Option<Pass>)

  datatype Verdict = Running | Done(ok: bool)

  datatype Progress = Progress(records: seq<Record>, verdict: Verdict)

  /** Run the next pass with `signal` on the snapshot for its position and
      decide: a failed pass ends with false, a zero count with true. */
  function Step(pass: PassOracle, records: seq<Record>, signal: int): (r: Progress)
    ensures r.records == records + [Record(signal, pass(signal, |records|))]
    ensures var p := Last(r.records).result;
      && (p.None? ==> r.verdict == Done(false))
      && (p.Some? && p.value.count == 0 ==> r.verdict == Done(true))
      && (p.Some? && p.value.count > 0 ==> r.verdict == Running)
  {
    var p := pass(signal, |records|);
    var verdict := if p.None? then Done(false) else if p.value.count == 0 then Done(true) else Running;
    Progress(records + [Record(signal, p)], verdict)
  }

  /** Up to `left` count-only passes, stopping at the first decisive one. */
  function Polls(pass: PassOracle, records: seq<Record>, left: nat): (r: Progress)
    ensures |records| < |r.records| <= |records| + left || (left == 0 && r.records == records)
    ensures r.verdict.Running? ==> |r.records| == |records| + left
    decreases left
  {
    if left == 0 then Progress(records, Running)
    else
      var s := Step(pass, records, CountOnly);
      if s.verdict.Done? then s else Polls(pass, s.records, left - 1)
  }

  /** `Terminator::Terminate`, last SIGKILL pass: false if it still counts processes. */
  function FinalKill(pass: PassOracle, records: seq<Record>): (r: Progress)
    ensures r.verdict.Done? && |r.records| == |records| + 1
  {
    var s := Step(pass, records, SIGKILL);
    if s.verdict.Done? then s else Progress(s.records, Done(false))
  }

  /** `Terminator::Terminate`, SIGKILL stage: the first SIGKILL, up to 8 polls, the last SIGKILL. */
  function KillStage(pass: PassOracle, records: seq<Record>): (r: Progress)
    ensures r.verdict.Done? && |records| < |r.records| <= |records| + 10
  {
    var s3 := Step(pass, records, SIGKILL);
    if s3.verdict.Done? then s3
    else
      var s4 := Polls(pass, s3.records, 8);
      if s4.verdict.Done? then s4 else FinalKill(pass, s4.records)
  }

  /** `Terminate(appName, ignorePid)`, its passes given by
      `Passes(appName, ignorePid, dirAt)`: SIGTERM, up to 10 polls, then the
      SIGKILL stage; true as soon as a pass counts no match. */
  function Terminate(pass: PassOracle): (r: Progress)
    ensures r.verdict.Done? && 1 <= |r.records| <= 21
  {
    var s1 := Step(pass, [], SIGTERM);
    if s1.verdict.Done? then s1
    else
      var s2 := Polls(pass, s1.records, 10);
      if s2.verdict.Done? then s2 else KillStage(pass, s2.records)
  }

  // ---------------------------------------------------------------------
  // The escalation as one uniform loop

  /** The most passes a run makes: SIGTERM, 10 polls, SIGKILL, 8 polls, SIGKILL. */
  const MaxPasses: nat := 21

  /** The signal of pass `i`: SIGTERM first, SIGKILL at passes 11 and 20,
      a count-only poll everywhere else. */
  function SignalAt(i: nat): int {
    if i == 0 then SIGTERM else if i == 11 || i == 20 then SIGKILL else CountOnly
  }

  /** Reference definition: pass after pass along the schedule, stopping at
      the first failed pass or the first zero count, false once the
      schedule is spent. It describes the passes it adds after `records`:
      each used the schedule's signal and saw its own snapshot, all but the
      last still found processes. */
  function Escalation(pass: PassOracle, records: seq<Record>): (r: Progress)
    requires |records| < MaxPasses
    ensures r.verdict.Done?
    ensures |records| < |r.records| <= MaxPasses && r.records[..|records|] == records
    ensures forall i | |records| <= i < |r.records| ::
      r.records[i] == Record(SignalAt(i), pass(SignalAt(i), i))
    ensures forall i | |records| <= i < |r.records| - 1 ::
      r.records[i].result.Some? && r.records[i].result.value.count > 0
    ensures r.verdict.ok <==> Last(r.records).result.Some? && Last(r.records).result.value.count == 0
    ensures Last(r.records).result.Some? && Last(r.records).result.value.count > 0 ==> |r.records| == MaxPasses
    decreases MaxPasses - |records|
  {
    var s := Step(pass, records, SignalAt(|records|));
    if s.verdict.Done? then s
    else if |s.records| == MaxPasses then Progress(s.records, Done(false))
    else
      var rest := Escalation(pass, s.records);
      assert rest.records[..|records|] == rest.records[..|s.records|][..|records|];
      assert rest.records[|records|] == rest.records[..|s.records|][|records|];
      rest
  }

  /** The slots `from` to `from + left - 1` are the polls after SIGTERM or
      those after the first SIGKILL. */
  predicate PollWindow(from: nat, left: nat) {
    (1 <= from && from + left <= 11) || (12 <= from && from + left <= 20)
  }

  /** On a count-only slot before the last, the reference loop takes one poll and goes on. */
  lemma EscalationStep(pass: PassOracle, records: seq<Record>)
    requires PollWindow(|records|, 1)
    ensures var s := Step(pass, records, CountOnly);
      Escalation(pass, records) == if s.verdict.Done? then s else Escalation(pass, s.records)
  {
  }

  /** Polling `left` times is the uniform loop over count-only slots of the schedule. */
  lemma {:induction false} PollsAreEscalation(pass: PassOracle, records: seq<Record>, left: nat)
    requires PollWindow(|records|, left)
    ensures var s := Polls(pass, records, left);
      Escalation(pass, records) == if s.verdict.Done? then s else Escalation(pass, s.records)
    decreases left
  {
    if left > 0 {
      var s := Step(pass, records, CountOnly);
      EscalationStep(pass, records);
      if s.verdict.Running? {
        assert Polls(pass, records, left) == Polls(pass, s.records, left - 1);
        PollsAreEscalation(pass, s.records, left - 1);
      } else {
        assert Polls(pass, records, left) == s;
      }
    } else {
      assert Polls(pass, records, left) == Progress(records, Running);
    }
  }

  lemma {:induction false} FinalKillIsEscalation(pass: PassOracle, records: seq<Record>)
    requires |records| == 20
    ensures FinalKill(pass, records) == Escalation(pass, records)
  {
  }

  lemma {:induction false} KillStageIsEscalation(pass: PassOracle, records: seq<Record>)
    requires |records| == 11
    ensures KillStage(pass, records) == Escalation(pass, records)
  {
    var s3 := Step(pass, records, SIGKILL);
    if s3.verdict.Running? {
      PollsAreEscalation(pass, s3.records, 8);
      var s4 := Polls(pass, s3.records, 8);
      if s4.verdict.Running? {
        FinalKillIsEscalation(pass, s4.records);
      }
    }
  }

  /** `Terminate` is the uniform escalation along the signal schedule. */
  lemma {:induction false} TerminateIsEscalation(pass: PassOracle)
    ensures Terminate(pass) == Escalation(pass, [])
  {
    var s1 := Step(pass, [], SIGTERM);
    if s1.verdict.Running? {
      PollsAreEscalation(pass, s1.records, 10);
      var s2 := Polls(pass, s1.records, 10);
      if s2.verdict.Running? {
        KillStageIsEscalation(pass, s2.records);
      }
    }
  }

  /** What `Terminate` promises: between 1 and 21 passes along the schedule
      (so at most 10 polls after SIGTERM and 8 after the first SIGKILL),
      every pass but the last still finding processes, and true exactly when
      the last pass succeeded with a zero count. In particular a first
      SIGTERM pass that finds nothing ends the run at once. */
  lemma TerminateFollowsSchedule(pass: PassOracle)
    ensures var r := Terminate(pass);
      && 1 <= |r.records| <= 21
      && (forall i | 0 <= i < |r.records| ::
            r.records[i] == Record(SignalAt(i), pass(SignalAt(i), i)))
      && (forall i | 0 <= i < |r.records| - 1 ::
            r.records[i].result.Some? && r.records[i].result.value.count > 0)
      && (r.verdict.ok <==> Last(r.records).result.Some? && Last(r.records).result.value.count == 0)
      && (!r.verdict.ok ==> Last(r.records).result.None? || |r.records| == 21)
  {
    TerminateIsEscalation(pass);
  }
}
