/** The heartbeats of node/controller.go driving the sing-box process of engine/singbox.go, while the process dies
    and its waiters run at any moment. */
module BoxLoop {
  import opened Host
  import opened Types
  import opened Controller
  import opened SingBox

  /** One heartbeat with the panel's answers, how starting sing-box would turn out for an engine that is torn down
      and for the one the response asks for; or the process dies, or a waiter runs. */
  datatype Turn =
    | Heartbeat(force: bool, reported: Option<nat>, resp: Option<SyncResponse>, teardown: Luck, luck: Luck)
    | ProcessDies(p: nat)
    | WaiterRuns(p: nat)

  datatype Loop = Loop(mind: Mind, box: Box)

  const IDLE := Loop(BLANK, NEW_BOX)

  /** ensureEngine away from sing-box: the engine is applied to nothing and closed; the next sing-box engine
      starts with an empty memory on the same machine. */
  function Replaced(system: bool, level: string, b: Box, luck: Luck): Box {
    Stopped(Applied(b, Rendered(system, level, []), map[], luck)).(last := None, managed := map[])
  }

  function Turned(system: bool, level: string, s: Loop, t: Turn): Loop {
    match t
    case ProcessDies(p) => s.(box := Died(s.box, p))
    case WaiterRuns(p) => s.(box := Woken(s.box, p))
    case Heartbeat(force, reported, resp, teardown, luck) =>
      if !Fetches(s.mind, force, reported, resp) then s
      else
        var name, ifaces := EngineName(resp.value.engine), Interfaces(resp.value.interfaces);
        if IsKernel(name) then
          var box := if s.mind.engine == Some("singbox") then Replaced(system, level, s.box, teardown) else s.box;
          Loop(Absorb(s.mind, resp.value, true), box)
        else
          var conf := Rendered(system, level, ifaces);
          Loop(Absorb(s.mind, resp.value, Succeeds(s.box, conf, luck)), Applied(s.box, conf, ByName(ifaces), luck))
  }

  function LoopAfter(system: bool, level: string, s: Loop, turns: seq<Turn>): Loop {
    if turns == [] then s
    else Turned(system, level, LoopAfter(system, level, s, turns[..|turns| - 1]), turns[|turns| - 1])
  }

  // ---- what is recorded is what runs ------------------------------------------------------------

  /** A process that is believed to run read the recorded state, and there is none under another engine. */
  ghost predicate InForce(system: bool, level: string, s: Loop) {
    && Consistent(s.box)
    && (s.box.running ==> && s.mind.engine == Some("singbox") && s.mind.known
                          && s.box.last == Some(Rendered(system, level, s.mind.desired)))
  }

  lemma ReplacedIsIdle(system: bool, level: string, b: Box, luck: Luck)
    requires Consistent(b)
    ensures var r := Replaced(system, level, b, luck); Consistent(r) && !r.running && r.alive == {}
  {
    hide Rendered;
  }

  lemma TurnKeepsInForce(system: bool, level: string, s: Loop, t: Turn)
    requires InForce(system, level, s)
    ensures InForce(system, level, Turned(system, level, s, t))
  {
    hide Rendered, OverlayConfigs, Interfaces, Replaced, Absorb, Applied, Consistent, Died, Woken;
    match t
    case ProcessDies(p) => StepKeepsConsistent(s.box, Die(p)); OnlyLess(s.box, p);
    case WaiterRuns(p) => StepKeepsConsistent(s.box, Wake(p)); OnlyLess(s.box, p);
    case Heartbeat(force, reported, resp, teardown, luck) =>
      if Fetches(s.mind, force, reported, resp) {
        if IsKernel(EngineName(resp.value.engine)) {
          ReplacedIsIdle(system, level, s.box, teardown);
        } else {
          var ifaces := Interfaces(resp.value.interfaces);
          AppliedInForce(s.box, Rendered(system, level, ifaces), ByName(ifaces), luck);
          Recorded(s.mind, resp.value, Succeeds(s.box, Rendered(system, level, ifaces), luck));
        }
      }
  }

  /** What a response for sing-box leaves recorded. */
  lemma Recorded(m: Mind, resp: SyncResponse, healthy: bool)
    requires !IsKernel(EngineName(resp.engine))
    ensures var r := Absorb(m, resp, healthy);
            && r.engine == Some("singbox")
            && (healthy ==> r.known && r.desired == Interfaces(resp.interfaces))
            && (!healthy ==> r.known == m.known && r.desired == m.desired)
  {
    hide OverlayConfigs, Interfaces;
  }

  lemma AppliedInForce(b: Box, conf: Config, want: map<string, Interface>, luck: Luck)
    requires Consistent(b)
    ensures var r := Applied(b, conf, want, luck);
            && Consistent(r)
            && (Succeeds(b, conf, luck) ==> r.last == Some(conf))
            && (!Succeeds(b, conf, luck) && r.running ==> b.running && r.last == b.last)
  {
    hide Consistent;
    StepKeepsConsistent(b, Apply(conf, want, luck));
  }

  lemma OnlyLess(b: Box, p: nat)
    ensures Died(b, p).running == b.running && Died(b, p).last == b.last == Woken(b, p).last
    ensures Woken(b, p).running ==> b.running
  {
  }

  /** Over any run of the loop, with edits, failed calls, failed starts, crashes and engine switches: a live
      sing-box process runs the configuration of the recorded state, which the watchdog and the next
      heartbeat go by, and none is alive while another engine is in use. */
  lemma {:induction false} LiveProcessRunsRecord(system: bool, level: string, turns: seq<Turn>)
    ensures var s := LoopAfter(system, level, IDLE, turns);
            && InForce(system, level, s)
            && forall p | p in s.box.alive ::
                 && s.mind.engine == Some("singbox") && s.mind.known && p in s.box.loaded
                 && s.box.loaded[p] == Rendered(system, level, s.mind.desired)
  {
    hide Rendered, Turned;
    if turns != [] {
      LiveProcessRunsRecord(system, level, turns[..|turns| - 1]);
      TurnKeepsInForce(system, level, LoopAfter(system, level, IDLE, turns[..|turns| - 1]), turns[|turns| - 1]);
    }
  }

  // ---- who starts a dead process ----------------------------------------------------------------

  /** The heartbeat starts a process: it fetches a response for sing-box, the engine does not take the
      configuration for the one in force, and writing, finding and starting the program all work. */
  ghost predicate Revives(system: bool, level: string, s: Loop, t: Turn) {
    && t.Heartbeat? && Fetches(s.mind, t.force, t.reported, t.resp) && !IsKernel(EngineName(t.resp.value.engine))
    && !Unchanged(s.box, Rendered(system, level, Interfaces(t.resp.value.interfaces)))
    && t.luck.written && t.luck.found && t.luck.starts
  }

  lemma RevivedIff(system: bool, level: string, s: Loop, t: Turn)
    requires InForce(system, level, s) && s.box.alive == {}
    ensures Turned(system, level, s, t).box.alive != {} <==> Revives(system, level, s, t)
  {
    hide Rendered, OverlayConfigs, Interfaces, Replaced;
    ReplacedIsIdle(system, level, s.box, if t.Heartbeat? then t.teardown else Luck(false, false, false));
  }

  ghost predicate DeadAt(system: bool, level: string, s: Loop, turns: seq<Turn>, i: nat) {
    i <= |turns| && LoopAfter(system, level, s, turns[..i]).box.alive == {}
  }

  ghost predicate RevivesAt(system: bool, level: string, s: Loop, turns: seq<Turn>, i: nat) {
    i < |turns| && Revives(system, level, LoopAfter(system, level, s, turns[..i]), turns[i])
  }

  lemma {:induction false} InForceAt(system: bool, level: string, s: Loop, turns: seq<Turn>, i: nat)
    requires InForce(system, level, s) && i <= |turns|
    ensures InForce(system, level, LoopAfter(system, level, s, turns[..i]))
  {
    hide InForce, Turned;
    if i > 0 {
      assert turns[..i][..i - 1] == turns[..i - 1];
      InForceAt(system, level, s, turns, i - 1);
      TurnKeepsInForce(system, level, LoopAfter(system, level, s, turns[..i - 1]), turns[i - 1]);
    }
  }

  lemma DeadStep(system: bool, level: string, s: Loop, turns: seq<Turn>, i: nat)
    requires InForce(system, level, s) && i < |turns| && DeadAt(system, level, s, turns, i)
    ensures DeadAt(system, level, s, turns, i + 1) <==> !RevivesAt(system, level, s, turns, i)
  {
    hide InForce, Turned, Revives;
    assert turns[..i + 1][..i] == turns[..i];
    InForceAt(system, level, s, turns, i);
    RevivedIff(system, level, LoopAfter(system, level, s, turns[..i]), turns[i]);
  }

  lemma {:induction false} DeadSoFar(system: bool, level: string, s: Loop, turns: seq<Turn>, n: nat)
    requires InForce(system, level, s) && s.box.alive == {} && n <= |turns|
    requires forall i: nat | i < n :: !RevivesAt(system, level, s, turns, i)
    ensures forall i: nat | i <= n :: DeadAt(system, level, s, turns, i)
  {
    hide InForce, RevivesAt, Turned;
    if n > 0 {
      DeadSoFar(system, level, s, turns, n - 1);
      DeadStep(system, level, s, turns, n - 1);
    } else {
      assert turns[..0] == [];
    }
  }

  /** After a crash sing-box stays dead, whatever else happens, exactly until a heartbeat that revives it. */
  lemma DeadUntilRevivedIff(system: bool, level: string, s: Loop, turns: seq<Turn>)
    requires InForce(system, level, s) && s.box.alive == {}
    ensures (forall i: nat | i <= |turns| :: DeadAt(system, level, s, turns, i))
            <==> (forall i: nat | i < |turns| :: !RevivesAt(system, level, s, turns, i))
  {
    hide InForce, RevivesAt, DeadAt, Turned;
    if forall i: nat | i < |turns| :: !RevivesAt(system, level, s, turns, i) {
      DeadSoFar(system, level, s, turns, |turns|);
    }
    if forall i: nat | i <= |turns| :: DeadAt(system, level, s, turns, i) {
      forall i: nat | i < |turns| ensures !RevivesAt(system, level, s, turns, i) {
        assert DeadAt(system, level, s, turns, i + 1);
        DeadStep(system, level, s, turns, i);
      }
    }
  }

  /** A heartbeat that sees the recorded revision, or no answer. */
  predicate SeesNothingNew(t: Turn, revision: nat) {
    t.Heartbeat? ==> !t.force && (t.reported.None? || t.reported.value == revision)
  }

  /** In particular a recorded sing-box that crashed stays dead, noticed or not, as long as the panel is not edited:
      no heartbeat that sees the recorded revision starts it again. The first one that sees another
      revision and gets the state does, exactly when the engine noticed the crash or the edit changes what
      is rendered, and the start succeeds. */
  lemma CrashStaysUntilEdit(system: bool, level: string, s: Loop, turns: seq<Turn>, t: Turn)
    requires InForce(system, level, s) && s.box.alive == {} && s.mind.known
    requires forall i | 0 <= i < |turns| :: SeesNothingNew(turns[i], s.mind.revision)
    requires t.Heartbeat? && t.reported.Some? && t.reported.value != s.mind.revision && t.resp.Some?
             && !IsKernel(EngineName(t.resp.value.engine))
    ensures var quiet := LoopAfter(system, level, s, turns);
            var conf := Rendered(system, level, Interfaces(t.resp.value.interfaces));
            && quiet.mind == s.mind && quiet.box.alive == {}
            && (Turned(system, level, quiet, t).box.alive != {} <==>
                  && (!quiet.box.running || conf != Rendered(system, level, s.mind.desired))
                  && t.luck.written && t.luck.found && t.luck.starts)
  {
    hide InForce, Rendered, Turned, Interfaces;
    QuietTurns(system, level, s, turns);
    var quiet := LoopAfter(system, level, s, turns);
    RevivedIff(system, level, quiet, t);
    if quiet.box.running { RunningIsRecorded(system, level, quiet); }
  }

  lemma RunningIsRecorded(system: bool, level: string, s: Loop)
    requires InForce(system, level, s) && s.box.running
    ensures s.box.last == Some(Rendered(system, level, s.mind.desired))
  {
  }

  lemma {:induction false} QuietTurns(system: bool, level: string, s: Loop, turns: seq<Turn>)
    requires InForce(system, level, s) && s.box.alive == {} && s.mind.known
    requires forall i | 0 <= i < |turns| :: SeesNothingNew(turns[i], s.mind.revision)
    ensures var quiet := LoopAfter(system, level, s, turns);
            InForce(system, level, quiet) && quiet.mind == s.mind && quiet.box.alive == {}
  {
    hide InForce, Rendered, Replaced;
    if turns != [] {
      var init, last := turns[..|turns| - 1], turns[|turns| - 1];
      assert forall i | 0 <= i < |init| :: init[i] == turns[i];
      QuietTurns(system, level, s, init);
      TurnKeepsInForce(system, level, LoopAfter(system, level, s, init), last);
      assert SeesNothingNew(last, s.mind.revision);
    }
  }
}
