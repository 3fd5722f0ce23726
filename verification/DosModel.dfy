/**
 DoS protection. A call of CheckFingerprint is up to three critical sections, with a reading of the clock
 between the first two that no lock covers. Calls and cleanup passes interleave between all of these; each
 is one step here, as a function on values.
 */
module DosModel {
  import opened Sums

  datatype Fingerprint = Fingerprint(timestamp: int, count: int)

  datatype Config = Config(threshold: int, window: int, blockDuration: int)

  datatype Tables = Tables(prints: map<string, Fingerprint>, blocked: map<string, int>)

  /** At most this many requests of one fingerprint are admitted in one counting window. */
  function PerWindow(cfg: Config): nat {
    if cfg.threshold < 1 then 1 else cfg.threshold
  }

  // ----- The critical sections

  function Unblock(d: Tables, ip: string): Tables {
    d.(blocked := d.blocked - {ip})
  }

  /** The main section: counts one request at `now`, and says whether it is admitted; a block is stamped `at`. */
  function CountRequest(cfg: Config, d: Tables, id: string, ip: string, now: int, at: int): (Tables, bool) {
    if id !in d.prints then (d.(prints := d.prints[id := Fingerprint(now, 1)]), true)
    else
      var f := d.prints[id];
      if now - f.timestamp < cfg.window then
        var d' := d.(prints := d.prints[id := f.(count := f.count + 1)]);
        if f.count + 1 > cfg.threshold then (d'.(blocked := d.blocked[ip := at]), false) else (d', true)
      else (d.(prints := d.prints[id := Fingerprint(now, 1)]), true)
  }

  /** A cleanup pass; it uses a time that was read before the lock was taken. */
  function Clean(cfg: Config, d: Tables, seen: int): Tables {
    Tables(map id | id in d.prints && seen - d.prints[id].timestamp <= cfg.window :: d.prints[id],
           map ip | ip in d.blocked && seen - d.blocked[ip] <= cfg.blockDuration :: d.blocked[ip])
  }

  // ----- The step machine

  /** Where a call is; each value names what it does next. */
  datatype Phase =
    | Checking              // isBlocked, under the read lock
    | Comparing(seen: int)  // read the clock: has the block that was seen expired?
    | Unblocking            // delete the block
    | Counting              // the main section
    | Done(admitted: bool)

  datatype Call = Call(id: string, ip: string, phase: Phase)

  datatype Admit = Admit(id: string, time: int)

  /** `log` records the admissions; `cleaner` is the time an unfinished cleanup pass has read. */
  datatype State = State(tables: Tables, calls: seq<Call>, cleaner: Option<int>, log: seq<Admit>, clock: int)

  datatype Action =
    | Begin(id: string, ip: string)
    | Read(k: nat)
    | Compare(k: nat, now: int)
    | Delete(k: nat)
    | Count(k: nat, now: int, at: int)
    | CleanRead(now: int)
    | CleanUp

  predicate Enabled(s: State, a: Action) {
    match a
    case Begin(_, _) => true
    case Read(k) => k < |s.calls| && s.calls[k].phase == Checking
    case Compare(k, now) => k < |s.calls| && s.calls[k].phase.Comparing? && now >= s.clock
    case Delete(k) => k < |s.calls| && s.calls[k].phase == Unblocking
    case Count(k, now, at) => k < |s.calls| && s.calls[k].phase == Counting && s.clock <= now <= at
    case CleanRead(now) => now >= s.clock
    case CleanUp => s.cleaner.Some?
  }

  function ReadPhase(d: Tables, ip: string): Phase {
    if ip in d.blocked then Comparing(d.blocked[ip]) else Counting
  }

  function ComparePhase(cfg: Config, seen: int, now: int): Phase {
    if now - seen > cfg.blockDuration then Unblocking else Done(false)
  }

  function Apply(cfg: Config, s: State, a: Action): State
    requires Enabled(s, a)
  {
    match a
    case Begin(id, ip) => s.(calls := s.calls + [Call(id, ip, Checking)])
    case Read(k) =>
      var c := s.calls[k];
      s.(calls := s.calls[k := c.(phase := ReadPhase(s.tables, c.ip))])
    case Compare(k, now) =>
      var c := s.calls[k];
      s.(calls := s.calls[k := c.(phase := ComparePhase(cfg, c.phase.seen, now))], clock := now)
    case Delete(k) =>
      var c := s.calls[k];
      s.(calls := s.calls[k := c.(phase := Counting)], tables := Unblock(s.tables, c.ip))
    case Count(k, now, at) =>
      var c := s.calls[k];
      var (d, ok) := CountRequest(cfg, s.tables, c.id, c.ip, now, at);
      s.(calls := s.calls[k := c.(phase := Done(ok))], tables := d, clock := at,
         log := if ok then s.log + [Admit(c.id, now)] else s.log)
    case CleanRead(now) => s.(cleaner := Some(now), clock := now)
    case CleanUp => s.(tables := Clean(cfg, s.tables, s.cleaner.value), cleaner := None)
  }

  predicate IsRun(cfg: Config, s: State, acts: seq<Action>)
    decreases |acts|
  {
    acts == [] || (Enabled(s, acts[0]) && IsRun(cfg, Apply(cfg, s, acts[0]), acts[1..]))
  }

  function Final(cfg: Config, s: State, acts: seq<Action>): State
    requires IsRun(cfg, s, acts)
    decreases |acts|
  {
    if acts == [] then s else Final(cfg, Apply(cfg, s, acts[0]), acts[1..])
  }

  function Start(clock: int): State {
    State(Tables(map[], map[]), [], None, [], clock)
  }

  // ----- Counting admissions

  /** Admissions of `id` in the half-open interval [lo, hi). */
  function Admissions(log: seq<Admit>, id: string, lo: int, hi: int): nat {
    if log == [] then 0
    else (if log[0].id == id && lo <= log[0].time < hi then 1 else 0) + Admissions(log[1..], id, lo, hi)
  }

  lemma {:induction false} AdmissionsAppend(log: seq<Admit>, a: Admit, id: string, lo: int, hi: int)
    ensures Admissions(log + [a], id, lo, hi)
        == Admissions(log, id, lo, hi) + (if a.id == id && lo <= a.time < hi then 1 else 0)
  {
    if log == [] {
    } else {
      assert (log + [a])[1..] == log[1..] + [a];
      AdmissionsAppend(log[1..], a, id, lo, hi);
    }
  }

  /** An interval that holds more of the admissions counts no fewer. */
  lemma {:induction false} AdmissionsWider(log: seq<Admit>, id: string, lo: int, hi: int, lo': int, hi': int)
    requires forall a :: a in log && a.id == id && lo <= a.time < hi ==> lo' <= a.time < hi'
    ensures Admissions(log, id, lo, hi) <= Admissions(log, id, lo', hi')
  {
    if log == [] {
    } else {
      assert log[0] in log && forall a :: a in log[1..] ==> a in log;
      AdmissionsWider(log[1..], id, lo, hi, lo', hi');
    }
  }

  lemma {:induction false} AdmissionsSplit(log: seq<Admit>, id: string, lo: int, mid: int, hi: int)
    requires lo <= mid <= hi
    ensures Admissions(log, id, lo, hi) == Admissions(log, id, lo, mid) + Admissions(log, id, mid, hi)
  {
    if log == [] {
    } else {
      AdmissionsSplit(log[1..], id, lo, mid, hi);
    }
  }

  lemma {:induction false} AdmissionsEmpty(log: seq<Admit>, id: string, lo: int, hi: int)
    requires hi <= lo
    ensures Admissions(log, id, lo, hi) == 0
  {
    if log == [] {
    } else {
      AdmissionsEmpty(log[1..], id, lo, hi);
    }
  }

  // ----- The admission bound

  /** The load of the half-open interval of the window's length that starts at t. */
  function Load(cfg: Config, log: seq<Admit>, id: string, t: int): nat {
    Admissions(log, id, t, t + cfg.window)
  }

  ghost predicate Bounded(cfg: Config, log: seq<Admit>, id: string) {
    forall t :: Load(cfg, log, id, t) <= 2 * PerWindow(cfg)
  }

  ghost predicate Before(log: seq<Admit>, id: string, t: int) {
    forall a :: a in log && a.id == id ==> a.time < t
  }

  // Tracked: the current counting window and the one before it each hold at most PerWindow admissions.
  ghost predicate Tracked(cfg: Config, log: seq<Admit>, id: string, f: Fingerprint, clock: int) {
    && f.timestamp <= clock && f.count >= 1
    && Before(log, id, clock + 1) && Before(log, id, f.timestamp + cfg.window)
    && Admissions(log, id, f.timestamp, clock + 1) <= PerWindow(cfg)
    && Admissions(log, id, f.timestamp, clock + 1) <= f.count
    && Load(cfg, log, id, f.timestamp - cfg.window) <= PerWindow(cfg)
  }

  // Untracked: a window that starts now would have at most PerWindow admissions before it, and none in it.
  ghost predicate Untracked(cfg: Config, log: seq<Admit>, id: string, clock: int) {
    Before(log, id, clock) && Load(cfg, log, id, clock - cfg.window) <= PerWindow(cfg)
  }

  ghost predicate Inv(cfg: Config, s: State, id: string) {
    && Bounded(cfg, s.log, id)
    && (s.cleaner.Some? ==> s.cleaner.value <= s.clock)
    && (if id in s.tables.prints then Tracked(cfg, s.log, id, s.tables.prints[id], s.clock)
        else Untracked(cfg, s.log, id, s.clock))
  }

  lemma ClockForward(cfg: Config, s: State, id: string, now: int)
    requires cfg.window > 0 && Inv(cfg, s, id) && now >= s.clock
    ensures Inv(cfg, s.(clock := now), id)
  {
    if id in s.tables.prints {
      var ts := s.tables.prints[id].timestamp;
      AdmissionsWider(s.log, id, ts, now + 1, ts, s.clock + 1);
    } else {
      AdmissionsWider(s.log, id, now - cfg.window, now, s.clock - cfg.window, s.clock);
    }
  }

  // A fingerprint whose window has passed counts as untracked.
  lemma Lapsed(cfg: Config, log: seq<Admit>, id: string, f: Fingerprint, clock: int)
    requires cfg.window > 0 && Tracked(cfg, log, id, f, clock) && clock - f.timestamp >= cfg.window
    ensures Untracked(cfg, log, id, clock)
  {
    AdmissionsWider(log, id, clock - cfg.window, clock, f.timestamp, clock + 1);
  }

  // Starting a window at `now`.
  lemma StartWindow(cfg: Config, log: seq<Admit>, id: string, now: int)
    requires cfg.window > 0 && Bounded(cfg, log, id) && Untracked(cfg, log, id, now)
    ensures Bounded(cfg, log + [Admit(id, now)], id)
    ensures Tracked(cfg, log + [Admit(id, now)], id, Fingerprint(now, 1), now)
  {
    var log' := log + [Admit(id, now)];
    forall t ensures Load(cfg, log', id, t) <= 2 * PerWindow(cfg) {
      AdmissionsAppend(log, Admit(id, now), id, t, t + cfg.window);
      assert Load(cfg, log, id, t) <= 2 * PerWindow(cfg);
      if t <= now < t + cfg.window {
        AdmissionsWider(log, id, t, t + cfg.window, now - cfg.window, now);
      }
    }
    AdmissionsAppend(log, Admit(id, now), id, now, now + 1);
    AdmissionsWider(log, id, now, now + 1, now, now);
    AdmissionsEmpty(log, id, now, now);
    AdmissionsAppend(log, Admit(id, now), id, now - cfg.window, now);
  }

  // Admitting one more in the current window.
  lemma ContinueWindow(cfg: Config, log: seq<Admit>, id: string, f: Fingerprint, now: int)
    requires cfg.window > 0 && Bounded(cfg, log, id) && Tracked(cfg, log, id, f, now)
    requires now - f.timestamp < cfg.window && f.count + 1 <= cfg.threshold
    ensures Bounded(cfg, log + [Admit(id, now)], id)
    ensures Tracked(cfg, log + [Admit(id, now)], id, f.(count := f.count + 1), now)
  {
    var a, log', ts := Admit(id, now), log + [Admit(id, now)], f.timestamp;
    AdmissionsAppend(log, a, id, ts, now + 1);
    AdmissionsAppend(log, a, id, ts - cfg.window, ts);
    forall t ensures Load(cfg, log', id, t) <= 2 * PerWindow(cfg) {
      AdmissionsAppend(log, a, id, t, t + cfg.window);
      assert Load(cfg, log, id, t) <= 2 * PerWindow(cfg);
      if t <= now < t + cfg.window { ContinueLoad(cfg, log, id, f, now, t); }
    }
  }

  // An interval that holds the new admission lies in the window and the one before it.
  lemma ContinueLoad(cfg: Config, log: seq<Admit>, id: string, f: Fingerprint, now: int, t: int)
    requires Tracked(cfg, log, id, f, now) && f.count + 1 <= cfg.threshold && t <= now < t + cfg.window
    requires now - f.timestamp < cfg.window
    ensures Load(cfg, log + [Admit(id, now)], id, t) <= 2 * PerWindow(cfg)
  {
    var a, log', ts := Admit(id, now), log + [Admit(id, now)], f.timestamp;
    AdmissionsAppend(log, a, id, ts, now + 1);
    if t < ts {
      AdmissionsSplit(log', id, t, ts, t + cfg.window);
      AdmissionsWider(log', id, ts, t + cfg.window, ts, now + 1);
      AdmissionsAppend(log, a, id, t, ts);
      AdmissionsWider(log, id, t, ts, ts - cfg.window, ts);
    } else {
      AdmissionsWider(log', id, t, t + cfg.window, ts, now + 1);
    }
  }

  lemma CountKeeps(cfg: Config, s: State, k: nat, now: int, at: int, id: string)
    requires cfg.window > 0 && Inv(cfg, s, id) && Enabled(s, Count(k, now, at))
    ensures Inv(cfg, Apply(cfg, s, Count(k, now, at)), id)
  {
    CountAtKeeps(cfg, s, k, now, id);
    var s' := Apply(cfg, s, Count(k, now, now));
    ClockForward(cfg, s', id, at);
    assert Apply(cfg, s, Count(k, now, at)).tables.prints == s'.tables.prints;
  }

  lemma CountAtKeeps(cfg: Config, s: State, k: nat, now: int, id: string)
    requires cfg.window > 0 && Inv(cfg, s, id) && Enabled(s, Count(k, now, now))
    ensures Inv(cfg, Apply(cfg, s, Count(k, now, now)), id)
  {
    var c := s.calls[k];
    ClockForward(cfg, s, id, now);
    if c.id == id {
      if id !in s.tables.prints {
        StartWindow(cfg, s.log, id, now);
      } else {
        var f := s.tables.prints[id];
        if now - f.timestamp >= cfg.window {
          Lapsed(cfg, s.log, id, f, now);
          StartWindow(cfg, s.log, id, now);
        } else if f.count + 1 <= cfg.threshold {
          ContinueWindow(cfg, s.log, id, f, now);
        }
      }
    } else {
      OtherAdmit(cfg, s.(clock := now), Admit(c.id, now), id);
    }
  }

  // An admission of another fingerprint changes no count of this one.
  lemma OtherAdmit(cfg: Config, s: State, a: Admit, id: string)
    requires Inv(cfg, s, id) && a.id != id
    ensures Inv(cfg, s.(log := s.log + [a]), id)
  {
    forall lo, hi ensures Admissions(s.log + [a], id, lo, hi) == Admissions(s.log, id, lo, hi) {
      AdmissionsAppend(s.log, a, id, lo, hi);
    }
    forall t ensures Load(cfg, s.log + [a], id, t) == Load(cfg, s.log, id, t) {
    }
  }

  lemma CleanKeeps(cfg: Config, s: State, id: string)
    requires cfg.window > 0 && Inv(cfg, s, id) && Enabled(s, CleanUp)
    ensures Inv(cfg, Apply(cfg, s, CleanUp), id)
  {
    if id in s.tables.prints && s.cleaner.value - s.tables.prints[id].timestamp > cfg.window {
      Lapsed(cfg, s.log, id, s.tables.prints[id], s.clock);
    }
  }

  lemma StepKeeps(cfg: Config, s: State, a: Action, id: string)
    requires cfg.window > 0 && Inv(cfg, s, id) && Enabled(s, a)
    ensures Inv(cfg, Apply(cfg, s, a), id)
  {
    match a
    case Begin(_, _) =>
    case Read(_) =>
    case Compare(_, now) => ClockForward(cfg, s, id, now);
    case Delete(_) =>
    case Count(k, now, at) => CountKeeps(cfg, s, k, now, at, id);
    case CleanRead(now) => ClockForward(cfg, s, id, now);
    case CleanUp => CleanKeeps(cfg, s, id);
  }

  lemma {:induction false} RunKeeps(cfg: Config, s: State, acts: seq<Action>, id: string)
    requires cfg.window > 0 && Inv(cfg, s, id) && IsRun(cfg, s, acts)
    ensures Inv(cfg, Final(cfg, s, acts), id)
    decreases |acts|
  {
    if acts == [] {
    } else {
      StepKeeps(cfg, s, acts[0], id);
      RunKeeps(cfg, Apply(cfg, s, acts[0]), acts[1..], id);
    }
  }

  /** In every interleaving of requests and cleanup passes, any half-open interval of the window's length
      admits at most 2 * max(1, threshold) requests of one fingerprint. */
  lemma AdmissionBound(cfg: Config, clock: int, acts: seq<Action>, id: string, t: int)
    requires IsRun(cfg, Start(clock), acts)
    ensures Admissions(Final(cfg, Start(clock), acts).log, id, t, t + cfg.window) <= 2 * PerWindow(cfg)
  {
    if cfg.window <= 0 {
      AdmissionsEmpty(Final(cfg, Start(clock), acts).log, id, t, t + cfg.window);
    } else {
      RunKeeps(cfg, Start(clock), acts, id);
      assert Load(cfg, Final(cfg, Start(clock), acts).log, id, t) <= 2 * PerWindow(cfg);
    }
  }

  // ----- Refusals are earned

  /** The counting window has admitted every request it counted, up to the bound. */
  ghost predicate Earned(cfg: Config, s: State, id: string) {
    && (forall a :: a in s.log ==> a.time <= s.clock)
    && (id in s.tables.prints ==>
          var f := s.tables.prints[id];
          && f.timestamp <= s.clock && f.count >= 1
          && (f.count <= PerWindow(cfg) ==> Admissions(s.log, id, f.timestamp, s.clock + 1) >= f.count)
          && (f.count > PerWindow(cfg) ==> Admissions(s.log, id, f.timestamp, s.clock + 1) >= PerWindow(cfg)))
  }

  lemma EarnedLater(cfg: Config, s: State, id: string, clock: int)
    requires Earned(cfg, s, id) && clock >= s.clock
    ensures Earned(cfg, s.(clock := clock), id)
  {
    if id in s.tables.prints {
      var ts := s.tables.prints[id].timestamp;
      AdmissionsWider(s.log, id, ts, s.clock + 1, ts, clock + 1);
    }
  }

  lemma EarnedCount(cfg: Config, s: State, k: nat, now: int, id: string)
    requires Earned(cfg, s, id) && Enabled(s, Count(k, now, now))
    ensures Earned(cfg, Apply(cfg, s, Count(k, now, now)), id)
  {
    var c := s.calls[k];
    EarnedLater(cfg, s, id, now);
    var a := Admit(c.id, now);
    if id in s.tables.prints {
      AdmissionsAppend(s.log, a, id, s.tables.prints[id].timestamp, now + 1);
    }
    AdmissionsAppend(s.log, a, id, now, now + 1);
  }

  lemma EarnedStep(cfg: Config, s: State, a: Action, id: string)
    requires Earned(cfg, s, id) && Enabled(s, a)
    ensures Earned(cfg, Apply(cfg, s, a), id)
  {
    match a
    case Count(k, now, at) =>
      EarnedCount(cfg, s, k, now, id);
      EarnedLater(cfg, Apply(cfg, s, Count(k, now, now)), id, at);
    case Compare(_, now) => EarnedLater(cfg, s, id, now);
    case CleanRead(now) => EarnedLater(cfg, s, id, now);
    case _ =>
  }

  lemma {:induction false} EarnedRun(cfg: Config, s: State, acts: seq<Action>, id: string)
    requires Earned(cfg, s, id) && IsRun(cfg, s, acts)
    ensures Earned(cfg, Final(cfg, s, acts), id)
    decreases |acts|
  {
    if acts == [] {
    } else {
      EarnedStep(cfg, s, acts[0], id);
      EarnedRun(cfg, Apply(cfg, s, acts[0]), acts[1..], id);
    }
  }

  /** In every interleaving, a request that is refused when it is counted comes after max(1, threshold) requests of its
      fingerprint that were admitted within the window that ends with it; and exactly a refusal blocks its IP. So a
      new fingerprint is admitted, and every request up to the threshold in a window. */
  lemma RefusalEarned(cfg: Config, clock: int, acts: seq<Action>, k: nat, now: int, at: int)
    requires IsRun(cfg, Start(clock), acts) && Enabled(Final(cfg, Start(clock), acts), Count(k, now, at))
    ensures var s := Final(cfg, Start(clock), acts);
            var s', c := Apply(cfg, s, Count(k, now, at)), s.calls[k];
            if s'.calls[k].phase == Done(false)
            then Admissions(s.log, c.id, now - cfg.window + 1, now + 1) >= PerWindow(cfg)
                 && s'.tables.blocked == s.tables.blocked[c.ip := at] && s'.log == s.log
            else s'.calls[k].phase == Done(true)
                 && s'.tables.blocked == s.tables.blocked && s'.log == s.log + [Admit(c.id, now)]
  {
    var s := Final(cfg, Start(clock), acts);
    var id := s.calls[k].id;
    EarnedRun(cfg, Start(clock), acts, id);
    EarnedLater(cfg, s, id, now);
    if id in s.tables.prints && now - s.tables.prints[id].timestamp < cfg.window {
      AdmissionsWider(s.log, id, s.tables.prints[id].timestamp, now + 1, now - cfg.window + 1, now + 1);
    }
  }

  /** A request that finds its IP not blocked is counted, and one that finds it blocked is counted if more than
      blockDuration has passed since and refused if not. */
  lemma BlockRefusesIff(cfg: Config, s: State, k: nat, now: int)
    requires Enabled(s, Read(k)) && now >= s.clock
    ensures var c, s1 := s.calls[k], Apply(cfg, s, Read(k));
            if c.ip !in s.tables.blocked then s1.calls[k].phase == Counting
            else && Enabled(s1, Compare(k, now))
                 && var s2 := Apply(cfg, s1, Compare(k, now));
                    if now - s.tables.blocked[c.ip] <= cfg.blockDuration then s2.calls[k].phase == Done(false)
                    else && Enabled(s2, Delete(k))
                         && var s3 := Apply(cfg, s2, Delete(k));
                            s3.calls[k].phase == Counting && s3.tables.blocked == s.tables.blocked - {c.ip}
                            && s3.tables.prints == s.tables.prints
  {
  }

  // ----- Cleaning

  /** A cleanup pass changes no answer: what it drops counts for nothing at any time from then on. And it leaves
      nothing that has expired. */
  lemma CleanTransparent(cfg: Config, d: Tables, seen: int, id: string, ip: string, now: int, at: int)
    requires seen <= now <= at
    ensures var c := Clean(cfg, d, seen);
            && CountRequest(cfg, c, id, ip, now, at).1 == CountRequest(cfg, d, id, ip, now, at).1
            && CountRequest(cfg, c, id, ip, now, at).0.prints[id] == CountRequest(cfg, d, id, ip, now, at).0.prints[id]
            && (ip in c.blocked ==> ip in d.blocked && c.blocked[ip] == d.blocked[ip])
            && (ip in d.blocked && ip !in c.blocked ==> ComparePhase(cfg, d.blocked[ip], now) == Unblocking)
    ensures var c := Clean(cfg, d, seen);
            && (id in c.prints ==> seen - c.prints[id].timestamp <= cfg.window)
            && (ip in c.blocked ==> seen - c.blocked[ip] <= cfg.blockDuration)
  {
  }

  // ----- Blocking

  /** A call of the ip that may still delete a block stamped b: it deletes next, or has yet to compare an older one. */
  predicate MayDelete(c: Call, ip: string, b: int) {
    c.ip == ip && (c.phase == Unblocking || (c.phase.Comparing? && c.phase.seen < b))
  }

  predicate NoPendingDelete(s: State, ip: string, b: int) {
    forall k :: 0 <= k < |s.calls| ==> !MayDelete(s.calls[k], ip, b)
  }

  predicate BlockedSince(s: State, ip: string, b: int) {
    ip in s.tables.blocked && s.tables.blocked[ip] >= b
  }

  ghost predicate Guarded(s: State, ip: string, b: int) {
    && BlockedSince(s, ip, b) && NoPendingDelete(s, ip, b) && b <= s.clock
    && (s.cleaner.Some? ==> s.cleaner.value <= s.clock)
  }

  /** The step lets a request of the ip past the check: it reads no block, or finds one of b or later expired. */
  predicate Passes(cfg: Config, s: State, a: Action, ip: string, b: int)
    requires Enabled(s, a)
  {
    match a
    case Read(k) => s.calls[k].ip == ip && ReadPhase(s.tables, ip) == Counting
    case Compare(k, now) =>
      s.calls[k].ip == ip && s.calls[k].phase.seen >= b && ComparePhase(cfg, s.calls[k].phase.seen, now) == Unblocking
    case _ => false
  }

  lemma GuardStep(cfg: Config, s: State, a: Action, ip: string, b: int)
    requires Guarded(s, ip, b) && Enabled(s, a) && Apply(cfg, s, a).clock <= b + cfg.blockDuration
    ensures Guarded(Apply(cfg, s, a), ip, b) && !Passes(cfg, s, a, ip, b)
  {
    var s' := Apply(cfg, s, a);
    assert forall k :: 0 <= k < |s.calls| ==> !MayDelete(s.calls[k], ip, b);
    assert a.Delete? ==> s.calls[a.k].ip != ip;
    forall k | 0 <= k < |s'.calls| ensures !MayDelete(s'.calls[k], ip, b) {
      if k < |s.calls| { assert !MayDelete(s.calls[k], ip, b); }
    }
  }

  ghost predicate NonePass(cfg: Config, s: State, acts: seq<Action>, ip: string, b: int)
    requires IsRun(cfg, s, acts)
    decreases |acts|
  {
    acts == [] || (!Passes(cfg, s, acts[0], ip, b) && NonePass(cfg, Apply(cfg, s, acts[0]), acts[1..], ip, b))
  }

  lemma {:induction false} ClockGrows(cfg: Config, s: State, acts: seq<Action>)
    requires IsRun(cfg, s, acts)
    ensures s.clock <= Final(cfg, s, acts).clock
    decreases |acts|
  {
    if acts == [] {
    } else {
      ClockGrows(cfg, Apply(cfg, s, acts[0]), acts[1..]);
    }
  }

  lemma {:induction false} GuardRun(cfg: Config, s: State, acts: seq<Action>, ip: string, b: int)
    requires Guarded(s, ip, b) && IsRun(cfg, s, acts) && Final(cfg, s, acts).clock <= b + cfg.blockDuration
    ensures NonePass(cfg, s, acts, ip, b)
    decreases |acts|
  {
    if acts == [] {
    } else {
      ClockGrows(cfg, Apply(cfg, s, acts[0]), acts[1..]);
      GuardStep(cfg, s, acts[0], ip, b);
      GuardRun(cfg, Apply(cfg, s, acts[0]), acts[1..], ip, b);
    }
  }

  /** What a tripped ip may expect of every continuation within blockDuration. */
  ghost predicate RefusedThroughout(cfg: Config, s: State, ip: string, b: int) {
    forall acts :: IsRun(cfg, s, acts) && Final(cfg, s, acts).clock <= b + cfg.blockDuration ==>
        NonePass(cfg, s, acts, ip, b)
  }

  /** After a trip at time b every later request of that IP within blockDuration is refused, in every interleaving,
      if and only if at the moment of the trip no call of that IP is about to delete a block or still has to compare
      one older than b: its delete takes the new block away. */
  lemma TripBlocks(cfg: Config, s: State, ip: string)
    requires ip in s.tables.blocked && s.tables.blocked[ip] == s.clock
    requires s.cleaner.Some? ==> s.cleaner.value <= s.clock
    requires cfg.blockDuration >= 0
    ensures RefusedThroughout(cfg, s, ip, s.clock) <==> NoPendingDelete(s, ip, s.clock)
  {
    if NoPendingDelete(s, ip, s.clock) {
      forall acts | IsRun(cfg, s, acts) && Final(cfg, s, acts).clock <= s.clock + cfg.blockDuration
        ensures NonePass(cfg, s, acts, ip, s.clock)
      {
        GuardRun(cfg, s, acts, ip, s.clock);
      }
    } else {
      var k: nat :| k < |s.calls| && MayDelete(s.calls[k], ip, s.clock);
      EscapeRun(cfg, s, ip, k);
    }
  }

  lemma Prepend(cfg: Config, s: State, a: Action, rest: seq<Action>)
    requires Enabled(s, a) && IsRun(cfg, Apply(cfg, s, a), rest)
    ensures IsRun(cfg, s, [a] + rest) && Final(cfg, s, [a] + rest) == Final(cfg, Apply(cfg, s, a), rest)
    ensures forall ip, b :: NonePass(cfg, s, [a] + rest, ip, b) ==> NonePass(cfg, Apply(cfg, s, a), rest, ip, b)
  {
    assert ([a] + rest)[1..] == rest;
  }

  // The delete, then a new request: it is not refused.
  lemma DeleteRun(cfg: Config, s: State, ip: string, k: nat, b: int) returns (acts: seq<Action>)
    requires k < |s.calls| && s.calls[k].ip == ip && s.calls[k].phase == Unblocking
    ensures IsRun(cfg, s, acts) && Final(cfg, s, acts).clock == s.clock && !NonePass(cfg, s, acts, ip, b)
  {
    var n := |s.calls|;
    var s1 := Apply(cfg, s, Delete(k));
    var s2 := Apply(cfg, s1, Begin("", ip));
    assert s2.calls[n] == Call("", ip, Checking);
    Prepend(cfg, s2, Read(n), []);
    assert Passes(cfg, s2, Read(n), ip, b);
    assert !NonePass(cfg, s2, [Read(n)] + [], ip, b);
    Prepend(cfg, s1, Begin("", ip), [Read(n)] + []);
    Prepend(cfg, s, Delete(k), [Begin("", ip)] + ([Read(n)] + []));
    acts := [Delete(k)] + ([Begin("", ip)] + ([Read(n)] + []));
  }

  lemma EscapeRun(cfg: Config, s: State, ip: string, k: nat)
    requires k < |s.calls| && MayDelete(s.calls[k], ip, s.clock) && cfg.blockDuration >= 0
    ensures !RefusedThroughout(cfg, s, ip, s.clock)
  {
    if s.calls[k].phase == Unblocking {
      var acts := DeleteRun(cfg, s, ip, k, s.clock);
    } else {
      var a := Compare(k, s.clock + cfg.blockDuration);
      var acts := DeleteRun(cfg, Apply(cfg, s, a), ip, k, s.clock);
      Prepend(cfg, s, a, acts);
    }
  }

  // ----- Such a trip does happen

  /** Requests of one fingerprint, one after the other at one instant, until the ip is blocked. */
  lemma {:induction false} Hammer(cfg: Config, s: State, id: string, ip: string) returns (acts: seq<Action>, s': State)
    requires cfg.window > 0 && ip !in s.tables.blocked
    requires id in s.tables.prints ==> s.tables.prints[id].timestamp == s.clock
    ensures IsRun(cfg, s, acts) && s' == Final(cfg, s, acts)
    ensures ip in s'.tables.blocked && s'.tables.blocked[ip] == s'.clock == s.clock && s'.cleaner == s.cleaner
    ensures s.calls <= s'.calls && s'.tables.prints.Keys == s.tables.prints.Keys + {id}
    decreases if id in s.tables.prints then 0 else 1,
        if id in s.tables.prints then cfg.threshold - s.tables.prints[id].count else 0
  {
    var n := |s.calls|;
    var s1 := Apply(cfg, s, Begin(id, ip));
    assert s1.calls[n] == Call(id, ip, Checking);
    var s2 := Apply(cfg, s1, Read(n));
    s' := Apply(cfg, s2, Count(n, s.clock, s.clock));
    assert s.calls <= s'.calls;
    acts := [];
    if ip !in s'.tables.blocked {
      acts, s' := Hammer(cfg, s', id, ip);
    }
    Prepend(cfg, s2, Count(n, s.clock, s.clock), acts);
    Prepend(cfg, s1, Read(n), [Count(n, s.clock, s.clock)] + acts);
    acts := [Read(n)] + ([Count(n, s.clock, s.clock)] + acts);
    Prepend(cfg, s, Begin(id, ip), acts);
    acts := [Begin(id, ip)] + acts;
  }

  lemma {:induction false} Join(cfg: Config, s: State, a: seq<Action>, b: seq<Action>)
    requires IsRun(cfg, s, a) && IsRun(cfg, Final(cfg, s, a), b)
    ensures IsRun(cfg, s, a + b) && Final(cfg, s, a + b) == Final(cfg, Final(cfg, s, a), b)
    decreases |a|
  {
    if a == [] {
      assert a + b == b;
    } else {
      Join(cfg, Apply(cfg, s, a[0]), a[1..], b);
      assert (a + b)[1..] == a[1..] + b;
    }
  }

  // One call reads an old block and pauses; once the block has expired another deletes it.
  lemma PauseAndExpire(cfg: Config, s: State, ip: string) returns (acts: seq<Action>, s': State)
    requires cfg.blockDuration >= 0 && ip in s.tables.blocked && s.tables.blocked[ip] == s.clock
    ensures IsRun(cfg, s, acts) && s' == Final(cfg, s, acts)
    ensures s'.tables == Unblock(s.tables, ip) && s'.cleaner == s.cleaner && s'.clock > s.clock
    ensures |s.calls| < |s'.calls| && s'.calls[|s.calls|] == Call("", ip, Comparing(s.clock))
  {
    var n, later := |s.calls|, s.clock + cfg.blockDuration + 1;
    var s1 := Apply(cfg, s, Begin("", ip));
    assert s1.calls[n] == Call("", ip, Checking);
    var s2 := Apply(cfg, s1, Read(n));
    var s3 := Apply(cfg, s2, Begin("", ip));
    assert s3.calls[n + 1] == Call("", ip, Checking);
    var s4 := Apply(cfg, s3, Read(n + 1));
    var s5 := Apply(cfg, s4, Compare(n + 1, later));
    s' := Apply(cfg, s5, Delete(n + 1));
    Prepend(cfg, s5, Delete(n + 1), []);
    Prepend(cfg, s4, Compare(n + 1, later), [Delete(n + 1)] + []);
    acts := [Compare(n + 1, later)] + ([Delete(n + 1)] + []);
    Prepend(cfg, s3, Read(n + 1), acts);
    acts := [Read(n + 1)] + acts;
    Prepend(cfg, s2, Begin("", ip), acts);
    acts := [Begin("", ip)] + acts;
    Prepend(cfg, s1, Read(n), acts);
    Prepend(cfg, s, Begin("", ip), [Read(n)] + acts);
    acts := [Begin("", ip)] + ([Read(n)] + acts);
  }

  /** From the empty tables, whatever the threshold, there is a run to a trip after which a later request within
      blockDuration passes: a call that read the previous block has still to compare it. */
  lemma BlockVanishes(cfg: Config, ip: string) returns (acts: seq<Action>)
    requires cfg.window > 0 && cfg.blockDuration >= 0
    ensures IsRun(cfg, Start(0), acts)
    ensures var s := Final(cfg, Start(0), acts);
            ip in s.tables.blocked && s.tables.blocked[ip] == s.clock && !RefusedThroughout(cfg, s, ip, s.clock)
  {
    var trip, s1 := Hammer(cfg, Start(0), "x", ip);
    var pause, s2 := PauseAndExpire(cfg, s1, ip);
    var again, s3 := Hammer(cfg, s2, "y", ip);
    var k := |s1.calls|;
    assert s3.calls[k] == s2.calls[k];
    TripBlocks(cfg, s3, ip);
    assert MayDelete(s3.calls[k], ip, s3.clock);
    Join(cfg, s1, pause, again);
    Join(cfg, Start(0), trip, pause + again);
    acts := trip + (pause + again);
  }
}
