/** The directory lookup cache and the generation protocol between scanners and one mutator. */
module LookupCache {
  import opened Common

  type Name = seq<int>

  datatype Target = Target(inode: nat, kind: nat)

  const CAPACITY: nat := 2048
  const WRAP: nat := 0x1_0000_0000_0000_0000

  type Bindings = map<Name, Target>

  /** Remember one binding; a full cache is emptied first. */
  function Remembered(entries: Bindings, name: Name, t: Target): Bindings {
    if name == [] then entries
    else if name in entries || |entries| < CAPACITY then entries[name := t]
    else map[name := t]
  }

  class DirLookupCache {
    var generation: nat
    var entries: Bindings

    ghost predicate Valid()
      reads this
    {
      generation < WRAP && |entries| <= CAPACITY && [] !in entries
    }

    constructor ()
      ensures Valid() && generation == 0 && entries == map[]
    {
      generation, entries := 0, map[];
    }

    method Get(name: Name) returns (r: Option<Target>)
      ensures r == if name != [] && name in entries then Some(entries[name]) else None
    {
      r := if name == [] || name !in entries then None else Some(entries[name]);
    }

    method Remember(name: Name, t: Target)
      requires Valid()
      modifies this`entries
      ensures Valid() && entries == Remembered(old(entries), name, t)
    {
      if name == [] {
        return;
      }
      if name in entries {
        SizeKept(entries, name, t);
        entries := entries[name := t];
        return;
      }
      if |entries| >= CAPACITY {
        entries := map[];
      }
      entries := entries[name := t];
    }

    /** Publish what a scan found unless a mutation committed since the scan began. */
    method RememberIfCurrent(scanned: nat, name: Name, t: Target)
      requires Valid()
      modifies this`entries
      ensures Valid() && entries == if generation == scanned then Remembered(old(entries), name, t) else old(entries)
    {
      if generation == scanned {
        Remember(name, t);
      }
    }

    method Invalidate()
      requires Valid()
      modifies this
      ensures Valid() && entries == map[] && generation == (old(generation) + 1) % WRAP
    {
      generation, entries := (generation + 1) % WRAP, map[];
    }

    /** Commit a mutation and keep the binding it made. */
    method Commit(name: Name, t: Target)
      requires Valid()
      modifies this
      ensures Valid() && entries == Remembered(map[], name, t) && generation == (old(generation) + 1) % WRAP
    {
      Invalidate();
      Remember(name, t);
    }
  }

  lemma SizeKept(m: Bindings, name: Name, t: Target)
    requires name in m
    ensures |m[name := t]| == |m|
  {
    assert m[name := t].Keys == m.Keys;
  }

  // ---- interleaved scanners and one mutator ----

  /** A scan: the generation and the number of commits when it began, and what it has read so far. */
  datatype Scan = Scan(generation: nat, began: nat, found: Bindings)

  /** `pending` while a mutation has written the disk and not yet committed. */
  datatype State = State(disk: Bindings, pending: bool, commits: nat, generation: nat, entries: Bindings,
                         scans: map<nat, Scan>)

  datatype Step =
    | Begin(id: nat)
    | Read(id: nat, name: Name)
    | Publish(id: nat, name: Name)
    | Write(disk: Bindings)
    | CommitEntry(name: Name)
    | CommitClear

  ghost predicate Next(s: State, step: Step, s': State) {
    match step
    case Begin(id) => s' == s.(scans := s.scans[id := Scan(s.generation, s.commits, map[])])
    case Read(id, name) =>
      && id in s.scans && name in s.disk
      && s' == s.(scans := s.scans[id := s.scans[id].(found := s.scans[id].found[name := s.disk[name]])])
    case Publish(id, name) =>
      && id in s.scans && name in s.scans[id].found
      && s' == if s.scans[id].generation != s.generation then s
               else s.(entries := Remembered(s.entries, name, s.scans[id].found[name]))
    case Write(disk) => !s.pending && s' == s.(disk := disk, pending := true)
    case CommitEntry(name) =>
      && s.pending && name in s.disk
      && s' == Committed(s).(entries := Remembered(map[], name, s.disk[name]))
    case CommitClear => s.pending && s' == Committed(s)
  }

  function Committed(s: State): State {
    s.(pending := false, commits := s.commits + 1, generation := (s.generation + 1) % WRAP, entries := map[])
  }

  ghost predicate Agrees(found: Bindings, disk: Bindings) {
    forall n :: n in found ==> n in disk && disk[n] == found[n]
  }

  /** The generation has not come round to the scan again: it matches only if nothing was committed since. */
  ghost predicate Guarded(s: State, id: nat) {
    id in s.scans && (s.commits - s.scans[id].began) % WRAP == 0 ==> s.scans[id].began == s.commits
  }

  /** Outside a mutation the cache agrees with the disk, and so does every scan that may still publish. */
  ghost predicate Inv(s: State) {
    && s.generation == s.commits % WRAP
    && (!s.pending ==> Agrees(s.entries, s.disk))
    && (forall id :: id in s.scans ==>
          s.scans[id].began <= s.commits && s.scans[id].generation == s.scans[id].began % WRAP)
    && (!s.pending ==> forall id :: id in s.scans && s.scans[id].began == s.commits ==>
          Agrees(s.scans[id].found, s.disk))
  }

  /** The start: nothing cached, nothing scanned. */
  function Initial(disk: Bindings): State {
    State(disk, false, 0, 0, map[], map[])
  }

  lemma InitialInv(disk: Bindings)
    ensures Inv(Initial(disk))
  {
  }

  /** The generations match exactly when the number of commits in between is a whole number of rounds. */
  lemma SameGeneration(began: nat, commits: nat)
    requires began <= commits
    ensures began % WRAP == commits % WRAP <==> (commits - began) % WRAP == 0
  {
  }

  lemma ScanKeeps(s: State, step: Step, s': State)
    requires Inv(s) && Next(s, step, s') && (step.Begin? || step.Read?)
    ensures Inv(s')
  {
  }

  lemma RememberedAgrees(entries: Bindings, disk: Bindings, name: Name, t: Target)
    requires Agrees(entries, disk) && name in disk && disk[name] == t
    ensures Agrees(Remembered(entries, name, t), disk)
  {
  }

  /** Publishing keeps the cache right unless the generation came round to the scan again. */
  lemma PublishKeeps(s: State, id: nat, name: Name, s': State)
    requires Inv(s) && Next(s, Publish(id, name), s') && Guarded(s, id)
    ensures Inv(s')
  {
    var scan := s.scans[id];
    SameGeneration(scan.began, s.commits);
    if scan.generation == s.generation && !s.pending {
      assert Agrees(scan.found, s.disk);
      RememberedAgrees(s.entries, s.disk, name, scan.found[name]);
    }
  }

  /** For each single publication: it keeps the cache right if and only if it is dropped or what it read still holds. */
  lemma PublishExact(s: State, id: nat, name: Name, s': State)
    requires Inv(s) && !s.pending && Next(s, Publish(id, name), s') && name != []
    ensures Inv(s') <==>
      s.scans[id].generation != s.generation || (name in s.disk && s.disk[name] == s.scans[id].found[name])
  {
    if s.scans[id].generation == s.generation {
      assert name in s'.entries && s'.entries[name] == s.scans[id].found[name];
      if name in s.disk && s.disk[name] == s.scans[id].found[name] {
        RememberedAgrees(s.entries, s.disk, name, s.disk[name]);
      }
    }
  }

  lemma MutationKeeps(s: State, step: Step, s': State)
    requires Inv(s) && Next(s, step, s') && (step.Write? || step.CommitEntry? || step.CommitClear?)
    ensures Inv(s')
  {
    assert (s.commits + 1) % WRAP == (s.commits % WRAP + 1) % WRAP;
  }

  lemma StepKeeps(s: State, step: Step, s': State)
    requires Inv(s) && Next(s, step, s') && (step.Publish? ==> Guarded(s, step.id))
    ensures Inv(s')
  {
    hide Inv, Guarded;
    match step
    case Begin(_) => ScanKeeps(s, step, s');
    case Read(_, _) => ScanKeeps(s, step, s');
    case Publish(id, name) => PublishKeeps(s, id, name, s');
    case Write(_) => MutationKeeps(s, step, s');
    case CommitEntry(_) => MutationKeeps(s, step, s');
    case CommitClear => MutationKeeps(s, step, s');
  }

  /** A run, with no assumption about the ages of scans. */
  ghost predicate IsRun(ss: seq<State>, steps: seq<Step>) {
    |ss| == |steps| + 1 && forall i :: 0 <= i < |steps| ==> Next(ss[i], steps[i], ss[i + 1])
  }

  /** Every publication of the run is made by a scan to which the generation has not come round. */
  ghost predicate GuardedRun(ss: seq<State>, steps: seq<Step>)
    requires IsRun(ss, steps)
  {
    forall i :: 0 <= i < |steps| && steps[i].Publish? ==> Guarded(ss[i], steps[i].id)
  }

  /** In every such run, between mutations a cached lookup gives what the disk has. */
  lemma {:induction false} CacheIsCurrent(ss: seq<State>, steps: seq<Step>, n: nat, name: Name)
    requires IsRun(ss, steps) && GuardedRun(ss, steps) && Inv(ss[0]) && n <= |steps|
    ensures Inv(ss[n])
    ensures !ss[n].pending && name in ss[n].entries ==> name in ss[n].disk && ss[n].entries[name] == ss[n].disk[name]
    decreases n
  {
    if n > 0 {
      CacheIsCurrent(ss, steps, n - 1, name);
      StepKeeps(ss[n - 1], steps[n - 1], ss[n]);
    }
  }

  // ---- when the generation comes round ----

  /** The state after `k` mutations that all leave the disk as given. */
  function Mutated(s: State, disk: Bindings, k: nat): State {
    if k == 0 then s
    else s.(disk := disk, pending := false, commits := s.commits + k, generation := (s.commits + k) % WRAP,
            entries := map[])
  }

  ghost predicate Leads(first: State, ss: seq<State>, steps: seq<Step>, last: State) {
    IsRun(ss, steps) && ss[0] == first && ss[|steps|] == last
  }

  lemma OneMore(first: State, ss: seq<State>, steps: seq<Step>, s: State, step: Step, s': State)
    requires Leads(first, ss, steps, s) && Next(s, step, s')
    ensures Leads(first, ss + [s'], steps + [step], s')
  {
    var more, all := ss + [s'], steps + [step];
    forall i | 0 <= i < |all| ensures Next(more[i], all[i], more[i + 1]) {
      if i < |steps| {
        assert Next(ss[i], steps[i], ss[i + 1]);
      }
    }
  }

  lemma {:induction false} Mutations(first: State, ss: seq<State>, steps: seq<Step>, s: State, disk: Bindings, k: nat)
    returns (more: seq<State>, all: seq<Step>)
    requires Leads(first, ss, steps, s) && !s.pending && s.generation == s.commits % WRAP
    ensures Leads(first, more, all, Mutated(s, disk, k))
  {
    if k == 0 {
      more, all := ss, steps;
    } else {
      hide Leads, Next, Mutated;
      more, all := Mutations(first, ss, steps, s, disk, k - 1);
      var before := Mutated(s, disk, k - 1);
      var written := before.(disk := disk, pending := true);
      MutateOnce(s, disk, k, written);
      OneMore(first, more, all, before, Write(disk), written);
      OneMore(first, more + [written], all + [Write(disk)], written, CommitClear, Mutated(s, disk, k));
      more, all := more + [written] + [Mutated(s, disk, k)], all + [Write(disk)] + [CommitClear];
    }
  }

  lemma MutateOnce(s: State, disk: Bindings, k: nat, written: State)
    requires !s.pending && s.generation == s.commits % WRAP && k > 0
    requires written == Mutated(s, disk, k - 1).(disk := disk, pending := true)
    ensures Next(Mutated(s, disk, k - 1), Write(disk), written) && Next(written, CommitClear, Mutated(s, disk, k))
  {
    assert (s.commits + k) % WRAP == ((s.commits + k - 1) % WRAP + 1) % WRAP;
  }

  /** For every way in which the guard can fail, some run from the start ends in a publication that leaves the cache
      with a binding the disk no longer has. */
  lemma OldScan(began: nat, commits: nat) returns (ss: seq<State>, steps: seq<Step>, name: Name)
    requires began < commits && (commits - began) % WRAP == 0
    ensures IsRun(ss, steps) && |steps| > 0 && (exists disk :: ss[0] == Initial(disk))
    ensures steps[|steps| - 1] == Publish(0, name)
    ensures var s := ss[|steps| - 1];
      0 in s.scans && s.scans[0].began == began && s.commits == commits && !Guarded(s, 0)
    ensures var s := ss[|steps|];
      !s.pending && name in s.entries && name in s.disk && s.disk[name] != s.entries[name] && !Inv(s)
  {
    name := [1];
    var first, second := map[name := Target(1, 1)], map[name := Target(2, 1)];
    var s0 := Initial(first);
    ss, steps := [s0], [];
    ss, steps := Mutations(s0, ss, steps, s0, first, began);
    var s1 := Mutated(s0, first, began);
    var scan := Scan(s1.generation, began, map[]);
    var s2 := s1.(scans := s1.scans[0 := scan]);
    OneMore(s0, ss, steps, s1, Begin(0), s2);
    ss, steps := ss + [s2], steps + [Begin(0)];
    var s3 := s2.(scans := s2.scans[0 := scan.(found := map[][name := first[name]])]);
    OneMore(s0, ss, steps, s2, Read(0, name), s3);
    ss, steps := ss + [s3], steps + [Read(0, name)];
    ss, steps := Mutations(s0, ss, steps, s3, second, commits - began);
    var s4 := Mutated(s3, second, commits - began);
    SameGeneration(began, commits);
    var s5 := s4.(entries := Remembered(map[], name, first[name]));
    OneMore(s0, ss, steps, s4, Publish(0, name), s5);
    ss, steps := ss + [s5], steps + [Publish(0, name)];
  }
}
