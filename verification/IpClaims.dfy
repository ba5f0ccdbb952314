/** Claiming and releasing IP objects from stale copies (internal/registry/ipallocator/ipallocator.go). */
module IpClaims {
  import opened Wrappers
  import opened Api
  import opened VersionedStore

  datatype Ip = Ip(addr: string, claim: Option<UID>, controller: Option<UID>, other: string)

  type Copy = Object<Ip>
  type World = Store<Ip>

  /** One write or attempted write, by a claimer or by anybody else, from the copy it was made from.
      Others may create, change and delete objects, but leave claims and controllers alone. */
  datatype Step =
    | Claim(claimer: UID, copy: Copy)
    | Release(claimer: UID, copy: Copy)
    | DeleteOwn(claimer: UID, copy: Copy)
    | CreateOwn(claimer: UID, name: string, addr: string)
    | OtherCreate(name: string, addr: string, other: string)
    | OtherWrite(name: string, other: string)
    | OtherDelete(name: string)

  predicate Used(w: World, name: string) {
    exists o :: o in w.seen && o.name == name
  }

  predicate ClaimedBy(ip: Ip, u: UID) {
    ip.claim == Some(u)
  }

  predicate ControlledBy(ip: Ip, u: UID) {
    ip.controller == Some(u)
  }

  /** What the code checks of a copy before it writes; names of new objects are new. */
  predicate Permitted(w: World, step: Step) {
    match step
    case Claim(u, copy) => copy in w.seen && (copy.value.claim.None? || ClaimedBy(copy.value, u))
    case Release(u, copy) => copy in w.seen && ClaimedBy(copy.value, u) && !ControlledBy(copy.value, u)
    case DeleteOwn(u, copy) => copy in w.seen && ClaimedBy(copy.value, u) && ControlledBy(copy.value, u)
    case CreateOwn(_, name, _) => !Used(w, name)
    case OtherCreate(name, _, _) => !Used(w, name)
    case OtherWrite(name, _) => name in w.server
    case OtherDelete(_) => true
  }

  /** A deletion names the object, not a version of it. */
  function Do(w: World, step: Step): World {
    match step
    case Claim(u, copy) => Patched(w, copy, copy.value.(claim := Some(u)))
    case Release(_, copy) => Patched(w, copy, copy.value.(claim := None))
    case DeleteOwn(_, copy) => Deleted(w, copy.name)
    case CreateOwn(u, name, addr) => Written(w, name, Ip(addr, Some(u), Some(u), ""))
    case OtherCreate(name, addr, other) => Written(w, name, Ip(addr, None, None, other))
    case OtherWrite(name, other) =>
      if name in w.server then Written(w, name, w.server[name].value.(other := other)) else w
    case OtherDelete(name) => Deleted(w, name)
  }

  function Ran(w: World, steps: seq<Step>): World {
    if steps == [] then w else Do(Ran(w, steps[..|steps| - 1]), steps[|steps| - 1])
  }

  ghost predicate AllPermitted(w: World, steps: seq<Step>) {
    steps != [] ==> AllPermitted(w, steps[..|steps| - 1]) && Permitted(Ran(w, steps[..|steps| - 1]), steps[|steps| - 1])
  }

  // ---- Invariants ------------------------------------------------------------------------------

  /** A controlled IP has been claimed by its controller all along, and all states of one name have
      one controller. */
  ghost predicate Controlled(w: World) {
    && (forall o | o in w.seen && o.value.controller.Some? :: o.value.claim == o.value.controller)
    && (forall a, b | a in w.seen && b in w.seen && a.name == b.name :: a.value.controller == b.value.controller)
  }

  ghost predicate Good(w: World) {
    Inv(w) && Controlled(w)
  }

  const EMPTY: World := Store(map[], {}, 0)

  lemma StepKeepsGood(w: World, step: Step)
    requires Good(w) && Permitted(w, step)
    ensures Good(Do(w, step))
  {
    hide Good;
    if step.Claim? || step.Release? {
      ControllersAgree(w, step.copy);
    }
    match step
    case Claim(u, copy) => PatchKeepsGood(w, copy, copy.value.(claim := Some(u)));
    case Release(u, copy) => PatchKeepsGood(w, copy, copy.value.(claim := None));
    case DeleteOwn(_, copy) => DeletionKeepsGood(w, copy.name);
    case CreateOwn(u, name, addr) => WriteKeepsGood(w, name, Ip(addr, Some(u), Some(u), ""));
    case OtherCreate(name, addr, other) => WriteKeepsGood(w, name, Ip(addr, None, None, other));
    case OtherWrite(name, other) => OtherWriteKeepsGood(w, name, other);
    case OtherDelete(name) => DeletionKeepsGood(w, name);
  }

  lemma WriteKeepsGood(w: World, name: string, ip: Ip)
    requires Good(w) && (ip.controller.Some? ==> ip.claim == ip.controller)
    requires forall o | o in w.seen && o.name == name :: o.value.controller == ip.controller
    ensures Good(Written(w, name, ip))
  {
    hide Inv;
    WritesKeepInv(w, name, ip);
  }

  lemma DeletionKeepsGood(w: World, name: string)
    requires Good(w)
    ensures Good(Deleted(w, name))
  {
  }

  lemma OtherWriteKeepsGood(w: World, name: string, other: string)
    requires Good(w) && name in w.server
    ensures Good(Do(w, OtherWrite(name, other)))
  {
    hide Controlled;
    assert w.server[name] in w.seen;
    ControllersAgree(w, w.server[name]);
    WriteKeepsGood(w, name, w.server[name].value.(other := other));
  }

  lemma ControllersAgree(w: World, copy: Copy)
    requires Good(w) && copy in w.seen
    ensures copy.value.controller.Some? ==> copy.value.claim == copy.value.controller
    ensures forall o | o in w.seen && o.name == copy.name :: o.value.controller == copy.value.controller
  {
  }

  /** Patching the claim in from a copy the code accepts. */
  lemma PatchKeepsGood(w: World, copy: Copy, ip: Ip)
    requires Good(w) && copy in w.seen && ip.controller == copy.value.controller &&
              (ip.controller.Some? ==> ip.claim == ip.controller)
    ensures Good(Patched(w, copy, ip))
  {
    hide Good;
    ControllersAgree(w, copy);
    if PatchOutcome(w, copy) == Done {
      WriteKeepsGood(w, copy.name, ip);
    }
  }

  lemma {:induction false} RunKeepsGood(w: World, steps: seq<Step>)
    requires Good(w) && AllPermitted(w, steps)
    ensures Good(Ran(w, steps))
  {
    hide Good, Permitted;
    if steps != [] {
      RunKeepsGood(w, steps[..|steps| - 1]);
      StepKeepsGood(Ran(w, steps[..|steps| - 1]), steps[|steps| - 1]);
    }
  }

  // ---- Safety ----------------------------------------------------------------------------------

  function Holder(w: World, name: string): Option<UID> {
    if name in w.server then w.server[name].value.claim else None
  }

  /** A release by u that takes effect. */
  predicate Releases(w: World, step: Step, u: UID, name: string) {
    || (step.Release? && step.claimer == u && step.copy.name == name && PatchOutcome(w, step.copy) == Done)
    || (step.DeleteOwn? && step.claimer == u && step.copy.name == name)
  }

  /** An IP's claim changes hands only by the holder letting go: one step leaves the holder as it
      was, or takes a free IP, or is the holder's own release, or somebody deletes the object. */
  lemma HolderAfterStep(w: World, step: Step, name: string)
    requires Good(w) && Permitted(w, step)
    ensures var before, after := Holder(w, name), Holder(Do(w, step), name);
            || after == before
            || (before.None? && after.Some?)
            || (after.None? && before.Some? && (Releases(w, step, before.value, name) || step == OtherDelete(name)))
  {
    match step
    case Claim(u, copy) => DoneMeansCurrent(w, copy);
    case Release(u, copy) => DoneMeansCurrent(w, copy);
    case DeleteOwn(u, copy) =>
      assert copy.name in w.server ==> w.server[copy.name] in w.seen;
    case CreateOwn(_, n, _) => assert n in w.server ==> Used(w, n);
    case OtherCreate(n, _, _) => assert n in w.server ==> Used(w, n);
    case _ =>
  }

  /** A claim that goes through finds the IP free or the claimer's own, and gives it to the claimer. */
  lemma ClaimNeverOverwrites(w: World, u: UID, copy: Copy)
    requires Good(w) && Permitted(w, Claim(u, copy)) && PatchOutcome(w, copy) == Done
    ensures Holder(w, copy.name) in {None, Some(u)} && Holder(Do(w, Claim(u, copy)), copy.name) == Some(u)
  {
    DoneMeansCurrent(w, copy);
  }

  /** A release changes an object only if the claimer held it, whatever the age of the copy. */
  lemma ReleaseOnlyOwn(w: World, u: UID, copy: Copy, step: Step)
    requires Good(w) && step in {Release(u, copy), DeleteOwn(u, copy)} && Permitted(w, step)
    ensures Do(w, step).server != w.server ==> Holder(w, copy.name) == Some(u) && Holder(Do(w, step), copy.name).None?
    ensures forall n | n != copy.name :: Holder(Do(w, step), n) == Holder(w, n)
  {
    DoneMeansCurrent(w, copy);
    if copy.name in w.server {
      assert w.server[copy.name] in w.seen;
    } else {
      assert w.server - {copy.name} == w.server;
    }
  }

  /** In any run, between u holding an IP and somebody else holding it lies a release of it by u, or
      the deletion of the object by others. */
  lemma {:induction false} HandoverNeedsRelease(w: World, steps: seq<Step>, name: string, u: UID) returns (k: nat)
    requires Good(w) && AllPermitted(w, steps)
    requires Holder(w, name) == Some(u) && Holder(Ran(w, steps), name) != Some(u)
    ensures k < |steps|
    ensures Holder(Ran(w, steps[..k]), name) == Some(u)
    ensures Releases(Ran(w, steps[..k]), steps[k], u, name) || steps[k] == OtherDelete(name)
  {
    hide Permitted, Good, Releases, Do, Holder;
    if steps != [] {
      var init := steps[..|steps| - 1];
      RunKeepsGood(w, init);
      if Holder(Ran(w, init), name) == Some(u) {
        k := |init|;
        HolderAfterStep(Ran(w, init), steps[k], name);
      } else {
        k := HandoverNeedsRelease(w, init, name, u);
        assert init[..k] == steps[..k];
      }
    }
  }

  // ---- The retry loop --------------------------------------------------------------------------

  datatype Error = ErrAllocated | ErrNotFound | Multiple

  const ATTEMPTS := 5

  /** What the world is when the lister answers for the k-th time: failed attempts change nothing. */
  function AtAttempt(w: World, others: seq<seq<Step>>, k: nat): World
    requires k < |others|
  {
    Ran(if k == 0 then w else AtAttempt(w, others, k - 1), others[k])
  }

  /** Every answer consists of states, however old, of objects with the address. */
  ghost predicate ReadsArePast(w: World, addr: string, others: seq<seq<Step>>, answers: seq<seq<Copy>>) {
    && |others| == |answers| == ATTEMPTS
    && forall k, c | 0 <= k < ATTEMPTS && c in answers[k] :: c in AtAttempt(w, others, k).seen && c.value.addr == addr
  }

  ghost predicate OthersPermitted(w: World, others: seq<seq<Step>>) {
    forall k | 0 <= k < |others| :: AllPermitted(if k == 0 then w else AtAttempt(w, others, k - 1), others[k])
  }

  /** claimIP: `others[k]` happens before the k-th read, which answers `answers[k]`. Every attempt
      before the k-th was made from an outdated copy, and the k-th decides: it goes through exactly
      when it is made from the current copy of an IP that is free or the claimer's own; a conflict
      ends the claim only at the last attempt. On failure it wrote nothing. */
  method ClaimIP(w: World, u: UID, addr: string, others: seq<seq<Step>>, answers: seq<seq<Copy>>)
    returns (after: World, r: Result<string, Error>, ghost k: nat)
    requires Good(w) && ReadsArePast(w, addr, others, answers) && OthersPermitted(w, others)
    ensures k < ATTEMPTS && Good(after)
    ensures forall i: nat | i < k ::
              && |answers[i]| == 1 && answers[i][0].value.claim in {None, Some(u)}
              && answers[i][0].name in AtAttempt(w, others, i).server
              && AtAttempt(w, others, i).server[answers[i][0].name] != answers[i][0]
    ensures r.Ok? <==>
              && |answers[k]| == 1 && answers[k][0].value.claim in {None, Some(u)}
              && answers[k][0].name in AtAttempt(w, others, k).server
              && AtAttempt(w, others, k).server[answers[k][0].name] == answers[k][0]
    ensures r.Ok? ==>
              var at, c := AtAttempt(w, others, k), answers[k][0];
              && r.value == c.name && c.value.addr == addr
              && after.server == at.server[c.name := Object(c.name, at.next, c.value.(claim := Some(u)))]
    ensures r == Err(Multiple) <==> |answers[k]| > 1
    ensures r == Err(ErrNotFound) <==>
              || answers[k] == []
              || (|answers[k]| == 1 && answers[k][0].value.claim in {None, Some(u)}
                  && answers[k][0].name !in AtAttempt(w, others, k).server)
    ensures r == Err(ErrAllocated) <==>
              && |answers[k]| == 1
              && (answers[k][0].value.claim !in {None, Some(u)}
                  || (k == 4 && answers[k][0].name in AtAttempt(w, others, k).server
                      && AtAttempt(w, others, k).server[answers[k][0].name] != answers[k][0]))
    ensures r.Err? ==> after == AtAttempt(w, others, k)
  {
    hide Good, AllPermitted, PatchOutcome, Do, Ran, AtAttempt;
    after := w;
    for i := 0 to ATTEMPTS
      invariant Good(after)
      invariant after == if i == 0 then w else AtAttempt(w, others, i - 1)
      invariant forall h: nat | h < i ::
                  && |answers[h]| == 1 && answers[h][0].value.claim in {None, Some(u)}
                  && answers[h][0].name in AtAttempt(w, others, h).server
                  && AtAttempt(w, others, h).server[answers[h][0].name] != answers[h][0]
    {
      k := i;
      RunKeepsGood(after, others[i]);
      after := Ran(after, others[i]);
      assert after == AtAttempt(w, others, i) by { AtAttemptIs(w, others, i); }
      if |answers[i]| != 1 {
        return after, Err(if answers[i] == [] then ErrNotFound else Multiple), k;
      }
      var ip := answers[i][0];
      AnswerIsPast(w, addr, others, answers, i, ip);
      if ip.value.claim.Some? && ip.value.claim != Some(u) {
        return after, Err(ErrAllocated), k;
      }
      OutcomeMeans(after, ip);
      var outcome := PatchOutcome(after, ip);
      if outcome == NotFound {
        return after, Err(ErrNotFound), k;
      }
      if outcome == Done {
        CurrentCopyIsClaimed(after, u, ip);
        StepKeepsGood(after, Claim(u, ip));
        after := Do(after, Claim(u, ip));
        return after, Ok(ip.name), k;
      }
    }
    k := ATTEMPTS - 1;
    r := Err(ErrAllocated);
  }

  lemma AtAttemptIs(w: World, others: seq<seq<Step>>, k: nat)
    requires k < |others|
    ensures AtAttempt(w, others, k) == Ran(if k == 0 then w else AtAttempt(w, others, k - 1), others[k])
  {
  }

  /** What a patch comes to, over what the server has. */
  lemma OutcomeMeans(w: World, copy: Copy)
    requires Good(w) && copy in w.seen
    ensures PatchOutcome(w, copy) == NotFound <==> copy.name !in w.server
    ensures PatchOutcome(w, copy) == Done <==> copy.name in w.server && w.server[copy.name] == copy
  {
    DoneMeansCurrent(w, copy);
  }

  /** A claim made from the current copy of a free IP, or one's own, goes through; it changes the claim
      of that IP and nothing else on the server. */
  lemma CurrentCopyIsClaimed(w: World, u: UID, copy: Copy)
    requires Good(w) && copy in w.seen && copy.value.claim in {None, Some(u)}
    requires copy.name in w.server && w.server[copy.name] == copy
    ensures Permitted(w, Claim(u, copy)) && PatchOutcome(w, copy) == Done
    ensures Do(w, Claim(u, copy)).server ==
              w.server[copy.name := Object(copy.name, w.next, copy.value.(claim := Some(u)))]
  {
  }

  lemma AnswerIsPast(w: World, addr: string, others: seq<seq<Step>>, answers: seq<seq<Copy>>, k: nat, c: Copy)
    requires ReadsArePast(w, addr, others, answers) && k < ATTEMPTS && c in answers[k]
    ensures c in AtAttempt(w, others, k).seen && c.value.addr == addr
  {
  }

  /** A release that goes through clears the claim of its object, and nothing else on the server; a
      deletion takes the object away, whatever the age of the copy. */
  lemma ReleaseWrites(w: World, u: UID, copy: Copy)
    requires Good(w) && copy in w.seen
    ensures Do(w, DeleteOwn(u, copy)).server == w.server - {copy.name}
    ensures copy.name in w.server && w.server[copy.name] == copy ==>
              Do(w, Release(u, copy)).server ==
              w.server[copy.name := Object(copy.name, w.next, copy.value.(claim := None))]
    ensures copy.name !in w.server || w.server[copy.name] != copy ==> Do(w, Release(u, copy)) == w
  {
    DoneMeansCurrent(w, copy);
  }

  /** release, of an IP read a while ago: one controlled by the claimer is deleted, another one gives
      up its claim, and stays as it is otherwise; a conflict in that is only logged. What is not
      claimed by the claimer in that copy is left alone, and so is everything else. */
  method ReleaseIP(w: World, u: UID, answer: seq<Copy>) returns (after: World)
    requires Good(w) && forall c | c in answer :: c in w.seen
    ensures Good(after)
    ensures forall n | Holder(after, n) != Holder(w, n) :: Holder(w, n) == Some(u) && Holder(after, n).None?
    ensures |answer| != 1 || answer[0].value.claim != Some(u) ==> after == w
    ensures |answer| == 1 && answer[0].value.claim == Some(u) && answer[0].value.controller == Some(u) ==>
              after.server == w.server - {answer[0].name}
    ensures |answer| == 1 && answer[0].value.claim == Some(u) && answer[0].value.controller != Some(u) ==>
              var c := answer[0];
              if c.name in w.server && w.server[c.name] == c then
                after.server == w.server[c.name := Object(c.name, w.next, c.value.(claim := None))]
              else
                after == w
  {
    hide Good, Controlled, Do, Holder;
    if |answer| != 1 {
      return w;
    }
    var ip := answer[0];
    assert ip in answer;
    if !ClaimedBy(ip.value, u) {
      return w;
    }
    var step := if ControlledBy(ip.value, u) then DeleteOwn(u, ip) else Release(u, ip);
    StepKeepsGood(w, step);
    ReleaseOnlyOwn(w, u, ip, step);
    ReleaseWrites(w, u, ip);
    HoldersStay(w, u, ip, step);
    after := Do(w, step);
  }

  lemma HoldersStay(w: World, u: UID, copy: Copy, step: Step)
    requires Good(w) && step in {Release(u, copy), DeleteOwn(u, copy)} && Permitted(w, step)
    ensures forall n | Holder(Do(w, step), n) != Holder(w, n) ::
              Holder(w, n) == Some(u) && Holder(Do(w, step), n).None?
  {
    hide Good, Permitted, Do;
    ReleaseOnlyOwn(w, u, copy, step);
  }
}
