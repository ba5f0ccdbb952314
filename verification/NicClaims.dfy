/** Claiming and releasing a network interface's NAT, one per IP family, from stale copies
    (internal/client/client.go). */
module NicClaims {
  import opened Wrappers
  import opened Api
  import opened VersionedStore

  type Copy = Object<Nic>
  type World = Store<Nic>

  ghost predicate OnePerFamily(nats: seq<Nat>) {
    forall i, j | 0 <= i < j < |nats| :: nats[i].family != nats[j].family
  }

  lemma {:induction false} ClaimerAppended(nats: seq<Nat>, family: Family, ref: ClaimRef, f: Family)
    requires Claimer(nats, family).None?
    ensures Claimer(nats + [Nat(family, ref)], f) == if f == family then Some(ref) else Claimer(nats, f)
  {
    if nats != [] {
      ClaimerAppended(nats[1..], family, ref, f);
      assert (nats + [Nat(family, ref)])[1..] == nats[1..] + [Nat(family, ref)];
    }
  }

  /** Writes: a claim patched in from a copy without a claimer for the family; anything others do to
      the rest of an interface, and interfaces coming and going, names possibly reused. */
  datatype Step =
    | Claim(copy: Copy, family: Family, ref: ClaimRef)
    | OtherWrite(name: string, nic: Nic)
    | OtherCreate(name: string, nic: Nic)
    | OtherDelete(name: string)

  predicate Permitted(w: World, step: Step) {
    match step
    case Claim(copy, family, _) => copy in w.seen && Claimer(copy.value.nats, family).None?
    case OtherWrite(name, _) => name in w.server
    case OtherCreate(name, _) => name !in w.server
    case OtherDelete(_) => true
  }

  function Do(w: World, step: Step): World {
    match step
    case Claim(copy, family, ref) => Patched(w, copy, copy.value.(nats := copy.value.nats + [Nat(family, ref)]))
    case OtherWrite(name, nic) =>
      if name in w.server then
        Written(w, name, nic.(uid := w.server[name].value.uid, nats := w.server[name].value.nats))
      else w
    case OtherCreate(name, nic) => Written(w, name, nic.(nats := []))
    case OtherDelete(name) => Deleted(w, name)
  }

  function Ran(w: World, steps: seq<Step>): World {
    if steps == [] then w else Do(Ran(w, steps[..|steps| - 1]), steps[|steps| - 1])
  }

  ghost predicate AllPermitted(w: World, steps: seq<Step>) {
    steps != [] ==> AllPermitted(w, steps[..|steps| - 1]) && Permitted(Ran(w, steps[..|steps| - 1]), steps[|steps| - 1])
  }

  ghost predicate Good(w: World) {
    Inv(w) && forall o | o in w.seen :: OnePerFamily(o.value.nats)
  }

  function Holder(w: World, name: string, family: Family): Option<ClaimRef> {
    if name in w.server then Claimer(w.server[name].value.nats, family) else None
  }

  lemma AppendedStaysOnePerFamily(nats: seq<Nat>, family: Family, ref: ClaimRef)
    requires OnePerFamily(nats) && Claimer(nats, family).None?
    ensures OnePerFamily(nats + [Nat(family, ref)])
  {
    var at := ClaimerIs(nats, family);
    assert forall i | 0 <= i < |nats| :: nats[i] in nats;
  }

  lemma WriteKeepsGood(w: World, name: string, nic: Nic)
    requires Good(w) && OnePerFamily(nic.nats)
    ensures Good(Written(w, name, nic))
  {
    hide OnePerFamily, Inv;
    WritesKeepInv(w, name, nic);
  }

  lemma StepKeepsGood(w: World, step: Step)
    requires Good(w) && Permitted(w, step)
    ensures Good(Do(w, step))
  {
    hide OnePerFamily, Claimer;
    match step
    case Claim(copy, family, ref) =>
      AppendedStaysOnePerFamily(copy.value.nats, family, ref);
      if PatchOutcome(w, copy) == Done {
        WriteKeepsGood(w, copy.name, copy.value.(nats := copy.value.nats + [Nat(family, ref)]));
      }
    case OtherWrite(name, nic) =>
      WriteKeepsGood(w, name, nic.(uid := w.server[name].value.uid, nats := w.server[name].value.nats));
    case OtherCreate(name, nic) =>
      NoNats();
      WriteKeepsGood(w, name, nic.(nats := []));
    case OtherDelete(name) =>
  }

  lemma NoNats()
    ensures OnePerFamily([])
  {
  }

  /** In every run a network interface never has two NAT entries of one family, in any state anybody
      may have read. */
  lemma {:induction false} RunKeepsGood(w: World, steps: seq<Step>)
    requires Good(w) && AllPermitted(w, steps)
    ensures Good(Ran(w, steps))
    ensures forall name | name in Ran(w, steps).server :: OnePerFamily(Ran(w, steps).server[name].value.nats)
  {
    hide Permitted, OnePerFamily, Do;
    if steps != [] {
      RunKeepsGood(w, steps[..|steps| - 1]);
      StepKeepsGood(Ran(w, steps[..|steps| - 1]), steps[|steps| - 1]);
    }
  }

  /** A claim that goes through found the family free, gives it to the claimer, and touches no other
      family and no other interface. */
  lemma ClaimNeverOverwrites(w: World, copy: Copy, family: Family, ref: ClaimRef)
    requires Good(w) && Permitted(w, Claim(copy, family, ref)) && PatchOutcome(w, copy) == Done
    ensures Holder(w, copy.name, family).None? && w.server[copy.name].value.uid == copy.value.uid
    ensures var after := Do(w, Claim(copy, family, ref));
            && Holder(after, copy.name, family) == Some(ref)
            && (forall f | f != family :: Holder(after, copy.name, f) == Holder(w, copy.name, f))
            && (forall n, f | n != copy.name :: Holder(after, n, f) == Holder(w, n, f))
  {
    hide OnePerFamily, Claimer;
    DoneMeansCurrent(w, copy);
    forall f ensures Claimer(copy.value.nats + [Nat(family, ref)], f) == if f == family then Some(ref)
        else Claimer(copy.value.nats, f) {
      ClaimerAppended(copy.value.nats, family, ref, f);
    }
  }

  // ---- The retry loops -------------------------------------------------------------------------

  datatype Error = AlreadyClaimed | Conflicted | Gone

  const ATTEMPTS := 5

  function AtAttempt(w: World, others: seq<seq<Step>>, k: nat): World
    requires k < |others|
  {
    Ran(if k == 0 then w else AtAttempt(w, others, k - 1), others[k])
  }

  /** The first attempt works on the caller's copy, later ones on one read again; all are past states
      of the interface of that name, or it is gone. */
  ghost predicate CopiesArePast(w: World, name: string, others: seq<seq<Step>>, copies: seq<Option<Copy>>) {
    && |others| == |copies| == ATTEMPTS && copies[0].Some?
    && forall k | 0 <= k < ATTEMPTS && copies[k].Some? ::
        copies[k].value in AtAttempt(w, others, k).seen && copies[k].value.name == name
  }

  ghost predicate OthersPermitted(w: World, others: seq<seq<Step>>) {
    forall k | 0 <= k < |others| :: AllPermitted(if k == 0 then w else AtAttempt(w, others, k - 1), others[k])
  }

  lemma CopyIsPast(w: World, name: string, others: seq<seq<Step>>, copies: seq<Option<Copy>>, k: nat)
    requires CopiesArePast(w, name, others, copies) && k < ATTEMPTS && copies[k].Some?
    ensures copies[k].value in AtAttempt(w, others, k).seen && copies[k].value.name == name
  {
  }

  /** ClaimNetworkInterfaceNAT. Every attempt before the k-th was made from an outdated copy of the
      caller's interface, unclaimed in that copy, and the k-th decides; a conflict ends the claim only
      at the last attempt. Success means that the claim was in the copy read, or was added to the
      interface, which is otherwise unchanged; on failure nothing was written. */
  method ClaimNetworkInterfaceNAT(w: World, name: string, family: Family, ref: ClaimRef, others: seq<seq<Step>>,
                                  copies: seq<Option<Copy>>)
    returns (after: World, err: Option<Error>, ghost k: nat)
    requires Good(w) && CopiesArePast(w, name, others, copies) && OthersPermitted(w, others)
    ensures k < ATTEMPTS && Good(after)
    ensures err == Some(AlreadyClaimed) <==> Claimer(copies[0].value.value.nats, family).Some?
    ensures err == Some(AlreadyClaimed) ==> after == w
    ensures forall i: nat | i < k ::
              && copies[i].Some? && copies[i].value.value.uid == copies[0].value.value.uid
              && Claimer(copies[i].value.value.nats, family).None?
              && name in AtAttempt(w, others, i).server && AtAttempt(w, others, i).server[name] != copies[i].value
    ensures err == Some(Gone) <==>
              || copies[k].None?
              || (copies[k].value.value.uid == copies[0].value.value.uid
                  && Claimer(copies[k].value.value.nats, family).None?
                  && name !in AtAttempt(w, others, k).server)
    ensures err == Some(Conflicted) <==>
              && copies[k].Some? && Claimer(copies[0].value.value.nats, family).None?
              && (copies[k].value.value.uid != copies[0].value.value.uid
                  || Claimer(copies[k].value.value.nats, family) !in {None, Some(ref)}
                  || (k == 4 && Claimer(copies[k].value.value.nats, family).None?
                      && name in AtAttempt(w, others, k).server
                      && AtAttempt(w, others, k).server[name] != copies[k].value))
    ensures err.Some? && err != Some(AlreadyClaimed) ==> after == AtAttempt(w, others, k)
    ensures err.None? ==>
              && copies[k].Some? && copies[k].value.value.uid == copies[0].value.value.uid
              && var at, c := AtAttempt(w, others, k), copies[k].value;
              if Claimer(c.value.nats, family) == Some(ref) then
                after == at
              else
                && name in at.server && at.server[name] == c && Holder(after, name, family) == Some(ref)
                && after.server ==
                   at.server[name := Object(name, at.next, c.value.(nats := c.value.nats + [Nat(family, ref)]))]
  {
    hide Good, OthersPermitted, AllPermitted, CopiesArePast, Claimer, PatchOutcome, Do, Ran, AtAttempt, Holder;
    assert |others| == |copies| == ATTEMPTS && copies[0].Some? by { CopiesAreThere(w, name, others, copies); }
    var uid := copies[0].value.value.uid;
    after, k := w, 0;
    if Claimer(copies[0].value.value.nats, family).Some? {
      CopyIsPast(w, name, others, copies, 0);
      return after, Some(AlreadyClaimed), 0;
    }
    for i := 0 to ATTEMPTS
      invariant Good(after)
      invariant after == if i == 0 then w else AtAttempt(w, others, i - 1)
      invariant forall h: nat | h < i ::
                  && copies[h].Some? && copies[h].value.value.uid == uid
                  && Claimer(copies[h].value.value.nats, family).None?
                  && name in AtAttempt(w, others, h).server && AtAttempt(w, others, h).server[name] != copies[h].value
    {
      k := i;
      AttemptIsPermitted(w, others, i);
      RunKeepsGood(after, others[i]);
      after := Ran(after, others[i]);
      assert after == AtAttempt(w, others, i) by { AtAttemptIs(w, others, i); }
      if copies[i].None? {
        return after, Some(Gone), k;
      }
      var nic := copies[i].value;
      CopyIsPast(w, name, others, copies, i);
      if nic.value.uid != uid {
        return after, Some(Conflicted), k;
      }
      var existing := Claimer(nic.value.nats, family);
      if existing.Some? {
        if existing.value == ref {
          return after, None, k;
        }
        return after, Some(Conflicted), k;
      }
      OutcomeMeans(after, nic);
      var outcome := PatchOutcome(after, nic);
      if outcome == NotFound {
        return after, Some(Gone), k;
      }
      if outcome == Done {
        ClaimNeverOverwrites(after, nic, family, ref);
        StepKeepsGood(after, Claim(nic, family, ref));
        ClaimWrites(after, nic, family, ref);
        after := Do(after, Claim(nic, family, ref));
        return after, None, k;
      }
    }
    k := ATTEMPTS - 1;
    err := Some(Conflicted);
  }

  lemma AtAttemptIs(w: World, others: seq<seq<Step>>, k: nat)
    requires k < |others|
    ensures AtAttempt(w, others, k) == Ran(if k == 0 then w else AtAttempt(w, others, k - 1), others[k])
  {
  }

  /** What a patch comes to, over what the server has. */
  lemma OutcomeMeans(w: World, copy: Copy)
    requires Good(w) && copy in w.seen
    ensures PatchOutcome(w, copy) == NotFound <==> copy.name !in w.server
    ensures PatchOutcome(w, copy) == Done <==> copy.name in w.server && w.server[copy.name] == copy
  {
    DoneMeansCurrent(w, copy);
  }

  lemma CopiesAreThere(w: World, name: string, others: seq<seq<Step>>, copies: seq<Option<Copy>>)
    requires CopiesArePast(w, name, others, copies)
    ensures |others| == |copies| == ATTEMPTS && copies[0].Some?
  {
  }

  lemma AttemptIsPermitted(w: World, others: seq<seq<Step>>, k: nat)
    requires OthersPermitted(w, others) && k < |others|
    ensures AllPermitted(if k == 0 then w else AtAttempt(w, others, k - 1), others[k])
  {
  }

  /** A claim that goes through appends one entry to its interface, and changes nothing else on the
      server. */
  lemma ClaimWrites(w: World, copy: Copy, family: Family, ref: ClaimRef)
    requires PatchOutcome(w, copy) == Done
    ensures Do(w, Claim(copy, family, ref)).server ==
              w.server[copy.name := Object(copy.name, w.next,
                                           copy.value.(nats := copy.value.nats + [Nat(family, ref)]))]
  {
  }

  // ---- Releasing -------------------------------------------------------------------------------

  function WithoutFamily(nats: seq<Nat>, family: Family): seq<Nat> {
    if nats == [] then []
    else if nats[0].family == family then nats[1..]
    else [nats[0]] + WithoutFamily(nats[1..], family)
  }

  /** The object a patch is meant to bring about is compared with the object it started from; what
      differs is sent, along with the version. */
  function PatchedByDiff(w: World, base: Copy, modified: Copy): World {
    if base.value == modified.value then w else Patched(w, base, modified.value)
  }

  /** ReleaseNetworkInterfaceNAT: the entry is removed from the local copy, but the patch compares
      that copy with itself, so whatever happens nothing is removed on the server. Every attempt
      before the k-th was made from an outdated copy, still claimed as in the caller's, and the k-th
      decides: the release fails exactly when the interface is gone or every attempt conflicts. With a
      claimed and current copy it so reports success at once, and the claim is still there. */
  method ReleaseNetworkInterfaceNAT(w: World, name: string, family: Family, others: seq<seq<Step>>,
                                    copies: seq<Option<Copy>>)
    returns (after: World, failed: bool, ghost k: nat)
    requires Good(w) && CopiesArePast(w, name, others, copies) && OthersPermitted(w, others)
    ensures k < ATTEMPTS
    ensures Claimer(copies[0].value.value.nats, family).None? ==> after == w && !failed
    ensures Claimer(copies[0].value.value.nats, family).Some? ==> after == AtAttempt(w, others, k)
    ensures forall i: nat | i < k ::
              && copies[i].Some? && copies[i].value.value.uid == copies[0].value.value.uid
              && Claimer(copies[i].value.value.nats, family) == Claimer(copies[0].value.value.nats, family)
              && name in AtAttempt(w, others, i).server && AtAttempt(w, others, i).server[name] != copies[i].value
    ensures failed <==>
              && Claimer(copies[0].value.value.nats, family).Some?
              && (copies[k].None?
                  || (copies[k].value.value.uid == copies[0].value.value.uid
                      && Claimer(copies[k].value.value.nats, family) == Claimer(copies[0].value.value.nats, family)
                      && (name in AtAttempt(w, others, k).server ==>
                            k == 4 && AtAttempt(w, others, k).server[name] != copies[k].value)))
    ensures Claimer(copies[0].value.value.nats, family).Some? && name in AtAttempt(w, others, 0).server
            && AtAttempt(w, others, 0).server[name] == copies[0].value ==>
              k == 0 && !failed && Holder(after, name, family) == Claimer(copies[0].value.value.nats, family)
  {
    hide Good, OthersPermitted, AllPermitted, CopiesArePast, Claimer, PatchOutcome, Ran, AtAttempt;
    assert |others| == |copies| == ATTEMPTS && copies[0].Some? by { CopiesAreThere(w, name, others, copies); }
    var uid := copies[0].value.value.uid;
    var existing := Claimer(copies[0].value.value.nats, family);
    after, k := w, 0;
    if existing.None? {
      return after, false, 0;
    }
    for i := 0 to ATTEMPTS
      invariant Good(after)
      invariant after == if i == 0 then w else AtAttempt(w, others, i - 1)
      invariant forall h: nat | h < i ::
                  && copies[h].Some? && copies[h].value.value.uid == uid
                  && Claimer(copies[h].value.value.nats, family) == existing
                  && name in AtAttempt(w, others, h).server && AtAttempt(w, others, h).server[name] != copies[h].value
    {
      k := i;
      AttemptIsPermitted(w, others, i);
      RunKeepsGood(after, others[i]);
      after := Ran(after, others[i]);
      assert after == AtAttempt(w, others, i) by { AtAttemptIs(w, others, i); }
      if copies[i].None? {
        return after, true, k;
      }
      var nic := copies[i].value;
      CopyIsPast(w, name, others, copies, i);
      if nic.value.uid != uid || Claimer(nic.value.nats, family) != existing {
        return after, false, k;
      }
      OutcomeMeans(after, nic);
      nic := Object(nic.name, nic.version, nic.value.(nats := WithoutFamily(nic.value.nats, family)));
      SamePatch(after, copies[i].value, nic);
      var outcome := PatchOutcome(after, nic);
      after := PatchedByDiff(after, nic, nic);
      if outcome != Conflict {
        return after, outcome == NotFound, k;
      }
    }
    k := ATTEMPTS - 1;
    failed := true;
  }

  /** A patch's outcome depends on name and version only. */
  lemma SamePatch(w: World, a: Copy, b: Copy)
    requires a.name == b.name && a.version == b.version
    ensures PatchOutcome(w, a) == PatchOutcome(w, b)
  {
  }

  /** Had the patch been made from the copy as it was read, a current copy would have released the
      family, and only it. */
  lemma IntendedReleaseReleases(w: World, copy: Copy, family: Family)
    requires Good(w) && copy in w.seen && PatchOutcome(w, copy) == Done && Claimer(copy.value.nats, family).Some?
    ensures var modified := Object(copy.name, copy.version,
                                   copy.value.(nats := WithoutFamily(copy.value.nats, family)));
            && Holder(PatchedByDiff(w, copy, modified), copy.name, family).None?
            && (forall f | f != family ::
                Holder(PatchedByDiff(w, copy, modified), copy.name, f) == Holder(w, copy.name, f))
            && PatchedByDiff(w, modified, modified) == w
  {
    DoneMeansCurrent(w, copy);
    WithoutFamilyIs(copy.value.nats, family);
    var nats := WithoutFamily(copy.value.nats, family);
    assert Claimer(nats, family).None? && Claimer(copy.value.nats, family).Some?;
  }

  lemma {:induction false} WithoutFamilyIs(nats: seq<Nat>, family: Family)
    requires OnePerFamily(nats)
    ensures Claimer(WithoutFamily(nats, family), family).None?
    ensures forall f | f != family :: Claimer(WithoutFamily(nats, family), f) == Claimer(nats, f)
  {
    if nats != [] {
      assert OnePerFamily(nats[1..]);
      WithoutFamilyIs(nats[1..], family);
      var at := ClaimerIs(nats[1..], family);
      if nats[0].family != family {
        assert ([nats[0]] + WithoutFamily(nats[1..], family))[1..] == WithoutFamily(nats[1..], family);
      }
    }
  }
}
