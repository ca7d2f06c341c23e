/**
  The race between registrations of one oid, as Bolt and Cassandra run it: a registration looks the oid
  up, and writes the oid's size later if it found nothing. Other steps do not matter to it. (MySQL
  refuses the second write, see `MySQLConcurrent`.)
*/
module RegistrationRace {
  import opened Common

  type Pid = nat

  /** A registration that found its oid unknown and has yet to write it. */
  datatype Claim = Claim(oid: string, size: int)

  datatype State = State(sizes: map<string, int>, claims: map<Pid, Claim>)

  const NOTHING := State(map[], map[])

  datatype Action = LookUp(p: Pid, claim: Claim) | Write(p: Pid) | Drop(dead: set<Pid>)

  function Step(s: State, a: Action): State {
    match a
    case LookUp(p, claim) => if p in s.claims || claim.oid in s.sizes then s else s.(claims := s.claims[p := claim])
    case Write(p) =>
      if p in s.claims then State(s.sizes[s.claims[p].oid := s.claims[p].size], s.claims - {p}) else s
    case Drop(dead) => s.(claims := s.claims - dead)
  }

  function After(run: Run<Action>): State {
    match run
    case Start => NOTHING
    case Then(before, a) => Step(After(before), a)
  }

  ghost predicate KeepsSizes(s: map<string, int>, t: map<string, int>) {
    forall oid :: oid in s ==> oid in t && t[oid] == s[oid]
  }

  /** Once registered, a size never changes. */
  ghost predicate SizesStay(run: Run<Action>) {
    run.Then? ==> SizesStay(run.before) && KeepsSizes(After(run.before).sizes, After(run).sizes)
  }

  predicate WritesOid(s: State, a: Action, oid: string) {
    a.Write? && a.p in s.claims && s.claims[a.p].oid == oid
  }

  /** The step writes over a size that is registered and different. */
  predicate Overwrites(s: State, a: Action) {
    a.Write? && a.p in s.claims && s.claims[a.p].oid in s.sizes && s.sizes[s.claims[a.p].oid] != s.claims[a.p].size
  }

  ghost predicate NeverOverwrites(run: Run<Action>) {
    run.Then? ==> NeverOverwrites(run.before) && !Overwrites(After(run.before), run.action)
  }

  lemma {:induction false} SizesStayExactly(run: Run<Action>)
    ensures SizesStay(run) <==> NeverOverwrites(run)
  {
    if run.Then? {
      SizesStayExactly(run.before);
      var s := After(run.before);
      if Overwrites(s, run.action) {
        assert s.claims[run.action.p].oid in s.sizes;
      }
    }
  }

  /** The lookup of the registration `p`. */
  predicate LooksUp(s: State, a: Action, p: Pid) {
    a.LookUp? && a.p == p && p !in s.claims
  }

  /** Since `p` looked its oid up, some registration has written the oid. */
  ghost predicate WrittenSince(run: Run<Action>, p: Pid, oid: string) {
    run.Then? && !LooksUp(After(run.before), run.action, p) &&
    (WritesOid(After(run.before), run.action, oid) || WrittenSince(run.before, p, oid))
  }

  predicate WritesOtherSize(s: State, a: Action, claim: Claim) {
    WritesOid(s, a, claim.oid) && s.claims[a.p].size != claim.size
  }

  /** Since `p` looked its oid up, some registration has written the oid with another size. */
  ghost predicate DisputedSince(run: Run<Action>, p: Pid, claim: Claim) {
    run.Then? && !LooksUp(After(run.before), run.action, p) &&
    (WritesOtherSize(After(run.before), run.action, claim) || DisputedSince(run.before, p, claim))
  }

  /** No registration writes after another one, with another size, wrote the same oid since its lookup. */
  ghost predicate NeverDisputed(run: Run<Action>) {
    run.Then? ==>
      NeverDisputed(run.before) &&
      var s := After(run.before);
      (run.action.Write? && run.action.p in s.claims ==>
        !DisputedSince(run.before, run.action.p, s.claims[run.action.p]))
  }

  /** A registration about to write finds its oid still unregistered exactly if nobody wrote it since its lookup. */
  lemma {:induction false} StillNewExactly(run: Run<Action>, p: Pid)
    requires p in After(run).claims
    ensures var oid := After(run).claims[p].oid; oid !in After(run).sizes <==> !WrittenSince(run, p, oid)
  {
    if run.Then? {
      var s := After(run.before);
      if p in s.claims {
        StillNewExactly(run.before, p);
      }
    }
  }

  /** The registered size differs from the claimed one only if somebody wrote another one since the lookup. */
  lemma {:induction false} DifferentIsDisputed(run: Run<Action>, p: Pid)
    requires p in After(run).claims
    ensures var s := After(run);
      s.claims[p].oid in s.sizes && s.sizes[s.claims[p].oid] != s.claims[p].size ==> DisputedSince(run, p, s.claims[p])
  {
    if run.Then? && p in After(run.before).claims {
      DifferentIsDisputed(run.before, p);
    }
  }

  /** And if nobody overwrote, then somebody's other size is still there. */
  lemma {:induction false} DisputedIsDifferent(run: Run<Action>, p: Pid)
    requires p in After(run).claims && NeverOverwrites(run)
    ensures var s := After(run);
      DisputedSince(run, p, s.claims[p]) ==> s.claims[p].oid in s.sizes && s.sizes[s.claims[p].oid] != s.claims[p].size
  {
    if run.Then? && p in After(run.before).claims {
      DisputedIsDifferent(run.before, p);
    }
  }

  /**
    Sizes never change if and only if no registration writes an oid that another one has written,
    with another size, between the lookup and the write of the first.
  */
  lemma {:induction false} DisputesExactly(run: Run<Action>)
    ensures SizesStay(run) <==> NeverDisputed(run)
  {
    SizesStayExactly(run);
    if run.Then? {
      DisputesExactly(run.before);
      SizesStayExactly(run.before);
      var s, a := After(run.before), run.action;
      if a.Write? && a.p in s.claims {
        DifferentIsDisputed(run.before, a.p);
        if NeverOverwrites(run.before) {
          DisputedIsDifferent(run.before, a.p);
        }
      }
    }
  }
}
