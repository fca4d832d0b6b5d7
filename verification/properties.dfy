/** What one `Reconcile` call does to the store, case by case, and what two
    calls in a row do. */
module ReconcileProperties {
  import opened Templates
  import opened Reconciliation

  /** Reconciling a name that is not stored changes nothing. */
  lemma AbsentIsNoOp(s: Store, name: string, now: int, s': Store)
    requires name !in s && Reconciled(s, name, now, s')
    ensures s' == s
  {
  }

  /** A live canonical template takes neither branch. */
  lemma LiveCanonicalIsNoOp(s: Store, name: string, now: int, s': Store)
    requires WellKeyed(s) && name in s && IsCanonical(name) && !s[name].deleted
    requires Reconciled(s, name, now, s')
    ensures s' == s
  {
  }

  /** A template without a reason selector, or with a null or empty reason
      type, leads to no fetch, create or delete: the store is unchanged (the
      write-back of a deleted template stores the record it read). */
  lemma InertTemplateIsNoOp(s: Store, name: string, now: int, s': Store)
    requires name in s && ReasonOf(s[name]).None?
    requires Reconciled(s, name, now, s')
    ensures s' == s
  {
  }

  /** A non-canonical template with reason type `r`, deleted or not, creates
      nothing and touches no record but the canonical template of `r`, whose
      only change is its deletion mark: that mark is set exactly when the
      candidate was created strictly after the canonical template. */
  lemma {:induction false} CandidateBranch(s: Store, name: string, r: string, now: int, s': Store)
    requires WellKeyed(s) && name in s && !IsCanonical(name) && ReasonOf(s[name]) == Some(r)
    requires Reconciled(s, name, now, s')
    ensures s'.Keys == s.Keys
    ensures forall k :: k in s && k != CanonicalName(r) ==> s'[k] == s[k]
    ensures CanonicalName(r) in s ==>
              var one := s[CanonicalName(r)];
              s'[CanonicalName(r)] == one.(deleted := one.deleted || s[name].creation > one.creation)
    ensures s' != s <==> (CanonicalName(r) in s && !s[CanonicalName(r)].deleted
                          && s[name].creation > s[CanonicalName(r)].creation)
  {
    var cn := CanonicalName(r);
    assert !RecreationDue(s, s[name]);
    assert s' == CandidateOutcome(s, s[name]);
    if cn in s && s[cn].deleted {
      assert s[cn].(deleted := true) == s[cn];
    }
  }

  /** A candidate that is itself deleted still goes through the comparison and
      tombstones a live canonical template it is newer than. */
  lemma DeletedCandidateStillDeletes(s: Store, name: string, r: string, now: int, s': Store)
    requires WellKeyed(s) && name in s && s[name].deleted && !IsCanonical(name)
    requires ReasonOf(s[name]) == Some(r)
    requires CanonicalName(r) in s && !s[CanonicalName(r)].deleted
    requires s[name].creation > s[CanonicalName(r)].creation
    requires Reconciled(s, name, now, s')
    ensures CanonicalName(r) in s' && s'[CanonicalName(r)].deleted
    ensures s' != s
  {
    CandidateBranch(s, name, r, now, s');
  }

  /** A deleted canonical template with reason type `r` is recreated exactly
      when some live template of type `r` exists and every such template was
      created strictly after it: one older or equally old live template blocks
      the recreation, however many newer ones there are. */
  lemma {:induction false} RecreationIff(s: Store, name: string, r: string, now: int, s': Store)
    requires WellKeyed(s) && name in s && s[name].deleted && IsCanonical(name)
    requires ReasonOf(s[name]) == Some(r)
    requires Reconciled(s, name, now, s')
    ensures s' != s <==> (exists u :: u in s.Values && Listed(u, r)) &&
                         (forall u :: u in s.Values && Listed(u, r) ==> u.creation > s[name].creation)
    ensures s' == s <==> !RecreationDue(s, s[name])
  {
    var t := s[name];
    if RecreationDue(s, t) {
      var e :| IsEarliestListed(s, r, e) && s' == s[name := Replacement(t, e).(creation := now)];
      assert s'[name] != t;
      assert e in s.Values && Listed(e, r);
    } else {
      assert s' == s;
      if exists u :: u in s.Values && Listed(u, r) {
        EarliestListedExists(s, r);
        var e :| IsEarliestListed(s, r, e);
        assert e.creation <= t.creation;
      }
    }
  }

  /** A recreation writes exactly one record, under the deleted template's
      name: a live copy of a first listed template of its reason type that
      keeps the deleted template's html body and is stamped by the store as
      created at `now`, after every template in the store. */
  lemma RecreationShape(s: Store, name: string, now: int, s': Store)
    requires WellKeyed(s) && name in s && RecreationDue(s, s[name])
    requires Reconciled(s, name, now, s')
    ensures s'.Keys == s.Keys
    ensures forall k :: k in s && k != name ==> s'[k] == s[k]
    ensures var n := s'[name];
            n.name == name && !n.deleted && n.creation == now &&
            n.content.htmlBody == s[name].content.htmlBody &&
            exists e :: IsEarliestListed(s, ReasonOf(s[name]).value, e) && n.selector == e.selector &&
                        n.content.title == e.content.title && n.content.rawBody == e.content.rawBody
    ensures CreatedBefore(s, now) ==> forall u :: u in s.Values ==> u.creation < s'[name].creation
  {
  }

  /** Every reconcile keeps each template stored under its own name. */
  lemma ReconciledWellKeyed(s: Store, name: string, now: int, s': Store)
    requires WellKeyed(s) && Reconciled(s, name, now, s')
    ensures WellKeyed(s')
  {
  }

  /** A duplicate notification is harmless: reconciling the same name twice in
      a row ends where reconciling it once does. */
  lemma {:induction false} ReconcileIdempotent(s: Store, name: string, now1: int, now2: int, s1: Store, s2: Store)
    requires WellKeyed(s)
    requires Reconciled(s, name, now1, s1) && Reconciled(s1, name, now2, s2)
    ensures s2 == s1
  {
    if name in s {
      var t := s[name];
      if RecreationDue(s, t) {
        RecreationShape(s, name, now1, s1);
        ReconciledWellKeyed(s, name, now1, s1);
        LiveCanonicalIsNoOp(s1, name, now2, s2);
      } else if IsCanonical(name) || ReasonOf(t).None? {
        assert s1 == s;
      } else {
        var r := ReasonOf(t).value;
        CandidateBranch(s, name, r, now1, s1);
        assert s1[name] == t;
        ReconciledWellKeyed(s, name, now1, s1);
        CandidateBranch(s1, name, r, now2, s2);
      }
    }
  }

  /** A promotion as two reconciles carry it out. A candidate `b` created
      after the live canonical template of `r` tombstones it; reconciling the
      canonical name then recreates it from `b` when every other live template
      of `r` is newer than `b`. The recreated canonical takes `b`'s selector,
      title and raw body, keeps its own html body, and is created at `now2`. */
  lemma {:induction false} PromotionCarriesCandidate(s: Store, r: string, b: string, now1: int, now2: int, s1: Store, s2: Store)
    requires WellKeyed(s)
    requires CanonicalName(r) in s && !s[CanonicalName(r)].deleted && ReasonOf(s[CanonicalName(r)]) == Some(r)
    requires b in s && !IsCanonical(b) && !s[b].deleted && ReasonOf(s[b]) == Some(r)
    requires s[b].creation > s[CanonicalName(r)].creation
    requires forall k :: k in s && k != b && k != CanonicalName(r) && Listed(s[k], r) ==> s[b].creation < s[k].creation
    requires Reconciled(s, b, now1, s1) && Reconciled(s1, CanonicalName(r), now2, s2)
    ensures s2.Keys == s.Keys
    ensures var one := s2[CanonicalName(r)];
            one.name == CanonicalName(r) && !one.deleted &&
            one.content.htmlBody == s[CanonicalName(r)].content.htmlBody &&
            one.creation == now2 && one.selector == s[b].selector &&
            one.content.title == s[b].content.title && one.content.rawBody == s[b].content.rawBody
  {
    var cn := CanonicalName(r);
    CandidateBranch(s, b, r, now1, s1);
    ReconciledWellKeyed(s, b, now1, s1);
    assert s1[cn] == s[cn].(deleted := true);
    assert IsEarliestListed(s1, r, s[b]) by {
      assert s1[b] == s[b];
      forall u | u in s1.Values && Listed(u, r) ensures s[b].creation <= u.creation {
        var k :| k in s1 && s1[k] == u;
        assert k != cn;
      }
    }
    assert RecreationDue(s1, s1[cn]);
    var e :| IsEarliestListed(s1, r, e) && s2 == s1[cn := Replacement(s1[cn], e).(creation := now2)];
    var k :| k in s1 && s1[k] == e;
    assert k == b;
  }

  /** The other outcome of the same two reconciles: when a live template of
      `r` other than the canonical is as old as the canonical or older, the
      canonical template stays tombstoned and nothing is recreated. */
  lemma {:induction false} PromotionBlockedByOlderTemplate(s: Store, r: string, b: string, now1: int, now2: int, s1: Store, s2: Store)
    requires WellKeyed(s)
    requires CanonicalName(r) in s && !s[CanonicalName(r)].deleted && ReasonOf(s[CanonicalName(r)]) == Some(r)
    requires b in s && !IsCanonical(b) && ReasonOf(s[b]) == Some(r)
    requires s[b].creation > s[CanonicalName(r)].creation
    requires exists k :: k in s && k != CanonicalName(r) && Listed(s[k], r)
                         && s[k].creation <= s[CanonicalName(r)].creation
    requires Reconciled(s, b, now1, s1) && Reconciled(s1, CanonicalName(r), now2, s2)
    ensures s2 == s1
    ensures CanonicalName(r) in s2 && s2[CanonicalName(r)].deleted
  {
    var cn := CanonicalName(r);
    CandidateBranch(s, b, r, now1, s1);
    ReconciledWellKeyed(s, b, now1, s1);
    var k :| k in s && k != cn && Listed(s[k], r) && s[k].creation <= s[cn].creation;
    assert s1[k] == s[k];
    RecreationIff(s1, cn, r, now2, s2);
  }

  /** Once recreated, the canonical template is the newest template in the
      store, so reconciling any other template already stored leaves it live
      and unchanged: no existing candidate is created after it. */
  lemma {:induction false} RecreatedCanonicalStaysLive(s: Store, cn: string, c: string, now1: int, now2: int, s1: Store, s2: Store)
    requires WellKeyed(s) && CreatedBefore(s, now1) && cn in s && RecreationDue(s, s[cn])
    requires Reconciled(s, cn, now1, s1)
    requires c in s && c != cn
    requires Reconciled(s1, c, now2, s2)
    ensures cn in s2 && s2[cn] == s1[cn] && !s2[cn].deleted
  {
    RecreationShape(s, cn, now1, s1);
    ReconciledWellKeyed(s, cn, now1, s1);
    var t := s1[c];
    assert t == s[c];
    if RecreationDue(s1, t) {
      assert s2 == s1[c := s2[c]];
    } else if !IsCanonical(c) && ReasonOf(t).Some? {
      CandidateBranch(s1, c, ReasonOf(t).value, now2, s2);
      assert t in s.Values;
    } else {
      assert s2 == s1;
    }
  }
}
