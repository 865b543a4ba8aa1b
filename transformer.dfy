/** The older single-threshold transformer: the same reading and tables as
    the expander, but no multiple-testing correction. The sets below the
    p threshold are ranked by p-value, and their members are appended
    under a seen-check that compares bare member ids with prefixed keys. */
module Transformer {
  import opened Genes
  import opened GeneSets
  import opened Ranking

  /** A set below the p threshold, with its members and its own p-value
      (the dictionary `gene_set_pvalues`, in insertion order). */
  datatype Candidate = Candidate(id: string, members: seq<string>, pValue: real)

  /** The ranking key. */
  function PValueOf(c: Candidate): real
  {
    c.pValue
  }

  /** The p filter of the testing loop: the tested sets whose p-value is
      strictly below the threshold, in testing order. */
  function PassP(ts: seq<Tested>, maxP: real, rows: map<string, Row>): seq<Candidate>
    requires forall j :: 0 <= j < |ts| ==> ts[j].id in rows
  {
    if ts == [] then []
    else
      var t := ts[|ts| - 1];
      var rest := PassP(ts[..|ts| - 1], maxP, rows);
      if t.pValue < maxP then rest + [Candidate(t.id, rows[t.id].members, t.pValue)] else rest
  }

  /** A tested set is a candidate exactly when its p-value is strictly below
      the threshold, and every candidate is such a set with its own members
      and p-value. */
  lemma {:induction false} PassPIff(ts: seq<Tested>, maxP: real, rows: map<string, Row>)
    requires forall j :: 0 <= j < |ts| ==> ts[j].id in rows
    ensures forall j :: 0 <= j < |ts| ==>
              (Candidate(ts[j].id, rows[ts[j].id].members, ts[j].pValue) in PassP(ts, maxP, rows) <==> ts[j].pValue < maxP)
    ensures forall c :: c in PassP(ts, maxP, rows) ==> c.pValue < maxP && PassedAt(c, ts, rows)
  {
    if ts != [] {
      var init := ts[..|ts| - 1];
      var t := ts[|ts| - 1];
      PassPIff(init, maxP, rows);
      var rest := PassP(init, maxP, rows);
      forall j | 0 <= j < |ts|
        ensures Candidate(ts[j].id, rows[ts[j].id].members, ts[j].pValue) in PassP(ts, maxP, rows) <==> ts[j].pValue < maxP
      {
        var c := Candidate(ts[j].id, rows[ts[j].id].members, ts[j].pValue);
        if j < |init| {
          assert init[j] == ts[j];
        }
        if c in rest {
          assert c.pValue < maxP;
        }
      }
      forall c | c in PassP(ts, maxP, rows) ensures c.pValue < maxP && PassedAt(c, ts, rows) {
        if c in rest {
          var j :| 0 <= j < |init| && c == Candidate(init[j].id, rows[init[j].id].members, init[j].pValue);
          assert init[j] == ts[j];
        } else {
          assert c == Candidate(ts[|ts| - 1].id, rows[ts[|ts| - 1].id].members, ts[|ts| - 1].pValue);
        }
      }
    }
  }

  /** c is the candidate record of some tested set. */
  ghost predicate PassedAt(c: Candidate, ts: seq<Tested>, rows: map<string, Row>)
    requires forall j :: 0 <= j < |ts| ==> ts[j].id in rows
  {
    exists j :: 0 <= j < |ts| && c == Candidate(ts[j].id, rows[ts[j].id].members, ts[j].pValue)
  }

  /** A gene appended by the transformer: its id is the prefixed member, it
      has no identifiers, and it carries the gene set and the p-value and
      odds ratio left over from the testing loop. */
  function NewGene(c: Candidate, member: string, pValue: real, oddsRatio: real): Gene
  {
    Gene(EntrezPrefix + member, None, [GeneSetAttr(c.id), PValueAttr(pValue), OddsRatioAttr(oddsRatio)])
  }

  /** The state of the expansion: genes appended so far and the keys of the
      `genes` dictionary. */
  datatype Growth = Growth(added: seq<Gene>, seen: set<string>)

  /** One member: the bare member id is looked up among the keys, but the
      key inserted is the prefixed id. */
  function AddMember(g: Growth, c: Candidate, member: string, pValue: real, oddsRatio: real): Growth
  {
    if member in g.seen then g
    else Growth(g.added + [NewGene(c, member, pValue, oddsRatio)], g.seen + {EntrezPrefix + member})
  }

  function AddMembers(g: Growth, c: Candidate, members: seq<string>, pValue: real, oddsRatio: real): Growth
  {
    if members == [] then g
    else AddMember(AddMembers(g, c, members[..|members| - 1], pValue, oddsRatio), c, members[|members| - 1], pValue, oddsRatio)
  }

  function AddSets(g: Growth, cs: seq<Candidate>, pValue: real, oddsRatio: real): Growth
  {
    if cs == [] then g
    else
      var c := cs[|cs| - 1];
      AddMembers(AddSets(g, cs[..|cs| - 1], pValue, oddsRatio), c, c.members, pValue, oddsRatio)
  }

  /** The genes appended for initial keys seen0 and ranked candidates cs. */
  function Appended(seen0: set<string>, cs: seq<Candidate>, pValue: real, oddsRatio: real): seq<Gene>
  {
    AddSets(Growth([], seen0), cs, pValue, oddsRatio).added
  }

  /** Everything up to the ranking, or the set whose table made the exact
      test fail. */
  datatype RankedCandidates = RankedCandidates(tests: seq<Tested>, ranked: seq<Candidate>)

  function Rank(genes: seq<Gene>, controls: seq<Control>, lines: seq<seq<string>>,
                fisher: Table -> FisherResult): Result<RankedCandidates>
  {
    var cat := ReadCatalogue(genes, lines);
    match TestAll(cat.order, cat.rows, |cat.universe|, fisher)
    case Failed(id) => Err(id)
    case Passed(ts) =>
      TestAllOutcome(cat.order, cat.rows, |cat.universe|, fisher);
      var passing := PassP(ts, GetControl(ControlDict(controls), MaxPValue), cat.rows);
      Ok(RankedCandidates(ts, SortBy(passing, PValueOf)))
  }

  /** `transform_post`: the query's genes followed by the appended ones, or
      the failing set. */
  function TransformSpec(genes: seq<Gene>, controls: seq<Control>, lines: seq<seq<string>>,
                         fisher: Table -> FisherResult): (r: Result<seq<Gene>>)
    ensures r.Ok? ==> |r.value| >= |genes| && r.value[..|genes|] == genes
  {
    match Rank(genes, controls, lines, fisher)
    case Err(id) => Err(id)
    case Ok(rk) => Ok(genes + Appended(InputKeys(genes), rk.ranked, LastPValue(rk.tests), LastOddsRatio(rk.tests)))
  }

  /** An appended gene is the prefixed form of a member of one of the
      candidates, a member whose bare id is not an initial key. */
  ghost predicate FromCandidate(gene: Gene, cs: seq<Candidate>, seen0: set<string>, pValue: real, oddsRatio: real)
  {
    exists l, t :: 0 <= l < |cs| && 0 <= t < |cs[l].members| && cs[l].members[t] !in seen0 &&
      gene == NewGene(cs[l], cs[l].members[t], pValue, oddsRatio)
  }

  /** The invariant of the expansion loops over the finished candidates cs
      and the first `done` members of c. */
  ghost predicate Progress(g: Growth, seen0: set<string>, cs: seq<Candidate>, c: Candidate, done: nat,
                           pValue: real, oddsRatio: real)
  {
    done <= |c.members| && seen0 <= g.seen &&
    forall i :: 0 <= i < |g.added| ==> FromCandidate(g.added[i], cs + [c.(members := c.members[..done])], seen0, pValue, oddsRatio)
  }

  lemma AddMemberProgress(g: Growth, seen0: set<string>, cs: seq<Candidate>, c: Candidate, done: nat,
                          pValue: real, oddsRatio: real)
    requires Progress(g, seen0, cs, c, done, pValue, oddsRatio) && done < |c.members|
    ensures Progress(AddMember(g, c, c.members[done], pValue, oddsRatio), seen0, cs, c, done + 1, pValue, oddsRatio)
  {
    var before := cs + [c.(members := c.members[..done])];
    var after := cs + [c.(members := c.members[..done + 1])];
    var g' := AddMember(g, c, c.members[done], pValue, oddsRatio);
    forall i | 0 <= i < |g'.added| ensures FromCandidate(g'.added[i], after, seen0, pValue, oddsRatio) {
      if i < |g.added| {
        assert g'.added[i] == g.added[i];
        var l, t :| 0 <= l < |before| && 0 <= t < |before[l].members| && before[l].members[t] !in seen0 &&
                    g.added[i] == NewGene(before[l], before[l].members[t], pValue, oddsRatio);
        assert after[l].id == before[l].id && after[l].members[t] == before[l].members[t];
      } else {
        assert after[|cs|].members[done] == c.members[done];
        assert g'.added[i] == NewGene(after[|cs|], after[|cs|].members[done], pValue, oddsRatio);
      }
    }
  }

  lemma {:induction false} AddMembersProgress(g: Growth, seen0: set<string>, cs: seq<Candidate>, c: Candidate, done: nat,
                                              pValue: real, oddsRatio: real)
    requires Progress(g, seen0, cs, c, 0, pValue, oddsRatio) && done <= |c.members|
    ensures Progress(AddMembers(g, c, c.members[..done], pValue, oddsRatio), seen0, cs, c, done, pValue, oddsRatio)
  {
    if done > 0 {
      AddMembersProgress(g, seen0, cs, c, done - 1, pValue, oddsRatio);
      assert c.members[..done][..done - 1] == c.members[..done - 1];
      AddMemberProgress(AddMembers(g, c, c.members[..done - 1], pValue, oddsRatio), seen0, cs, c, done - 1, pValue, oddsRatio);
    } else {
      assert c.members[..0] == [];
    }
  }

  lemma FinishSet(g: Growth, seen0: set<string>, cs: seq<Candidate>, c: Candidate, next: Candidate,
                  pValue: real, oddsRatio: real)
    requires Progress(g, seen0, cs, c, |c.members|, pValue, oddsRatio)
    ensures Progress(g, seen0, cs + [c], next, 0, pValue, oddsRatio)
  {
    assert c.(members := c.members[..|c.members|]) == c;
    var before := cs + [c];
    var after := cs + [c] + [next.(members := next.members[..0])];
    forall i | 0 <= i < |g.added| ensures FromCandidate(g.added[i], after, seen0, pValue, oddsRatio) {
      var l, t :| 0 <= l < |before| && 0 <= t < |before[l].members| && before[l].members[t] !in seen0 &&
                  g.added[i] == NewGene(before[l], before[l].members[t], pValue, oddsRatio);
      assert after[l] == before[l];
    }
  }

  lemma {:induction false} AddSetsProgress(seen0: set<string>, cs: seq<Candidate>, next: Candidate,
                                           pValue: real, oddsRatio: real)
    ensures Progress(AddSets(Growth([], seen0), cs, pValue, oddsRatio), seen0, cs, next, 0, pValue, oddsRatio)
  {
    if cs != [] {
      var init := cs[..|cs| - 1];
      var c := cs[|cs| - 1];
      AddSetsProgress(seen0, init, c, pValue, oddsRatio);
      AddMembersProgress(AddSets(Growth([], seen0), init, pValue, oddsRatio), seen0, init, c, |c.members|, pValue, oddsRatio);
      assert c.members[..|c.members|] == c.members;
      FinishSet(AddMembers(AddSets(Growth([], seen0), init, pValue, oddsRatio), c, c.members, pValue, oddsRatio),
                seen0, init, c, next, pValue, oddsRatio);
      assert init + [c] == cs;
    }
  }

  /** Every appended gene is the prefixed form of a member of a candidate
      whose bare id is not an input key, and carries that candidate's id;
      conversely no member is dropped: each one is an input key, or the id
      of an appended gene, or its prefixed form is. */
  lemma AppendedGenes(seen0: set<string>, cs: seq<Candidate>, pValue: real, oddsRatio: real, added: seq<Gene>)
    requires added == Appended(seen0, cs, pValue, oddsRatio)
    ensures forall i :: 0 <= i < |added| ==> FromCandidate(added[i], cs, seen0, pValue, oddsRatio)
    ensures forall l, t :: 0 <= l < |cs| && 0 <= t < |cs[l].members| ==> Reached(cs[l].members[t], added, seen0)
  {
    var next := Candidate("", [], 0.0);
    AddSetsCovered(seen0, cs, next, pValue, oddsRatio);
    AddSetsProgress(seen0, cs, next, pValue, oddsRatio);
    var all := cs + [next.(members := next.members[..0])];
    forall i | 0 <= i < |added| ensures FromCandidate(added[i], cs, seen0, pValue, oddsRatio) {
      var l, t :| 0 <= l < |all| && 0 <= t < |all[l].members| && all[l].members[t] !in seen0 &&
                  added[i] == NewGene(all[l], all[l].members[t], pValue, oddsRatio);
      assert l != |cs|;
      assert all[l] == cs[l];
    }
  }

  /** Some appended gene has id x. */
  ghost predicate AppendedId(x: string, added: seq<Gene>)
  {
    exists i :: 0 <= i < |added| && added[i].geneId == x
  }

  /** What becomes of a member the loops visited: it was an input key, or it
      is the id of an appended gene, or its prefixed form is. */
  ghost predicate Reached(m: string, added: seq<Gene>, seen0: set<string>)
  {
    m in seen0 || AppendedId(m, added) || AppendedId(EntrezPrefix + m, added)
  }

  /** Every key is an initial key or the id of an appended gene. */
  ghost predicate SeenFrom(g: Growth, seen0: set<string>)
  {
    forall x :: x in g.seen ==> x in seen0 || AppendedId(x, g.added)
  }

  /** The completeness invariant of the expansion loops over the finished
      candidates cs and the first `done` members of c. */
  ghost predicate Covered(g: Growth, seen0: set<string>, cs: seq<Candidate>, c: Candidate, done: nat)
  {
    done <= |c.members| && SeenFrom(g, seen0) &&
    (forall l, t :: 0 <= l < |cs| && 0 <= t < |cs[l].members| ==> Reached(cs[l].members[t], g.added, seen0)) &&
    forall t :: 0 <= t < done ==> Reached(c.members[t], g.added, seen0)
  }

  lemma AppendedIdGrows(x: string, added: seq<Gene>, gene: Gene)
    requires AppendedId(x, added)
    ensures AppendedId(x, added + [gene])
  {
    var i :| 0 <= i < |added| && added[i].geneId == x;
    assert (added + [gene])[i] == added[i];
  }

  lemma ReachedGrows(m: string, added: seq<Gene>, gene: Gene, seen0: set<string>)
    requires Reached(m, added, seen0)
    ensures Reached(m, added + [gene], seen0)
  {
    if AppendedId(m, added) {
      AppendedIdGrows(m, added, gene);
    } else if AppendedId(EntrezPrefix + m, added) {
      AppendedIdGrows(EntrezPrefix + m, added, gene);
    }
  }

  lemma AddMemberCovered(g: Growth, seen0: set<string>, cs: seq<Candidate>, c: Candidate, done: nat,
                         pValue: real, oddsRatio: real)
    requires Covered(g, seen0, cs, c, done) && done < |c.members|
    ensures Covered(AddMember(g, c, c.members[done], pValue, oddsRatio), seen0, cs, c, done + 1)
  {
    var m := c.members[done];
    if m !in g.seen {
      var gene := NewGene(c, m, pValue, oddsRatio);
      var g' := AddMember(g, c, m, pValue, oddsRatio);
      assert g'.added == g.added + [gene];
      assert g'.added[|g.added|].geneId == EntrezPrefix + m;
      assert AppendedId(EntrezPrefix + m, g'.added);
      forall x | x in g'.seen ensures x in seen0 || AppendedId(x, g'.added) {
        if x in g.seen && x !in seen0 {
          AppendedIdGrows(x, g.added, gene);
        }
      }
      forall l, t | 0 <= l < |cs| && 0 <= t < |cs[l].members| ensures Reached(cs[l].members[t], g'.added, seen0) {
        ReachedGrows(cs[l].members[t], g.added, gene, seen0);
      }
      forall t | 0 <= t < done + 1 ensures Reached(c.members[t], g'.added, seen0) {
        if t < done {
          ReachedGrows(c.members[t], g.added, gene, seen0);
        }
      }
    }
  }

  lemma {:induction false} AddMembersCovered(g: Growth, seen0: set<string>, cs: seq<Candidate>, c: Candidate, done: nat,
                                             pValue: real, oddsRatio: real)
    requires Covered(g, seen0, cs, c, 0) && done <= |c.members|
    ensures Covered(AddMembers(g, c, c.members[..done], pValue, oddsRatio), seen0, cs, c, done)
  {
    if done > 0 {
      AddMembersCovered(g, seen0, cs, c, done - 1, pValue, oddsRatio);
      assert c.members[..done][..done - 1] == c.members[..done - 1];
      AddMemberCovered(AddMembers(g, c, c.members[..done - 1], pValue, oddsRatio), seen0, cs, c, done - 1, pValue, oddsRatio);
    } else {
      assert c.members[..0] == [];
    }
  }

  lemma FinishSetCovered(g: Growth, seen0: set<string>, cs: seq<Candidate>, c: Candidate, next: Candidate)
    requires Covered(g, seen0, cs, c, |c.members|)
    ensures Covered(g, seen0, cs + [c], next, 0)
  {
    var after := cs + [c];
    forall l, t | 0 <= l < |after| && 0 <= t < |after[l].members| ensures Reached(after[l].members[t], g.added, seen0) {
      if l == |cs| {
        assert after[l] == c;
      } else {
        assert after[l] == cs[l];
      }
    }
  }

  lemma {:induction false} AddSetsCovered(seen0: set<string>, cs: seq<Candidate>, next: Candidate,
                                          pValue: real, oddsRatio: real)
    ensures Covered(AddSets(Growth([], seen0), cs, pValue, oddsRatio), seen0, cs, next, 0)
  {
    if cs != [] {
      var init := cs[..|cs| - 1];
      var c := cs[|cs| - 1];
      AddSetsCovered(seen0, init, c, pValue, oddsRatio);
      AddMembersCovered(AddSets(Growth([], seen0), init, pValue, oddsRatio), seen0, init, c, |c.members|, pValue, oddsRatio);
      assert c.members[..|c.members|] == c.members;
      FinishSetCovered(AddMembers(AddSets(Growth([], seen0), init, pValue, oddsRatio), c, c.members, pValue, oddsRatio),
                       seen0, init, c, next);
      assert init + [c] == cs;
    }
  }

  /** The seen-check tests the bare id but inserts the prefixed one, so a
      member shared by two candidates is appended twice. */
  lemma SharedMemberAppendedTwice(pValue: real, oddsRatio: real)
    ensures |Appended({}, [Candidate("A", ["5"], 0.0), Candidate("B", ["5"], 0.0)], pValue, oddsRatio)| == 2
    ensures Appended({}, [Candidate("A", ["5"], 0.0), Candidate("B", ["5"], 0.0)], pValue, oddsRatio)[0].geneId ==
            Appended({}, [Candidate("A", ["5"], 0.0), Candidate("B", ["5"], 0.0)], pValue, oddsRatio)[1].geneId
  {
    var a, b := Candidate("A", ["5"], 0.0), Candidate("B", ["5"], 0.0);
    var g0 := Growth([], {});
    assert [a, b][..1] == [a];
    assert [a][..0] == [];
    assert a.members[..0] == [] && b.members[..0] == [];
    assert AddSets(g0, [], pValue, oddsRatio) == g0;
    assert AddMembers(g0, a, [], pValue, oddsRatio) == g0;
    var g1 := AddMember(g0, a, "5", pValue, oddsRatio);
    assert EntrezPrefix + "5" == "NCBIGene:5";
    assert g1 == Growth([NewGene(a, "5", pValue, oddsRatio)], {"NCBIGene:5"});
    assert AddMembers(g0, a, a.members, pValue, oddsRatio) == g1;
    assert AddSets(g0, [a], pValue, oddsRatio) == g1;
    assert "5" !in g1.seen by {
      assert "5" != "NCBIGene:5";
    }
    assert AddMembers(g1, b, [], pValue, oddsRatio) == g1;
    var g2 := AddMember(g1, b, "5", pValue, oddsRatio);
    assert g2.added == [NewGene(a, "5", pValue, oddsRatio), NewGene(b, "5", pValue, oddsRatio)];
    assert AddMembers(g1, b, b.members, pValue, oddsRatio) == g2;
    assert AddSets(g0, [a, b], pValue, oddsRatio) == g2;
  }

  /** When no member carries the "NCBIGene:" prefix, the keys never match a
      member after the start, so each candidate contributes one gene per
      member occurrence not among the input keys: sets sharing a member
      each append it. */
  function EveryOccurrence(cs: seq<Candidate>, seen0: set<string>, pValue: real, oddsRatio: real): seq<Gene>
  {
    if cs == [] then []
    else
      var c := cs[|cs| - 1];
      EveryOccurrence(cs[..|cs| - 1], seen0, pValue, oddsRatio) + Occurrences(c, c.members, seen0, pValue, oddsRatio)
  }

  function Occurrences(c: Candidate, ms: seq<string>, seen0: set<string>, pValue: real, oddsRatio: real): seq<Gene>
  {
    if ms == [] then []
    else
      var m := ms[|ms| - 1];
      Occurrences(c, ms[..|ms| - 1], seen0, pValue, oddsRatio) + (if m in seen0 then [] else [NewGene(c, m, pValue, oddsRatio)])
  }

  /** The keys outside seen0 all carry the prefix. */
  ghost predicate OnlyPrefixedAdded(g: Growth, seen0: set<string>)
  {
    seen0 <= g.seen && forall x :: x in g.seen && x !in seen0 ==> HasEntrezPrefix(x)
  }

  lemma {:induction false} OccurrencesExact(g: Growth, seen0: set<string>, c: Candidate, ms: seq<string>,
                                            pValue: real, oddsRatio: real)
    requires OnlyPrefixedAdded(g, seen0)
    requires forall t :: 0 <= t < |ms| ==> !HasEntrezPrefix(ms[t])
    ensures OnlyPrefixedAdded(AddMembers(g, c, ms, pValue, oddsRatio), seen0)
    ensures AddMembers(g, c, ms, pValue, oddsRatio).added == g.added + Occurrences(c, ms, seen0, pValue, oddsRatio)
  {
    if ms != [] {
      var init := ms[..|ms| - 1];
      var m := ms[|ms| - 1];
      OccurrencesExact(g, seen0, c, init, pValue, oddsRatio);
      var h := AddMembers(g, c, init, pValue, oddsRatio);
      assert m in h.seen <==> m in seen0;
      StripPrefixed(m);
    }
  }

  lemma {:induction false} EveryOccurrenceExact(seen0: set<string>, cs: seq<Candidate>, pValue: real, oddsRatio: real)
    requires forall l, t :: 0 <= l < |cs| && 0 <= t < |cs[l].members| ==> !HasEntrezPrefix(cs[l].members[t])
    ensures OnlyPrefixedAdded(AddSets(Growth([], seen0), cs, pValue, oddsRatio), seen0)
    ensures Appended(seen0, cs, pValue, oddsRatio) == EveryOccurrence(cs, seen0, pValue, oddsRatio)
  {
    if cs != [] {
      var init := cs[..|cs| - 1];
      var c := cs[|cs| - 1];
      assert forall l :: 0 <= l < |init| ==> init[l] == cs[l];
      EveryOccurrenceExact(seen0, init, pValue, oddsRatio);
      OccurrencesExact(AddSets(Growth([], seen0), init, pValue, oddsRatio), seen0, c, c.members, pValue, oddsRatio);
    }
  }

  /** The testing loop with the p filter: the failing set if a table has a
      negative cell, otherwise the candidates and the p-value and odds
      ratio left over from the last test. */
  method TestGeneSets(order: seq<string>, rows: map<string, Row>, m: int, fisher: Table -> FisherResult, maxP: real)
    returns (failed: Option<string>, passing: seq<Candidate>, pValue: real, oddsRatio: real)
    requires forall i :: 0 <= i < |order| ==> order[i] in rows
    ensures failed.Some? <==> TestAll(order, rows, m, fisher).Failed?
    ensures failed.Some? ==> failed.value == TestAll(order, rows, m, fisher).id
    ensures TestAll(order, rows, m, fisher).Passed? ==>
              forall j :: 0 <= j < |TestAll(order, rows, m, fisher).tests| ==> TestAll(order, rows, m, fisher).tests[j].id in rows
    ensures TestAll(order, rows, m, fisher).Passed? ==>
              passing == PassP(TestAll(order, rows, m, fisher).tests, maxP, rows) &&
              pValue == LastPValue(TestAll(order, rows, m, fisher).tests) &&
              oddsRatio == LastOddsRatio(TestAll(order, rows, m, fisher).tests)
  {
    ghost var ts: seq<Tested> := [];
    passing, pValue, oddsRatio := [], 0.0, 0.0;
    for i := 0 to |order|
      invariant TestAll(order[..i], rows, m, fisher) == Passed(ts)
      invariant |ts| == i && forall j :: 0 <= j < i ==> ts[j].id in rows
      invariant passing == PassP(ts, maxP, rows)
      invariant pValue == LastPValue(ts) && oddsRatio == LastOddsRatio(ts)
    {
      var id := order[i];
      var row := rows[id];
      var table := Table(row.yy, row.yn, row.ny, m - row.yy - row.yn - row.ny);
      assert table == TableOf(rows[order[i]], m);
      TestAllStep(order, rows, m, fisher, i, ts);
      if !NonNegativeTable(table) {
        FailurePersists(order, rows, m, fisher, i + 1);
        return Some(id), passing, pValue, oddsRatio;
      }
      var result := fisher(table);
      oddsRatio := result.oddsRatio;
      pValue := result.pValue;
      if pValue < maxP {
        passing := passing + [Candidate(id, rows[id].members, pValue)];
      }
      ghost var t := Tested(id, oddsRatio, pValue);
      PassPStep(ts, t, maxP, rows);
      ts := ts + [t];
    }
    assert order[..|order|] == order;
    failed := None;
  }

  /** The candidates and the leftover values grow with one more test. */
  lemma PassPStep(ts: seq<Tested>, t: Tested, maxP: real, rows: map<string, Row>)
    requires t.id in rows && forall j :: 0 <= j < |ts| ==> ts[j].id in rows
    ensures forall j :: 0 <= j < |ts + [t]| ==> (ts + [t])[j].id in rows
    ensures PassP(ts + [t], maxP, rows) ==
              if t.pValue < maxP then PassP(ts, maxP, rows) + [Candidate(t.id, rows[t.id].members, t.pValue)]
              else PassP(ts, maxP, rows)
    ensures LastPValue(ts + [t]) == t.pValue && LastOddsRatio(ts + [t]) == t.oddsRatio
    ensures Ids(ts + [t]) == Ids(ts) + [t.id]
  {
    assert (ts + [t])[..|ts|] == ts;
  }

  /** The expansion loops, appending to the caller's gene list in place. */
  method AppendGenes(query: Query, ranked: seq<Candidate>, keys: set<string>, pValue: real, oddsRatio: real)
    modifies query
    ensures query.genes == old(query.genes) + Appended(keys, ranked, pValue, oddsRatio)
    ensures query.controls == old(query.controls)
  {
    var seen := keys;
    ghost var g0 := Growth([], keys);
    for j := 0 to |ranked|
      invariant query.genes == old(query.genes) + AddSets(g0, ranked[..j], pValue, oddsRatio).added
      invariant seen == AddSets(g0, ranked[..j], pValue, oddsRatio).seen
      invariant query.controls == old(query.controls)
    {
      var c := ranked[j];
      assert ranked[..j + 1][..j] == ranked[..j];
      ghost var before := AddSets(g0, ranked[..j], pValue, oddsRatio);
      for t := 0 to |c.members|
        invariant query.genes == old(query.genes) + AddMembers(before, c, c.members[..t], pValue, oddsRatio).added
        invariant seen == AddMembers(before, c, c.members[..t], pValue, oddsRatio).seen
        invariant query.controls == old(query.controls)
      {
        assert c.members[..t + 1][..t] == c.members[..t];
        var geneId := c.members[t];
        if geneId !in seen {
          var entrezId := EntrezPrefix + geneId;
          seen := seen + {entrezId};
          query.genes := query.genes + [NewGene(c, geneId, pValue, oddsRatio)];
        }
      }
      assert c.members[..|c.members|] == c.members;
    }
    assert ranked[..|ranked|] == ranked;
  }

  /** `transform_post`. */
  method Transform(query: Query, lines: seq<seq<string>>, fisher: Table -> FisherResult)
    returns (result: Result<seq<Gene>>)
    modifies query
    ensures result == TransformSpec(old(query.genes), old(query.controls), lines, fisher)
    ensures result.Ok? ==> query.genes == result.value
    ensures result.Err? ==> query.genes == old(query.genes)
    ensures query.controls == old(query.controls)
  {
    var controls := ControlDict(query.controls);
    var keys := InputKeys(query.genes);
    var order, rows, universe := ReadGeneSets(lines, keys);
    ReadAllWellFormed(lines, keys);
    var maxP := GetControl(controls, MaxPValue);
    var failed, passing, pValue, oddsRatio := TestGeneSets(order, rows, |universe|, fisher, maxP);
    if failed.Some? {
      return Err(failed.value);
    }
    ghost var ts := TestAll(order, rows, |universe|, fisher).tests;
    var ranked := SortBy(passing, PValueOf);
    assert Rank(query.genes, query.controls, lines, fisher) == Ok(RankedCandidates(ts, ranked));
    AppendGenes(query, ranked, keys, pValue, oddsRatio);
    result := Ok(query.genes);
  }

  /** The run fails exactly when the expander's would: some stored set's
      table has a negative cell, and the failure names the first such set. */
  lemma TransformFailure(genes: seq<Gene>, controls: seq<Control>, lines: seq<seq<string>>,
                         fisher: Table -> FisherResult, cat: GeneSets.Catalogue)
    requires cat == ReadCatalogue(genes, lines)
    ensures TransformSpec(genes, controls, lines, fisher).Err? <==>
              exists j :: 0 <= j < |cat.order| && !NonNegativeTable(TableOf(cat.rows[cat.order[j]], |cat.universe|))
    ensures TransformSpec(genes, controls, lines, fisher).Err? ==>
              exists j :: 0 <= j < |cat.order| && cat.order[j] == TransformSpec(genes, controls, lines, fisher).geneSetId &&
                !NonNegativeTable(TableOf(cat.rows[cat.order[j]], |cat.universe|)) &&
                forall l :: 0 <= l < j ==> NonNegativeTable(TableOf(cat.rows[cat.order[l]], |cat.universe|))
  {
    TestAllOutcome(cat.order, cat.rows, |cat.universe|, fisher);
  }

  /** The stages of a run that passes testing, as plain equations. */
  lemma RankStages(genes: seq<Gene>, controls: seq<Control>, lines: seq<seq<string>>,
                   fisher: Table -> FisherResult, cat: GeneSets.Catalogue, rk: RankedCandidates)
    requires cat == ReadCatalogue(genes, lines)
    requires Rank(genes, controls, lines, fisher) == Ok(rk)
    ensures TestAll(cat.order, cat.rows, |cat.universe|, fisher) == Passed(rk.tests)
    ensures forall j :: 0 <= j < |rk.tests| ==> rk.tests[j].id in cat.rows
    ensures rk.ranked == SortBy(PassP(rk.tests, GetControl(ControlDict(controls), MaxPValue), cat.rows), PValueOf)
  {
    TestAllOutcome(cat.order, cat.rows, |cat.universe|, fisher);
  }

  /** The ranked candidates of tests ts: ascending in p-value, ties in
      testing order; a tested set is among them exactly when its p-value is
      strictly below the threshold; each one is a tested set with its own
      members and p-value. */
  lemma CandidatesRanked(ts: seq<Tested>, maxP: real, rows: map<string, Row>, ranked: seq<Candidate>)
    requires forall j :: 0 <= j < |ts| ==> ts[j].id in rows
    requires ranked == SortBy(PassP(ts, maxP, rows), PValueOf)
    ensures SortedBy(ranked, PValueOf)
    ensures multiset(ranked) == multiset(PassP(ts, maxP, rows))
    ensures forall p :: WithKey(ranked, PValueOf, p) == WithKey(PassP(ts, maxP, rows), PValueOf, p)
    ensures forall j :: 0 <= j < |ts| ==>
              (Candidate(ts[j].id, rows[ts[j].id].members, ts[j].pValue) in ranked <==> ts[j].pValue < maxP)
    ensures forall c :: c in ranked ==> c.pValue < maxP && PassedAt(c, ts, rows)
  {
    var passing := PassP(ts, maxP, rows);
    SortBySorted(passing, PValueOf);
    PassPIff(ts, maxP, rows);
    forall c ensures c in ranked <==> c in passing {
      assert c in ranked <==> c in multiset(ranked);
      assert c in passing <==> c in multiset(passing);
    }
    forall p ensures WithKey(ranked, PValueOf, p) == WithKey(passing, PValueOf, p) {
      SortByStable(passing, PValueOf, p);
    }
  }

  /** A successful run: the query's genes are an unchanged prefix of the
      result, and every appended gene is the prefixed form of a ranked
      candidate's member whose bare id is not an input key, carrying the
      p-value and odds ratio of the last test; every member of a ranked
      candidate is an input key or is reached by an appended gene's id. */
  lemma TransformAppends(genes: seq<Gene>, controls: seq<Control>, lines: seq<seq<string>>,
                         fisher: Table -> FisherResult, rk: RankedCandidates, r: seq<Gene>)
    requires Rank(genes, controls, lines, fisher) == Ok(rk)
    requires TransformSpec(genes, controls, lines, fisher) == Ok(r)
    ensures |r| >= |genes| && r[..|genes|] == genes
    ensures forall i :: |genes| <= i < |r| ==>
              FromCandidate(r[i], rk.ranked, InputKeys(genes), LastPValue(rk.tests), LastOddsRatio(rk.tests))
    ensures forall l, t :: 0 <= l < |rk.ranked| && 0 <= t < |rk.ranked[l].members| ==>
              Reached(rk.ranked[l].members[t], r[|genes|..], InputKeys(genes))
  {
    var added := Appended(InputKeys(genes), rk.ranked, LastPValue(rk.tests), LastOddsRatio(rk.tests));
    AppendedGenes(InputKeys(genes), rk.ranked, LastPValue(rk.tests), LastOddsRatio(rk.tests), added);
    assert r == genes + added;
    assert r[|genes|..] == added;
    forall i | |genes| <= i < |r|
      ensures FromCandidate(r[i], rk.ranked, InputKeys(genes), LastPValue(rk.tests), LastOddsRatio(rk.tests))
    {
      assert r[i] == added[i - |genes|];
    }
  }
}
