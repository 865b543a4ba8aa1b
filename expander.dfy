/** The hypergeometric enrichment expander: read the gene sets against the
    query's genes, test every set that meets the input, correct the
    p-values for multiple testing, keep the sets below both thresholds,
    and append the members of the kept sets, lowest q-value first, as new
    genes. */
module Expander {
  import opened Genes
  import opened GeneSets
  import opened MultipleTesting
  import opened Ranking

  /** A gene set that passed both thresholds: its id, its members and the
      p- and q-value its appended genes carry. */
  datatype Kept = Kept(id: string, members: seq<string>, pValue: real, qValue: real)

  /** The ranking key of the expansion. */
  function QValueOf(k: Kept): real
  {
    k.qValue
  }

  /** The q filter: walking the tested ids with their q-values, a set is
      kept when it passed the p threshold and its q-value is strictly below
      the q threshold. The dictionary the source fills here has distinct
      keys, so its insertion order is this list's order. */
  function KeepByQ(ids: seq<string>, qs: seq<real>, passing: map<string, real>, maxQ: real,
                   rows: map<string, Row>): seq<Kept>
    requires |qs| == |ids|
    requires forall i :: 0 <= i < |ids| ==> ids[i] in rows
  {
    if ids == [] then []
    else
      var n := |ids| - 1;
      var rest := KeepByQ(ids[..n], qs[..n], passing, maxQ, rows);
      var id := ids[n];
      if id in passing && qs[n] < maxQ then rest + [Kept(id, rows[id].members, passing[id], qs[n])]
      else rest
  }

  /** x is what position j of the q filter keeps. */
  ghost predicate KeptAt(x: Kept, ids: seq<string>, qs: seq<real>, passing: map<string, real>, maxQ: real,
                         rows: map<string, Row>, j: int)
    requires |qs| == |ids|
    requires forall i :: 0 <= i < |ids| ==> ids[i] in rows
  {
    0 <= j < |ids| && ids[j] in passing && qs[j] < maxQ &&
    x == Kept(ids[j], rows[ids[j]].members, passing[ids[j]], qs[j])
  }

  /** x is what some position of the q filter keeps. */
  ghost predicate KeptSomewhere(x: Kept, ids: seq<string>, qs: seq<real>, passing: map<string, real>, maxQ: real,
                                rows: map<string, Row>)
    requires |qs| == |ids|
    requires forall i :: 0 <= i < |ids| ==> ids[i] in rows
  {
    exists j :: KeptAt(x, ids, qs, passing, maxQ, rows, j)
  }

  /** Every kept set comes from a position that passed both filters, and
      carries that position's id, members, p-value and q-value. */
  lemma {:induction false} KeptFromPassing(ids: seq<string>, qs: seq<real>, passing: map<string, real>, maxQ: real,
                                           rows: map<string, Row>)
    requires |qs| == |ids|
    requires forall i :: 0 <= i < |ids| ==> ids[i] in rows
    ensures forall x :: x in KeepByQ(ids, qs, passing, maxQ, rows) ==> KeptSomewhere(x, ids, qs, passing, maxQ, rows)
  {
    if ids != [] {
      var n := |ids| - 1;
      var init, qinit := ids[..n], qs[..n];
      KeptFromPassing(init, qinit, passing, maxQ, rows);
      var rest := KeepByQ(init, qinit, passing, maxQ, rows);
      forall x | x in KeepByQ(ids, qs, passing, maxQ, rows) ensures KeptSomewhere(x, ids, qs, passing, maxQ, rows) {
        if x in rest {
          var j :| KeptAt(x, init, qinit, passing, maxQ, rows, j);
          assert KeptAt(x, ids, qs, passing, maxQ, rows, j);
        } else {
          assert KeptAt(x, ids, qs, passing, maxQ, rows, n);
        }
      }
    }
  }

  /** Every position that passed both filters gives a kept set. */
  lemma {:induction false} PassingIsKept(ids: seq<string>, qs: seq<real>, passing: map<string, real>, maxQ: real,
                                         rows: map<string, Row>)
    requires |qs| == |ids|
    requires forall i :: 0 <= i < |ids| ==> ids[i] in rows
    ensures forall j :: 0 <= j < |ids| && ids[j] in passing && qs[j] < maxQ ==>
              Kept(ids[j], rows[ids[j]].members, passing[ids[j]], qs[j]) in KeepByQ(ids, qs, passing, maxQ, rows)
  {
    if ids != [] {
      var n := |ids| - 1;
      var init, qinit := ids[..n], qs[..n];
      PassingIsKept(init, qinit, passing, maxQ, rows);
      forall j | 0 <= j < n && ids[j] in passing && qs[j] < maxQ
        ensures Kept(ids[j], rows[ids[j]].members, passing[ids[j]], qs[j]) in KeepByQ(ids, qs, passing, maxQ, rows)
      {
        assert ids[j] == init[j] && qs[j] == qinit[j];
      }
    }
  }

  /** The intermediate results of an enrichment run: the tests in
      insertion order, their q-values, the kept sets in insertion order,
      and the kept sets in ascending q order. */
  datatype Enrichment = Enrichment(tests: seq<Tested>, qValues: seq<real>, kept: seq<Kept>, ranked: seq<Kept>)

  /** Everything up to the ranking of the kept sets, or the set whose table
      made the exact test fail. */
  function Enrich(genes: seq<Gene>, controls: seq<Control>, lines: seq<seq<string>>,
                  fisher: Table -> FisherResult): Result<Enrichment>
  {
    var cat := ReadCatalogue(genes, lines);
    var dict := ControlDict(controls);
    match TestAll(cat.order, cat.rows, |cat.universe|, fisher)
    case Failed(id) => Err(id)
    case Passed(ts) =>
      TestAllOutcome(cat.order, cat.rows, |cat.universe|, fisher);
      var qs := BenjaminiHochberg(PValues(ts));
      var kept := KeepByQ(Ids(ts), qs, Significant(ts, GetControl(dict, MaxPValue)),
                          GetControl(dict, MaxQValue), cat.rows);
      Ok(Enrichment(ts, qs, kept, SortBy(kept, QValueOf)))
  }

  /** A gene appended by the expansion: its id and Entrez identifier are
      the prefixed member, and it carries the gene set, that set's p- and
      q-value and the odds ratio left over from the testing loop. */
  function NewGene(k: Kept, member: string, oddsRatio: real): Gene
  {
    var id := EntrezPrefix + member;
    Gene(id, Some(Identifiers(Some(id))), [GeneSetAttr(k.id), PValueAttr(k.pValue), QValueAttr(k.qValue), OddsRatioAttr(oddsRatio)])
  }

  /** The state of the expansion: genes appended so far and the keys of the
      `genes` dictionary. */
  datatype Growth = Growth(added: seq<Gene>, seen: set<string>)

  /** One member: its prefixed id is looked up among the keys, and a gene
      is appended only when that prefixed id is not there yet. */
  function AddMember(g: Growth, k: Kept, member: string, oddsRatio: real): Growth
  {
    var id := EntrezPrefix + member;
    if id in g.seen then g else Growth(g.added + [NewGene(k, member, oddsRatio)], g.seen + {id})
  }

  /** The members of one kept set, in list order. */
  function AddMembers(g: Growth, k: Kept, members: seq<string>, oddsRatio: real): Growth
  {
    if members == [] then g
    else AddMember(AddMembers(g, k, members[..|members| - 1], oddsRatio), k, members[|members| - 1], oddsRatio)
  }

  /** The kept sets, in ranked order. */
  function AddSets(g: Growth, ks: seq<Kept>, oddsRatio: real): Growth
  {
    if ks == [] then g
    else
      var k := ks[|ks| - 1];
      AddMembers(AddSets(g, ks[..|ks| - 1], oddsRatio), k, k.members, oddsRatio)
  }

  /** The whole expansion: the query's genes followed by the appended
      ones, or the failing set. */
  function ExpandSpec(genes: seq<Gene>, controls: seq<Control>, lines: seq<seq<string>>,
                      fisher: Table -> FisherResult): (r: Result<seq<Gene>>)
    ensures r.Ok? ==> |r.value| >= |genes| && r.value[..|genes|] == genes
  {
    match Enrich(genes, controls, lines, fisher)
    case Err(id) => Err(id)
    case Ok(e) => Ok(genes + Appended(InputKeys(genes), e.ranked, LastOddsRatio(e.tests)))
  }

  /** The position of the first kept set, in ranked order, whose members
      include m. */
  function FirstContaining(ks: seq<Kept>, m: string): (r: Option<nat>)
    ensures r.Some? ==> r.value < |ks| && m in ks[r.value].members &&
                        forall l :: 0 <= l < r.value ==> m !in ks[l].members
    ensures r.None? ==> forall l :: 0 <= l < |ks| ==> m !in ks[l].members
  {
    if ks == [] then None
    else match FirstContaining(ks[..|ks| - 1], m)
      case Some(l) => Some(l)
      case None => if m in ks[|ks| - 1].members then Some(|ks| - 1) else None
  }

  function GeneIds(gs: seq<Gene>): set<string>
  {
    set i | 0 <= i < |gs| :: gs[i].geneId
  }

  /** The keys are the initial keys plus the appended ids, the appended ids
      are new and pairwise distinct. */
  ghost predicate Tracks(g: Growth, seen0: set<string>)
  {
    g.seen == seen0 + GeneIds(g.added) &&
    (forall i :: 0 <= i < |g.added| ==> g.added[i].geneId !in seen0) &&
    (forall i, j :: 0 <= i < j < |g.added| ==> g.added[i].geneId != g.added[j].geneId)
  }

  /** Every member of ms has its prefixed id among the keys. */
  ghost predicate Covers(g: Growth, ms: seq<string>)
  {
    forall t :: 0 <= t < |ms| ==> EntrezPrefix + ms[t] in g.seen
  }

  /** An appended gene comes from the first of the finished sets ks that
      contains its member, or, when none does, from the set k now being
      walked, whose members `done` have been visited. */
  ghost predicate Explained(gene: Gene, ks: seq<Kept>, k: Kept, done: seq<string>, oddsRatio: real)
  {
    HasEntrezPrefix(gene.geneId) &&
    var m := gene.geneId[|EntrezPrefix|..];
    match FirstContaining(ks, m)
    case Some(l) => gene == NewGene(ks[l], m, oddsRatio)
    case None => m in done && gene == NewGene(k, m, oddsRatio)
  }

  /** An appended gene is the prefixed form of a member m, built from the
      first kept set (in ranked order) whose members include m. */
  ghost predicate FromFirstSet(gene: Gene, ks: seq<Kept>, oddsRatio: real)
  {
    HasEntrezPrefix(gene.geneId) &&
    var m := gene.geneId[|EntrezPrefix|..];
    FirstContaining(ks, m).Some? && gene == NewGene(ks[FirstContaining(ks, m).value], m, oddsRatio)
  }

  /** The genes the expansion appends for initial keys seen0 and ranked
      kept sets ks. */
  function Appended(seen0: set<string>, ks: seq<Kept>, oddsRatio: real): seq<Gene>
  {
    AddSets(Growth([], seen0), ks, oddsRatio).added
  }

  /** The invariant of the expansion loops. */
  ghost predicate Progress(g: Growth, seen0: set<string>, ks: seq<Kept>, k: Kept, done: seq<string>, oddsRatio: real)
  {
    Tracks(g, seen0) &&
    (forall l :: 0 <= l < |ks| ==> Covers(g, ks[l].members)) &&
    Covers(g, done) &&
    forall i :: 0 <= i < |g.added| ==> Explained(g.added[i], ks, k, done, oddsRatio)
  }

  lemma AddMemberProgress(g: Growth, seen0: set<string>, ks: seq<Kept>, k: Kept, done: seq<string>, m: string, oddsRatio: real)
    requires Progress(g, seen0, ks, k, done, oddsRatio)
    ensures Progress(AddMember(g, k, m, oddsRatio), seen0, ks, k, done + [m], oddsRatio)
  {
    var id := EntrezPrefix + m;
    var g' := AddMember(g, k, m, oddsRatio);
    forall i | 0 <= i < |g.added| ensures Explained(g.added[i], ks, k, done + [m], oddsRatio) {
      assert Explained(g.added[i], ks, k, done, oddsRatio);
    }
    if id !in g.seen {
      StripPrefixed(m);
      match FirstContaining(ks, m)
      case Some(l) =>
        assert false;
      case None =>
        assert Explained(NewGene(k, m, oddsRatio), ks, k, done + [m], oddsRatio);
      assert g'.added[|g.added|] == NewGene(k, m, oddsRatio);
      assert GeneIds(g'.added) == GeneIds(g.added) + {id} by {
        assert forall i :: 0 <= i < |g.added| ==> g'.added[i] == g.added[i];
      }
      forall i | 0 <= i < |g.added| ensures g.added[i].geneId != id {
        assert g.added[i].geneId in GeneIds(g.added);
      }
    }
  }

  lemma {:induction false} AddMembersProgress(g: Growth, seen0: set<string>, ks: seq<Kept>, k: Kept, ms: seq<string>, oddsRatio: real)
    requires Progress(g, seen0, ks, k, [], oddsRatio)
    ensures Progress(AddMembers(g, k, ms, oddsRatio), seen0, ks, k, ms, oddsRatio)
  {
    if ms != [] {
      var init := ms[..|ms| - 1];
      AddMembersProgress(g, seen0, ks, k, init, oddsRatio);
      AddMemberProgress(AddMembers(g, k, init, oddsRatio), seen0, ks, k, init, ms[|ms| - 1], oddsRatio);
      assert init + [ms[|ms| - 1]] == ms;
    }
  }

  /** Finishing set k moves it into the finished sets. */
  lemma FinishSet(g: Growth, seen0: set<string>, ks: seq<Kept>, k: Kept, next: Kept, oddsRatio: real)
    requires Progress(g, seen0, ks, k, k.members, oddsRatio)
    ensures Progress(g, seen0, ks + [k], next, [], oddsRatio)
  {
    var ks' := ks + [k];
    assert ks'[..|ks|] == ks;
    forall l | 0 <= l < |ks'| ensures Covers(g, ks'[l].members) {
      if l < |ks| {
        assert ks'[l] == ks[l];
      }
    }
    forall i | 0 <= i < |g.added| ensures Explained(g.added[i], ks', next, [], oddsRatio) {
      assert Explained(g.added[i], ks, k, k.members, oddsRatio);
    }
  }

  lemma {:induction false} AddSetsProgress(seen0: set<string>, ks: seq<Kept>, next: Kept, oddsRatio: real)
    ensures Progress(AddSets(Growth([], seen0), ks, oddsRatio), seen0, ks, next, [], oddsRatio)
  {
    if ks != [] {
      var init := ks[..|ks| - 1];
      var k := ks[|ks| - 1];
      AddSetsProgress(seen0, init, k, oddsRatio);
      AddMembersProgress(AddSets(Growth([], seen0), init, oddsRatio), seen0, init, k, k.members, oddsRatio);
      FinishSet(AddMembers(AddSets(Growth([], seen0), init, oddsRatio), k, k.members, oddsRatio), seen0, init, k, next, oddsRatio);
      assert init + [k] == ks;
    } else {
      assert GeneIds([]) == {};
    }
  }

  /** What the expansion appends, given the initial keys seen0 and the
      ranked kept sets ks: no prefixed id twice and none already a key;
      every appended gene built from the first set (in ranked order) that
      contains its member; and every member of every kept set either
      already a key in prefixed form or appended. */
  lemma AppendedGenes(seen0: set<string>, ks: seq<Kept>, oddsRatio: real, added: seq<Gene>)
    requires added == Appended(seen0, ks, oddsRatio)
    ensures forall i, j :: 0 <= i < j < |added| ==> added[i].geneId != added[j].geneId
    ensures forall i :: 0 <= i < |added| ==> added[i].geneId !in seen0
    ensures forall i :: 0 <= i < |added| ==> FromFirstSet(added[i], ks, oddsRatio)
    ensures forall l, t :: 0 <= l < |ks| && 0 <= t < |ks[l].members| ==>
              EntrezPrefix + ks[l].members[t] in seen0 ||
              exists i :: 0 <= i < |added| && added[i].geneId == EntrezPrefix + ks[l].members[t]
  {
    var k := Kept("", [], 0.0, 0.0);
    AddSetsProgress(seen0, ks, k, oddsRatio);
    var g := AddSets(Growth([], seen0), ks, oddsRatio);
    forall i | 0 <= i < |g.added| ensures FromFirstSet(g.added[i], ks, oddsRatio) {
      assert Explained(g.added[i], ks, k, [], oddsRatio);
    }
    forall l, t | 0 <= l < |ks| && 0 <= t < |ks[l].members|
      ensures EntrezPrefix + ks[l].members[t] in seen0 ||
              exists i :: 0 <= i < |g.added| && g.added[i].geneId == EntrezPrefix + ks[l].members[t]
    {
      assert Covers(g, ks[l].members);
    }
  }

  /** The seen-check compares prefixed ids with stripped keys: an input
      gene whose Entrez identifier is "NCBIGene:7" is keyed "7", so a kept
      set containing member 7 appends it again, with the very same Entrez
      identifier. */
  lemma InputGeneAppendedAgain(oddsRatio: real)
    ensures var input := Gene("TP53", Some(Identifiers(Some("NCBIGene:7"))), []);
            var added := Appended(InputKeys([input]), [Kept("SET", ["7"], 0.0, 0.0)], oddsRatio);
            |added| == 1 && added[0].identifiers == input.identifiers
  {
    var input := Gene("TP53", Some(Identifiers(Some("NCBIGene:7"))), []);
    var k := Kept("SET", ["7"], 0.0, 0.0);
    var g0 := Growth([], {"7"});
    assert EntrezPrefix + "7" == "NCBIGene:7";
    EntrezGeneIdOfPrefixed(input, "7");
    assert GeneKey(input) == "7";
    assert InputKeys([input]) == {"7"};
    assert [k][..0] == [];
    assert k.members[..0] == [];
    assert AddSets(g0, [k], oddsRatio) == AddMembers(g0, k, ["7"], oddsRatio);
    assert AddMembers(g0, k, ["7"], oddsRatio) == AddMember(g0, k, "7", oddsRatio);
    assert "NCBIGene:7" != "7";
  }

  /** A single qualifying line whose table has a negative cell makes the
      run fail on its set. */
  lemma OneLineFails(genes: seq<Gene>, cols: seq<string>, fisher: Table -> FisherResult)
    requires Qualifies(cols, InputKeys(genes))
    requires !NonNegativeTable(TableOf(RowOf(cols[2..], InputKeys(genes)), |Elements(cols[2..])|))
    ensures Enrich(genes, [], [cols], fisher) == Err(cols[0])
  {
    var keys := InputKeys(genes);
    var lines: seq<seq<string>> := [cols];
    assert lines[..0] == [];
    assert ReadAll(lines, keys) == ReadLine(Catalogue([], map[], {}), cols, keys);
    var cat := ReadCatalogue(genes, lines);
    assert cat == Catalogue([cols[0]], map[cols[0] := RowOf(cols[2..], keys)], Elements(cols[2..]));
    assert cat.order[..0] == [];
    assert TestAll(cat.order, cat.rows, |cat.universe|, fisher) == Failed(cols[0]);
  }

  /** A member repeated within one line counts twice in the overlap, so
      `ny = len(genes) - overlap` falls below zero and the exact test
      raises on that set. */
  lemma RepeatedMemberFails(fisher: Table -> FisherResult)
    ensures Enrich([Gene("a", None, [])], [], [["S", "l", "a", "a"]], fisher) == Err("S")
  {
    var ga := Gene("a", None, []);
    assert GeneKey(ga) == "a";
    assert InputKeys([ga]) == {"a"};
    var cols := ["S", "l", "a", "a"];
    assert cols[2..] == ["a", "a"];
    assert ["a", "a"][1..] == ["a"] && ["a"][1..] == [];
    assert Overlap(["a", "a"], {"a"}) == 2;
    OneLineFails([ga], cols, fisher);
  }

  /** Input genes outside every stored set leave the universe too small,
      so `nn` falls below zero and the exact test raises on that set. */
  lemma SmallUniverseFails(fisher: Table -> FisherResult)
    ensures Enrich([Gene("a", None, []), Gene("b", None, [])], [], [["S", "l", "a", "c"]], fisher) == Err("S")
  {
    var ga, gb := Gene("a", None, []), Gene("b", None, []);
    assert GeneKey(ga) == "a" && GeneKey(gb) == "b";
    assert InputKeys([ga, gb]) == {"a", "b"};
    var cols := ["S", "l", "a", "c"];
    assert cols[2..] == ["a", "c"];
    assert ["a", "c"][1..] == ["c"] && ["c"][1..] == [];
    assert Overlap(["a", "c"], {"a", "b"}) == 1;
    assert Elements(["a", "c"]) == {"a", "c"};
    OneLineFails([ga, gb], cols, fisher);
  }

  /** The run fails exactly when some stored set's table has a negative
      cell, and then names the first such set in insertion order; the
      query's genes come back unchanged only on success. */
  lemma EnrichFailure(genes: seq<Gene>, controls: seq<Control>, lines: seq<seq<string>>,
                      fisher: Table -> FisherResult, cat: GeneSets.Catalogue)
    requires cat == ReadCatalogue(genes, lines)
    ensures Enrich(genes, controls, lines, fisher).Err? <==>
              exists j :: 0 <= j < |cat.order| && !NonNegativeTable(TableOf(cat.rows[cat.order[j]], |cat.universe|))
    ensures Enrich(genes, controls, lines, fisher).Err? ==>
              exists j :: 0 <= j < |cat.order| && cat.order[j] == Enrich(genes, controls, lines, fisher).geneSetId &&
                !NonNegativeTable(TableOf(cat.rows[cat.order[j]], |cat.universe|)) &&
                forall l :: 0 <= l < j ==> NonNegativeTable(TableOf(cat.rows[cat.order[l]], |cat.universe|))
    ensures ExpandSpec(genes, controls, lines, fisher).Err? <==> Enrich(genes, controls, lines, fisher).Err?
  {
    TestAllOutcome(cat.order, cat.rows, |cat.universe|, fisher);
  }

  /** On success the tests are the testing loop's over the stored sets
      (one per set, in insertion order, each on that set's table, by
      TestAllOutcome), and `all_gene_set_ids` lists the stored sets in that
      order. */
  lemma EnrichTests(genes: seq<Gene>, controls: seq<Control>, lines: seq<seq<string>>,
                    fisher: Table -> FisherResult, cat: GeneSets.Catalogue, e: Enrichment)
    requires cat == ReadCatalogue(genes, lines)
    requires Enrich(genes, controls, lines, fisher) == Ok(e)
    ensures TestAll(cat.order, cat.rows, |cat.universe|, fisher) == Passed(e.tests)
    ensures Ids(e.tests) == cat.order
  {
    TestAllOutcome(cat.order, cat.rows, |cat.universe|, fisher);
  }

  /** The later stages of a successful run: the q-values are the
      Benjamini-Hochberg correction of `all_pvalues` (whose properties are
      proved in MultipleTesting), the kept sets are the q filter applied
      after the p filter, and the ranking is the stable sort by q-value. */
  lemma EnrichStages(genes: seq<Gene>, controls: seq<Control>, lines: seq<seq<string>>,
                     fisher: Table -> FisherResult, cat: GeneSets.Catalogue, e: Enrichment)
    requires cat == ReadCatalogue(genes, lines)
    requires Enrich(genes, controls, lines, fisher) == Ok(e)
    ensures e.qValues == BenjaminiHochberg(PValues(e.tests))
    ensures |e.qValues| == |e.tests|
    ensures forall j :: 0 <= j < |e.tests| ==> e.tests[j].id in cat.rows
    ensures e.kept == KeepByQ(Ids(e.tests), e.qValues,
                              Significant(e.tests, GetControl(ControlDict(controls), MaxPValue)),
                              GetControl(ControlDict(controls), MaxQValue), cat.rows)
    ensures e.ranked == SortBy(e.kept, QValueOf)
  {
    TestAllOutcome(cat.order, cat.rows, |cat.universe|, fisher);
  }

  /** The exact test's p-values are probabilities, so every q-value lies
      between its set's p-value and 1, although the correction applies no
      explicit cap (the q-values of a run are BenjaminiHochberg of its
      p-values, EnrichStages). */
  lemma QValuesBounded(ts: seq<Tested>)
    ensures |BenjaminiHochberg(PValues(ts))| == |ts|
    ensures forall j :: 0 <= j < |ts| ==> ts[j].pValue <= BenjaminiHochberg(PValues(ts))[j] <= 1.0
  {
    BHOfProbabilities(PValues(ts));
  }

  /** The q filter over the tests, with `gene_set_pvalues` filled by the p
      filter: a tested set is kept exactly when its p-value is strictly
      below the p threshold and its q-value strictly below the q threshold,
      and whatever is kept is such a set, with its own members, p-value and
      q-value. */
  lemma KeptIff(ts: seq<Tested>, qs: seq<real>, maxP: real, maxQ: real, rows: map<string, Row>)
    requires |qs| == |ts|
    requires forall j :: 0 <= j < |ts| ==> ts[j].id in rows
    requires forall i, j :: 0 <= i < j < |ts| ==> ts[i].id != ts[j].id
    ensures forall j :: 0 <= j < |ts| ==>
              (Kept(ts[j].id, rows[ts[j].id].members, ts[j].pValue, qs[j]) in KeepByQ(Ids(ts), qs, Significant(ts, maxP), maxQ, rows) <==>
               ts[j].pValue < maxP && qs[j] < maxQ)
    ensures forall x :: x in KeepByQ(Ids(ts), qs, Significant(ts, maxP), maxQ, rows) ==>
              exists j :: 0 <= j < |ts| && x == Kept(ts[j].id, rows[ts[j].id].members, ts[j].pValue, qs[j]) &&
                ts[j].pValue < maxP && qs[j] < maxQ
  {
    var ids := Ids(ts);
    SignificantContents(ts, maxP);
    var passing := Significant(ts, maxP);
    PassingIsKept(ids, qs, passing, maxQ, rows);
    KeptFromPassing(ids, qs, passing, maxQ, rows);
    var kept := KeepByQ(ids, qs, passing, maxQ, rows);
    forall j | 0 <= j < |ts| && Kept(ts[j].id, rows[ts[j].id].members, ts[j].pValue, qs[j]) in kept
      ensures ts[j].pValue < maxP && qs[j] < maxQ
    {
      var x := Kept(ts[j].id, rows[ts[j].id].members, ts[j].pValue, qs[j]);
      var j' :| KeptAt(x, ids, qs, passing, maxQ, rows, j');
      assert ids[j'] == ts[j'].id;
    }
    forall x | x in kept
      ensures exists j :: 0 <= j < |ts| && x == Kept(ts[j].id, rows[ts[j].id].members, ts[j].pValue, qs[j]) &&
                ts[j].pValue < maxP && qs[j] < maxQ
    {
      var j :| KeptAt(x, ids, qs, passing, maxQ, rows, j);
      assert ids[j] == ts[j].id;
    }
  }

  /** The kept sets are visited in ascending q order, each exactly as often
      as it was kept, and sets with equal q-values keep their insertion
      order. */
  lemma EnrichRanked(genes: seq<Gene>, controls: seq<Control>, lines: seq<seq<string>>,
                     fisher: Table -> FisherResult, e: Enrichment)
    requires Enrich(genes, controls, lines, fisher) == Ok(e)
    ensures SortedBy(e.ranked, QValueOf)
    ensures multiset(e.ranked) == multiset(e.kept)
    ensures forall q :: WithKey(e.ranked, QValueOf, q) == WithKey(e.kept, QValueOf, q)
  {
    SortBySorted(e.kept, QValueOf);
    forall q ensures WithKey(e.ranked, QValueOf, q) == WithKey(e.kept, QValueOf, q) {
      SortByStable(e.kept, QValueOf, q);
    }
  }

  /** On success the query's genes are an unchanged prefix of the result,
      and what follows them is the expansion of the ranked kept sets:
      pairwise distinct prefixed ids, none of them an input key, each
      built from the first ranked set containing its member, and every
      member of a ranked set either an input key in prefixed form or
      appended. */
  lemma ExpandAppends(genes: seq<Gene>, controls: seq<Control>, lines: seq<seq<string>>,
                      fisher: Table -> FisherResult, e: Enrichment, r: seq<Gene>)
    requires Enrich(genes, controls, lines, fisher) == Ok(e)
    requires ExpandSpec(genes, controls, lines, fisher) == Ok(r)
    ensures |r| >= |genes| && r[..|genes|] == genes
    ensures forall i, j :: |genes| <= i < j < |r| ==> r[i].geneId != r[j].geneId
    ensures forall i :: |genes| <= i < |r| ==> r[i].geneId !in InputKeys(genes)
    ensures forall i :: |genes| <= i < |r| ==> FromFirstSet(r[i], e.ranked, LastOddsRatio(e.tests))
    ensures forall l, t :: 0 <= l < |e.ranked| && 0 <= t < |e.ranked[l].members| ==>
              EntrezPrefix + e.ranked[l].members[t] in InputKeys(genes) ||
              exists i :: |genes| <= i < |r| && r[i].geneId == EntrezPrefix + e.ranked[l].members[t]
  {
    var added := Appended(InputKeys(genes), e.ranked, LastOddsRatio(e.tests));
    AppendedGenes(InputKeys(genes), e.ranked, LastOddsRatio(e.tests), added);
    assert r == genes + added;
    forall i, j | |genes| <= i < j < |r| ensures r[i].geneId != r[j].geneId {
      assert r[i] == added[i - |genes|] && r[j] == added[j - |genes|];
    }
    forall l, t | 0 <= l < |e.ranked| && 0 <= t < |e.ranked[l].members|
      ensures EntrezPrefix + e.ranked[l].members[t] in InputKeys(genes) ||
              exists i :: |genes| <= i < |r| && r[i].geneId == EntrezPrefix + e.ranked[l].members[t]
    {
      if EntrezPrefix + e.ranked[l].members[t] !in InputKeys(genes) {
        var i :| 0 <= i < |added| && added[i].geneId == EntrezPrefix + e.ranked[l].members[t];
        assert r[|genes| + i] == added[i];
      }
    }
  }

  /** The testing loop, with its side lists: the failing set if a table
      has a negative cell, otherwise `all_gene_set_ids`, `all_pvalues`, the
      p-filtered dictionary and the leftover odds ratio. */
  method TestGeneSets(order: seq<string>, rows: map<string, Row>, m: int, fisher: Table -> FisherResult, maxP: real)
    returns (failed: Option<string>, allIds: seq<string>, allPvalues: seq<real>, passing: map<string, real>, oddsRatio: real)
    requires forall i :: 0 <= i < |order| ==> order[i] in rows
    ensures failed.Some? <==> TestAll(order, rows, m, fisher).Failed?
    ensures failed.Some? ==> failed.value == TestAll(order, rows, m, fisher).id
    ensures TestAll(order, rows, m, fisher).Passed? ==> allIds == Ids(TestAll(order, rows, m, fisher).tests) && allPvalues == PValues(TestAll(order, rows, m, fisher).tests)
    ensures TestAll(order, rows, m, fisher).Passed? ==> passing == Significant(TestAll(order, rows, m, fisher).tests, maxP) && oddsRatio == LastOddsRatio(TestAll(order, rows, m, fisher).tests)
  {
    ghost var ts: seq<Tested> := [];
    allIds, allPvalues, passing, oddsRatio := [], [], map[], 0.0;
    for i := 0 to |order|
      invariant TestAll(order[..i], rows, m, fisher) == Passed(ts)
      invariant allIds == Ids(ts) && allPvalues == PValues(ts)
      invariant passing == Significant(ts, maxP) && oddsRatio == LastOddsRatio(ts)
    {
      var id := order[i];
      var row := rows[id];
      var table := Table(row.yy, row.yn, row.ny, m - row.yy - row.yn - row.ny);
      assert table == TableOf(rows[order[i]], m);
      TestAllStep(order, rows, m, fisher, i, ts);
      if !NonNegativeTable(table) {
        FailurePersists(order, rows, m, fisher, i + 1);
        return Some(id), allIds, allPvalues, passing, oddsRatio;
      }
      var result := fisher(table);
      oddsRatio := result.oddsRatio;
      var pvalue := result.pValue;
      allPvalues := allPvalues + [pvalue];
      allIds := allIds + [id];
      if pvalue < maxP {
        passing := passing[id := pvalue];
      }
      ghost var t := Tested(id, oddsRatio, pvalue);
      ProjectionsStep(ts, t, maxP);
      ts := ts + [t];
    }
    assert order[..|order|] == order;
    failed := None;
  }

  /** The side lists grow by one entry per tested set. */
  lemma ProjectionsStep(ts: seq<Tested>, t: Tested, maxP: real)
    ensures Ids(ts + [t]) == Ids(ts) + [t.id]
    ensures PValues(ts + [t]) == PValues(ts) + [t.pValue]
    ensures Significant(ts + [t], maxP) == if t.pValue < maxP then Significant(ts, maxP)[t.id := t.pValue] else Significant(ts, maxP)
    ensures LastOddsRatio(ts + [t]) == t.oddsRatio
  {
    assert (ts + [t])[..|ts|] == ts;
  }

  /** The q filter loop. */
  method KeepSignificant(allIds: seq<string>, allQvalues: seq<real>, passing: map<string, real>, maxQ: real,
                         rows: map<string, Row>) returns (kept: seq<Kept>)
    requires |allQvalues| == |allIds|
    requires forall i :: 0 <= i < |allIds| ==> allIds[i] in rows
    ensures kept == KeepByQ(allIds, allQvalues, passing, maxQ, rows)
  {
    kept := [];
    for i := 0 to |allIds|
      invariant kept == KeepByQ(allIds[..i], allQvalues[..i], passing, maxQ, rows)
    {
      assert allIds[..i + 1][..i] == allIds[..i];
      assert allQvalues[..i + 1][..i] == allQvalues[..i];
      var id := allIds[i];
      if id in passing && allQvalues[i] < maxQ {
        kept := kept + [Kept(id, rows[id].members, passing[id], allQvalues[i])];
      }
    }
    assert allIds[..|allIds|] == allIds;
    assert allQvalues[..|allQvalues|] == allQvalues;
  }

  /** The expansion loops: for each ranked set and each of its members,
      append the prefixed gene unless its id is already a key. The caller's
      gene list grows in place. */
  method AppendGenes(query: Query, ranked: seq<Kept>, keys: set<string>, oddsRatio: real)
    modifies query
    ensures query.genes == old(query.genes) + Appended(keys, ranked, oddsRatio)
    ensures query.controls == old(query.controls)
  {
    var seen := keys;
    ghost var g0 := Growth([], keys);
    for j := 0 to |ranked|
      invariant query.genes == old(query.genes) + AddSets(g0, ranked[..j], oddsRatio).added
      invariant seen == AddSets(g0, ranked[..j], oddsRatio).seen
      invariant query.controls == old(query.controls)
    {
      var k := ranked[j];
      assert ranked[..j + 1][..j] == ranked[..j];
      ghost var before := AddSets(g0, ranked[..j], oddsRatio);
      for t := 0 to |k.members|
        invariant query.genes == old(query.genes) + AddMembers(before, k, k.members[..t], oddsRatio).added
        invariant seen == AddMembers(before, k, k.members[..t], oddsRatio).seen
        invariant query.controls == old(query.controls)
      {
        assert k.members[..t + 1][..t] == k.members[..t];
        var id := EntrezPrefix + k.members[t];
        if id !in seen {
          seen := seen + {id};
          query.genes := query.genes + [NewGene(k, k.members[t], oddsRatio)];
        }
      }
      assert k.members[..|k.members|] == k.members;
    }
    assert ranked[..|ranked|] == ranked;
  }

  /** `expand`: the query's gene list grows in place by the appended genes;
      when the exact test fails the list is left as it was. */
  method Expand(query: Query, lines: seq<seq<string>>, fisher: Table -> FisherResult)
    returns (result: Result<seq<Gene>>)
    modifies query
    ensures result == ExpandSpec(old(query.genes), old(query.controls), lines, fisher)
    ensures result.Ok? ==> query.genes == result.value
    ensures result.Err? ==> query.genes == old(query.genes)
    ensures query.controls == old(query.controls)
  {
    var controls := ControlDict(query.controls);
    var keys := InputKeys(query.genes);
    var order, rows, universe := ReadGeneSets(lines, keys);
    ghost var cat := ReadCatalogue(query.genes, lines);
    var maxP := GetControl(controls, MaxPValue);
    var failed, allIds, allPvalues, passing, oddsRatio := TestGeneSets(order, rows, |universe|, fisher, maxP);
    if failed.Some? {
      return Err(failed.value);
    }
    ghost var ts := TestAll(order, rows, |universe|, fisher).tests;
    TestAllOutcome(order, rows, |universe|, fisher);
    var allQvalues := CorrectPValuesForMultipleTesting(allPvalues, BenjaminiHochbergFdr);
    BHUnique(allPvalues, allQvalues, BenjaminiHochberg(allPvalues));
    var maxQ := GetControl(controls, MaxQValue);
    var kept := KeepSignificant(allIds, allQvalues, passing, maxQ, rows);
    var ranked := SortBy(kept, QValueOf);
    assert Enrich(query.genes, query.controls, lines, fisher) == Ok(Enrichment(ts, allQvalues, kept, ranked));
    AppendGenes(query, ranked, keys, oddsRatio);
    result := Ok(query.genes);
  }
}
